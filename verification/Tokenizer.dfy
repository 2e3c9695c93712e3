/** Tokenize of src/utils/string_utils.cpp: ASCII words, and every longer UTF-8 character by itself. */
module Tokenizer {
  import opened Sequences
  import opened Words
  import opened Utf8

  const SPACE: Byte := 0x20

  /** std::isalnum in the C locale, or an apostrophe */
  predicate IsWordByte(c: Byte) {
    0x30 <= c <= 0x39 || 0x41 <= c <= 0x5A || 0x61 <= c <= 0x7A || c == 0x27
  }

  /** The length a lead byte announces, by the masks the source tests; 0 for any other byte. */
  function LeadWidth(c: Byte): nat {
    if c / 0x20 == 6 then 2 else if c / 0x10 == 14 then 3 else if c / 8 == 30 then 4 else 0
  }

  function Flush(word: seq<Byte>): seq<seq<Byte>> {
    if word == [] then [] else [word]
  }

  /** The tokens of s, after a word begun before it. */
  function Scan(s: seq<Byte>, word: seq<Byte>): seq<seq<Byte>>
    decreases |s|
  {
    if s == [] then Flush(word)
    else
      var w := LeadWidth(s[0]);
      if w > 0 then
        Flush(word) + if w <= |s| then [s[..w]] + Scan(s[w..], []) else Scan(s[1..], [])
      else if IsWordByte(s[0]) then Scan(s[1..], word + [s[0]])
      else Flush(word) + Scan(s[1..], [])
  }

  function TokensOf(s: seq<Byte>): seq<seq<Byte>> {
    Scan(s, [])
  }

  lemma ScanAt(text: seq<Byte>, i: nat, word: seq<Byte>)
    requires i < |text|
    ensures var c, w := text[i], LeadWidth(text[i]);
      Scan(text[i..], word) ==
        if w > 0 then
          Flush(word) + if i + w <= |text| then [text[i..i + w]] + Scan(text[i + w..], []) else Scan(text[i + 1..], [])
        else if IsWordByte(c) then Scan(text[i + 1..], word + [c])
        else Flush(word) + Scan(text[i + 1..], [])
  {
    hide LeadWidth, IsWordByte;
    var w := LeadWidth(text[i]);
    assert text[i..][1..] == text[i + 1..];
    if w > 0 && i + w <= |text| {
      assert text[i..][w..] == text[i + w..] && text[i..][..w] == text[i..i + w];
    }
  }

  lemma FlushOnto(tokens: seq<seq<Byte>>, word: seq<Byte>, rest: seq<seq<Byte>>)
    ensures tokens + (Flush(word) + rest) == (if word == [] then tokens else tokens + [word]) + rest
    ensures tokens + Flush(word) == if word == [] then tokens else tokens + [word]
  {}

  lemma TokenOnto(tokens: seq<seq<Byte>>, token: seq<Byte>, rest: seq<seq<Byte>>)
    ensures tokens + ([token] + rest) == (tokens + [token]) + rest
  {}

  method Tokenize(text: seq<Byte>) returns (tokens: seq<seq<Byte>>)
    ensures tokens == TokensOf(text)
  {
    hide Scan, IsWordByte, Flush;
    tokens := [];
    var current: seq<Byte> := [];
    var i := 0;
    assert text[0..] == text;
    while i < |text|
      invariant 0 <= i <= |text|
      invariant tokens + Scan(text[i..], current) == TokensOf(text)
      decreases |text| - i
    {
      var c := text[i];
      ScanAt(text, i, current);
      ghost var after := if LeadWidth(c) > 0 && i + LeadWidth(c) <= |text| then i + LeadWidth(c) else i + 1;
      ghost var token, rest := text[i..after], Scan(text[after..], []);
      FlushOnto(tokens, current, [token] + rest);
      FlushOnto(tokens, current, rest);
      TokenOnto(if current == [] then tokens else tokens + [current], token, rest);
      if c / 0x20 == 6 {
        if current != [] { tokens := tokens + [current]; current := []; }
        if i + 1 < |text| { tokens := tokens + [text[i..i + 2]]; i := i + 2; } else { i := i + 1; }
      } else if c / 0x10 == 14 {
        if current != [] { tokens := tokens + [current]; current := []; }
        if i + 2 < |text| { tokens := tokens + [text[i..i + 3]]; i := i + 3; } else { i := i + 1; }
      } else if c / 8 == 30 {
        if current != [] { tokens := tokens + [current]; current := []; }
        if i + 3 < |text| { tokens := tokens + [text[i..i + 4]]; i := i + 4; } else { i := i + 1; }
      } else if IsWordByte(c) {
        current := current + [c];
        i := i + 1;
      } else {
        if current != [] { tokens := tokens + [current]; current := []; }
        i := i + 1;
      }
    }
    ScanEnd(current);
    FlushOnto(tokens, current, []);
    assert text[i..] == [];
    if current != [] { tokens := tokens + [current]; }
  }

  // ----- Retokenizing -----

  /** A token is a word or one whole longer character. */
  predicate IsWord(token: seq<Byte>) {
    token != [] && forall i :: 0 <= i < |token| ==> IsWordByte(token[i])
  }

  predicate IsWide(token: seq<Byte>) {
    token != [] && LeadWidth(token[0]) == |token|
  }

  ghost predicate WellFormed(tokens: seq<seq<Byte>>) {
    forall i :: 0 <= i < |tokens| ==> IsWord(tokens[i]) || IsWide(tokens[i])
  }

  function JoinWithSpaces(tokens: seq<seq<Byte>>): seq<Byte> {
    if tokens == [] then []
    else if |tokens| == 1 then tokens[0]
    else tokens[0] + [SPACE] + JoinWithSpaces(tokens[1..])
  }

  lemma {:induction false} ScanWellFormed(s: seq<Byte>, word: seq<Byte>)
    requires word == [] || IsWord(word)
    ensures WellFormed(Scan(s, word))
    decreases |s|
  {
    hide LeadWidth, IsWordByte;
    if s != [] {
      var w := LeadWidth(s[0]);
      if w > 0 && w <= |s| {
        ScanWellFormed(s[w..], []);
      } else if w > 0 || !IsWordByte(s[0]) {
        ScanWellFormed(s[1..], []);
      } else {
        ScanWellFormed(s[1..], word + [s[0]]);
      }
    }
  }

  lemma {:induction false} ScanThroughWord(t: seq<Byte>, rest: seq<Byte>, word: seq<Byte>)
    requires forall i :: 0 <= i < |t| ==> IsWordByte(t[i])
    ensures Scan(t + rest, word) == Scan(rest, word + t)
    decreases |t|
  {
    if t == [] {
      assert t + rest == rest && word + t == word;
    } else {
      var s := t + rest;
      assert s[0] == t[0] && s[1..] == t[1..] + rest;
      assert (word + [t[0]]) + t[1..] == word + t;
      ScanThroughWord(t[1..], rest, word + [t[0]]);
    }
  }

  lemma ScanToken(t: seq<Byte>, rest: seq<Byte>)
    requires IsWord(t) || IsWide(t)
    ensures Scan(t + [SPACE] + rest, []) == [t] + Scan(rest, [])
    ensures Scan(t, []) == [t]
  {
    if IsWord(t) {
      ScanThroughWord(t, [SPACE] + rest, []);
      assert t + [SPACE] + rest == t + ([SPACE] + rest) && [] + t == t;
      assert ([SPACE] + rest)[1..] == rest;
      ScanThroughWord(t, [], []);
      assert t + [] == t;
    } else {
      var s, after := t + [SPACE] + rest, [SPACE] + rest;
      assert s[0] == t[0] && s[..|t|] == t && s[|t|..] == after && after[1..] == rest;
      assert Scan(after, []) == Scan(rest, []);
      assert t[..|t|] == t && t[|t|..] == [];
    }
  }

  lemma {:induction false} ScanJoined(tokens: seq<seq<Byte>>)
    requires WellFormed(tokens)
    ensures TokensOf(JoinWithSpaces(tokens)) == tokens
  {
    hide Scan, IsWord, IsWide;
    if |tokens| == 1 {
      ScanToken(tokens[0], []);
    } else if |tokens| > 1 {
      ScanToken(tokens[0], JoinWithSpaces(tokens[1..]));
      ScanJoined(tokens[1..]);
      assert tokens == [tokens[0]] + tokens[1..];
    } else {
      ScanNothing();
    }
  }

  lemma ScanNothing()
    ensures Scan([], []) == []
  {}

  /** Tokenizing the tokens of any byte string, joined by spaces, gives the same tokens. */
  lemma RetokenizeIsFixpoint(s: seq<Byte>)
    ensures TokensOf(JoinWithSpaces(TokensOf(s))) == TokensOf(s)
  {
    ScanWellFormed(s, []);
    ScanJoined(TokensOf(s));
  }

  // ----- On valid UTF-8 -----

  function AllBytes(tokens: seq<seq<Byte>>): seq<Byte> {
    if tokens == [] then [] else tokens[0] + AllBytes(tokens[1..])
  }

  predicate IsSeparator(code: nat) {
    code < 0x80 && !IsWordByte(code)
  }

  function WithoutSeparators(codes: seq<nat>): seq<nat> {
    if codes == [] then []
    else (if IsSeparator(codes[0]) then [] else [codes[0]]) + WithoutSeparators(codes[1..])
  }

  lemma FlushBytes(word: seq<Byte>, tokens: seq<seq<Byte>>)
    ensures AllBytes(Flush(word) + tokens) == word + AllBytes(tokens)
  {
    if word != [] { assert ([word] + tokens)[1..] == tokens; } else { assert [] + tokens == tokens; }
  }

  lemma FlushBytesOnly(word: seq<Byte>)
    ensures AllBytes(Flush(word)) == word && word + [] == word
  {
    FlushBytes(word, []);
    assert Flush(word) + [] == Flush(word);
  }

  lemma LeadWidthOfCharacter(code: nat)
    requires Scalar(code)
    ensures var s := ToUtf8(code);
      && s != [] && (code < 0x80 ==> s == [code] && LeadWidth(s[0]) == 0)
      && (code >= 0x80 ==> LeadWidth(s[0]) == |s| > 1)
  {}

  lemma ScanCharacter(code: nat, rest: seq<Byte>, word: seq<Byte>)
    requires Scalar(code)
    ensures var s, c := ToUtf8(code) + rest, ToUtf8(code);
      Scan(s, word) ==
        if IsSeparator(code) then Flush(word) + Scan(rest, [])
        else if code < 0x80 then Scan(rest, word + c)
        else Flush(word) + ([c] + Scan(rest, []))
  {
    hide ToUtf8, Scalar, LeadWidth;
    LeadWidthOfCharacter(code);
    var c := ToUtf8(code);
    var s := c + rest;
    assert s[0] == c[0] && s[..|c|] == c && s[|c|..] == rest;
  }

  lemma {:induction false} ScanKeepsText(codes: seq<nat>, word: seq<Byte>)
    requires forall c :: c in codes ==> Scalar(c)
    ensures AllBytes(Scan(Encode(codes), word)) == word + Encode(WithoutSeparators(codes))
    decreases |codes|
  {
    hide ToUtf8, Scan, Scalar, Encode, WithoutSeparators, AllBytes, Flush, IsSeparator, LeadWidth;
    EncodeHead(codes);
    if codes == [] {
      ScanEnd(word);
      FlushBytesOnly(word);
    } else {
      var code, rest := codes[0], Encode(codes[1..]);
      var c, tokens, kept := ToUtf8(code), Scan(rest, []), Encode(WithoutSeparators(codes[1..]));
      ScanCharacter(code, rest, word);
      Append(word, c, kept);
      assert [] + kept == kept;
      if IsSeparator(code) {
        FlushBytes(word, tokens);
        ScanKeepsText(codes[1..], []);
      } else if code < 0x80 {
        ScanKeepsText(codes[1..], word + c);
      } else {
        FlushBytes(word, [c] + tokens);
        ConcatCons(c, tokens);
        ScanKeepsText(codes[1..], []);
      }
    }
  }

  lemma ConcatCons(c: seq<Byte>, tokens: seq<seq<Byte>>)
    ensures AllBytes([c] + tokens) == c + AllBytes(tokens) && AllBytes([]) == []
  {
    assert ([c] + tokens)[1..] == tokens;
  }

  lemma ScanEnd(word: seq<Byte>)
    ensures Scan([], word) == Flush(word)
  {}

  lemma EncodeHead(codes: seq<nat>)
    ensures codes == [] ==> Encode(codes) == [] && Encode(WithoutSeparators(codes)) == [] && AllBytes([]) == []
    ensures codes != [] ==> Encode(codes) == ToUtf8(codes[0]) + Encode(codes[1..])
    ensures codes != [] ==>
      var kept := Encode(WithoutSeparators(codes[1..]));
      Encode(WithoutSeparators(codes)) == if IsSeparator(codes[0]) then kept else ToUtf8(codes[0]) + kept
  {
    hide ToUtf8;
    if codes != [] {
      var kept := WithoutSeparators(codes[1..]);
      assert ([codes[0]] + kept)[1..] == kept && [] + kept == kept;
    }
  }

  /** On valid UTF-8 the tokens put together are the text without its ASCII separators. */
  lemma TokensKeepText(codes: seq<nat>)
    requires forall c :: c in codes ==> Scalar(c)
    ensures AllBytes(TokensOf(Encode(codes))) == Encode(WithoutSeparators(codes))
  {
    ScanKeepsText(codes, []);
  }

  // ----- From the front -----

  /** ASCII letters and digits and the apostrophe. */
  predicate IsLetter(c: Byte) {
    'a' as int <= c <= 'z' as int || 'A' as int <= c <= 'Z' as int || '0' as int <= c <= '9' as int || c == '\'' as int
  }

  /** The length of a character that a byte begins; 0 when it begins none of two bytes or more. */
  function LongerWidth(c: Byte): nat {
    if 0xC0 <= c < 0xE0 then 2 else if 0xE0 <= c < 0xF0 then 3 else if 0xF0 <= c < 0xF8 then 4 else 0
  }

  lemma {:induction false} LettersGoOn(letters: seq<Byte>, s: seq<Byte>, word: seq<Byte>)
    requires forall i :: 0 <= i < |letters| ==> IsLetter(letters[i])
    ensures Scan(letters + s, word) == Scan(s, word + letters)
    decreases |letters|
  {
    hide Flush;
    if letters == [] {
      assert letters + s == s && word + letters == word;
    } else {
      assert (letters + s)[1..] == letters[1..] + s;
      assert word + [letters[0]] + letters[1..] == word + letters;
      LettersGoOn(letters[1..], s, word + [letters[0]]);
    }
  }

  /** A longest run of letters, digits and apostrophes is a token. Behind it a whole longer character is a token of its
      own, and any other byte, the first one of a character that is cut off too, is dropped. */
  lemma FrontTokens(letters: seq<Byte>, s: seq<Byte>)
    requires forall i :: 0 <= i < |letters| ==> IsLetter(letters[i])
    requires s != [] ==> !IsLetter(s[0])
    ensures var word := if letters == [] then [] else [letters];
      TokensOf(letters + s) ==
        if s == [] then word
        else
          var w := LongerWidth(s[0]);
          if 0 < w <= |s| then word + ([s[..w]] + TokensOf(s[w..])) else word + TokensOf(s[1..])
  {
    LettersGoOn(letters, s, []);
    assert [] + letters == letters;
  }
}
