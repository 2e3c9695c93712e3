/** Percent encoding: encode_query_param and decode_url of deps/httplib.h, and the repository's own
    UrlDecode of src/utils/string_utils.cpp. */
module UrlCodec {
  import opened Wrappers
  import opened Sequences
  import Utf8

  /** Text whose characters are bytes. */
  predicate IsBytes(s: string) {
    forall i :: 0 <= i < |s| ==> s[i] as int < 256
  }

  predicate IsAlnum(c: char) {
    '0' <= c <= '9' || 'A' <= c <= 'Z' || 'a' <= c <= 'z'
  }

  /** The characters encode_query_param leaves alone. */
  predicate Unescaped(c: char) {
    IsAlnum(c) || c in "-_.!~*'()"
  }

  function HexDigit(v: nat): char
    requires v < 16
  {
    "0123456789ABCDEF"[v]
  }

  function Escape(c: char): string
    requires c as int < 256
  {
    if Unescaped(c) then [c] else ['%', HexDigit(c as int / 16), HexDigit(c as int % 16)]
  }

  function Encode(s: string): string
    requires IsBytes(s)
  {
    if s == "" then "" else Escape(s[0]) + Encode(s[1..])
  }

  // ----- Hexadecimal -----

  /** is_hex */
  function HexValue(c: char): Option<nat> {
    if '0' <= c <= '9' then Some((c - '0') as nat)
    else if 'A' <= c <= 'F' then Some((c - 'A') as nat + 10)
    else if 'a' <= c <= 'f' then Some((c - 'a') as nat + 10)
    else None
  }

  function HexNumber(s: string): (v: Option<nat>)
    ensures |s| == 1 && v.Some? ==> v.value < 0x10
    ensures |s| == 2 && v.Some? ==> v.value < 0x100
    ensures |s| == 3 && v.Some? ==> v.value < 0x1000
    ensures |s| == 4 && v.Some? ==> v.value < 0x10000
  {
    if s == "" then Some(0)
    else
      var high, low := HexNumber(s[..|s| - 1]), HexValue(s[|s| - 1]);
      if high.Some? && low.Some? then Some(16 * high.value + low.value) else None
  }

  /** from_hex_to_i: exactly n digits at the front. */
  function FromHex(s: string, n: nat): Option<nat> {
    if n <= |s| then HexNumber(s[..n]) else None
  }

  lemma HexNumberNext(s: string, n: nat)
    requires n < |s|
    ensures HexNumber(s[..n + 1]) ==
      if HexNumber(s[..n]).Some? && HexValue(s[n]).Some?
      then Some(16 * HexNumber(s[..n]).value + HexValue(s[n]).value) else None
  {
    hide HexValue;
    assert s[..n + 1][..n] == s[..n];
  }

  lemma {:induction false} NoHexNumber(s: string, n: nat)
    requires n < |s| && HexValue(s[n]).None?
    ensures HexNumber(s).None?
    decreases |s|
  {
    hide HexValue;
    if n < |s| - 1 { NoHexNumber(s[..|s| - 1], n); }
  }

  method FromHexToI(s: string, i0: nat, cnt: nat) returns (ok: bool, val: nat)
    ensures ok == (i0 < |s| && FromHex(s[i0..], cnt).Some?)
    ensures ok ==> val == FromHex(s[i0..], cnt).value
  {
    val := 0;
    if i0 >= |s| { return false, val; }
    ghost var t := s[i0..];
    for k := 0 to cnt
      invariant k <= |t| && HexNumber(t[..k]) == Some(val)
    {
      // The character one past the end reads as NUL, which is no digit.
      if i0 + k == |s| { return false, val; }
      HexNumberNext(t, k);
      match HexValue(s[i0 + k]) {
        case None =>
          if cnt <= |t| {
            assert t[..cnt][k] == t[k];
            NoHexNumber(t[..cnt], k);
          }
          return false, val;
        case Some(v) => val := val * 16 + v;
      }
    }
    ok := true;
  }

  // ----- Decoding -----

  function Utf8Text(code: nat): string {
    var bytes := Utf8.ToUtf8(code);
    seq(|bytes|, i requires 0 <= i < |bytes| => bytes[i] as char)
  }

  /** What decode_url appends for the front of the text, and how far it moves. */
  function DecodeFront(s: string, plusIsSpace: bool): (front: (string, nat))
    requires s != ""
    ensures 0 < front.1 <= |s|
  {
    if s[0] == '%' && |s| > 1 then
      if s[1] == 'u' then
        match FromHex(s[2..], 4)
        case Some(v) => (Utf8Text(v), 6)
        case None => ("%", 1)
      else
        match FromHex(s[1..], 2)
        case Some(v) => ([v as char], 3)
        case None => ("%", 1)
    else if plusIsSpace && s[0] == '+' then (" ", 1)
    else ([s[0]], 1)
  }

  /** decode_url */
  function Decode(s: string, plusIsSpace: bool): string
    decreases |s|
  {
    if s == "" then "" else var front := DecodeFront(s, plusIsSpace); front.0 + Decode(s[front.1..], plusIsSpace)
  }

  predicate IsSpace(c: char) {
    c == ' ' || '\t' <= c <= '\r'
  }

  function SkipSpace(s: string): string {
    if s != "" && IsSpace(s[0]) then SkipSpace(s[1..]) else s
  }

  /** What `stream >> std::hex >> value` reads from two characters: blanks, a sign, then at least one digit. */
  function HexStream(t: string): Option<int>
    requires |t| <= 2
  {
    if t == "" then None
    else if IsSpace(t[0]) then HexStream(t[1..])
    else
      var sign := if t[0] == '-' then -1 else 1;
      var digits := if t[0] == '-' || t[0] == '+' then t[1..] else t;
      if digits == "" || HexValue(digits[0]).None? then None
      else if |digits| == 1 then Some(sign * HexValue(digits[0]).value)
      else if digits[0] == '0' && (digits[1] == 'x' || digits[1] == 'X') then None
      else if HexValue(digits[1]).None? then Some(sign * HexValue(digits[0]).value)
      else Some(sign * (16 * HexValue(digits[0]).value + HexValue(digits[1]).value))
  }

  function UrlDecodedFront(s: string): (front: (string, nat))
    requires s != ""
    ensures 0 < front.1 <= |s|
  {
    if s[0] == '%' && |s| > 2 then
      match HexStream(s[1..3])
      case Some(v) => ([(v % 256) as char], 3)
      case None => ("%", 1)
    else if s[0] == '+' then (" ", 1)
    else ([s[0]], 1)
  }

  function UrlDecoded(s: string): string
    decreases |s|
  {
    if s == "" then "" else var front := UrlDecodedFront(s); front.0 + UrlDecoded(s[front.1..])
  }

  // ----- The loops -----

  lemma EncodeUnfold(s: string, i: nat)
    requires i < |s| && IsBytes(s)
    ensures Encode(s[i..]) == Escape(s[i]) + Encode(s[i + 1..])
  {
    assert s[i..][1..] == s[i + 1..];
  }

  method EncodeQueryParam(value: string) returns (escaped: string)
    requires IsBytes(value)
    ensures escaped == Encode(value)
  {
    hide Encode, Unescaped, HexDigit;
    escaped := "";
    assert value[0..] == value;
    for i := 0 to |value|
      invariant escaped + Encode(value[i..]) == Encode(value)
    {
      var c := value[i];
      EncodeUnfold(value, i);
      Append(escaped, Escape(c), Encode(value[i + 1..]));
      if Unescaped(c) {
        escaped := escaped + [c];
      } else {
        escaped := escaped + ['%', HexDigit(c as int / 16), HexDigit(c as int % 16)];
      }
    }
    EncodeNil();
    assert value[|value|..] == "";
  }

  lemma EncodeNil()
    ensures Encode("") == ""
  {}

  lemma DecodeUnfold(s: string, i: nat, plusIsSpace: bool)
    requires i < |s|
    ensures var front := DecodeFront(s[i..], plusIsSpace);
      i + front.1 <= |s| && Decode(s[i..], plusIsSpace) == front.0 + Decode(s[i + front.1..], plusIsSpace)
  {
    hide DecodeFront;
    var n := DecodeFront(s[i..], plusIsSpace).1;
    assert s[i..][n..] == s[i + n..];
  }

  lemma DecodeFrontAt(s: string, i: nat, plusIsSpace: bool)
    requires i < |s|
    ensures DecodeFront(s[i..], plusIsSpace) ==
      if s[i] == '%' && i + 1 < |s| then
        if s[i + 1] == 'u' then
          match FromHex(s[i + 2..], 4) { case Some(v) => (Utf8Text(v), 6) case None => ("%", 1) }
        else
          match FromHex(s[i + 1..], 2) { case Some(v) => ([v as char], 3) case None => ("%", 1) }
      else if plusIsSpace && s[i] == '+' then (" ", 1)
      else ([s[i]], 1)
  {
    hide HexNumber, Utf8Text;
    assert s[i..][1..] == s[i + 1..];
    if i + 1 < |s| { assert s[i..][2..] == s[i + 2..]; }
  }

  method DecodeUrl(s: string, convertPlusToSpace: bool) returns (result: string)
    ensures result == Decode(s, convertPlusToSpace)
  {
    hide Decode, DecodeFront, Utf8Text, HexNumber;
    result := "";
    var i := 0;
    assert s[0..] == s;
    while i < |s|
      invariant 0 <= i <= |s|
      invariant result + Decode(s[i..], convertPlusToSpace) == Decode(s, convertPlusToSpace)
      decreases |s| - i
    {
      ghost var front := DecodeFront(s[i..], convertPlusToSpace);
      ghost var done, at := result, i;
      DecodeUnfold(s, i, convertPlusToSpace);
      DecodeFrontAt(s, i, convertPlusToSpace);
      Append(done, front.0, Decode(s[i + front.1..], convertPlusToSpace));
      if s[i] == '%' && i + 1 < |s| {
        if s[i + 1] == 'u' {
          var ok, val := FromHexToI(s, i + 2, 4);
          if ok {
            result := result + Utf8Text(val);
            i := i + 5;
          } else {
            result := result + [s[i]];
          }
        } else {
          var ok, val := FromHexToI(s, i + 1, 2);
          if ok {
            result := result + [val as char];
            i := i + 2;
          } else {
            result := result + [s[i]];
          }
        }
      } else if convertPlusToSpace && s[i] == '+' {
        result := result + " ";
      } else {
        result := result + [s[i]];
      }
      i := i + 1;
      assert result == done + front.0 && i == at + front.1;
    }
    DecodeNil(convertPlusToSpace);
    assert s[i..] == "";
  }

  lemma DecodeNil(plusIsSpace: bool)
    ensures Decode("", plusIsSpace) == ""
  {}

  lemma UrlDecodedUnfold(s: string, i: nat)
    requires i < |s|
    ensures var front := UrlDecodedFront(s[i..]);
      i + front.1 <= |s| && UrlDecoded(s[i..]) == front.0 + UrlDecoded(s[i + front.1..])
    ensures UrlDecodedFront(s[i..]) ==
      if s[i] == '%' && i + 2 < |s| then
        match HexStream(s[i + 1..i + 3]) { case Some(v) => ([(v % 256) as char], 3) case None => ("%", 1) }
      else if s[i] == '+' then (" ", 1)
      else ([s[i]], 1)
  {
    hide HexStream;
    var n := UrlDecodedFront(s[i..]).1;
    assert s[i..][n..] == s[i + n..];
    if i + 2 < |s| { assert s[i..][1..3] == s[i + 1..i + 3]; }
  }

  method UrlDecode(str: string) returns (result: string)
    ensures result == UrlDecoded(str)
  {
    hide HexStream, UrlDecoded, UrlDecodedFront;
    result := "";
    var i := 0;
    assert str[0..] == str;
    while i < |str|
      invariant 0 <= i <= |str|
      invariant result + UrlDecoded(str[i..]) == UrlDecoded(str)
      decreases |str| - i
    {
      ghost var front := UrlDecodedFront(str[i..]);
      ghost var done, at := result, i;
      UrlDecodedUnfold(str, i);
      Append(done, front.0, UrlDecoded(str[i + front.1..]));
      if str[i] == '%' && i + 2 < |str| {
        match HexStream(str[i + 1..i + 3]) {
          case Some(value) =>
            result := result + [(value % 256) as char];
            i := i + 2;
          case None =>
            result := result + [str[i]];
        }
      } else if str[i] == '+' {
        result := result + " ";
      } else {
        result := result + [str[i]];
      }
      i := i + 1;
      assert result == done + front.0 && i == at + front.1;
    }
    UrlDecodedNil();
    assert str[i..] == "";
  }

  // ----- Round trips -----

  lemma HexDigitsRead(v: nat)
    requires v < 256
    ensures var a, b := HexDigit(v / 16), HexDigit(v % 16);
      && HexNumber([a, b]) == Some(v) && HexStream([a, b]) == Some(v)
      && IsAlnum(a) && IsAlnum(b) && a != 'u'
  {
    HexDigitReads(v / 16);
    HexDigitReads(v % 16);
    var a, b := HexDigit(v / 16), HexDigit(v % 16);
    assert [a, b][..1] == [a] && [a][..0] == "";
    assert HexNumber([a]) == Some(v / 16);
  }

  lemma HexDigitReads(v: nat)
    requires v < 16
    ensures HexValue(HexDigit(v)) == Some(v)
    ensures var a := HexDigit(v); IsAlnum(a) && !IsSpace(a) && a !in "uxX+-"
  {}

  lemma EscapeText(c: char, rest: string)
    requires c as int < 256
    ensures var s, v := Escape(c) + rest, c as int;
      if Unescaped(c) then s[0] == c && s[1..] == rest && c != '%' && c != '+'
      else |s| >= 3 && s[0] == '%' && s[1..3] == [HexDigit(v / 16), HexDigit(v % 16)] && s[3..] == rest
  {
    hide HexDigit;
  }

  lemma DecodeEscape(c: char, rest: string, plusIsSpace: bool)
    requires c as int < 256
    ensures Decode(Escape(c) + rest, plusIsSpace) == [c] + Decode(rest, plusIsSpace)
  {
    var s := Escape(c) + rest;
    EscapeText(c, rest);
    hide Escape, Unescaped, HexDigit, HexNumber;
    if !Unescaped(c) {
      HexDigitsRead(c as int);
      assert s[1..][..2] == s[1..3];
    }
    assert DecodeFront(s, plusIsSpace) == ([c], if Unescaped(c) then 1 else 3);
  }

  lemma UrlDecodeEscape(c: char, rest: string)
    requires c as int < 256
    ensures UrlDecoded(Escape(c) + rest) == [c] + UrlDecoded(rest)
  {
    var s := Escape(c) + rest;
    EscapeText(c, rest);
    hide Escape, Unescaped, HexDigit, HexStream;
    if !Unescaped(c) { HexDigitsRead(c as int); }
    var front := UrlDecodedFront(s);
    assert front == ([c], if Unescaped(c) then 1 else 3);
    assert s[front.1..] == rest;
  }

  /** Both decoders undo the encoder on every byte string. */
  lemma {:induction false} DecodeEncode(s: string, plusIsSpace: bool)
    requires IsBytes(s)
    ensures Decode(Encode(s), plusIsSpace) == s
    ensures UrlDecoded(Encode(s)) == s
  {
    hide Decode, UrlDecoded, Escape;
    if s == "" {
      DecodeNil(plusIsSpace);
      UrlDecodedNil();
    } else {
      DecodeEscape(s[0], Encode(s[1..]), plusIsSpace);
      UrlDecodeEscape(s[0], Encode(s[1..]));
      DecodeEncode(s[1..], plusIsSpace);
    }
  }

  lemma UrlDecodedNil()
    ensures UrlDecoded("") == ""
  {}

  /** Encoded text needs no quoting in a query: it holds unescaped characters and percent signs only. */
  lemma {:induction false} EncodeAlphabet(s: string)
    requires IsBytes(s)
    ensures forall c :: c in Encode(s) ==> Unescaped(c) || c == '%'
    ensures s != "" ==> Encode(s) != ""
  {
    if s != "" {
      hide Unescaped, HexDigit;
      EncodeAlphabet(s[1..]);
      HexDigitsRead(s[0] as int);
      AlnumUnescaped(HexDigit(s[0] as int / 16));
      AlnumUnescaped(HexDigit(s[0] as int % 16));
    }
  }

  lemma AlnumUnescaped(c: char)
    ensures IsAlnum(c) ==> Unescaped(c)
  {}

  // ----- What decoding leaves alone -----

  /** An escape that decode_url takes for a character starts here. */
  predicate EscapeAt(s: string, i: nat) {
    i + 1 < |s| && s[i] == '%' &&
    if s[i + 1] == 'u' then FromHex(s[i + 2..], 4).Some? else FromHex(s[i + 1..], 2).Some?
  }

  ghost predicate NothingToDecode(s: string, plusIsSpace: bool) {
    forall i :: 0 <= i < |s| ==> !EscapeAt(s, i) && !(plusIsSpace && s[i] == '+')
  }

  lemma EscapeLater(s: string, i: nat)
    requires 1 <= i <= |s|
    ensures EscapeAt(s, i) == EscapeAt(s[1..], i - 1)
  {
    hide FromHex;
    if i + 1 < |s| { assert s[1..][i..] == s[i + 1..]; }
    if i + 2 <= |s| { assert s[1..][i + 1..] == s[i + 2..]; }
  }

  /** In this measure a plus sign weighs more than the blank it stands for, and an escape more than its character. */
  function Weight(s: string): nat {
    if s == "" then 0 else (if s[0] == '+' then 3 else 2) + Weight(s[1..])
  }

  lemma {:induction false} WeightOf(s: string)
    ensures 2 * |s| <= Weight(s) <= 3 * |s|
  {
    if s != "" { WeightOf(s[1..]); }
  }

  lemma {:induction false} WeightBoth(a: string, b: string)
    ensures Weight(a + b) == Weight(a) + Weight(b)
  {
    if a == "" {
      assert a + b == b;
    } else {
      assert (a + b)[1..] == a[1..] + b;
      WeightBoth(a[1..], b);
    }
  }

  /** A part of a text weighs less than the whole. */
  lemma WeightInside(s: string, a: nat, b: nat)
    requires a <= b <= |s|
    ensures b - a < |s| ==> Weight(s[a..b]) < Weight(s)
    ensures b - a == |s| ==> s[a..b] == s
  {
    hide Weight;
    WeightBoth(s[..a], s[a..b]);
    WeightBoth(s[..a] + s[a..b], s[b..]);
    WeightOf(s[..a]);
    WeightOf(s[b..]);
    assert s == s[..a] + s[a..b] + s[b..];
  }

  lemma FrontWeighs(s: string, plusIsSpace: bool)
    requires s != ""
    ensures var front := DecodeFront(s, plusIsSpace);
      if EscapeAt(s, 0) || (plusIsSpace && s[0] == '+') then Weight(front.0) < Weight(s[..front.1])
      else front == ([s[0]], 1)
  {
    hide HexNumber;
    var front := DecodeFront(s, plusIsSpace);
    WeightOf(front.0);
    WeightOf(s[..front.1]);
    assert [s[0]][1..] == "" && " "[1..] == "" && s[..1] == [s[0]];
    if EscapeAt(s, 0) { assert |front.0| <= 3 && (front.1 == 6 || (front.1 == 3 && |front.0| == 1)); }
  }

  /** Decoding gives the text itself exactly when it has no escape and, where they count, no plus sign. */
  lemma {:induction false} DecodeSameIff(s: string, plusIsSpace: bool)
    ensures Weight(Decode(s, plusIsSpace)) <= Weight(s)
    ensures NothingToDecode(s, plusIsSpace) ==> Decode(s, plusIsSpace) == s
    ensures !NothingToDecode(s, plusIsSpace) ==> Weight(Decode(s, plusIsSpace)) < Weight(s)
    ensures Decode(s, plusIsSpace) == s <==> NothingToDecode(s, plusIsSpace)
    decreases |s|
  {
    hide DecodeFront, EscapeAt, Weight;
    if s != "" {
      var front := DecodeFront(s, plusIsSpace);
      var rest := s[front.1..];
      DecodeSameIff(rest, plusIsSpace);
      FrontWeighs(s, plusIsSpace);
      WeightBoth(front.0, Decode(rest, plusIsSpace));
      WeightBoth(s[..front.1], rest);
      assert s == s[..front.1] + rest;
      if !EscapeAt(s, 0) && !(plusIsSpace && s[0] == '+') {
        SameBehindFront(s, plusIsSpace);
        assert front.0 == s[..1];
      }
    }
  }

  lemma {:induction false} DecodeNoLonger(s: string, plusIsSpace: bool)
    ensures |Decode(s, plusIsSpace)| <= |s|
    decreases |s|
  {
    if s != "" {
      FrontNoLonger(s, plusIsSpace);
      DecodeNoLonger(s[DecodeFront(s, plusIsSpace).1..], plusIsSpace);
    }
  }

  lemma FrontNoLonger(s: string, plusIsSpace: bool)
    requires s != ""
    ensures var front := DecodeFront(s, plusIsSpace); |front.0| <= front.1
  {
    hide HexNumber;
  }

  lemma SameBehindFront(s: string, plusIsSpace: bool)
    requires s != "" && !EscapeAt(s, 0) && !(plusIsSpace && s[0] == '+')
    ensures NothingToDecode(s, plusIsSpace) <==> NothingToDecode(s[1..], plusIsSpace)
  {
    hide EscapeAt;
    forall i | 1 <= i < |s| ensures EscapeAt(s, i) == EscapeAt(s[1..], i - 1) { EscapeLater(s, i); }
    assert forall i :: 0 <= i < |s| - 1 ==> EscapeAt(s, i + 1) == EscapeAt(s[1..], i);
  }

  // ----- Character by character -----

  /** A hexadecimal digit in either case and its value. */
  predicate IsHex(c: char, v: nat) {
    if v < 10 then c as int == 0x30 + v else v < 16 && (c as int == 0x37 + v || c as int == 0x57 + v)
  }

  lemma HexIff(c: char, v: nat)
    ensures HexValue(c) == Some(v) <==> IsHex(c, v)
  {}

  predicate IsHexDigit(c: char) {
    '0' <= c <= '9' || 'A' <= c <= 'F' || 'a' <= c <= 'f'
  }

  lemma HexDigitIff(c: char)
    ensures HexValue(c).Some? <==> IsHexDigit(c)
  {}

  /** Letters, digits and -_.!~*'() stay; any other byte becomes a percent sign and two upper-case digits. */
  lemma EncodesByte(c: char, rest: string)
    requires c as int < 256 && IsBytes(rest)
    ensures Encode([c] + rest) == Encode([c]) + Encode(rest)
    ensures 'A' <= c <= 'Z' || 'a' <= c <= 'z' || '0' <= c <= '9' || c in "-_.!~*'()" ==> Encode([c]) == [c]
    ensures !('A' <= c <= 'Z' || 'a' <= c <= 'z' || '0' <= c <= '9' || c in "-_.!~*'()") ==>
      var digits := "0123456789ABCDEF";
      Encode([c]) == ['%', digits[c as int / 16], digits[c as int % 16]]
  {
    assert ([c] + rest)[1..] == rest && [c][1..] == "";
    EncodeNil();
    assert Escape(c) + "" == Escape(c);
  }

  /** A percent sign and two digits, in either case, stand for a byte. */
  lemma DecodesByte(a: char, b: char, p: nat, q: nat, rest: string, plusIsSpace: bool)
    requires IsHex(a, p) && IsHex(b, q)
    ensures Decode(['%', a, b] + rest, plusIsSpace) == [(16 * p + q) as char] + Decode(rest, plusIsSpace)
  {
    var s := ['%', a, b] + rest;
    HexIff(a, p);
    HexIff(b, q);
    TwoDigits(a, b, p, q);
    assert s[1..][..2] == [a, b] && s[3..] == rest;
    hide HexNumber;
    assert DecodeFront(s, plusIsSpace) == ([(16 * p + q) as char], 3);
  }

  lemma TwoDigits(a: char, b: char, p: nat, q: nat)
    requires IsHex(a, p) && IsHex(b, q)
    ensures HexNumber([a, b]) == Some(16 * p + q)
  {
    HexIff(a, p);
    HexIff(b, q);
    hide HexValue, IsHex;
    assert [a, b][..1] == [a] && [a][..0] == "";
    assert HexNumber([a]) == Some(p);
  }

  /** %u and four digits stand for the UTF-8 of a code. */
  lemma DecodesCode(a: char, b: char, c: char, d: char, p: nat, q: nat, r: nat, t: nat, rest: string, plusIsSpace: bool)
    requires IsHex(a, p) && IsHex(b, q) && IsHex(c, r) && IsHex(d, t)
    ensures var bytes := Utf8.ToUtf8(0x1000 * p + 0x100 * q + 0x10 * r + t);
      && |bytes| <= |Decode(['%', 'u', a, b, c, d] + rest, plusIsSpace)|
      && Decode(['%', 'u', a, b, c, d] + rest, plusIsSpace)[|bytes|..] == Decode(rest, plusIsSpace)
      && forall i :: 0 <= i < |bytes| ==>
        Decode(['%', 'u', a, b, c, d] + rest, plusIsSpace)[i] as int == bytes[i]
  {
    var s, code := ['%', 'u', a, b, c, d] + rest, 0x1000 * p + 0x100 * q + 0x10 * r + t;
    FourDigits(a, b, c, d, p, q, r, t);
    assert s[2..][..4] == [a, b, c, d] && s[6..] == rest;
    hide HexNumber, Utf8.ToUtf8;
    assert DecodeFront(s, plusIsSpace) == (Utf8Text(code), 6);
  }

  lemma FourDigits(a: char, b: char, c: char, d: char, p: nat, q: nat, r: nat, t: nat)
    requires IsHex(a, p) && IsHex(b, q) && IsHex(c, r) && IsHex(d, t)
    ensures HexNumber([a, b, c, d]) == Some(0x1000 * p + 0x100 * q + 0x10 * r + t)
  {
    TwoDigits(a, b, p, q);
    HexIff(c, r);
    HexIff(d, t);
    hide HexValue, IsHex;
    assert [a, b, c, d][..3] == [a, b, c] && [a, b, c][..2] == [a, b];
    assert HexNumber([a, b, c]) == Some(0x100 * p + 0x10 * q + r);
  }

  /** Every other character stands for itself, or a plus sign for a blank where that is asked for. */
  lemma DecodesOther(s: string, plusIsSpace: bool)
    requires s != "" && !EscapeAt(s, 0)
    ensures Decode(s, plusIsSpace) == [if plusIsSpace && s[0] == '+' then ' ' else s[0]] + Decode(s[1..], plusIsSpace)
  {
    hide HexNumber;
  }

  /** Where an escape starts. */
  lemma EscapeIff(s: string, i: nat)
    ensures EscapeAt(s, i) <==>
      && i + 1 < |s| && s[i] == '%'
      && if s[i + 1] == 'u' then i + 6 <= |s| && forall j :: i + 2 <= j < i + 6 ==> IsHexDigit(s[j])
         else i + 3 <= |s| && forall j :: i + 1 <= j < i + 3 ==> IsHexDigit(s[j])
  {
    hide FromHex, IsHexDigit;
    if i + 1 < |s| {
      DigitsIff(s, i + 2, 4);
      DigitsIff(s, i + 1, 2);
    }
  }

  lemma DigitsIff(s: string, i: nat, n: nat)
    requires i <= |s|
    ensures FromHex(s[i..], n).Some? <==> i + n <= |s| && forall j :: i <= j < i + n ==> IsHexDigit(s[j])
  {
    hide HexNumber, IsHexDigit;
    if i + n <= |s| {
      var digits := s[i..][..n];
      AllDigits(digits);
      assert forall j :: 0 <= j < n ==> digits[j] == s[i + j];
      assert forall j :: i <= j < i + n ==> s[j] == digits[j - i];
    }
  }

  lemma {:induction false} AllDigits(s: string)
    ensures HexNumber(s).Some? <==> forall j :: 0 <= j < |s| ==> IsHexDigit(s[j])
    decreases |s|
  {
    hide IsHexDigit, HexValue;
    if s != "" {
      var n := |s| - 1;
      AllDigits(s[..n]);
      assert forall j :: 0 <= j < n ==> s[..n][j] == s[j];
      HexDigitIff(s[n]);
    }
  }

  /** What isspace accepts. */
  ghost predicate Spaces(s: string) {
    forall i :: 0 <= i < |s| ==> s[i] == ' ' || 9 <= s[i] as int <= 13
  }

  lemma {:induction false} SpacesAreSkipped(spaces: string, s: string)
    requires Spaces(spaces) && (s != "" ==> s[0] != ' ' && !(9 <= s[0] as int <= 13))
    ensures SkipSpace(spaces + s) == s
  {
    if spaces == "" {
      assert spaces + s == s;
    } else {
      assert (spaces + s)[1..] == spaces[1..] + s;
      SpacesAreSkipped(spaces[1..], s);
    }
  }

  // ----- The repository's own decoder -----

  predicate IsBlankChar(c: char) {
    c == ' ' || 9 <= c as int <= 13
  }

  /** What the stream reads from two characters: a digit or two, or a digit behind a blank or a sign. */
  lemma StreamIs(a: char, b: char, p: nat, q: nat)
    requires IsHex(b, q)
    ensures IsHex(a, p) ==> HexStream([a, b]) == Some(16 * p + q)
    ensures IsBlankChar(a) || a == '+' ==> HexStream([a, b]) == Some(q)
    ensures a == '-' ==> HexStream([a, b]) == Some(-(q as int))
    ensures !IsHexDigit(a) && !IsBlankChar(a) && a != '+' && a != '-' ==> HexStream([a, b]) == None
  {
    HexIff(a, p);
    HexIff(b, q);
    HexDigitIff(a);
    assert [a, b][1..] == [b];
  }

  /** With no digit behind it a first digit is read alone, unless the two are 0x; anything else is not read. */
  lemma StreamOfOne(a: char, b: char, p: nat)
    requires !IsHexDigit(b)
    ensures IsHex(a, p) ==> HexStream([a, b]) == if a == '0' && (b == 'x' || b == 'X') then None else Some(p)
    ensures !IsHexDigit(a) ==> HexStream([a, b]) == None
  {
    HexIff(a, p);
    HexDigitIff(a);
    HexDigitIff(b);
    assert [a, b][1..] == [b] && [b][1..] == "";
    assert HexStream("") == None && HexStream([b]) == None;
  }

  /** A percent sign with a number in the two characters behind it stands for that byte, a plus sign for a blank, and
      every other character for itself. */
  lemma UrlDecodesIs(s: string, v: int)
    requires s != ""
    ensures s[0] == '%' && |s| > 2 && HexStream(s[1..3]) == Some(v) ==>
      UrlDecoded(s) == [(v % 256) as char] + UrlDecoded(s[3..])
    ensures s[0] != '%' || |s| <= 2 || HexStream(s[1..3]) == None ==>
      UrlDecoded(s) == [if s[0] == '+' then ' ' else s[0]] + UrlDecoded(s[1..])
  {
    hide HexStream;
  }
}
