/** Which byte sequences are chunked bodies (section 7.1 of RFC 9112), by their parts. */
module ChunkGrammar {
  import opened Sequences
  import opened Wrappers
  import opened HttpText
  import opened SocketStream
  import opened Chunked
  import HeaderFields
  import UrlCodec

  // ----- Sizes -----

  ghost predicate HexText(s: string) {
    forall i :: 0 <= i < |s| ==> UrlCodec.IsHexDigit(s[i])
  }

  ghost predicate Ended(rest: string) {
    rest != "" ==> !UrlCodec.IsHexDigit(rest[0])
  }

  /** The digits are not taken for the start of a 0x. */
  ghost predicate NoPrefix(digits: string, rest: string) {
    digits == "0" && |rest| > 1 && (rest[0] == 'x' || rest[0] == 'X') ==> !UrlCodec.IsHexDigit(rest[1])
  }

  lemma DigitsEnd(digits: string, rest: string)
    requires HexText(digits) && Ended(rest)
    ensures HexPrefix(digits + rest) == digits
  {
    hide UrlCodec.HexValue, UrlCodec.IsHexDigit;
    forall c {
      UrlCodec.HexDigitIff(c);
    }
    HexPrefixStops(digits, rest);
  }

  lemma NumberIs(digits: string, v: nat)
    requires UrlCodec.HexNumber(digits) == Some(v)
    ensures HexText(digits)
  {
    UrlCodec.AllDigits(digits);
  }

  /** strtoul reads digits behind spaces, a sign and 0x, each of which may be missing; a number that does not fit is the
      largest, and a minus sign negates modulo 2^64. */
  lemma SizeIs(spaces: string, sign: string, prefix: string, digits: string, v: nat, rest: string)
    requires UrlCodec.Spaces(spaces) && sign in ["", "+", "-"] && prefix in ["", "0x", "0X"]
    requires digits != "" && UrlCodec.HexNumber(digits) == Some(v) && Ended(rest)
    requires prefix == "" ==> NoPrefix(digits, rest)
    ensures StrToUl(spaces + (sign + (prefix + (digits + rest)))) ==
      Some(if v >= 0x1_0000_0000_0000_0000 then 0xFFFF_FFFF_FFFF_FFFF
           else if sign == "-" && v > 0 then 0x1_0000_0000_0000_0000 - v else v)
  {
    NumberIs(digits, v);
    assert UrlCodec.IsHexDigit(digits[0]);
    var u := prefix + (digits + rest);
    var t := sign + u;
    NotSpace(digits[0]);
    assert digits + rest == [digits[0]] + (digits[1..] + rest);
    assert u[0] == if prefix == "" then digits[0] else '0';
    UrlCodec.SpacesAreSkipped(spaces, t);
    assert if sign == "" then t == u else t[0] == sign[0] && t[1..] == u;
    hide *;
    PrefixIs(prefix, digits, rest);
    DigitsEnd(digits, rest);
    SizeOf(spaces + (sign + u), sign, u, digits, v);
  }

  lemma SizeOf(s: string, sign: string, u: string, digits: string, v: nat)
    requires UrlCodec.SkipSpace(s) == sign + u && sign in ["", "+", "-"] && u != "" && u[0] !in "+-"
    requires var prefixed := |u| > 2 && u[0] == '0' && (u[1] == 'x' || u[1] == 'X') && UrlCodec.HexValue(u[2]).Some?;
      HexPrefix(if prefixed then u[2..] else u) == digits
    requires digits != "" && UrlCodec.HexNumber(digits) == Some(v)
    ensures StrToUl(s) ==
      Some(if v >= 0x1_0000_0000_0000_0000 then 0xFFFF_FFFF_FFFF_FFFF
           else if sign == "-" && v > 0 then 0x1_0000_0000_0000_0000 - v else v)
  {
    hide UrlCodec.SkipSpace, UrlCodec.HexNumber, UrlCodec.HexValue, HexPrefix;
    var t := sign + u;
    assert if sign == "" then t == u else t[0] == sign[0] && t[1..] == u;
  }

  lemma PrefixIs(prefix: string, digits: string, rest: string)
    requires prefix in ["", "0x", "0X"] && digits != "" && HexText(digits) && (prefix == "" ==> NoPrefix(digits, rest))
    ensures var u := prefix + (digits + rest);
      var prefixed := |u| > 2 && u[0] == '0' && (u[1] == 'x' || u[1] == 'X') && UrlCodec.HexValue(u[2]).Some?;
      (prefixed <==> prefix != "") && (if prefixed then u[2..] else u) == digits + rest
  {
    var text := digits + rest;
    var u := prefix + text;
    UrlCodec.HexDigitIff(digits[0]);
    if prefix == "" {
      assert u == text;
      SecondChar(digits, rest);
    } else {
      assert u[0] == '0' && u[1] == prefix[1] && u[2] == digits[0] && u[2..] == text;
    }
  }

  lemma NotSpace(c: char)
    requires UrlCodec.IsHexDigit(c)
    ensures c != ' ' && !(9 <= c as int <= 13) && c !in "+-xX"
  {}

  /** Text that is not taken for a prefix does not look like one. */
  lemma SecondChar(digits: string, rest: string)
    requires digits != "" && HexText(digits) && NoPrefix(digits, rest)
    ensures var u := digits + rest;
      |u| > 2 && u[0] == '0' && (u[1] == 'x' || u[1] == 'X') ==> UrlCodec.HexValue(u[2]).None?
  {
    var u := digits + rest;
    if |digits| > 1 {
      assert u[1] == digits[1];
    } else if |u| > 2 {
      assert digits == [digits[0]] && u[1] == rest[0] && u[2] == rest[1];
      UrlCodec.HexDigitIff(u[2]);
    }
  }

  /** Without a digit behind spaces and a sign there is no size. */
  lemma NoSize(spaces: string, sign: string, rest: string)
    requires UrlCodec.Spaces(spaces) && sign in ["", "+", "-"] && Ended(rest)
    requires sign == "" && rest != "" ==> rest[0] !in "+- " && !(9 <= rest[0] as int <= 13)
    ensures StrToUl(spaces + (sign + rest)) == None
  {
    var t := sign + rest;
    UrlCodec.SpacesAreSkipped(spaces, t);
    hide UrlCodec.SkipSpace, UrlCodec.HexNumber;
    assert sign != "" ==> t[1..] == rest;
    if rest != "" { UrlCodec.HexDigitIff(rest[0]); }
  }

  /** The largest size, which stands for all that do not fit too, is refused; NUL ends what is looked at. */
  lemma ChunkSizeIs(line: string, n: nat)
    requires StrToUl(line) == Some(n) && '\0' !in line
    ensures ChunkLength(line) == if n == 0xFFFF_FFFF_FFFF_FFFF then None else Some(n)
    ensures forall more :: ChunkLength(line + "\0" + more) == ChunkLength(line)
  {
    hide StrToUl;
    IndexOfIs(line, '\0', |line|);
    assert line[..|line|] == line;
    forall more ensures CString(line + "\0" + more) == line {
      var s := line + "\0" + more;
      IndexOfIs(s, '\0', |line|);
      assert s[..|line|] == line;
    }
  }

  // ----- Bodies -----

  /** A line with its end, and none before it. */
  ghost predicate IsLine(line: string) {
    line != "" && line[|line| - 1] == '\n' && '\n' !in line[..|line| - 1]
  }

  /** A chunk: the line with its size, and its data. */
  datatype Part = Part(line: string, data: string)

  ghost predicate IsPart(part: Part) {
    IsLine(part.line) && part.data != "" && ChunkLength(part.line) == Some(|part.data|)
  }

  function Body(parts: seq<Part>, behind: string): string {
    if parts == [] then behind else parts[0].line + (parts[0].data + (CRLF + Body(parts[1..], behind)))
  }

  function DataOf(parts: seq<Part>): string {
    if parts == [] then "" else parts[0].data + DataOf(parts[1..])
  }

  ghost predicate IsTrailerLine(line: string) {
    IsLine(line) && line != CRLF && |line| <= 8192
  }

  /** Chunks, a line with the size 0, trailer lines and an empty line. */
  ghost predicate IsBody(s: string, parts: seq<Part>, last: string, trailers: seq<string>, rest: string) {
    && (forall i :: 0 <= i < |parts| ==> IsPart(parts[i]))
    && IsLine(last) && ChunkLength(last) == Some(0)
    && (forall i :: 0 <= i < |trailers| ==> IsTrailerLine(trailers[i]))
    && s == Body(parts, last + (Concat(trailers) + (CRLF + rest)))
  }

  lemma LineIsRead(line: string, rest: string)
    requires IsLine(line)
    ensures LineOf(line + rest) == line && (line + rest)[|line|..] == rest && line + rest != ""
  {
    hide LineOf;
    assert (line + rest)[..|line| - 1] == line[..|line| - 1] && (line + rest)[..|line|] == line;
    LineOfAt(line + rest, |line| - 1);
  }

  lemma {:induction false} ReadIsLine(s: string)
    requires s != "" && s[|LineOf(s)|..] != ""
    ensures IsLine(LineOf(s)) && s == LineOf(s) + s[|LineOf(s)|..]
  {
    if s[0] == '\n' {
      assert LineOf(s) == ['\n'];
    } else {
      var line := LineOf(s[1..]);
      assert LineOf(s) == [s[0]] + line && s[1..][|line|..] == s[|line| + 1..];
      ReadIsLine(s[1..]);
      assert LineOf(s)[..|line|] == [s[0]] + line[..|line| - 1];
    }
  }

  lemma BlankIff(line: string)
    requires IsLine(line)
    ensures IsBlankLine(line) <==> line == CRLF
  {
    if line == CRLF { BlankLineIs(); }
    assert forall i :: 0 <= i < |line| - 1 ==> line[..|line| - 1][i] == line[i];
    assert IsBlankLine(line) ==> line[0] == CRLF[0] && line[1] == CRLF[1];
  }

  lemma {:induction false} TrailerIsRead(trailers: seq<string>, rest: string)
    requires forall i :: 0 <= i < |trailers| ==> IsTrailerLine(trailers[i])
    ensures DecodeTrailer(Concat(trailers) + (CRLF + rest)) == Good("", trailers, rest)
    decreases |trailers|
  {
    hide LineOf, IsBlankLine;
    if trailers == [] {
      assert Concat(trailers) + (CRLF + rest) == CRLF + rest;
      LineIsRead(CRLF, rest);
      BlankIff(CRLF);
    } else {
      var line, more := trailers[0], Concat(trailers[1..]) + (CRLF + rest);
      Append(line, Concat(trailers[1..]), CRLF + rest);
      LineIsRead(line, more);
      BlankIff(line);
      TrailerIsRead(trailers[1..], rest);
      assert trailers == [line] + trailers[1..];
    }
  }

  lemma {:induction false} TrailerHasLines(s: string)
    requires DecodeTrailer(s).Good?
    ensures var d := DecodeTrailer(s);
      && d.content == "" && s == Concat(d.trailers) + (CRLF + d.rest)
      && forall i :: 0 <= i < |d.trailers| ==> IsTrailerLine(d.trailers[i])
    decreases |s|
  {
    hide LineOf, IsBlankLine;
    var line := LineOf(s);
    var rest := s[|line|..];
    if IsBlankLine(line) {
      BlankLineShape(s);
      assert Concat([]) + (CRLF + rest) == CRLF + rest;
    } else {
      TrailerHasLines(rest);
      ReadIsLine(s);
      BlankIff(line);
      var more := DecodeTrailer(rest);
      assert ([line] + more.trailers)[1..] == more.trailers;
      Append(line, Concat(more.trailers), CRLF + more.rest);
      assert HEADER_MAX_LENGTH == 8192;
    }
  }

  lemma BlankLineShape(s: string)
    requires s != "" && IsBlankLine(LineOf(s))
    ensures LineOf(s) == CRLF && s == CRLF + s[2..]
  {
    var line := LineOf(s);
    var k := IndexOf(line, '\0');
    assert line[..k][0] == line[0] == '\r' && line[..k][1] == line[1] == '\n';
    hide IndexOf, LineOf;
    assert s[0] == line[0] && s[1] == line[1] && s[..1] == "\r";
    LineOfAt(s, 1);
    assert s[..2] == CRLF;
  }

  lemma {:induction false} BodyIsRead(s: string, parts: seq<Part>, last: string, trailers: seq<string>, rest: string)
    requires IsBody(s, parts, last, trailers, rest)
    ensures Decode(s) == Good(DataOf(parts), trailers, rest)
    decreases |parts|
  {
    var behind := last + (Concat(trailers) + (CRLF + rest));
    if parts == [] {
      hide DecodeTrailer, ChunkLength, LineOf, IsTrailerLine;
      LineIsRead(last, Concat(trailers) + (CRLF + rest));
      TrailerIsRead(trailers, rest);
    } else {
      var part, more := parts[0], Body(parts[1..], behind);
      BodyIsRead(more, parts[1..], last, trailers, rest);
      BodyNotEmpty(parts[1..], behind);
      OnePart(part, more);
      hide Decode, IsPart;
      assert Decode(s) == Prepend(part.data, Decode(more));
    }
  }

  lemma BodyNotEmpty(parts: seq<Part>, behind: string)
    requires behind != ""
    ensures Body(parts, behind) != ""
  {}

  lemma OnePart(part: Part, more: string)
    requires IsPart(part) && more != ""
    ensures Decode(part.line + (part.data + (CRLF + more))) == Prepend(part.data, Decode(more))
  {
    hide LineOf, ChunkLength, IsBlankLine;
    var body := part.data + (CRLF + more);
    LineIsRead(part.line, body);
    assert body[..|part.data|] == part.data && body[|part.data|..] == CRLF + more;
    LineIsRead(CRLF, more);
    BlankLineIs();
    assert body[|part.data| + |CRLF|..] == more;
  }

  lemma LastIsRead(s: string)
    requires Decode(s).Good? && ChunkLength(LineOf(s)) == Some(0)
    ensures IsBody(s, [], LineOf(s), Decode(s).trailers, Decode(s).rest) && Decode(s).content == ""
  {
    hide LineOf, ChunkLength, IsBlankLine, DecodeTrailer, IsTrailerLine;
    NothingIsBad();
    ReadIsLine(s);
    TrailerHasLines(s[|LineOf(s)|..]);
  }

  lemma PartIsRead(s: string) returns (part: Part, more: string)
    requires Decode(s).Good? && ChunkLength(LineOf(s)) != Some(0)
    ensures IsPart(part) && s == part.line + (part.data + (CRLF + more))
    ensures |more| < |s| && Decode(more).Good? && Decode(s) == Prepend(part.data, Decode(more))
  {
    hide LineOf, ChunkLength, IsBlankLine, DecodeTrailer;
    var line := LineOf(s);
    var body := s[|line|..];
    var n := ChunkLength(line).value;
    ReadIsLine(s);
    var end := LineOf(body[n..]);
    more := body[n + |end|..];
    BlankLineShape(body[n..]);
    assert body[n..][2..] == more;
    part := Part(line, body[..n]);
    assert body == body[..n] + body[n..];
  }

  lemma {:induction false} ReadIsBody(s: string) returns (parts: seq<Part>, last: string)
    requires Decode(s).Good?
    ensures IsBody(s, parts, last, Decode(s).trailers, Decode(s).rest) && Decode(s).content == DataOf(parts)
    decreases |s|
  {
    if ChunkLength(LineOf(s)) == Some(0) {
      LastIsRead(s);
      parts, last := [], LineOf(s);
    } else {
      hide *;
      var part, more := PartIsRead(s);
      var others: seq<Part>;
      others, last := ReadIsBody(more);
      PrependIs(part.data, Decode(more));
      OneMorePart(part, more, others, last, Decode(more).trailers, Decode(more).rest);
      parts := [part] + others;
    }
  }

  lemma PrependIs(content: string, d: Decoded)
    requires d.Good?
    ensures Prepend(content, d) == Good(content + d.content, d.trailers, d.rest)
  {}

  lemma OneMorePart(part: Part, more: string, parts: seq<Part>, last: string, trailers: seq<string>, rest: string)
    requires IsPart(part) && IsBody(more, parts, last, trailers, rest)
    ensures IsBody(part.line + (part.data + (CRLF + more)), [part] + parts, last, trailers, rest)
    ensures DataOf([part] + parts) == part.data + DataOf(parts)
  {
    hide IsPart, IsTrailerLine, ChunkLength;
    assert ([part] + parts)[1..] == parts;
  }

  lemma NothingIsBad()
    ensures DecodeTrailer("") == Bad
  {}

  /** Exactly the chunked bodies are decoded: to the data of the chunks, the trailer lines and what follows. */
  lemma DecodeIff(s: string, content: string, trailers: seq<string>, rest: string)
    ensures Decode(s) == Good(content, trailers, rest) <==>
      exists parts, last :: IsBody(s, parts, last, trailers, rest) && content == DataOf(parts)
  {
    hide Decode, IsBody, DataOf;
    if Decode(s) == Good(content, trailers, rest) {
      var parts, last := ReadIsBody(s);
    }
    forall parts, last | IsBody(s, parts, last, trailers, rest) && content == DataOf(parts)
      ensures Decode(s) == Good(content, trailers, rest)
    {
      BodyIsRead(s, parts, last, trailers, rest);
    }
  }

  /** Of every trailer line the last two characters are dropped, whatever they are, and what is no field is skipped. */
  lemma TrailerLinesAre(text: string, end: string, lines: seq<string>)
    requires |end| == 2
    ensures TrailerHeaders([text + end] + lines) ==
      (match HeaderFields.HeaderOf(text) { case None => [] case Some(h) => [h] }) + TrailerHeaders(lines)
    ensures TrailerHeaders([]) == []
  {
    hide HeaderFields.HeaderOf;
    assert (text + end)[..|text|] == text && ([text + end] + lines)[1..] == lines;
  }
}
