/** The chunked transfer coding of deps/httplib.h (section 7.1 of RFC 9112): what the writer emits and what
    the reader makes of a byte sequence. */
module Chunked {
  import opened Sequences
  import opened Wrappers
  import opened HttpText
  import opened SocketStream
  import HeaderFields
  import UrlCodec

  const SIZES := 0x1_0000_0000_0000_0000

  // ----- Writing -----

  function LowerHexDigit(v: nat): char
    requires v < 16
  {
    "0123456789abcdef"[v]
  }

  /** from_i_to_hex */
  function ToHex(n: nat): (hex: string)
    ensures hex != ""
  {
    (if n < 16 then "" else ToHex(n / 16)) + [LowerHexDigit(n % 16)]
  }

  function Chunk(data: string): string {
    ToHex(|data|) + (CRLF + (data + CRLF))
  }

  /** A trailer field */
  type Field = (string, string)

  function FieldLine(field: Field): string {
    field.0 + ": " + field.1 + CRLF
  }

  function FieldLines(trailer: seq<Field>): seq<string> {
    if trailer == [] then [] else [FieldLine(trailer[0])] + FieldLines(trailer[1..])
  }

  function LastChunk(trailer: seq<Field>): string {
    "0\r\n" + (Concat(FieldLines(trailer)) + CRLF)
  }

  /** What the content provider does with the data sink. */
  datatype Action = Write(data: string) | Done(trailer: seq<Field>)

  function EmitOne(action: Action): string {
    match action
    case Write(data) => if data == "" then "" else Chunk(data)
    case Done(trailer) => LastChunk(trailer)
  }

  function Emit(actions: seq<Action>): string {
    if actions == [] then "" else EmitOne(actions[0]) + Emit(actions[1..])
  }

  // ----- Reading -----

  /** What strcmp and strtoul see of a line: the characters before the first NUL. */
  function CString(s: string): string {
    s[..IndexOf(s, '\0')]
  }

  function HexPrefix(s: string): string {
    if s != "" && UrlCodec.HexValue(s[0]).Some? then [s[0]] + HexPrefix(s[1..]) else ""
  }

  /** strtoul in base 16, on 64-bit unsigned long; None when no digits are there. */
  function StrToUl(s: string): Option<nat> {
    var t := UrlCodec.SkipSpace(s);
    var negative := t != "" && t[0] == '-';
    var u := if t != "" && (t[0] == '-' || t[0] == '+') then t[1..] else t;
    var prefixed := |u| > 2 && u[0] == '0' && (u[1] == 'x' || u[1] == 'X') && UrlCodec.HexValue(u[2]).Some?;
    var v := if prefixed then u[2..] else u;
    var digits := HexPrefix(v);
    if digits == "" then None
    else
      match UrlCodec.HexNumber(digits)
      case None => None
      case Some(n) => Some(if n >= SIZES then SIZES - 1 else if negative then (SIZES - n) % SIZES else n)
  }

  /** The length on a chunk's first line; the reader refuses a missing one and ULONG_MAX. */
  function ChunkLength(line: string): Option<nat> {
    match StrToUl(CString(line))
    case None => None
    case Some(n) => if n == SIZES - 1 then None else Some(n)
  }

  predicate IsBlankLine(line: string) {
    CString(line) == CRLF
  }

  datatype Decoded = Bad | Good(content: string, trailers: seq<string>, rest: string)

  /** The trailer lines after the last chunk, through the blank line. */
  function DecodeTrailer(s: string): Decoded
    decreases |s|
  {
    if s == "" then Bad
    else
      var line := LineOf(s);
      var rest := s[|line|..];
      if IsBlankLine(line) then Good("", [], rest)
      else if |line| > HEADER_MAX_LENGTH then Bad
      else
        match DecodeTrailer(rest)
        case Bad => Bad
        case Good(content, trailers, end) => Good(content, [line] + trailers, end)
  }

  /** The header a trailer line adds, if any; its last two characters are taken for the line end. */
  function TrailerHeader(line: string): Option<Field> {
    if |line| < 2 then None else HeaderFields.HeaderOf(line[..|line| - 2])
  }

  function Listed(header: Option<Field>): seq<Field> {
    if header.Some? then [header.value] else []
  }

  /** The headers the trailer lines add, in order. */
  function TrailerHeaders(lines: seq<string>): seq<Field> {
    if lines == [] then [] else Listed(TrailerHeader(lines[0])) + TrailerHeaders(lines[1..])
  }

  /** The rest of a body whose current chunk line has been read. */
  function DecodeAfter(line: string, body: string): Decoded
    decreases |body|
  {
    match ChunkLength(line)
    case None => Bad
    case Some(n) =>
      if n == 0 then DecodeTrailer(body)
      else if n > |body| || body[n..] == "" then Bad
      else
        var end := LineOf(body[n..]);
        var rest := body[n + |end|..];
        if !IsBlankLine(end) || rest == "" then Bad
        else Prepend(body[..n], DecodeAfter(LineOf(rest), rest[|LineOf(rest)|..]))
  }

  function Decode(s: string): Decoded {
    if s == "" then Bad else DecodeAfter(LineOf(s), s[|LineOf(s)|..])
  }

  function Prepend(content: string, d: Decoded): Decoded {
    match d
    case Bad => Bad
    case Good(more, trailers, rest) => Good(content + more, trailers, rest)
  }

  // ----- Sizes survive -----

  lemma LowerHexReads(v: nat)
    requires v < 16
    ensures UrlCodec.HexValue(LowerHexDigit(v)) == Some(v)
    ensures var c := LowerHexDigit(v); !UrlCodec.IsSpace(c) && c !in "xX+-\0\r\n"
  {}

  lemma {:induction false} ToHexReads(n: nat)
    ensures UrlCodec.HexNumber(ToHex(n)) == Some(n)
    ensures forall i :: 0 <= i < |ToHex(n)| ==> UrlCodec.HexValue(ToHex(n)[i]).Some?
  {
    var front, digit := if n < 16 then "" else ToHex(n / 16), LowerHexDigit(n % 16);
    LowerHexReads(n % 16);
    if n >= 16 { ToHexReads(n / 16); }
    assert UrlCodec.HexNumber("") == Some(0) && ToHex(n) == front + [digit];
    hide *;
    OneMoreDigit(front, digit, n / 16, n % 16);
  }

  lemma OneMoreDigit(front: string, digit: char, v: nat, d: nat)
    requires UrlCodec.HexNumber(front) == Some(v) && UrlCodec.HexValue(digit) == Some(d)
    ensures UrlCodec.HexNumber(front + [digit]) == Some(16 * v + d)
  {
    hide UrlCodec.HexValue;
    assert (front + [digit])[..|front|] == front;
  }

  /** Sizes are printed with lower-case digits and without leading zeros. */
  lemma {:induction false} ToHexIs(n: nat)
    ensures forall i :: 0 <= i < |ToHex(n)| ==> '0' <= ToHex(n)[i] <= '9' || 'a' <= ToHex(n)[i] <= 'f'
    ensures if n == 0 then ToHex(n) == "0" else ToHex(n)[0] != '0'
  {
    LowerHexIs(n % 16);
    hide LowerHexDigit;
    if n >= 16 { ToHexIs(n / 16); }
  }

  lemma LowerHexIs(v: nat)
    requires v < 16
    ensures var c := LowerHexDigit(v); ('0' <= c <= '9' || 'a' <= c <= 'f') && (c == '0' <==> v == 0)
  {}

  lemma {:induction false} HexPrefixStops(digits: string, rest: string)
    requires forall i :: 0 <= i < |digits| ==> UrlCodec.HexValue(digits[i]).Some?
    requires rest == "" || UrlCodec.HexValue(rest[0]).None?
    ensures HexPrefix(digits + rest) == digits
  {
    hide UrlCodec.HexValue;
    if digits == "" {
      assert digits + rest == rest;
    } else {
      assert (digits + rest)[1..] == digits[1..] + rest;
      HexPrefixStops(digits[1..], rest);
    }
  }

  lemma HexValueKinds(c: char)
    ensures UrlCodec.HexValue(c).Some? ==> !UrlCodec.IsSpace(c) && c !in "xX+-\0\r\n"
    ensures UrlCodec.HexValue('\r').None?
  {}

  /** The size line the writer emits is read back as that size. */
  lemma SizeLineReads(n: nat)
    requires n < SIZES - 1
    ensures ChunkLength(ToHex(n) + CRLF) == Some(n)
    ensures '\n' !in ToHex(n)
  {
    hide UrlCodec.HexValue, UrlCodec.HexNumber, ToHex, UrlCodec.IsSpace;
    var hex := ToHex(n);
    var line := hex + CRLF;
    ToHexReads(n);
    forall i | 0 <= i < |hex| ensures !UrlCodec.IsSpace(hex[i]) && hex[i] !in "xX+-\0\r\n" { HexValueKinds(hex[i]); }
    IndexOfIs(line, '\0', |line|);
    assert line[..|line|] == line;
    HexValueKinds('\r');
    HexPrefixStops(hex, CRLF);
    assert line[0] == hex[0] && (|hex| > 1 ==> line[1] == hex[1]) && (|hex| == 1 ==> line[1] == '\r');
  }

  lemma BlankLineIs()
    ensures IsBlankLine(CRLF)
  {
    IndexOfIs(CRLF, '\0', 2);
  }

  lemma LineOfPrefix(text: string, rest: string)
    requires '\n' !in text
    ensures LineOf(text + (CRLF + rest)) == text + CRLF
    ensures (text + (CRLF + rest))[|text + CRLF|..] == rest
  {
    hide LineOf;
    var line := text + CRLF;
    var s := line + rest;
    Append(text, CRLF, rest);
    assert s[..|line| - 1] == line[..|line| - 1] == text + "\r";
    assert s[|line| - 1] == line[|line| - 1] == '\n';
    LineOfAt(s, |line| - 1);
    assert s[..|line|] == line && s[|line|..] == rest;
  }

  // ----- One chunk -----

  lemma DecodeChunk(data: string, after: string)
    requires 0 < |data| < SIZES - 1
    ensures Decode(Chunk(data) + after) == Prepend(data, Decode(after))
  {
    hide ToHex, ChunkLength, IsBlankLine, LineOf;
    var hex := ToHex(|data|);
    var body := data + (CRLF + after);
    ChunkIs(data, after);
    SizeLineReads(|data|);
    LineOfPrefix(hex, body);
    LineOfPrefix("", after);
    assert "" + (CRLF + after) == CRLF + after && "" + CRLF == CRLF;
    BlankLineIs();
    assert body[..|data|] == data && body[|data|..] == CRLF + after;
    assert body[|data| + |CRLF|..] == after;
  }

  lemma ChunkIs(data: string, after: string)
    ensures Chunk(data) + after == ToHex(|data|) + (CRLF + (data + (CRLF + after)))
  {
    hide ToHex;
    Append(ToHex(|data|), CRLF + (data + CRLF), after);
    Append(CRLF, data + CRLF, after);
    Append(data, CRLF, after);
  }

  // ----- The end of the body -----

  ghost predicate FieldOk(field: Field) {
    '\n' !in field.0 && '\n' !in field.1 && |FieldLine(field)| <= HEADER_MAX_LENGTH
  }

  ghost predicate FieldsOk(trailer: seq<Field>) {
    forall i :: 0 <= i < |trailer| ==> FieldOk(trailer[i])
  }

  lemma FieldLineReads(field: Field, rest: string)
    requires FieldOk(field)
    ensures var line := FieldLine(field);
      LineOf(line + rest) == line && (line + rest)[|line|..] == rest && !IsBlankLine(line)
  {
    var text := field.0 + ": " + field.1;
    var line := FieldLine(field);
    hide LineOf;
    assert '\n' !in text && |text| >= 2;
    LineOfPrefix(text, rest);
    Append(text, CRLF, rest);
    assert line[1] == text[1] != '\n';
    var c := CString(line);
    assert |c| >= 2 ==> c[1] == line[1];
  }

  lemma {:induction false} DecodeFields(trailer: seq<Field>, rest: string)
    requires FieldsOk(trailer)
    ensures DecodeTrailer(Concat(FieldLines(trailer)) + (CRLF + rest)) == Good("", FieldLines(trailer), rest)
    decreases |trailer|
  {
    hide FieldLine, FieldOk, IsBlankLine, LineOf;
    if trailer == [] {
      LineOfPrefix("", rest);
      assert "" + (CRLF + rest) == CRLF + rest && "" + CRLF == CRLF;
      BlankLineIs();
    } else {
      var line, lines := FieldLine(trailer[0]), FieldLines(trailer[1..]);
      var after := Concat(lines) + (CRLF + rest);
      assert FieldLines(trailer)[1..] == lines;
      Append(line, Concat(lines), CRLF + rest);
      FieldLineReads(trailer[0], after);
      FieldShort(trailer[0]);
      DecodeFields(trailer[1..], rest);
    }
  }

  lemma FieldShort(field: Field)
    requires FieldOk(field)
    ensures |FieldLine(field)| <= HEADER_MAX_LENGTH && FieldLine(field) != ""
  {}

  lemma DecodeLastChunk(trailer: seq<Field>, rest: string)
    requires FieldsOk(trailer)
    ensures Decode(LastChunk(trailer) + rest) == Good("", FieldLines(trailer), rest)
  {
    hide FieldsOk, ChunkLength, LineOf, FieldLines, Concat;
    var fields := Concat(FieldLines(trailer));
    var body := fields + (CRLF + rest);
    DecodeFields(trailer, rest);
    SizeLineReads(0);
    assert ToHex(0) == "0";
    LineOfPrefix("0", body);
    assert "0\r\n" == "0" + CRLF;
    Append("0", CRLF, fields + CRLF);
    Append("0\r\n", fields + CRLF, rest);
    Append("0", CRLF, body);
    Append(fields, CRLF, rest);
  }

  /** The fields a reader takes for the given ones. */
  function AsRead(trailer: seq<Field>): seq<Field> {
    if trailer == [] then []
    else [(trailer[0].0, HeaderFields.ValueOf(trailer[0].0, trailer[0].1))] + AsRead(trailer[1..])
  }

  ghost predicate AreFields(trailer: seq<Field>) {
    forall i :: 0 <= i < |trailer| ==> HeaderFields.IsField(trailer[i].0, trailer[i].1)
  }

  /** Trailer fields come back in order, with their values decoded. */
  lemma {:induction false} TrailerReadsBack(trailer: seq<Field>)
    requires AreFields(trailer)
    ensures TrailerHeaders(FieldLines(trailer)) == AsRead(trailer)
  {
    hide HeaderFields.HeaderOf, HeaderFields.ValueOf, HeaderFields.IsField;
    if trailer != [] {
      var field := trailer[0];
      var text := field.0 + ": " + field.1;
      assert FieldLine(field) == text + CRLF && (text + CRLF)[..|text|] == text;
      HeaderFields.FieldReadsBack(field.0, field.1);
      assert FieldLines(trailer)[1..] == FieldLines(trailer[1..]);
      TrailerReadsBack(trailer[1..]);
    }
  }

  lemma LineIsField(field: Field)
    ensures TrailerHeader(FieldLine(field)) == HeaderFields.HeaderOf(field.0 + ": " + field.1)
  {
    hide HeaderFields.HeaderOf;
    var text := field.0 + ": " + field.1;
    assert FieldLine(field) == text + CRLF && (text + CRLF)[..|text|] == text;
  }

  /** Names without a colon, values without blanks around them and with nothing that is decoded. */
  ghost predicate Intact(trailer: seq<Field>) {
    AreFields(trailer) && forall i :: 0 <= i < |trailer| ==> HeaderFields.Verbatim(trailer[i].0, trailer[i].1)
  }

  /** The trailer fields come back as they were exactly when each of them can. */
  lemma {:induction false} TrailerIntactIff(trailer: seq<Field>)
    ensures |TrailerHeaders(FieldLines(trailer))| <= |trailer|
    ensures TrailerHeaders(FieldLines(trailer)) == trailer <==> Intact(trailer)
  {
    hide HeaderFields.HeaderOf, HeaderFields.IsField, HeaderFields.Verbatim, TrailerHeader;
    if trailer != [] {
      var field, rest := trailer[0], trailer[1..];
      LineIsField(field);
      HeaderFields.FieldReadsBackIff(field.0, field.1);
      assert FieldLines(trailer)[1..] == FieldLines(rest);
      TrailerIntactIff(rest);
      assert trailer == [field] + rest;
      assert forall i :: 0 <= i < |rest| ==> trailer[i + 1] == rest[i];
    }
  }

  /** A value with an escape in it comes back as another one. */
  lemma EscapeIsDecoded()
    ensures TrailerHeaders(FieldLines([("X", "%41")])) == [("X", "A")]
  {
    hide HeaderFields.HeaderOf, HeaderFields.ValueOf;
    TrailerReadsBack([("X", "%41")]);
    assert [("X", "%41")][1..] == [];
    EscapedText();
  }

  lemma EscapedText()
    ensures HeaderFields.ValueOf("X", "%41") == "A"
  {
    var s := "%41";
    assert s[1..] == "41" && s[1..][..2] == "41" && "41"[..1] == "4" && "4"[..0] == "" && s[3..] == "";
    assert 0x41 as char == 'A';
  }

  // ----- Round trip -----

  function Writes(texts: seq<string>): seq<Action> {
    if texts == [] then [] else [Write(texts[0])] + Writes(texts[1..])
  }

  /** Writes a size_t can describe; an empty one would end the body early. */
  ghost predicate TextsOk(texts: seq<string>) {
    forall i :: 0 <= i < |texts| ==> 0 < |texts[i]| < SIZES - 1
  }

  /** Non-empty writes and then done, with or without a trailer: the reader delivers exactly what was
      written, collects the trailer and stops at the end of what was emitted. */
  lemma {:induction false} RoundTrip(texts: seq<string>, trailer: seq<Field>, rest: string)
    requires TextsOk(texts) && FieldsOk(trailer)
    ensures Decode(Emit(Writes(texts) + [Done(trailer)]) + rest) == Good(Concat(texts), FieldLines(trailer), rest)
    decreases |texts|
  {
    hide Decode, Chunk, LastChunk, FieldsOk;
    var last := [Done(trailer)];
    if texts == [] {
      assert Writes(texts) + last == last && last[1..] == [] && LastChunk(trailer) + "" == LastChunk(trailer);
      DecodeLastChunk(trailer, rest);
    } else {
      var actions := Writes(texts[1..]) + last;
      assert Writes(texts) + last == [Write(texts[0])] + actions;
      Append(Chunk(texts[0]), Emit(actions), rest);
      DecodeChunk(texts[0], Emit(actions) + rest);
      RoundTrip(texts[1..], trailer, rest);
    }
  }

  /** Without done there is no last chunk and the reader refuses the body. */
  lemma {:induction false} UnfinishedIsRefused(texts: seq<string>)
    requires TextsOk(texts)
    ensures Decode(Emit(Writes(texts))) == Bad
    decreases |texts|
  {
    hide Chunk;
    if texts != [] {
      hide Decode;
      DecodeChunk(texts[0], Emit(Writes(texts[1..])));
      UnfinishedIsRefused(texts[1..]);
    }
  }

  /** What is sent for a write, and for done with a trailer of one field and of none. */
  lemma EmittedText(data: string, name: string, value: string)
    ensures EmitOne(Write(data)) == if data == "" then "" else ToHex(|data|) + ("\r\n" + (data + "\r\n"))
    ensures EmitOne(Done([(name, value)])) == "0\r\n" + ((name + ": " + value + "\r\n") + "\r\n")
    ensures EmitOne(Done([])) == "0\r\n\r\n"
  {
    hide ToHex;
    FieldText((name, value));
    hide FieldLines, FieldLine, Concat;
    NoFieldText();
  }

  lemma NoFieldText()
    ensures Concat(FieldLines([])) == ""
  {}

  lemma FieldText(field: Field)
    ensures Concat(FieldLines([field])) == field.0 + ": " + field.1 + "\r\n"
  {
    assert [field][1..] == [] && FieldLines([field]) == [FieldLine(field)] + [];
    assert [FieldLine(field)][1..] == [] && Concat([FieldLine(field)]) == FieldLine(field) + "";
  }
}
