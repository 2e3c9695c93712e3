/** parse_header of deps/httplib.h: one header or trailer line. */
module HeaderFields {
  import opened Wrappers
  import opened HttpText
  import UrlCodec

  /** A line that has a name, a colon and something after it. */
  predicate IsHeader(line: string) {
    var t := TrimRight(line);
    var i := IndexOf(t, ':');
    i < |t| && TrimLeft(t[i + 1..]) != "" && i > 0
  }

  /** What parse_header makes of a value: it is decoded, except for a Location. */
  function ValueOf(name: string, text: string): string {
    if SameIgnoringCase(name, "Location") then text else UrlCodec.Decode(text, false)
  }

  /** The name and the value parse_header hands to its callback; None when it returns false. */
  function HeaderOf(line: string): Option<(string, string)> {
    if !IsHeader(line) then None
    else
      var t := TrimRight(line);
      var i := IndexOf(t, ':');
      Some((t[..i], ValueOf(t[..i], TrimLeft(t[i + 1..]))))
  }

  method ParseHeader(line: string) returns (header: Option<(string, string)>)
    ensures header == HeaderOf(line)
    ensures header.Some? == IsHeader(line)
  {
    hide TrimLeft, TrimRight, IndexOf, Blank, UrlCodec.Decode, SameIgnoringCase;
    var end := |line|;
    while end > 0 && Blank(line[end - 1])
      invariant 0 <= end <= |line|
      invariant forall j :: end <= j < |line| ==> Blank(line[j])
    {
      end := end - 1;
    }
    TrimRightAt(line, end);
    ghost var t := line[..end];
    var p := 0;
    while p < end && line[p] != ':'
      invariant 0 <= p <= end
      invariant forall j :: 0 <= j < p ==> line[j] != ':'
    {
      p := p + 1;
    }
    IndexOfIs(t, ':', p);
    if p == end { return None; }
    var keyEnd := p;
    ghost var value := t[keyEnd + 1..];
    p := p + 1;
    while p < end && Blank(line[p])
      invariant keyEnd < p <= end
      invariant forall j :: 0 <= j < p - keyEnd - 1 ==> Blank(value[j])
    {
      p := p + 1;
    }
    TrimLeftAt(value, p - keyEnd - 1);
    if p == end || keyEnd == 0 { return None; }
    var key, text := line[..keyEnd], line[p..end];
    assert key == t[..keyEnd] && text == value[p - keyEnd - 1..];
    var val := text;
    if !SameIgnoringCase(key, "Location") { val := UrlCodec.DecodeUrl(text, false); }
    return Some((key, val));
  }

  /** The names and values from which a line is read back, but for the decoding of the value. */
  predicate IsField(name: string, value: string) {
    && name != "" && ':' !in name
    && value != "" && !Blank(value[0]) && !Blank(value[|value| - 1])
  }

  /** A printed field is read back with its value decoded. */
  lemma FieldReadsBack(name: string, value: string)
    requires IsField(name, value)
    ensures HeaderOf(name + ": " + value) == Some((name, ValueOf(name, value)))
  {
    hide TrimLeft, TrimRight, IndexOf, Blank, ValueOf;
    var line, text := name + ": " + value, " " + value;
    assert line == name + ":" + text && line[|line| - 1] == value[|value| - 1];
    assert line[..|line|] == line && line[..|name|] == name && line[|name| + 1..] == text && text[1..] == value;
    TrimRightAt(line, |line|);
    assert forall j :: 0 <= j < |name| ==> line[j] == name[j];
    IndexOfIs(line, ':', |name|);
    BlankIsBlank();
    TrimLeftAt(text, 1);
  }

  /** decode_url has nothing to decode in the value, or is not asked. */
  ghost predicate Verbatim(name: string, value: string) {
    SameIgnoringCase(name, "Location") || UrlCodec.NothingToDecode(value, false)
  }

  /** What stands behind the name of a line is read without the blanks around it. */
  function TextOf(line: string, n: nat): string {
    var t := TrimRight(line);
    if n < |t| then TrimLeft(t[n + 1..]) else ""
  }

  lemma NameIsRead(line: string, name: string, value: string)
    requires HeaderOf(line) == Some((name, value))
    ensures name != "" && ':' !in name && TextOf(line, |name|) != "" && value == ValueOf(name, TextOf(line, |name|))
  {
    hide TrimLeft, TrimRight, ValueOf;
    var t := TrimRight(line);
    assert name == t[..IndexOf(t, ':')];
  }

  lemma BehindColon(name: string, value: string)
    ensures (name + ": " + value)[|name| + 1..] == " " + value
  {
    var line := name + ": " + value;
    assert line == name + ":" + (" " + value);
  }

  lemma TrimmedPart(text: string, value: string) returns (a: nat, b: nat)
    requires text <= " " + value && TrimLeft(text) != ""
    ensures a < b == |text| - 1 <= |value| && TrimLeft(text) == value[a..b] && !Blank(value[a])
  {
    TrimLeftIs(text);
    BlankIsBlank();
    hide TrimLeft, Blank;
    b := |text| - 1;
    a := b - |TrimLeft(text)|;
    BehindBlank(text, value, a + 1);
  }

  lemma BehindBlank(text: string, value: string, k: nat)
    requires text <= " " + value && 1 <= k <= |text|
    ensures text[k..] == value[k - 1..|text| - 1]
  {
    assert forall i :: k <= i < |text| ==> text[i] == (" " + value)[i] == value[i - 1];
  }

  lemma TextIsInside(name: string, value: string) returns (a: nat, b: nat)
    requires TextOf(name + ": " + value, |name|) != ""
    ensures a < b <= |value| && TextOf(name + ": " + value, |name|) == value[a..b]
    ensures !Blank(value[a]) && !Blank(value[b - 1])
  {
    hide TrimLeft, TrimRight, Blank;
    var line := name + ": " + value;
    var t, n := TrimRight(line), |name|;
    TrimRightIs(line);
    BehindColon(name, value);
    var text := t[n + 1..];
    assert text == line[n + 1..][..|text|];
    a, b := TrimmedPart(text, value);
    assert text[|text| - 1] == (" " + value)[|text| - 1];
  }

  /** What is read has a name without a colon and a value without blanks around it. */
  lemma OtherFieldLost(name: string, value: string)
    requires !IsField(name, value)
    ensures HeaderOf(name + ": " + value) != Some((name, value))
  {
    hide HeaderOf, TextOf, SameIgnoringCase, Blank, UrlCodec.Decode, UrlCodec.Weight;
    var line := name + ": " + value;
    if HeaderOf(line) == Some((name, value)) {
      NameIsRead(line, name, value);
      var a, b := TextIsInside(name, value);
      UrlCodec.WeightInside(value, a, b);
      UrlCodec.DecodeSameIff(value[a..b], false);
    }
  }

  /** A printed field is read back as it was exactly when it has a name without a colon, no blanks around its value,
      and nothing in the value that is decoded. */
  lemma FieldReadsBackIff(name: string, value: string)
    ensures HeaderOf(name + ": " + value) == Some((name, value)) <==> IsField(name, value) && Verbatim(name, value)
  {
    hide HeaderOf, IsField, SameIgnoringCase, UrlCodec.Decode;
    if IsField(name, value) {
      FieldReadsBack(name, value);
      UrlCodec.DecodeSameIff(value, false);
    } else {
      OtherFieldLost(name, value);
    }
  }

  lemma BlankIsBlank()
    ensures Blank(' ')
  {}
}
