/** The UTF-8 functions of src/utils/string_utils.cpp, on text written by to_utf8 of deps/httplib.h. */
module Utf8 {
  import opened Words

  // ----- Writing -----

  function Continuation(bits: nat): Byte {
    0x80 + bits % 0x40
  }

  /** to_utf8: one to four bytes, none for a surrogate or beyond the last plane. */
  function ToUtf8(code: nat): seq<Byte> {
    if code < 0x80 then [code]
    else if code < 0x800 then [0xC0 + code / 0x40 % 0x20, Continuation(code)]
    else if code < 0xD800 then [0xE0 + code / 0x1000 % 0x10, Continuation(code / 0x40), Continuation(code)]
    else if code < 0xE000 then []
    else if code < 0x10000 then [0xE0 + code / 0x1000 % 0x10, Continuation(code / 0x40), Continuation(code)]
    else if code < 0x110000 then
      [0xF0 + code / 0x40000 % 8, Continuation(code / 0x1000), Continuation(code / 0x40), Continuation(code)]
    else []
  }

  predicate Scalar(code: nat) {
    code < 0x110000 && !(0xD800 <= code < 0xE000)
  }

  function Encode(codes: seq<nat>): seq<Byte> {
    if codes == [] then [] else ToUtf8(codes[0]) + Encode(codes[1..])
  }

  // ----- Reading -----

  /** The step all the index loops take for a lead byte. */
  function Width(lead: Byte): nat {
    if lead < 0x80 then 1 else if lead < 0xE0 then 2 else if lead < 0xF0 then 3 else 4
  }

  /** (c & 0xC0) == 0x80 */
  predicate IsContinuation(c: Byte) {
    c / 0x40 == 2
  }

  function Rest(s: seq<Byte>): (r: seq<Byte>)
    requires s != []
    ensures |r| < |s|
  {
    if Width(s[0]) <= |s| then s[Width(s[0])..] else []
  }

  function Count(s: seq<Byte>): nat
    decreases |s|
  {
    if s == [] then 0 else 1 + Count(Rest(s))
  }

  function Decode3(a: Byte, b: Byte, c: Byte): nat {
    a % 0x10 * 0x1000 + b % 0x40 * 0x40 + c % 0x40
  }

  predicate StartsChinese(s: seq<Byte>) {
    s != [] && 0xE0 <= s[0] < 0xF0 && |s| >= 3 && 0x4E00 <= Decode3(s[0], s[1], s[2]) <= 0x9FFF
  }

  predicate AnyChinese(s: seq<Byte>)
    decreases |s|
  {
    s != [] && (StartsChinese(s) || AnyChinese(Rest(s)))
  }

  /** The last place up to i that holds no continuation byte, or 0. */
  function Boundary(s: seq<Byte>, i: nat): (b: nat)
    requires i < |s|
    ensures b <= i
  {
    if i > 0 && IsContinuation(s[i]) then Boundary(s, i - 1) else i
  }

  function Truncated(s: seq<Byte>, maxBytes: nat): seq<Byte> {
    if |s| <= maxBytes then s else s[..Boundary(s, maxBytes)]
  }

  function From(s: seq<Byte>, i: nat): seq<Byte> {
    if i <= |s| then s[i..] else []
  }

  lemma FromStep(s: seq<Byte>, i: nat)
    requires i < |s|
    ensures Rest(s[i..]) == From(s, i + Width(s[i]))
  {}

  method Utf8Len(s: seq<Byte>) returns (len: nat)
    ensures len == Count(s)
  {
    len := 0;
    var i: nat := 0;
    while i < |s|
      invariant len + Count(From(s, i)) == Count(s)
      decreases |s| - i
    {
      FromStep(s, i);
      var c := s[i];
      if c < 0x80 { i := i + 1; }
      else if c < 0xE0 { i := i + 2; }
      else if c < 0xF0 { i := i + 3; }
      else { i := i + 4; }
      len := len + 1;
    }
  }

  lemma AnyChineseUnfold(s: seq<Byte>)
    ensures AnyChinese(s) <==> s != [] && (StartsChinese(s) || AnyChinese(Rest(s)))
  {}

  method ContainsChinese(s: seq<Byte>) returns (found: bool)
    ensures found == AnyChinese(s)
  {
    hide Rest, AnyChinese;
    var i: nat := 0;
    while i < |s|
      invariant AnyChinese(From(s, i)) == AnyChinese(s)
      decreases |s| - i
    {
      FromStep(s, i);
      AnyChineseUnfold(s[i..]);
      var c := s[i];
      if c < 0x80 {
        i := i + 1;
      } else if c < 0xE0 {
        i := i + 2;
      } else if c < 0xF0 {
        if i + 2 < |s| {
          var code := Decode3(s[i], s[i + 1], s[i + 2]);
          if code >= 0x4E00 && code <= 0x9FFF { return true; }
        }
        i := i + 3;
      } else {
        i := i + 4;
      }
    }
    AnyChineseUnfold([]);
    return false;
  }

  method Utf8Truncate(s: seq<Byte>, maxBytes: nat) returns (r: seq<Byte>)
    ensures r == Truncated(s, maxBytes)
  {
    if |s| <= maxBytes { return s; }
    var i := maxBytes;
    while i > 0 && IsContinuation(s[i])
      invariant 0 <= i <= maxBytes
      invariant Boundary(s, i) == Boundary(s, maxBytes)
    {
      i := i - 1;
    }
    return s[..i];
  }

  // ----- On encoded text -----

  lemma CharacterShape(code: nat)
    requires Scalar(code)
    ensures var s := ToUtf8(code);
      && s != [] && |s| == Width(s[0]) && !IsContinuation(s[0])
      && (forall i :: 1 <= i < |s| ==> IsContinuation(s[i]))
  {}

  lemma CharacterIsChinese(code: nat)
    requires Scalar(code)
    ensures StartsChinese(ToUtf8(code)) <==> 0x4E00 <= code <= 0x9FFF
  {
    hide Decode3, Continuation;
    if 0x800 <= code < 0x10000 { DecodeThree(code); }
  }

  lemma DecodeThree(code: nat)
    requires 0x800 <= code < 0x10000
    ensures Decode3(0xE0 + code / 0x1000 % 0x10, Continuation(code / 0x40), Continuation(code)) == code
  {
    Digits64(code);
  }

  lemma Digits64(code: nat)
    requires code < 0x10000
    ensures code / 0x1000 * 0x1000 + code / 0x40 % 0x40 * 0x40 + code % 0x40 == code
    ensures code / 0x1000 < 0x10
  {}

  lemma EncodeNil()
    ensures Encode([]) == []
  {}

  lemma FirstCharacter(codes: seq<nat>)
    requires codes != [] && Scalar(codes[0])
    ensures var s, w := Encode(codes), |ToUtf8(codes[0])|;
      && s != [] && w > 0 && w == Width(s[0]) && !IsContinuation(s[0])
      && s[..w] == ToUtf8(codes[0]) && Rest(s) == s[w..] == Encode(codes[1..])
      && (forall i :: 1 <= i < w ==> IsContinuation(s[i]))
      && (StartsChinese(s) <==> 0x4E00 <= codes[0] <= 0x9FFF)
  {
    hide ToUtf8;
    CharacterShape(codes[0]);
    CharacterIsChinese(codes[0]);
  }

  /** Utf8Len is the number of code points. */
  lemma {:induction false} CountIsLength(codes: seq<nat>)
    requires forall c :: c in codes ==> Scalar(c)
    ensures Count(Encode(codes)) == |codes|
  {
    if codes != [] {
      hide ToUtf8;
      FirstCharacter(codes);
      CountIsLength(codes[1..]);
    }
  }

  /** ContainsChinese holds exactly when a code point lies in 0x4E00..0x9FFF. */
  lemma {:induction false} ChineseIffCodePoint(codes: seq<nat>)
    requires forall c :: c in codes ==> Scalar(c)
    ensures AnyChinese(Encode(codes)) <==> exists c :: c in codes && 0x4E00 <= c <= 0x9FFF
  {
    hide ToUtf8, StartsChinese, Encode, Rest, Scalar, AnyChinese;
    EncodeNil();
    AnyChineseUnfold(Encode(codes));
    if codes != [] {
      FirstCharacter(codes);
      ChineseIffCodePoint(codes[1..]);
      assert forall c :: c in codes <==> c == codes[0] || c in codes[1..];
      assert codes[0] in codes;
    }
  }

  lemma {:induction false} BoundaryInFirst(s: seq<Byte>, i: nat)
    requires i < |s|
    requires forall j :: 1 <= j <= i ==> IsContinuation(s[j])
    ensures Boundary(s, i) == 0
  {
    if i > 0 { BoundaryInFirst(s, i - 1); }
  }

  lemma {:induction false} BoundaryAfter(s: seq<Byte>, w: nat, i: nat)
    requires w <= i < |s| && !IsContinuation(s[w])
    ensures Boundary(s, i) == w + Boundary(s[w..], i - w)
  {
    if i > w { BoundaryAfter(s, w, i - 1); }
  }

  /** Truncation keeps the longest run of whole characters that fits. */
  lemma {:induction false} TruncateKeepsWhole(codes: seq<nat>, maxBytes: nat) returns (kept: nat)
    requires forall c :: c in codes ==> Scalar(c)
    ensures kept <= |codes|
    ensures Truncated(Encode(codes), maxBytes) == Encode(codes[..kept])
    ensures |Encode(codes[..kept])| <= maxBytes
    ensures kept < |codes| ==> |Encode(codes[..kept + 1])| > maxBytes
  {
    hide ToUtf8, StartsChinese, Encode, Rest, Scalar, Width, IsContinuation, Boundary;
    var s := Encode(codes);
    EncodeNil();
    if |s| <= maxBytes {
      kept := |codes|;
      assert codes[..kept] == codes;
    } else {
      FirstCharacter(codes);
      var w := |ToUtf8(codes[0])|;
      if maxBytes < w {
        BoundaryInFirst(s, maxBytes);
        kept := 0;
        EncodeCons(codes, 1);
      } else {
        var k := TruncateKeepsWhole(codes[1..], maxBytes - w);
        kept := k + 1;
        assert codes[1..] != [];
        FirstCharacter(codes[1..]);
        BoundaryAfter(s, w, maxBytes);
        EncodeCons(codes, kept);
        assert s[..Boundary(s, maxBytes)] == s[..w] + s[w..][..Boundary(s[w..], maxBytes - w)];
        if kept < |codes| { EncodeCons(codes, kept + 1); }
      }
    }
  }

  lemma EncodeCons(codes: seq<nat>, n: nat)
    requires 0 < n <= |codes|
    ensures Encode(codes[..n]) == ToUtf8(codes[0]) + Encode(codes[1..][..n - 1])
  {
    assert codes[..n][1..] == codes[1..][..n - 1];
  }

  // ----- In numbers -----

  lemma TwoBytes(code: nat)
    requires 0x80 <= code < 0x800
    ensures var s := ToUtf8(code); |s| == 2 && code == 0x40 * (s[0] as int - 0xC0) + (s[1] as int - 0x80)
  {}

  lemma ThreeBytes(code: nat)
    requires 0x800 <= code < 0x10000 && !(0xD800 <= code < 0xE000)
    ensures var s := ToUtf8(code);
      |s| == 3 && code == 0x1000 * (s[0] as int - 0xE0) + 0x40 * (s[1] as int - 0x80) + (s[2] as int - 0x80)
  {
    var high := code / 0x40;
    assert code / 0x1000 == high / 0x40 < 0x10;
    assert code == 0x40 * high + code % 0x40 && high == 0x40 * (high / 0x40) + high % 0x40;
  }

  lemma FourBytes(code: nat)
    requires 0x10000 <= code < 0x110000
    ensures var s := ToUtf8(code);
      && |s| == 4
      && code == 0x40000 * (s[0] as int - 0xF0) + 0x1000 * (s[1] as int - 0x80) + 0x40 * (s[2] as int - 0x80)
           + (s[3] as int - 0x80)
  {
    var middle, high := code / 0x40, code / 0x1000;
    assert high == middle / 0x40 && code / 0x40000 == high / 0x40 < 8;
    assert code == 0x40 * middle + code % 0x40 && middle == 0x40 * high + middle % 0x40;
    assert high == 0x40 * (high / 0x40) + high % 0x40;
  }

  /** The bytes of a code point hold its bits, in the shortest of the four forms; other codes are written as nothing. */
  lemma BytesHoldCode(code: nat)
    ensures !(code < 0xD800 || 0xE000 <= code < 0x110000) ==> ToUtf8(code) == []
    ensures code < 0x80 ==> ToUtf8(code) == [code]
    ensures 0x80 <= code < 0xD800 || 0xE000 <= code < 0x110000 ==>
      var s := ToUtf8(code);
      && |s| == (if code < 0x800 then 2 else if code < 0x10000 then 3 else 4)
      && (|s| == 2 ==> code == 0x40 * (s[0] as int - 0xC0) + (s[1] as int - 0x80))
      && (|s| == 3 ==>
            code == 0x1000 * (s[0] as int - 0xE0) + 0x40 * (s[1] as int - 0x80) + (s[2] as int - 0x80))
      && (|s| == 4 ==>
            code == 0x40000 * (s[0] as int - 0xF0) + 0x1000 * (s[1] as int - 0x80) + 0x40 * (s[2] as int - 0x80)
              + (s[3] as int - 0x80))
  {
    if 0x80 <= code < 0xD800 || 0xE000 <= code < 0x110000 {
      if code < 0x800 { TwoBytes(code); } else if code < 0x10000 { ThreeBytes(code); } else { FourBytes(code); }
    } else {
      NoBytes(code);
    }
    hide ToUtf8;
  }

  lemma NoBytes(code: nat)
    requires !(0x80 <= code < 0xD800 || 0xE000 <= code < 0x110000)
    ensures ToUtf8(code) == if code < 0x80 then [code] else []
  {}

  /** How far the loops step for a lead byte. */
  function StepOf(lead: Byte): nat {
    [1, 1, 1, 1, 1, 1, 1, 1, 2, 2, 2, 2, 2, 2, 3, 4][lead / 16]
  }

  /** A character counts once, whatever its bytes; a cut one at the end counts too. */
  lemma CountIs(s: seq<Byte>)
    requires s != []
    ensures Count([]) == 0
    ensures Count(s) == 1 + Count(if StepOf(s[0]) <= |s| then s[StepOf(s[0])..] else [])
  {}

  /** A whole three-byte character in 0x4E00..0x9FFF at the front is found; otherwise the search goes on behind the
      first character. */
  lemma ChineseIs(s: seq<Byte>)
    requires s != []
    ensures !AnyChinese([])
    ensures AnyChinese(s) <==>
      || (StepOf(s[0]) == 3 && |s| >= 3 &&
          0x4E00 <= 0x1000 * (s[0] as int - 0xE0) + 0x40 * (s[1] as int % 0x40) + s[2] as int % 0x40 <= 0x9FFF)
      || AnyChinese(if StepOf(s[0]) <= |s| then s[StepOf(s[0])..] else [])
  {}

  /** A text that is too long is cut at the last place up to the limit where no character goes on. */
  lemma TruncatedIs(s: seq<Byte>, maxBytes: nat)
    ensures |s| <= maxBytes ==> Truncated(s, maxBytes) == s
    ensures |s| > maxBytes ==>
      var cut := |Truncated(s, maxBytes)|;
      && cut <= maxBytes && Truncated(s, maxBytes) == s[..cut]
      && (cut == 0 || !(0x80 <= s[cut] < 0xC0)) && forall j :: cut < j <= maxBytes ==> 0x80 <= s[j] < 0xC0
  {
    if |s| > maxBytes { BoundaryIs(s, maxBytes); }
  }

  lemma {:induction false} BoundaryIs(s: seq<Byte>, i: nat)
    requires i < |s|
    ensures var cut := Boundary(s, i);
      (cut == 0 || !(0x80 <= s[cut] < 0xC0)) && forall j :: cut < j <= i ==> 0x80 <= s[j] < 0xC0
  {
    if i > 0 && IsContinuation(s[i]) { BoundaryIs(s, i - 1); }
  }
}
