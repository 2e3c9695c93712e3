/** Byte ranges of deps/httplib.h (section 14.2 of RFC 9110): printing and parsing the Range field, checking
    the ranges against the content, and sizing and producing a multipart/byteranges body. */
module Ranges {
  import opened Sequences
  import opened Wrappers
  import opened HttpText

  /** First and last position; -1 where the field leaves it out. */
  type Range = (int, int)

  const RANGE_MAX_COUNT := 1024
  const SSIZES := 0x8000_0000_0000_0000

  // ----- Decimal numbers -----

  predicate IsDigits(s: string) {
    forall i :: 0 <= i < |s| ==> '0' <= s[i] <= '9'
  }

  function DigitChar(v: nat): char
    requires v < 10
  {
    "0123456789"[v]
  }

  /** std::to_string */
  function Decimal(n: nat): (s: string)
    ensures s != ""
  {
    (if n < 10 then "" else Decimal(n / 10)) + [DigitChar(n % 10)]
  }

  function Number(s: string): nat
    requires IsDigits(s)
  {
    if s == "" then 0 else 10 * Number(s[..|s| - 1]) + (s[|s| - 1] - '0') as nat
  }

  lemma DigitReads(v: nat)
    requires v < 10
    ensures '0' <= DigitChar(v) <= '9' && (DigitChar(v) - '0') as nat == v
  {}

  lemma {:induction false} DecimalReads(n: nat)
    ensures IsDigits(Decimal(n)) && Number(Decimal(n)) == n
  {
    hide DigitChar;
    DigitReads(n % 10);
    var s := Decimal(n);
    if n < 10 {
      assert s == [DigitChar(n)] && s[..0] == "";
    } else {
      DecimalReads(n / 10);
      assert s[..|s| - 1] == Decimal(n / 10);
    }
  }

  // ----- The Range field -----

  /** One end of a range; None when std::stoll would throw. */
  function EndOf(s: string): Option<int>
    requires IsDigits(s)
  {
    var n: int := if s == "" then -1 else Number(s);
    if n < SSIZES then Some(n) else None
  }

  predicate RangeOk(r: Range) {
    !(r.0 == -1 && r.1 == -1) && (r.0 != -1 && r.1 != -1 ==> r.0 <= r.1)
  }

  function ParseOne(token: string): Option<Range> {
    var i := IndexOf(token, '-');
    if i == |token| then None
    else
      var lhs, rhs := token[..i], token[i + 1..];
      if !IsDigits(lhs) || !IsDigits(rhs) then None
      else
        match (EndOf(lhs), EndOf(rhs))
        case (Some(first), Some(last)) => if RangeOk((first, last)) then Some((first, last)) else None
        case _ => None
  }

  function ParseAll(tokens: seq<string>): Option<seq<Range>> {
    if tokens == [] then Some([])
    else
      match ParseOne(tokens[0])
      case None => None
      case Some(r) =>
        match ParseAll(tokens[1..])
        case None => None
        case Some(rest) => Some([r] + rest)
  }

  /** parse_range_header, None where it returns false */
  function Parse(s: string): Option<seq<Range>> {
    if |s| > 7 && s[..6] == "bytes=" then
      match ParseAll(Tokens(s[6..], ','))
      case None => None
      case Some(ranges) => if ranges == [] then None else Some(ranges)
    else None
  }

  method ParseRangeHeader(s: string) returns (ok: bool, ranges: seq<Range>)
    ensures ok == Parse(s).Some? && (ok ==> ranges == Parse(s).value)
  {
    hide Tokens, ParseOne;
    ranges := [];
    if |s| > 7 && s[..6] == "bytes=" {
      var tokens := Split(s[6..], ',');
      ghost var goal := ParseAll(tokens);
      assert tokens[0..] == tokens && (goal.Some? ==> [] + goal.value == goal.value);
      for i := 0 to |tokens|
        invariant goal == match ParseAll(tokens[i..]) { case None => None case Some(rest) => Some(ranges + rest) }
      {
        assert tokens[i..][1..] == tokens[i + 1..];
        match ParseOne(tokens[i]) {
          case None => return false, ranges;
          case Some(r) =>
            if ParseAll(tokens[i + 1..]).Some? {
              Append(ranges, [r], ParseAll(tokens[i + 1..]).value);
            }
            ranges := ranges + [r];
        }
      }
      assert tokens[|tokens|..] == [] && ranges + [] == ranges;
      return ranges != [], ranges;
    }
    return false, ranges;
  }

  /** A token that spells the range: two texts of digits around a dash, at most one of them empty, each below 2^63,
      the first number not above the second. */
  ghost predicate Spells(t: string, r: Range) {
    exists k :: 0 <= k < |t| && t[k] == '-' && SpellsAt(t, k, r)
  }

  predicate SpellsAt(t: string, k: nat, r: Range)
    requires k < |t|
  {
    var lhs, rhs := t[..k], t[k + 1..];
    && IsDigits(lhs) && IsDigits(rhs) && (lhs != "" || rhs != "")
    && r.0 == (if lhs == "" then -1 else Number(lhs)) && r.1 == (if rhs == "" then -1 else Number(rhs))
    && r.0 < 0x8000_0000_0000_0000 && r.1 < 0x8000_0000_0000_0000
    && (lhs != "" && rhs != "" ==> r.0 <= r.1)
  }

  lemma ParseOneIff(t: string, r: Range)
    ensures ParseOne(t) == Some(r) <==> Spells(t, r)
  {
    hide Number, IsDigits, IndexOf;
    var i := IndexOf(t, '-');
    if Spells(t, r) {
      var k :| 0 <= k < |t| && t[k] == '-' && SpellsAt(t, k, r);
      DashIs(t, k);
      SpellsIff(t, k, r);
    }
    if i < |t| { SpellsIff(t, i, r); }
  }

  lemma DashIs(t: string, k: nat)
    requires k < |t| && t[k] == '-' && IsDigits(t[..k])
    ensures IndexOf(t, '-') == k
  {
    assert forall j :: 0 <= j < k ==> t[j] == t[..k][j];
    IndexOfIs(t, '-', k);
  }

  lemma SpellsIff(t: string, k: nat, r: Range)
    requires k < |t| && IndexOf(t, '-') == k
    ensures ParseOne(t) == Some(r) <==> SpellsAt(t, k, r)
  {
    hide Number, IsDigits, IndexOf;
  }

  lemma {:induction false} ParseAllIff(tokens: seq<string>, ranges: seq<Range>)
    ensures ParseAll(tokens) == Some(ranges) <==>
      |tokens| == |ranges| && forall i :: 0 <= i < |tokens| ==> Spells(tokens[i], ranges[i])
  {
    hide ParseOne, Spells;
    if tokens != [] && ranges != [] {
      ParseOneIff(tokens[0], ranges[0]);
      ParseAllIff(tokens[1..], ranges[1..]);
      assert ranges == [ranges[0]] + ranges[1..];
      assert forall i :: 1 <= i < |tokens| ==> tokens[i] == tokens[1..][i - 1];
      assert forall i :: 1 <= i < |ranges| ==> ranges[i] == ranges[1..][i - 1];
    }
  }

  /** A header is read as the ranges that its comma-separated tokens spell, and refused when one spells none. */
  lemma ParseIff(s: string, ranges: seq<Range>)
    ensures Parse(s) == Some(ranges) <==>
      && |s| > 7 && s[..6] == "bytes=" && ranges != [] && |Tokens(s[6..], ',')| == |ranges|
      && forall i :: 0 <= i < |ranges| ==> Spells(Tokens(s[6..], ',')[i], ranges[i])
  {
    hide ParseAll, Tokens, Spells;
    if |s| > 7 { ParseAllIff(Tokens(s[6..], ','), ranges); }
  }

  // ----- Printing a Range field -----

  function EndText(n: int): string {
    if n == -1 then "" else if n < 0 then "-" + Decimal(-n) else Decimal(n)
  }

  ghost predicate Printable(r: Range) {
    RangeOk(r) && -1 <= r.0 < SSIZES && -1 <= r.1 < SSIZES
  }

  function RangeText(r: Range): string {
    EndText(r.0) + "-" + EndText(r.1)
  }

  function RangesText(ranges: seq<Range>): string {
    if ranges == [] then ""
    else if |ranges| == 1 then RangeText(ranges[0])
    else RangeText(ranges[0]) + ([','] + (" " + RangesText(ranges[1..])))
  }

  /** make_range_header */
  function Make(ranges: seq<Range>): string {
    "bytes=" + RangesText(ranges)
  }

  /** The value make_range_header gives the Range field. */
  method MakeRangeHeader(ranges: seq<Range>) returns (field: string)
    ensures field == Make(ranges)
  {
    hide EndText, Make;
    field := "bytes=";
    MakeNothing();
    for i := 0 to |ranges|
      invariant field == Make(ranges[..i])
    {
      MakeNext(ranges[..i], ranges[i]);
      assert ranges[..i + 1] == ranges[..i] + [ranges[i]];
      if i != 0 { field := field + ", "; }
      field := field + EndText(ranges[i].0);
      field := field + "-";
      field := field + EndText(ranges[i].1);
    }
    assert ranges[..|ranges|] == ranges;
  }

  lemma MakeNothing()
    ensures Make([]) == "bytes="
  {}

  lemma MakeNext(ranges: seq<Range>, r: Range)
    ensures var field := if ranges == [] then Make(ranges) else Make(ranges) + ", ";
      Make(ranges + [r]) == field + EndText(r.0) + "-" + EndText(r.1)
  {
    RangesTextNext(ranges, r);
    var start, before, lhs, rhs := "bytes=", RangesText(ranges), EndText(r.0), EndText(r.1);
    var comma := if ranges == [] then "" else ", ";
    hide EndText, RangesText;
    assert ranges == [] ==> before == "" by { MakeNothing(); }
    assert start + "" == start;
    Append(start, before, comma);
    Append(start, before + comma, lhs + "-" + rhs);
    Append(start + (before + comma), lhs, "-");
    Append(start + (before + comma), lhs + "-", rhs);
  }

  lemma {:induction false} RangesTextNext(ranges: seq<Range>, r: Range)
    ensures RangesText(ranges + [r]) == (if ranges == [] then "" else RangesText(ranges) + ", ") + RangeText(r)
  {
    hide RangeText;
    if |ranges| > 0 {
      assert (ranges + [r])[1..] == ranges[1..] + [r];
      RangesTextNext(ranges[1..], r);
    }
  }

  lemma EndReads(n: int)
    requires -1 <= n < SSIZES
    ensures var s := EndText(n); IsDigits(s) && EndOf(s) == Some(n)
  {
    hide Decimal, Number;
    if n >= 0 { DecimalReads(n); }
  }

  lemma JoinedByDash(lhs: string, rhs: string)
    requires '-' !in lhs
    ensures var t := lhs + "-" + rhs; IndexOf(t, '-') == |lhs| && t[..|lhs|] == lhs && t[|lhs| + 1..] == rhs
  {
    var t := lhs + "-" + rhs;
    assert forall j :: 0 <= j < |lhs| ==> t[j] == lhs[j];
    IndexOfIs(t, '-', |lhs|);
  }

  lemma RangeReads(r: Range)
    requires Printable(r)
    ensures var t := RangeText(r);
      && ParseOne(t) == Some(r) && t != "" && |t| > 1 && ',' !in t && !Blank(t[0]) && !Blank(t[|t| - 1])
  {
    EndReads(r.0);
    EndReads(r.1);
    hide *;
    var lhs, rhs := EndText(r.0), EndText(r.1);
    RangeTextIs(r);
    DigitsOnly(lhs, rhs);
    JoinedByDash(lhs, rhs);
    ParseOneIs(RangeText(r), lhs, rhs, r);
  }

  lemma ParseOneIs(t: string, lhs: string, rhs: string, r: Range)
    requires IndexOf(t, '-') == |lhs| < |t| && t[..|lhs|] == lhs && t[|lhs| + 1..] == rhs
    requires IsDigits(lhs) && IsDigits(rhs) && EndOf(lhs) == Some(r.0) && EndOf(rhs) == Some(r.1) && RangeOk(r)
    ensures ParseOne(t) == Some(r)
  {
    hide IndexOf, IsDigits, EndOf, RangeOk;
  }

  lemma RangeTextIs(r: Range)
    ensures RangeText(r) == EndText(r.0) + "-" + EndText(r.1)
    ensures Printable(r) ==> RangeOk(r) && (EndText(r.0) != "" || EndText(r.1) != "")
  {}

  lemma DigitsOnly(lhs: string, rhs: string)
    requires IsDigits(lhs) && IsDigits(rhs) && (lhs != "" || rhs != "")
    ensures var t := lhs + "-" + rhs; '-' !in lhs && |t| > 1 && ',' !in t && !Blank(t[0]) && !Blank(t[|t| - 1])
  {
    var t := lhs + "-" + rhs;
    assert t[0] == if lhs == "" then '-' else lhs[0];
    assert t[|t| - 1] == if rhs == "" then '-' else rhs[|rhs| - 1];
  }

  lemma {:induction false} RangesRead(ranges: seq<Range>)
    requires ranges != [] && forall i :: 0 <= i < |ranges| ==> Printable(ranges[i])
    ensures |RangesText(ranges)| > 1
    ensures ParseAll(Tokens(RangesText(ranges), ',')) == Some(ranges)
    ensures Tokens(" " + RangesText(ranges), ',') == Tokens(RangesText(ranges), ',')
  {
    hide RangeText, ParseOne, Tokens, Token, Trim, Blank, Printable;
    var t := RangeText(ranges[0]);
    RangeReads(ranges[0]);
    TrimKeeps(t);
    TokenIs(t);
    TokenIs(" " + t);
    assert [t][1..] == [] && t == t + "";
    if |ranges| == 1 {
      TokensSingle(t, ',');
      TokensSingle(" " + t, ',');
      assert ParseAll([t][1..]) == Some([]) && [ranges[0]] + [] == [ranges[0]] == ranges;
    } else {
      var rest := RangesText(ranges[1..]);
      RangesRead(ranges[1..]);
      TokensAt(t, ',', " " + rest);
      TokensAt(" " + t, ',', " " + rest);
      assert t + ([','] + (" " + rest)) == t + [','] + (" " + rest);
      assert " " + (t + ([','] + (" " + rest))) == (" " + t) + [','] + (" " + rest);
      var tokens := Tokens(rest, ',');
      assert ([t] + tokens)[1..] == tokens;
      assert ranges == [ranges[0]] + ranges[1..];
    }
  }

  /** Parsing the field a client makes gives its ranges. */
  lemma ParseMade(ranges: seq<Range>)
    requires ranges != [] && forall i :: 0 <= i < |ranges| ==> Printable(ranges[i])
    ensures Parse(Make(ranges)) == Some(ranges)
  {
    hide RangesText, ParseAll, Tokens;
    RangesRead(ranges);
    var s := Make(ranges);
    assert s[..6] == "bytes=" && s[6..] == RangesText(ranges);
  }

  // ----- Checking against the content -----

  /** The positions range_error replaces the range by, for a content of the given length. */
  function Resolve(r: Range, length: nat): Range {
    var r := if r.0 == -1 && r.1 == -1 then (0, length) else r;
    var r := if r.0 == -1 then (length - r.1, length - 1) else r;
    if r.1 == -1 then (r.0, length - 1) else r
  }

  function ResolveAll(ranges: seq<Range>, length: nat): (rs: seq<Range>)
    ensures |rs| == |ranges|
    ensures forall i :: 0 <= i < |ranges| ==> rs[i] == Resolve(ranges[i], length)
  {
    if ranges == [] then [] else [Resolve(ranges[0], length)] + ResolveAll(ranges[1..], length)
  }

  /** What get_range_offset_and_length asserts. */
  predicate Within(r: Range, length: nat) {
    0 <= r.0 <= r.1 <= length - 1
  }

  /** The largest last position so far, -1 at the start. */
  function MaxLast(ranges: seq<Range>): (m: int)
    ensures m >= -1
  {
    if ranges == [] then -1
    else
      var before, last := MaxLast(ranges[..|ranges| - 1]), ranges[|ranges| - 1].1;
      if last > before then last else before
  }

  /** The ranges that start before the end of an earlier one. */
  function Overlaps(ranges: seq<Range>): nat {
    if ranges == [] then 0
    else
      var before := ranges[..|ranges| - 1];
      Overlaps(before) + if ranges[|ranges| - 1].0 <= MaxLast(before) then 1 else 0
  }

  ghost predicate Ascending(ranges: seq<Range>) {
    forall i, j :: 0 <= i < j < |ranges| ==> ranges[i].0 < ranges[j].0
  }

  /** Not too many, all inside the content, in ascending order, at most two overlapping. */
  ghost predicate Acceptable(ranges: seq<Range>, length: nat) {
    && |ranges| <= RANGE_MAX_COUNT
    && (forall i :: 0 <= i < |ranges| ==> Within(ranges[i], length))
    && Ascending(ranges) && Overlaps(ranges) <= 2
  }

  lemma {:induction false} OverlapsGrow(ranges: seq<Range>, n: nat)
    requires n <= |ranges|
    ensures Overlaps(ranges[..n]) <= Overlaps(ranges)
    decreases |ranges|
  {
    if n < |ranges| {
      assert ranges[..|ranges| - 1][..n] == ranges[..n];
      OverlapsGrow(ranges[..|ranges| - 1], n);
    } else {
      assert ranges[..n] == ranges;
    }
  }

  /** The first n ranges pass every check. */
  ghost predicate GoodPrefix(ranges: seq<Range>, n: nat, length: nat)
    requires n <= |ranges|
  {
    && (forall i :: 0 <= i < n ==> Within(ranges[i], length))
    && (forall i, j :: 0 <= i < j < n ==> ranges[i].0 < ranges[j].0)
    && Overlaps(ranges[..n]) <= 2
  }

  lemma AllGood(ranges: seq<Range>, length: nat)
    ensures Acceptable(ranges, length) <==> |ranges| <= RANGE_MAX_COUNT && GoodPrefix(ranges, |ranges|, length)
  {
    assert ranges[..|ranges|] == ranges;
  }

  /** The checks the loop makes on one range decide whether the prefix stays good. */
  lemma PrefixStep(ranges: seq<Range>, n: nat, length: nat)
    requires n < |ranges| && GoodPrefix(ranges, n, length)
    ensures var r, before := ranges[n], ranges[..n];
      && MaxLast(ranges[..n + 1]) == (if r.1 > MaxLast(before) then r.1 else MaxLast(before))
      && Overlaps(ranges[..n + 1]) == Overlaps(before) + (if r.0 <= MaxLast(before) then 1 else 0)
      && (GoodPrefix(ranges, n + 1, length) <==>
            Within(r, length) && (n > 0 ==> ranges[n - 1].0 < r.0) && Overlaps(ranges[..n + 1]) <= 2)
      && (!GoodPrefix(ranges, n + 1, length) ==> !Acceptable(ranges, length))
  {
    assert ranges[..n + 1][..n] == ranges[..n];
    OverlapsGrow(ranges, n + 1);
  }

  /** The first n ranges are replaced by positions and the others are as given. */
  ghost predicate Replaced(given: seq<Range>, ranges: seq<Range>, n: nat, length: nat) {
    n <= |given| == |ranges| &&
    forall j :: 0 <= j < |ranges| ==> ranges[j] == if j < n then Resolve(given[j], length) else given[j]
  }

  class Request {
    var ranges: seq<Range>

    /** Replaces the ranges by positions and returns whether they are refused. */
    method RangeError(status: int, contentLength: nat, bodySize: nat) returns (error: bool)
      modifies this
      ensures var length := if contentLength != 0 then contentLength else bodySize;
        var checked := old(ranges) != [] && 200 <= status < 300;
        && error == (checked && !Acceptable(ResolveAll(old(ranges), length), length))
        && (!checked ==> ranges == old(ranges))
        && (checked && !error ==> ranges == ResolveAll(old(ranges), length))
        && (error ==> exists n :: Replaced(old(ranges), ranges, n, length))
    {
      if ranges != [] && 200 <= status < 300 {
        var length := if contentLength != 0 then contentLength else bodySize;
        error := Check(length);
      } else {
        error := false;
      }
    }

    /** The loop over the ranges. */
    method Check(length: nat) returns (error: bool)
      requires ranges != []
      modifies this
      ensures error == !Acceptable(ResolveAll(old(ranges), length), length)
      ensures !error ==> ranges == ResolveAll(old(ranges), length)
      ensures error ==> exists n :: Replaced(old(ranges), ranges, n, length)
    {
      hide Acceptable, GoodPrefix, Overlaps, MaxLast, ResolveAll;
      ghost var given, all := ranges, ResolveAll(ranges, length);
      AllGood(all, length);
      NothingGood(all, length);
      assert Replaced(given, ranges, 0, length);
      if |ranges| > RANGE_MAX_COUNT { return true; }
      var prevFirst, prevLast, overlapping := -1, -1, 0;
      var i := 0;
      while i < |ranges|
        invariant 0 <= i <= |ranges| == |all|
        invariant forall j :: 0 <= j < |ranges| ==> ranges[j] == if j < i then all[j] else given[j]
        invariant GoodPrefix(all, i, length)
        invariant overlapping == Overlaps(all[..i]) <= 2 && prevLast == MaxLast(all[..i])
        invariant prevFirst == if i == 0 then -1 else all[i - 1].0
      {
        var r := ranges[i];
        if r.0 == -1 && r.1 == -1 { r := (0, length); }
        if r.0 == -1 { r := (length - r.1, length - 1); }
        if r.1 == -1 { r := (r.0, length - 1); }
        ranges := ranges[i := r];
        assert r == all[i];
        assert Replaced(given, ranges, i + 1, length);
        PrefixStep(all, i, length);
        if !(0 <= r.0 <= r.1 <= length - 1) { return true; }
        if r.0 <= prevFirst { return true; }
        if r.0 <= prevLast {
          overlapping := overlapping + 1;
          if overlapping > 2 { return true; }
        }
        prevFirst := if prevFirst > r.0 then prevFirst else r.0;
        prevLast := if prevLast > r.1 then prevLast else r.1;
        i := i + 1;
      }
      assert ranges == all;
      return false;
    }
  }

  lemma NothingGood(ranges: seq<Range>, length: nat)
    ensures GoodPrefix(ranges, 0, length) && Overlaps(ranges[..0]) == 0 && MaxLast(ranges[..0]) == -1
  {}

  // ----- What acceptance guarantees -----

  function Selected(ranges: seq<Range>): int {
    if ranges == [] then 0
    else Selected(ranges[..|ranges| - 1]) + (ranges[|ranges| - 1].1 - ranges[|ranges| - 1].0 + 1)
  }

  lemma {:induction false} SelectedBound(ranges: seq<Range>, length: nat)
    requires forall i :: 0 <= i < |ranges| ==> Within(ranges[i], length)
    ensures Selected(ranges) <= MaxLast(ranges) + 1 + Overlaps(ranges) * length
    ensures MaxLast(ranges) <= length - 1 || ranges == []
  {
    if ranges != [] {
      var before, last := ranges[..|ranges| - 1], ranges[|ranges| - 1];
      SelectedBound(before, length);
      assert Within(last, length);
      assert (Overlaps(before) + 1) * length == Overlaps(before) * length + length;
    }
  }

  /** Accepted ranges never ask for more than three times the content. */
  lemma AcceptedTotal(ranges: seq<Range>, length: nat)
    requires Acceptable(ranges, length)
    ensures Selected(ranges) <= 3 * length
  {
    SelectedBound(ranges, length);
    TimesAtMostTwo(Overlaps(ranges), length);
  }

  lemma TimesAtMostTwo(n: nat, length: nat)
    requires n <= 2
    ensures n * length <= 2 * length
  {}

  /** A suffix range, at any place of the list, falls inside the content exactly when it asks for some bytes and no
      more than there are; any other makes the whole list be refused. */
  lemma SuffixAccepted(ranges: seq<Range>, i: nat, suffix: nat, length: nat)
    requires i < |ranges| && ranges[i] == (-1, suffix)
    ensures Within(ResolveAll(ranges, length)[i], length) <==> 1 <= suffix <= length
    ensures Acceptable(ResolveAll(ranges, length), length) ==> 1 <= suffix <= length
    ensures |ranges| == 1 ==> (Acceptable(ResolveAll(ranges, length), length) <==> 1 <= suffix <= length)
  {
    var all := ResolveAll(ranges, length);
    assert all[i] == Resolve(ranges[i], length);
    if |ranges| == 1 { assert all[..|all| - 1] == [] && Overlaps(all) <= 1; }
  }

  // ----- What is selected -----

  /** The positions that replace a range: from the first one to the end, the last ones, or those given. */
  lemma SelectsIs(ranges: seq<Range>, i: nat, length: nat)
    requires i < |ranges|
    ensures var r, q := ranges[i], ResolveAll(ranges, length)[i];
      && (r.0 >= 0 && r.1 == -1 ==> q.0 == r.0 && q.1 == length - 1)
      && (r.0 == -1 && r.1 >= 0 ==> q.0 == length - r.1 && q.1 == length - 1)
      && (r.0 >= 0 && r.1 >= 0 ==> q.0 == r.0 && q.1 == r.1)
  {}

  /** The bytes of an accepted range: all behind the first ones, as many last ones as asked for, or those in between. */
  lemma SelectedBytes(ranges: seq<Range>, i: nat, body: string, resolved: seq<Range>)
    requires i < |ranges| && resolved == ResolveAll(ranges, |body|) && Acceptable(resolved, |body|)
    ensures 0 <= resolved[i].0 <= resolved[i].1 < |body|
    ensures Selects(ranges[i], resolved[i].0, resolved[i].1, body)
  {
    hide *;
    InsideContent(resolved, i, |body|);
    SelectsIs(ranges, i, |body|);
    BytesSelected(ranges[i], resolved[i].0, resolved[i].1, body);
  }

  /** The bytes from the first to the last position are those the range asks for. */
  ghost predicate Selects(r: Range, first: int, last: int, body: string)
    requires 0 <= first <= last < |body|
  {
    && (r.0 >= 0 && r.1 == -1 ==> r.0 < |body| && body[first..last + 1] == body[r.0..])
    && (r.0 == -1 && r.1 >= 0 ==> 0 < r.1 <= |body| && body[first..last + 1] == body[|body| - r.1..])
    && (r.0 >= 0 && r.1 >= 0 ==> r.0 <= r.1 < |body| && body[first..last + 1] == body[r.0..r.1 + 1])
  }

  lemma BytesSelected(r: Range, first: int, last: int, body: string)
    requires 0 <= first <= last < |body|
    requires r.0 >= 0 && r.1 == -1 ==> first == r.0 && last == |body| - 1
    requires r.0 == -1 && r.1 >= 0 ==> first == |body| - r.1 && last == |body| - 1
    requires r.0 >= 0 && r.1 >= 0 ==> first == r.0 && last == r.1
    ensures Selects(r, first, last, body)
  {
    assert body[..|body|] == body && body[first..|body|] == body[first..];
  }

  lemma InsideContent(ranges: seq<Range>, i: nat, length: nat)
    requires i < |ranges| && Acceptable(ranges, length)
    ensures 0 <= ranges[i].0 <= ranges[i].1 < length
  {
    hide Overlaps, Ascending;
    assert Within(ranges[i], length);
  }

  /** The places of the ranges that start before the end of an earlier one. */
  ghost function Overlapping(ranges: seq<Range>): set<nat> {
    set i: nat | i < |ranges| && exists j :: 0 <= j < i && ranges[i].0 <= ranges[j].1
  }

  lemma {:induction false} MaxLastIs(ranges: seq<Range>)
    ensures forall j :: 0 <= j < |ranges| ==> ranges[j].1 <= MaxLast(ranges)
    ensures MaxLast(ranges) == -1 || exists j :: 0 <= j < |ranges| && ranges[j].1 == MaxLast(ranges)
  {
    if ranges != [] {
      var n := |ranges| - 1;
      MaxLastIs(ranges[..n]);
      assert forall j :: 0 <= j < n ==> ranges[..n][j] == ranges[j];
      assert ranges[n].1 <= MaxLast(ranges);
      if MaxLast(ranges) != -1 && MaxLast(ranges) != ranges[n].1 {
        var j :| 0 <= j < n && ranges[..n][j].1 == MaxLast(ranges);
        assert ranges[j].1 == MaxLast(ranges);
      }
    }
  }

  lemma {:induction false} OverlapsIs(ranges: seq<Range>)
    requires forall i :: 0 <= i < |ranges| ==> ranges[i].0 >= 0
    ensures Overlaps(ranges) == |Overlapping(ranges)|
  {
    if ranges != [] {
      OverlapsIs(ranges[..|ranges| - 1]);
      OverlappingNext(ranges);
      hide MaxLast, Overlapping;
    }
  }

  lemma OverlappingNext(ranges: seq<Range>)
    requires ranges != [] && ranges[|ranges| - 1].0 >= 0
    ensures var n := |ranges| - 1;
      && n !in Overlapping(ranges[..n])
      && Overlapping(ranges) == Overlapping(ranges[..n]) + if ranges[n].0 <= MaxLast(ranges[..n]) then {n} else {}
  {
    var n := |ranges| - 1;
    var before := ranges[..n];
    MaxLastIs(before);
    hide MaxLast;
    assert forall j :: 0 <= j < n ==> before[j] == ranges[j];
    forall i: nat | i < n ensures i in Overlapping(ranges) <==> i in Overlapping(before) {}
    if ranges[n].0 <= MaxLast(before) {
      var j :| 0 <= j < n && before[j].1 == MaxLast(before);
      assert ranges[n].0 <= ranges[j].1;
    }
  }

  /** Accepted are at most 1024 ranges, each inside the content, that start one behind the other and of which at most
      two start before the end of an earlier one. */
  lemma AcceptableIff(ranges: seq<Range>, length: nat)
    ensures Acceptable(ranges, length) <==>
      && |ranges| <= 1024 && (forall i :: 0 <= i < |ranges| ==> 0 <= ranges[i].0 <= ranges[i].1 < length)
      && (forall i :: 0 < i < |ranges| ==> ranges[i - 1].0 < ranges[i].0)
      && |Overlapping(ranges)| <= 2
  {
    hide Overlaps, Overlapping;
    AscendingIff(ranges, |ranges|);
    assert ranges[..|ranges|] == ranges;
    if forall i :: 0 <= i < |ranges| ==> 0 <= ranges[i].0 <= ranges[i].1 < length {
      OverlapsIs(ranges);
    } else if Acceptable(ranges, length) {
      assert forall i :: 0 <= i < |ranges| ==> Within(ranges[i], length);
    }
  }

  lemma {:induction false} AscendingIff(ranges: seq<Range>, n: nat)
    requires n <= |ranges|
    ensures Ascending(ranges[..n]) <==> forall i :: 0 < i < n ==> ranges[i - 1].0 < ranges[i].0
  {
    if n > 1 {
      AscendingIff(ranges, n - 1);
      var fewer, more := ranges[..n - 1], ranges[..n];
      assert forall i :: 0 <= i < n - 1 ==> fewer[i] == ranges[i] == more[i];
      assert more[n - 1] == ranges[n - 1];
      if Ascending(more) {
        forall i | 0 < i < n ensures ranges[i - 1].0 < ranges[i].0 { assert more[i - 1].0 < more[i].0; }
      }
      if forall i :: 0 < i < n ==> ranges[i - 1].0 < ranges[i].0 {
        assert Ascending(fewer) && ranges[n - 2].0 < ranges[n - 1].0;
        forall i, j | 0 <= i < j < n ensures more[i].0 < more[j].0 {
          if j < n - 1 { assert fewer[i].0 < fewer[j].0; }
          if i < n - 2 { assert fewer[i].0 < fewer[n - 2].0; }
        }
      }
    }
  }

  // ----- multipart/byteranges -----

  /** make_content_range_header_field */
  function ContentRange(r: Range, length: nat): string
    requires Within(r, length)
  {
    "bytes " + Decimal(r.0) + "-" + Decimal(r.1) + "/" + Decimal(length)
  }

  function PartHeader(r: Range, boundary: string, contentType: string, length: nat): string
    requires Within(r, length)
  {
    "--" + boundary + "\r\n" + (if contentType == "" then "" else "Content-Type: " + contentType + "\r\n") +
    "Content-Range: " + ContentRange(r, length) + "\r\n" + "\r\n"
  }

  function Part(r: Range, boundary: string, contentType: string, body: string): string
    requires Within(r, |body|)
  {
    PartHeader(r, boundary, contentType, |body|) + body[r.0..r.1 + 1] + "\r\n"
  }

  function Parts(ranges: seq<Range>, boundary: string, contentType: string, body: string): string
    requires forall i :: 0 <= i < |ranges| ==> Within(ranges[i], |body|)
  {
    if ranges == [] then ""
    else
      Parts(ranges[..|ranges| - 1], boundary, contentType, body) +
      Part(ranges[|ranges| - 1], boundary, contentType, body)
  }

  /** The multipart body: a part for every range, holding exactly the bytes selected, and the close delimiter. */
  method MakeMultipartRangesData(ranges: seq<Range>, boundary: string, contentType: string, body: string)
    returns (data: string)
    requires forall i :: 0 <= i < |ranges| ==> Within(ranges[i], |body|)
    ensures data == Parts(ranges, boundary, contentType, body) + ("--" + boundary + "--")
  {
    hide Part, PartHeader, ContentRange;
    data := "";
    for i := 0 to |ranges|
      invariant data == Parts(ranges[..i], boundary, contentType, body)
    {
      assert ranges[..i + 1][..i] == ranges[..i];
      var header := "--" + boundary + "\r\n";
      if contentType != "" { header := header + "Content-Type: " + contentType + "\r\n"; }
      var offset, count := ranges[i].0, ranges[i].1 - ranges[i].0 + 1;
      header := header + "Content-Range: " + ContentRange(ranges[i], |body|) + "\r\n" + "\r\n";
      PartIs(ranges[i], boundary, contentType, body);
      data := data + (header + body[offset..offset + count] + "\r\n");
    }
    assert ranges[..|ranges|] == ranges;
    data := data + ("--" + boundary + "--");
  }

  lemma PartIs(r: Range, boundary: string, contentType: string, body: string)
    requires Within(r, |body|)
    ensures Part(r, boundary, contentType, body)
         == PartHeader(r, boundary, contentType, |body|) + body[r.0..r.1 + 1] + "\r\n"
    ensures var start := "--" + boundary + "\r\n";
      PartHeader(r, boundary, contentType, |body|) ==
        (if contentType == "" then start else start + "Content-Type: " + contentType + "\r\n") +
        "Content-Range: " + ContentRange(r, |body|) + "\r\n" + "\r\n"
  {
    hide ContentRange;
    var start := "--" + boundary + "\r\n";
    assert start + "" == start;
    assert start + ("Content-Type: " + contentType + "\r\n") == start + "Content-Type: " + contentType + "\r\n";
  }

  /** The length announced for the multipart body is the length of what is produced. */
  method GetMultipartRangesDataLength(ranges: seq<Range>, boundary: string, contentType: string, contentLength: nat)
    returns (dataLength: nat)
    requires forall i :: 0 <= i < |ranges| ==> Within(ranges[i], contentLength)
    ensures forall body :: |body| == contentLength ==>
      dataLength == |Parts(ranges, boundary, contentType, body) + ("--" + boundary + "--")|
  {
    hide PartHeader, ContentRange;
    dataLength := 0;
    for i := 0 to |ranges|
      invariant forall body :: |body| == contentLength ==>
        dataLength == |Parts(ranges[..i], boundary, contentType, body)|
    {
      assert ranges[..i + 1][..i] == ranges[..i];
      HeaderSize(ranges[i], boundary, contentType, contentLength);
      dataLength := dataLength + 2 + |boundary| + 2;
      if contentType != "" { dataLength := dataLength + 14 + |contentType| + 2; }
      dataLength := dataLength + 15 + |ContentRange(ranges[i], contentLength)| + 2 + 2;
      dataLength := dataLength + (ranges[i].1 - ranges[i].0 + 1);
      dataLength := dataLength + 2;
    }
    assert ranges[..|ranges|] == ranges;
    dataLength := dataLength + 2 + |boundary| + 2;
  }

  lemma HeaderSize(r: Range, boundary: string, contentType: string, length: nat)
    requires Within(r, length)
    ensures |PartHeader(r, boundary, contentType, length)| ==
      2 + |boundary| + 2 + (if contentType == "" then 0 else 14 + |contentType| + 2) +
      15 + |ContentRange(r, length)| + 2 + 2
  {
    hide ContentRange;
  }

  // ----- Examples -----

  /** A Range field with an open range and a suffix. */
  lemma RangeField()
    ensures Make([(5, -1), (-1, 7)]) == "bytes=5-, -7"
  {
    var ranges: seq<Range> := [(5, -1), (-1, 7)];
    assert ranges[1..] == [(-1, 7)];
    assert Decimal(5) == "5" && Decimal(7) == "7";
    assert RangeText((5, -1)) == "5-" && RangeText((-1, 7)) == "-7";
  }

  /** The text of a part. */
  lemma PartText(first: nat, last: nat, boundary: string, contentType: string, body: string)
    requires first <= last < |body|
    ensures var range := "bytes " + Decimal(first) + "-" + Decimal(last) + "/" + Decimal(|body|);
      var typed := if contentType == "" then "" else "Content-Type: " + contentType + "\r\n";
      Part((first, last), boundary, contentType, body) ==
        "--" + boundary + "\r\n" + typed + "Content-Range: " + range + "\r\n\r\n" + body[first..last + 1] + "\r\n"
  {
    hide Decimal, ContentRange, Part;
    var r, n := (first, last), |body|;
    var typed := if contentType == "" then "" else "Content-Type: " + contentType + "\r\n";
    RangeTexts(r, n);
    PartsOf(r, boundary, contentType, body);
    hide PartHeader;
    Append("--" + boundary + "\r\n" + typed + "Content-Range: " + ContentRange(r, n), "\r\n", "\r\n");
    assert "\r\n" + "\r\n" == "\r\n\r\n";
  }

  lemma RangeTexts(r: Range, length: nat)
    requires Within(r, length)
    ensures ContentRange(r, length) == "bytes " + Decimal(r.0) + "-" + Decimal(r.1) + "/" + Decimal(length)
  {}

  lemma PartsOf(r: Range, boundary: string, contentType: string, body: string)
    requires Within(r, |body|)
    ensures Part(r, boundary, contentType, body)
         == PartHeader(r, boundary, contentType, |body|) + body[r.0..r.1 + 1] + "\r\n"
    ensures PartHeader(r, boundary, contentType, |body|) ==
      "--" + boundary + "\r\n" + (if contentType == "" then "" else "Content-Type: " + contentType + "\r\n") +
      "Content-Range: " + ContentRange(r, |body|) + "\r\n" + "\r\n"
  {}
}
