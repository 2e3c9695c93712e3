/** The text helpers of deps/httplib.h that its parsers share. A character stands for a byte. */
module HttpText {
  /** CPPHTTPLIB_HEADER_MAX_LENGTH */
  const HEADER_MAX_LENGTH := 8192

  const CRLF := "\r\n"
  const DASH := "--"

  function Concat(texts: seq<string>): string {
    if texts == [] then "" else texts[0] + Concat(texts[1..])
  }

  // ----- Finding -----

  predicate OccursAt(s: string, p: string, i: nat) {
    i + |p| <= |s| && s[i..i + |p|] == p
  }

  lemma OccursShift(s: string, p: string)
    requires s != ""
    ensures forall i: nat :: 1 <= i ==> (OccursAt(s, p, i) <==> OccursAt(s[1..], p, i - 1))
  {
    forall i: nat | 1 <= i ensures OccursAt(s, p, i) <==> OccursAt(s[1..], p, i - 1) {
      if i + |p| <= |s| { assert s[1..][i - 1..i - 1 + |p|] == s[i..i + |p|]; }
    }
  }

  /** The first occurrence, or the length of the text when there is none. */
  function Find(s: string, p: string): (pos: nat)
    requires p != ""
    ensures pos <= |s|
    ensures pos < |s| ==> OccursAt(s, p, pos)
    ensures forall i :: 0 <= i < pos ==> !OccursAt(s, p, i)
  {
    if |p| > |s| then |s|
    else if s[..|p|] == p then 0
    else
      var r := Find(s[1..], p);
      OccursShift(s, p);
      1 + r
  }

  lemma FindIs(s: string, p: string, pos: nat)
    requires p != "" && pos <= |s|
    requires forall i :: 0 <= i < pos ==> !OccursAt(s, p, i)
    requires pos < |s| ==> OccursAt(s, p, pos)
    ensures Find(s, p) == pos
  {}

  function IndexOf(s: string, c: char): (i: nat)
    ensures i <= |s|
    ensures i < |s| ==> s[i] == c
    ensures forall j :: 0 <= j < i ==> s[j] != c
  {
    if s == "" || s[0] == c then 0 else 1 + IndexOf(s[1..], c)
  }

  lemma IndexOfIs(s: string, c: char, i: nat)
    requires i <= |s|
    requires forall j :: 0 <= j < i ==> s[j] != c
    requires i < |s| ==> s[i] == c
    ensures IndexOf(s, c) == i
  {}

  // ----- Blanks and quotes -----

  /** is_space_or_tab */
  predicate Blank(c: char) {
    c == ' ' || c == '\t'
  }

  function TrimLeft(s: string): string {
    if s != "" && Blank(s[0]) then TrimLeft(s[1..]) else s
  }

  function TrimRight(s: string): string {
    if s != "" && Blank(s[|s| - 1]) then TrimRight(s[..|s| - 1]) else s
  }

  function Trim(s: string): string {
    TrimRight(TrimLeft(s))
  }

  function TrimQuotes(s: string): string {
    if |s| >= 2 && s[0] == '"' && s[|s| - 1] == '"' then s[1..|s| - 1] else s
  }

  lemma {:induction false} TrimLeftAt(s: string, i: nat)
    requires i <= |s|
    requires forall j :: 0 <= j < i ==> Blank(s[j])
    requires i < |s| ==> !Blank(s[i])
    ensures TrimLeft(s) == s[i..]
  {
    if i > 0 {
      TrimLeftAt(s[1..], i - 1);
      assert s[1..][i - 1..] == s[i..];
    }
  }

  lemma {:induction false} TrimRightAt(s: string, i: nat)
    requires i <= |s|
    requires forall j :: i <= j < |s| ==> Blank(s[j])
    requires i > 0 ==> !Blank(s[i - 1])
    ensures TrimRight(s) == s[..i]
    decreases |s|
  {
    if i < |s| {
      TrimRightAt(s[..|s| - 1], i);
      assert s[..|s| - 1][..i] == s[..i];
    } else {
      assert s[..i] == s;
    }
  }

  lemma {:induction false} TrimLeftIs(s: string)
    ensures var t := TrimLeft(s); |t| <= |s| && t == s[|s| - |t|..] && (t != "" ==> !Blank(t[0]))
    ensures s != "" && Blank(s[0]) ==> |TrimLeft(s)| < |s|
  {
    if s != "" && Blank(s[0]) { TrimLeftIs(s[1..]); }
  }

  lemma {:induction false} TrimLeftDrops(s: string)
    ensures forall j :: 0 <= j < |s| - |TrimLeft(s)| ==> Blank(s[j])
  {
    if s != "" && Blank(s[0]) { TrimLeftDrops(s[1..]); }
  }

  lemma {:induction false} TrimRightDrops(s: string)
    ensures forall j :: |TrimRight(s)| <= j < |s| ==> Blank(s[j])
    decreases |s|
  {
    if s != "" && Blank(s[|s| - 1]) { TrimRightDrops(s[..|s| - 1]); }
  }

  lemma {:induction false} TrimRightIs(s: string)
    ensures var t := TrimRight(s); t <= s && (t != "" ==> !Blank(t[|t| - 1]))
    decreases |s|
  {
    if s != "" && Blank(s[|s| - 1]) { TrimRightIs(s[..|s| - 1]); }
  }

  lemma {:induction false} TrimBlank(s: string)
    requires forall j :: 0 <= j < |s| ==> Blank(s[j])
    ensures TrimLeft(s) == "" && Trim(s) == ""
  {
    if s != "" { TrimBlank(s[1..]); }
  }

  /** Text that neither starts nor ends with a blank is left alone, also behind blanks. */
  lemma TrimKeeps(s: string)
    requires s != "" && !Blank(s[0]) && !Blank(s[|s| - 1])
    ensures Trim(s) == s && Trim(" " + s) == s && TrimRight(s) == s && TrimLeft(s) == s
  {
    TrimLeftAt(" " + s, 1);
    TrimRightAt(s, |s|);
    assert s[..|s|] == s;
    assert (" " + s)[1..] == s;
  }

  // ----- Splitting -----

  function Pieces(s: string, d: char): (ps: seq<string>)
    ensures |ps| > 0
    decreases |s|
  {
    var i := IndexOf(s, d);
    if i == |s| then [s] else [s[..i]] + Pieces(s[i + 1..], d)
  }

  function TrimmedNonEmpty(ps: seq<string>): seq<string> {
    if ps == [] then []
    else (if Trim(ps[0]) == "" then [] else [Trim(ps[0])]) + TrimmedNonEmpty(ps[1..])
  }

  /** What split hands to its callback. */
  function Tokens(s: string, d: char): seq<string> {
    TrimmedNonEmpty(Pieces(s, d))
  }

  lemma PiecesAt(a: string, d: char, b: string)
    requires d !in a
    ensures Pieces(a + [d] + b, d) == [a] + Pieces(b, d)
  {
    var s := a + [d] + b;
    IndexOfIs(s, d, |a|);
    assert s[..|a|] == a && s[|a| + 1..] == b;
  }

  function Token(piece: string): seq<string> {
    if Trim(piece) == "" then [] else [Trim(piece)]
  }

  lemma TokensAt(a: string, d: char, b: string)
    requires d !in a
    ensures Tokens(a + [d] + b, d) == Token(a) + Tokens(b, d)
  {
    PiecesAt(a, d, b);
    assert ([a] + Pieces(b, d))[1..] == Pieces(b, d);
  }

  lemma TokensSingle(a: string, d: char)
    requires d !in a
    ensures Tokens(a, d) == Token(a)
  {
    assert TrimmedNonEmpty([a][1..]) == [];
  }

  /** Whatever stands before a separator, the tokens of both sides are put together. */
  lemma {:induction false} TokensBoth(a: string, d: char, b: string)
    ensures Tokens(a + [d] + b, d) == Tokens(a, d) + Tokens(b, d)
    decreases |a|
  {
    hide Tokens, Token;
    var i := IndexOf(a, d);
    if i == |a| {
      TokensAt(a, d, b);
      TokensSingle(a, d);
    } else {
      var front, rest := a[..i], a[i + 1..];
      assert a == front + [d] + rest;
      assert a + [d] + b == front + [d] + (rest + [d] + b);
      TokensAt(front, d, rest);
      TokensAt(front, d, rest + [d] + b);
      TokensBoth(rest, d, b);
    }
  }

  lemma TrimIs(s: string) returns (a: nat, b: nat)
    ensures a <= b <= |s| && Trim(s) == s[a..b]
    ensures a < b ==> !Blank(s[a]) && !Blank(s[b - 1])
    ensures forall j :: 0 <= j < a || b <= j < |s| ==> Blank(s[j])
  {
    hide Blank, TrimLeft, TrimRight;
    var t := TrimLeft(s);
    TrimLeftIs(s);
    TrimLeftDrops(s);
    TrimRightIs(t);
    TrimRightDrops(t);
    a := |s| - |t|;
    b := a + |TrimRight(t)|;
  }

  /** A token is a part of the text. */
  lemma {:induction false} TokensInside(s: string, d: char)
    ensures forall t :: t in Tokens(s, d) ==> t != "" && |t| <= |s| && (|t| == |s| ==> t == s)
    decreases |s|
  {
    hide Tokens, Trim;
    var i := IndexOf(s, d);
    var a, b := TrimIs(s[..i]);
    if i == |s| {
      TokensSingle(s, d);
      assert s[..i] == s;
    } else {
      assert s == s[..i] + [d] + s[i + 1..];
      TokensAt(s[..i], d, s[i + 1..]);
      TokensInside(s[i + 1..], d);
    }
  }

  /** A blank in front changes nothing. */
  lemma TokensBehindBlank(s: string, d: char)
    requires d != ' '
    ensures Tokens(" " + s, d) == Tokens(s, d)
  {
    hide Tokens, Trim;
    var i := IndexOf(s, d);
    TrimBehindBlank(s[..i]);
    if i == |s| {
      TokensSingle(s, d);
      TokensSingle(" " + s, d);
      assert s[..i] == s;
    } else {
      assert s == s[..i] + [d] + s[i + 1..] && " " + s == " " + s[..i] + [d] + s[i + 1..];
      TokensAt(s[..i], d, s[i + 1..]);
      TokensAt(" " + s[..i], d, s[i + 1..]);
    }
  }

  lemma TrimBehindBlank(s: string)
    ensures Trim(" " + s) == Trim(s)
  {
    assert (" " + s)[1..] == s;
  }

  lemma TokenIs(piece: string)
    ensures Token(piece) == if Trim(piece) == "" then [] else [Trim(piece)]
    ensures piece == "" ==> Token(piece) == []
  {}

  /** The tokens from beg on, when the piece from there ends at i. */
  lemma TokensFrom(s: string, d: char, beg: nat, i: nat)
    requires beg <= i < |s| && s[i] == d && d !in s[beg..i]
    ensures var piece := Trim(s[beg..i]);
      Tokens(s[beg..], d) == (if piece == "" then [] else [piece]) + Tokens(s[i + 1..], d)
  {
    hide Tokens, Trim;
    assert s[beg..] == s[beg..i] + [d] + s[i + 1..];
    TokensAt(s[beg..i], d, s[i + 1..]);
  }

  lemma TokensLast(s: string, d: char, beg: nat)
    requires beg <= |s| && d !in s[beg..]
    ensures var piece := Trim(s[beg..]); Tokens(s[beg..], d) == if piece == "" then [] else [piece]
    ensures s == "" ==> Tokens(s[beg..], d) == []
  {
    hide Tokens;
    TokensSingle(s[beg..], d);
  }

  lemma TrimSlice(s: string, left0: nat, right0: nat, left: nat, right: nat)
    requires left0 <= left <= right0 && left0 <= right <= right0 <= |s|
    requires forall j :: left0 <= j < left ==> Blank(s[j])
    requires forall j :: right <= j < right0 ==> Blank(s[j])
    requires left < right ==> !Blank(s[left]) && !Blank(s[right - 1])
    ensures left < right ==> Trim(s[left0..right0]) == s[left..right] && s[left..right] != ""
    ensures left >= right ==> Trim(s[left0..right0]) == ""
  {
    hide TrimRight, TrimLeft, Blank;
    var piece := s[left0..right0];
    if left < right {
      TrimLeftAt(piece, left - left0);
      TrimRightAt(piece[left - left0..], right - left);
      assert piece[left - left0..][..right - left] == s[left..right];
    } else {
      forall j | 0 <= j < |piece| ensures Blank(piece[j]) { assert piece[j] == s[left0 + j]; }
      TrimBlank(piece);
    }
  }

  /** The pair of bounds trim computes; the left one may run past the piece's end and the right one below its start. */
  method TrimBounds(s: string, left0: nat, right0: nat) returns (left: nat, right: nat)
    requires left0 <= right0 <= |s|
    ensures left < right ==> left0 <= left && right <= right0 && s[left..right] == Trim(s[left0..right0])
    ensures left >= right ==> Trim(s[left0..right0]) == ""
  {
    hide Trim, Blank;
    left, right := left0, right0;
    while left < |s| && Blank(s[left])
      invariant left0 <= left <= |s|
      invariant forall j :: left0 <= j < left ==> Blank(s[j])
    {
      left := left + 1;
    }
    while right > 0 && Blank(s[right - 1])
      invariant 0 <= right <= right0
      invariant forall j :: right <= j < right0 ==> Blank(s[j])
    {
      right := right - 1;
    }
    if left < right {
      TrimSlice(s, left0, right0, left, right);
    } else {
      assert forall j :: left0 <= j < right0 ==> Blank(s[j]);
      TrimSlice(s, left0, right0, right0, right0);
    }
  }

  /** trim_copy */
  method TrimCopy(s: string) returns (t: string)
    ensures t == Trim(s)
  {
    var left, right := TrimBounds(s, 0, |s|);
    assert s[0..|s|] == s;
    t := if left < right then s[left..right] else "";
  }

  /** Split by one character: trimmed pieces, blank ones skipped, as the callback receives them. */
  method Split(s: string, d: char) returns (tokens: seq<string>)
    ensures tokens == Tokens(s, d)
  {
    hide Tokens, Trim;
    tokens := [];
    var i, beg := 0, 0;
    assert s[0..] == s;
    while i < |s|
      invariant 0 <= beg <= i <= |s|
      invariant d !in s[beg..i]
      invariant tokens + Tokens(s[beg..], d) == Tokens(s, d)
    {
      if s[i] == d {
        TokensFrom(s, d, beg, i);
        var left, right := TrimBounds(s, beg, i);
        if left < right { tokens := tokens + [s[left..right]]; }
        beg := i + 1;
      }
      i := i + 1;
    }
    assert s[beg..i] == s[beg..];
    TokensLast(s, d, beg);
    if i > 0 {
      var left, right := TrimBounds(s, beg, i);
      if left < right { tokens := tokens + [s[left..right]]; }
    }
  }

  // ----- Case -----

  function Lower(c: char): char {
    if 'A' <= c <= 'Z' then c + ('a' - 'A') else c
  }

  /** start_with_case_ignore */
  predicate StartsWithIgnoringCase(s: string, p: string) {
    |p| <= |s| && forall i :: 0 <= i < |p| ==> Lower(s[i]) == Lower(p[i])
  }

  /** compare_case_ignore */
  predicate SameIgnoringCase(a: string, b: string) {
    |a| == |b| && StartsWithIgnoringCase(a, b)
  }
}
