/** PathParamsMatcher of deps/httplib.h: route patterns such as "/users/:id/posts". */
module PathParams {
  import opened Sequences
  import opened Wrappers
  import opened HttpText

  const MARKER := ':'
  const SEPARATOR := '/'

  /** The fixed texts and the parameter names, as the constructor cuts the pattern. A parameter takes the
      separator after it along. */
  datatype Matcher = Matcher(fragments: seq<string>, names: seq<string>)

  // ----- The constructor -----

  /** A pattern up to its first parameter and through the separator after it, if there is one. */
  datatype Front = Plain | Param(pre: string, name: string, tail: Option<string>) {
    function Rest(): string {
      if Plain? || tail.None? then "" else tail.value
    }
  }

  function FrontOf(pattern: string): (f: Front)
    ensures |f.Rest()| < |pattern| || f.Plain?
  {
    var marker := IndexOf(pattern, MARKER);
    if marker == |pattern| then Plain else Named(pattern[..marker], pattern[marker + 1..])
  }

  /** A parameter whose name starts the given rest of the pattern. */
  function Named(pre: string, rest: string): (f: Front)
    ensures |f.Rest()| <= |rest| && f.Param?
  {
    var sep := IndexOf(rest, SEPARATOR);
    Param(pre, rest[..sep], if sep == |rest| then None else Some(rest[sep + 1..]))
  }

  /** The cut of the pattern, without the check for repeated names. */
  function Cut(pattern: string): (m: Matcher)
    ensures |m.names| <= |m.fragments| <= |m.names| + 1
    decreases |pattern|
  {
    match FrontOf(pattern)
    case Plain => Matcher(if pattern == "" then [] else [pattern], [])
    case Param(pre, name, tail) =>
      var m := Cut(FrontOf(pattern).Rest());
      Matcher([pre] + m.fragments, [name] + m.names)
  }

  ghost predicate Distinct(names: seq<string>) {
    forall i, j :: 0 <= i < j < |names| ==> names[i] != names[j]
  }

  /** The cut of what is left of the pattern, put behind what was cut before. */
  ghost function Behind(fragments: seq<string>, names: seq<string>, m: Matcher): Matcher {
    Matcher(fragments + m.fragments, names + m.names)
  }

  lemma BehindNext(fragments: seq<string>, names: seq<string>, fragment: string, name: string, m: Matcher)
    ensures Behind(fragments, names, Matcher([fragment] + m.fragments, [name] + m.names))
         == Behind(fragments + [fragment], names + [name], m)
  {
    assert fragments + ([fragment] + m.fragments) == (fragments + [fragment]) + m.fragments;
    assert names + ([name] + m.names) == (names + [name]) + m.names;
  }

  lemma FrontAt(pattern: string, i: nat)
    requires i <= |pattern|
    ensures var marker := i + IndexOf(pattern[i..], MARKER);
      FrontOf(pattern[i..]) ==
        if marker == |pattern| then Plain else Named(pattern[i..marker], pattern[marker + 1..])
  {
    hide IndexOf, Named;
    var m := IndexOf(pattern[i..], MARKER);
    if i + m < |pattern| {
      SliceFrom(pattern, i, m);
      SliceFrom(pattern, i, m + 1);
    }
  }

  lemma NameAt(pattern: string, pre: string, start: nat)
    requires start <= |pattern|
    ensures var end := start + IndexOf(pattern[start..], SEPARATOR);
      Named(pre, pattern[start..]) ==
        Param(pre, pattern[start..end], if end == |pattern| then None else Some(pattern[end + 1..]))
  {
    hide IndexOf;
    var sep := IndexOf(pattern[start..], SEPARATOR);
    SliceFrom(pattern, start, sep);
    if start + sep < |pattern| { SliceFrom(pattern, start, sep + 1); }
  }

  lemma CutUnfold(pattern: string)
    ensures match FrontOf(pattern) {
      case Plain => Cut(pattern) == Matcher(if pattern == "" then [] else [pattern], [])
      case Param(pre, name, tail) =>
        var m := Cut(FrontOf(pattern).Rest());
        Cut(pattern) == Matcher([pre] + m.fragments, [name] + m.names)
    }
  {
    hide FrontOf;
  }

  function Uncut(s: string, i: nat): string {
    if i <= |s| then s[i..] else ""
  }

  /** The constructor refuses a pattern exactly when a parameter name comes twice. */
  method Construct(pattern: string) returns (matcher: Option<Matcher>)
    ensures matcher == if Distinct(Cut(pattern).names) then Some(Cut(pattern)) else None
  {
    hide Cut, Behind, Distinct, FrontOf, IndexOf, Named;
    var fragments: seq<string>, names: seq<string> := [], [];
    var nameSet: set<string> := {};
    var lastParamEnd := 0;
    BehindNothing(pattern);
    DistinctNothing();
    while lastParamEnd <= |pattern|
      invariant 0 <= lastParamEnd
      invariant Distinct(names) && (forall n :: n in nameSet <==> n in names)
      invariant Cut(pattern) == Behind(fragments, names, Cut(Uncut(pattern, lastParamEnd)))
      decreases |pattern| + 1 - lastParamEnd
    {
      CutUnfold(pattern[lastParamEnd..]);
      FrontAt(pattern, lastParamEnd);
      var marker := lastParamEnd + IndexOf(pattern[lastParamEnd..], MARKER);
      if marker == |pattern| { break; }
      var nameStart := marker + 1;
      NameAt(pattern, pattern[lastParamEnd..marker], nameStart);
      var sep := nameStart + IndexOf(pattern[nameStart..], SEPARATOR);
      var fragment, name := pattern[lastParamEnd..marker], pattern[nameStart..sep];
      ghost var rest := Cut(Uncut(pattern, sep + 1));
      BehindNext(fragments, names, fragment, name, rest);
      fragments := fragments + [fragment];
      OneMoreName(names, name, Cut(pattern).names, fragments, rest);
      if name in nameSet {
        return None;
      }
      nameSet := nameSet + {name};
      names := names + [name];
      lastParamEnd := sep + 1;
    }
    CutLast(pattern, lastParamEnd, fragments, names);
    if lastParamEnd < |pattern| {
      fragments := fragments + [pattern[lastParamEnd..]];
    }
    return Some(Matcher(fragments, names));
  }

  lemma DistinctNothing()
    ensures Distinct([])
  {}

  lemma BehindNothing(pattern: string)
    ensures Cut(pattern) == Behind([], [], Cut(Uncut(pattern, 0)))
  {
    var m := Cut(pattern);
    assert pattern[0..] == pattern && [] + m.fragments == m.fragments && [] + m.names == m.names;
  }

  lemma OneMoreName(names: seq<string>, name: string, all: seq<string>, fragments: seq<string>, m: Matcher)
    requires Distinct(names) && all == Behind(fragments, names + [name], m).names
    ensures if name in names then !Distinct(all) else Distinct(names + [name])
  {
    if name in names {
      var i :| 0 <= i < |names| && names[i] == name;
      assert all[i] == name && all[|names|] == name;
    }
  }

  lemma CutLast(pattern: string, i: nat, fragments: seq<string>, names: seq<string>)
    requires i <= |pattern| ==> FrontOf(pattern[i..]) == Plain
    ensures Behind(fragments, names, Cut(Uncut(pattern, i)))
         == Matcher(if i < |pattern| then fragments + [pattern[i..]] else fragments, names)
  {
    assert Cut("") == Matcher([], []);
    assert fragments + [] == fragments && names + [] == names;
  }

  // ----- Matching -----

  /** What strncmp sees of two texts of one length: nothing behind a NUL. */
  predicate SameToNul(a: string, b: string)
    requires |a| == |b|
  {
    var k := IndexOf(b, '\0');
    if k == |b| then a == b else a[..k + 1] == b[..k + 1]
  }

  /** The values of the parameters when the rest of the path matches. The rest is None when the last
      parameter ran to the end of the path, so that matching would go on past it. */
  function Values(fragments: seq<string>, count: nat, rest: Option<string>): Option<seq<string>>
    decreases |fragments|
  {
    if fragments == [] then
      if rest.None? || rest.value == "" then Some([]) else None
    else if rest.None? then None
    else
      var t, n := rest.value, |fragments[0]|;
      if n > |t| || !SameToNul(t[..n], fragments[0]) then None
      else if count == 0 then Values(fragments[1..], 0, Some(t[n..]))
      else
        var u := t[n..];
        var sep := IndexOf(u, SEPARATOR);
        PutBefore([u[..sep]], Values(fragments[1..], count - 1, if sep == |u| then None else Some(u[sep + 1..])))
  }

  function PutBefore(values: seq<string>, more: Option<seq<string>>): Option<seq<string>> {
    if more.None? then None else Some(values + more.value)
  }

  /** The values of all parameters, in order, when the whole path matches. */
  function Match(m: Matcher, path: string): Option<seq<string>> {
    Values(m.fragments, |m.names|, Some(path))
  }

  function Rest(path: string, pos: nat): Option<string> {
    if pos <= |path| then Some(path[pos..]) else None
  }

  /** match: fills the parameter map and returns whether the path matches. */
  method MatchPath(m: Matcher, path: string) returns (ok: bool, params: map<string, string>)
    requires |m.names| <= |m.fragments| && Distinct(m.names)
    ensures ok == Match(m, path).Some?
    ensures ok ==> |Match(m, path).value| == |m.names| && Filled(params, m.names, Match(m, path).value)
  {
    hide Values, Distinct, SameToNul, Filled, PutBefore, IndexOf;
    params := map[];
    ghost var goal, values: seq<string> := Match(m, path), [];
    var pos := 0;
    var i := 0;
    assert m.fragments[0..] == m.fragments && path[0..] == path;
    MatchStarts(params, goal);
    while i < |m.fragments|
      invariant 0 <= i <= |m.fragments| && 0 <= pos
      invariant |values| == (if i < |m.names| then i else |m.names|) && Filled(params, m.names[..|values|], values)
      invariant goal == PutBefore(values, Values(m.fragments[i..], |m.names| - |values|, Rest(path, pos)))
    {
      var fragment := m.fragments[i];
      ValuesUnfold(m.fragments, i, |m.names| - |values|, path, pos);
      if pos + |fragment| > |path| { return false, params; }
      if !SameToNul(path[pos..pos + |fragment|], fragment) { return false, params; }
      pos := pos + |fragment|;
      if i < |m.names| {
        var sep := pos + IndexOf(path[pos..], SEPARATOR);
        var value := path[pos..sep];
        PutBeforeOne(values, value, Values(m.fragments[i + 1..], |m.names| - |values| - 1, Rest(path, sep + 1)));
        FilledMore(params, m.names, values, value);
        params := params[m.names[i] := value];
        values := values + [value];
        pos := sep + 1;
      }
      i := i + 1;
    }
    ValuesEnd(path, pos, values);
    assert m.fragments[i..] == [] && m.names[..|values|] == m.names;
    return pos >= |path|, params;
  }

  /** The map sends every name to its value. */
  ghost predicate Filled(params: map<string, string>, names: seq<string>, values: seq<string>)
    requires |names| == |values|
  {
    && (forall n :: n in params <==> n in names)
    && (forall i :: 0 <= i < |names| ==> names[i] in params && params[names[i]] == values[i])
  }

  lemma FilledMore(params: map<string, string>, names: seq<string>, values: seq<string>, value: string)
    requires |values| < |names| && Distinct(names) && Filled(params, names[..|values|], values)
    ensures Filled(params[names[|values|] := value], names[..|values| + 1], values + [value])
  {
    assert names[..|values| + 1] == names[..|values|] + [names[|values|]];
  }

  lemma PutBeforeOne(values: seq<string>, value: string, more: Option<seq<string>>)
    ensures PutBefore(values, PutBefore([value], more)) == PutBefore(values + [value], more)
  {
    if more.Some? { assert values + ([value] + more.value) == (values + [value]) + more.value; }
  }

  lemma ValuesStep(fragments: seq<string>, count: nat, t: string)
    requires fragments != []
    ensures var n := |fragments[0]|;
      Values(fragments, count, Some(t)) ==
        if n > |t| || !SameToNul(t[..n], fragments[0]) then None
        else if count == 0 then Values(fragments[1..], 0, Some(t[n..]))
        else
          var u := t[n..];
          var sep := IndexOf(u, SEPARATOR);
          PutBefore([u[..sep]], Values(fragments[1..], count - 1, Rest(u, sep + 1)))
  {
    hide SameToNul, IndexOf, PutBefore;
  }

  lemma RestFrom(path: string, pos: nat, k: nat)
    ensures pos <= |path| ==> Rest(path[pos..], k) == Rest(path, pos + k) && Rest(path, pos) == Some(path[pos..])
    ensures pos > |path| ==> Rest(path, pos) == None
  {
    if pos + k <= |path| { SliceFrom(path, pos, k); }
  }

  lemma NothingLeft(fragments: seq<string>, count: nat)
    requires fragments != []
    ensures Values(fragments, count, None) == None
  {}

  lemma ValuesUnfold(fragments: seq<string>, i: nat, count: nat, path: string, pos: nat)
    requires i < |fragments|
    ensures var at := pos + |fragments[i]|;
      Values(fragments[i..], count, Rest(path, pos)) ==
        if at > |path| || !SameToNul(path[pos..at], fragments[i]) then None
        else if count == 0 then Values(fragments[i + 1..], 0, Rest(path, at))
        else
          var sep := at + IndexOf(path[at..], SEPARATOR);
          PutBefore([path[at..sep]], Values(fragments[i + 1..], count - 1, Rest(path, sep + 1)))
  {
    hide *;
    var n := |fragments[i]|;
    assert fragments[i..][1..] == fragments[i + 1..] && fragments[i..][0] == fragments[i];
    RestFrom(path, pos, n);
    if pos > |path| {
      NothingLeft(fragments[i..], count);
    } else {
      ValuesStep(fragments[i..], count, path[pos..]);
      if pos + n <= |path| {
        SliceFrom(path, pos, n);
        var at := pos + n;
        var sep := IndexOf(path[at..], SEPARATOR);
        SliceFrom(path, at, sep);
        RestFrom(path, at, sep + 1);
      }
    }
  }

  lemma MatchStarts(params: map<string, string>, goal: Option<seq<string>>)
    requires params == map[]
    ensures Filled(params, [], []) && goal == PutBefore([], goal)
    ensures forall values: seq<string> :: PutBefore(values, None) == None
  {
    if goal.Some? { assert [] + goal.value == goal.value; }
  }

  lemma ValuesEnd(path: string, pos: nat, values: seq<string>)
    ensures PutBefore(values, Values([], 0, Rest(path, pos))) == if pos >= |path| then Some(values) else None
  {
    assert values + [] == values;
  }

  // ----- Substituting -----

  /** The pattern with every parameter replaced by its value. */
  function Substituted(pattern: string, values: seq<string>): string
    requires |values| == |Cut(pattern).names|
    decreases |pattern|
  {
    match FrontOf(pattern)
    case Plain => pattern
    case Param(pre, name, tail) =>
      pre + (values[0] + if tail.None? then "" else [SEPARATOR] + Substituted(FrontOf(pattern).Rest(), values[1..]))
  }

  /** The same without a separator that ends the pattern right after a parameter. */
  function Stem(pattern: string, values: seq<string>): string
    requires |values| == |Cut(pattern).names|
    decreases |pattern|
  {
    match FrontOf(pattern)
    case Plain => pattern
    case Param(pre, name, tail) =>
      var rest := FrontOf(pattern).Rest();
      pre + (values[0] + if rest == "" then "" else [SEPARATOR] + Stem(rest, values[1..]))
  }

  ghost predicate PlainValues(values: seq<string>) {
    forall i :: 0 <= i < |values| ==> SEPARATOR !in values[i]
  }

  /** Nothing but perhaps one separator follows the last parameter. */
  predicate EndsInParam(pattern: string) {
    Cut(pattern).names != [] && |Cut(pattern).names| == |Cut(pattern).fragments|
  }

  ghost predicate Fits(pattern: string, values: seq<string>, path: string)
    requires |values| == |Cut(pattern).names|
  {
    path == Stem(pattern, values) || (EndsInParam(pattern) && path == Stem(pattern, values) + [SEPARATOR])
  }

  /** strncmp compares the whole text: no NUL stands before its last character. */
  predicate WholeCompared(fragment: string) {
    IndexOf(fragment, '\0') + 1 >= |fragment|
  }

  ghost predicate AllCompared(pattern: string) {
    forall i :: 0 <= i < |Cut(pattern).fragments| ==> WholeCompared(Cut(pattern).fragments[i])
  }

  lemma SameIff(a: string, b: string)
    requires |a| == |b|
    ensures WholeCompared(b) ==> (SameToNul(a, b) <==> a == b)
    ensures a == b ==> SameToNul(a, b)
  {
    var k := IndexOf(b, '\0');
    if k < |b| && k + 1 == |b| { assert a[..k + 1] == a && b[..k + 1] == b; }
  }

  lemma CutEmpty(pattern: string)
    ensures Cut(pattern).fragments == [] <==> pattern == ""
    ensures pattern == "" ==> Cut(pattern).names == []
  {}

  /** What may follow the text before the first parameter. */
  ghost predicate FitsAfter(pattern: string, values: seq<string>, u: string)
    requires FrontOf(pattern).Param? && |values| == |Cut(pattern).names|
  {
    var v, rest := values[0], FrontOf(pattern).Rest();
    if rest == "" then u == v || u == v + [SEPARATOR]
    else
      && |v| < |u| && u[..|v|] == v && u[|v|] == SEPARATOR
      && Fits(rest, values[1..], u[|v| + 1..])
  }

  lemma Joined(path: string, pre: string, w: string)
    ensures path == pre + w <==> |pre| <= |path| && path[..|pre|] == pre && path[|pre|..] == w
  {
    if |pre| <= |path| { assert path == path[..|pre|] + path[|pre|..]; }
  }

  lemma FitsUnfold(pattern: string, values: seq<string>, path: string)
    requires FrontOf(pattern).Param? && |values| == |Cut(pattern).names|
    ensures var pre := FrontOf(pattern).pre;
      Fits(pattern, values, path) <==>
        |pre| <= |path| && path[..|pre|] == pre && FitsAfter(pattern, values, path[|pre|..])
  {
    hide FrontOf;
    var f := FrontOf(pattern);
    var pre, v, rest := f.pre, values[0], f.Rest();
    CutUnfold(pattern);
    CutEmpty(rest);
    var more := if rest == "" then "" else [SEPARATOR] + Stem(rest, values[1..]);
    assert Stem(pattern, values) == pre + (v + more);
    assert (pre + (v + more)) + [SEPARATOR] == pre + (v + (more + [SEPARATOR]));
    Joined(path, pre, v + more);
    Joined(path, pre, v + (more + [SEPARATOR]));
    assert v + "" == v && "" + [SEPARATOR] == [SEPARATOR];
    if |pre| <= |path| && rest != "" {
      var u := path[|pre|..];
      Joined(u, v, more);
      Joined(u, v, more + [SEPARATOR]);
      if |v| <= |u| {
        var stem := Stem(rest, values[1..]);
        assert more + [SEPARATOR] == [SEPARATOR] + (stem + [SEPARATOR]);
        Joined(u[|v|..], [SEPARATOR], stem);
        Joined(u[|v|..], [SEPARATOR], stem + [SEPARATOR]);
        if |v| < |u| {
          assert u[|v|..][1..] == u[|v| + 1..] && u[|v|..][..1] == [u[|v|]];
        }
      }
    }
  }

  /** The values when the text in front of a parameter is gone. */
  function MatchAfter(rest: Matcher, u: string): Option<seq<string>> {
    PutBefore([u[..IndexOf(u, SEPARATOR)]], MatchBehind(rest, u))
  }

  /** The values of the parameters behind the first. */
  function MatchBehind(rest: Matcher, u: string): Option<seq<string>> {
    var sep := IndexOf(u, SEPARATOR);
    if sep < |u| then Match(rest, u[sep + 1..]) else if rest.fragments == [] then Some([]) else None
  }

  lemma MatchUnfold(pattern: string, path: string)
    requires FrontOf(pattern).Param?
    ensures var pre, rest := FrontOf(pattern).pre, Cut(FrontOf(pattern).Rest());
      Match(Cut(pattern), path) ==
        if |pre| > |path| || !SameToNul(path[..|pre|], pre) then None else MatchAfter(rest, path[|pre|..])
  {
    hide FrontOf, IndexOf, SameToNul, PutBefore;
    CutUnfold(pattern);
    var m, rest := Cut(pattern), Cut(FrontOf(pattern).Rest());
    assert m.fragments == [FrontOf(pattern).pre] + rest.fragments && |m.names| == |rest.names| + 1;
    assert m.fragments[1..] == rest.fragments;
    assert Values(rest.fragments, |rest.names|, None) == if rest.fragments == [] then Some([]) else None;
  }

  lemma PutBeforeIs(a: string, more: Option<seq<string>>, values: seq<string>)
    requires values != []
    ensures PutBefore([a], more) == Some(values) <==> a == values[0] && more == Some(values[1..])
  {
    assert values == [values[0]] + values[1..];
    if more.Some? { assert ([a] + more.value)[1..] == more.value; }
  }

  lemma AfterIff(pattern: string, values: seq<string>, u: string)
    requires |values| == |Cut(pattern).names| && PlainValues(values) && FrontOf(pattern).Param?
    ensures FitsAfter(pattern, values, u) ==> MatchAfter(Cut(FrontOf(pattern).Rest()), u) == Some(values)
    ensures AllCompared(FrontOf(pattern).Rest()) && MatchAfter(Cut(FrontOf(pattern).Rest()), u) == Some(values) ==>
              FitsAfter(pattern, values, u)
    decreases |pattern|, 0
  {
    hide FrontOf, SameToNul, Fits, Match, Cut, IndexOf, PutBefore;
    CutUnfold(pattern);
    var v, rest, more, sep := values[0], FrontOf(pattern).Rest(), values[1..], IndexOf(u, SEPARATOR);
    CutEmpty(rest);
    PutBeforeIs(u[..sep], MatchBehind(Cut(rest), u), values);
    if |v| < |u| && u[..|v|] == v && u[|v|] == SEPARATOR {
      MatchIff(rest, more, u[|v| + 1..]);
      FitsEmpty(more, u[|v| + 1..]);
    }
  }

  lemma ParamIff(pattern: string, values: seq<string>, path: string)
    requires |values| == |Cut(pattern).names| && PlainValues(values) && FrontOf(pattern).Param?
    ensures Fits(pattern, values, path) ==> Match(Cut(pattern), path) == Some(values)
    ensures AllCompared(pattern) && Match(Cut(pattern), path) == Some(values) ==> Fits(pattern, values, path)
    decreases |pattern|, 1
  {
    hide *;
    ComparedInside(pattern);
    FitsUnfold(pattern, values, path);
    MatchUnfold(pattern, path);
    var pre := FrontOf(pattern).pre;
    if |pre| <= |path| {
      SameIff(path[..|pre|], pre);
      AfterIff(pattern, values, path[|pre|..]);
    }
  }

  lemma ComparedInside(pattern: string)
    requires FrontOf(pattern).Param?
    ensures AllCompared(pattern) <==> WholeCompared(FrontOf(pattern).pre) && AllCompared(FrontOf(pattern).Rest())
  {
    hide FrontOf, Cut, WholeCompared;
    CutUnfold(pattern);
    var pre, rest := FrontOf(pattern).pre, Cut(FrontOf(pattern).Rest()).fragments;
    var all := Cut(pattern).fragments;
    assert all == [pre] + rest && all[0] == pre;
    assert forall i :: 0 <= i < |rest| ==> all[i + 1] == rest[i];
    assert forall i :: 1 <= i < |all| ==> all[i] == rest[i - 1];
  }

  lemma ComparedPlain(pattern: string)
    requires FrontOf(pattern).Plain?
    ensures AllCompared(pattern) <==> WholeCompared(pattern)
  {
    hide FrontOf, WholeCompared;
    if pattern != "" { assert Cut(pattern).fragments[0] == pattern; }
    EmptyCompared();
  }

  lemma EmptyCompared()
    ensures WholeCompared("")
  {}

  lemma FitsEmpty(values: seq<string>, path: string)
    ensures |values| == |Cut("").names| ==> (Fits("", values, path) <==> path == "")
  {}

  /** A path matches with the given values exactly when it is the pattern with the values put in, up to one
      separator at its end when the pattern ends with a parameter. */
  lemma {:induction false} MatchIff(pattern: string, values: seq<string>, path: string)
    requires |values| == |Cut(pattern).names| && PlainValues(values)
    ensures Fits(pattern, values, path) ==> Match(Cut(pattern), path) == Some(values)
    ensures AllCompared(pattern) && Match(Cut(pattern), path) == Some(values) ==> Fits(pattern, values, path)
    decreases |pattern|, 2
  {
    hide FrontOf, IndexOf, SameToNul;
    match FrontOf(pattern)
    case Plain => PlainIff(pattern, path);
    case Param(pre, name, tail) => ParamIff(pattern, values, path);
  }

  lemma PlainIff(pattern: string, path: string)
    requires FrontOf(pattern).Plain?
    ensures path == pattern ==> Match(Cut(pattern), path) == Some([])
    ensures AllCompared(pattern) && Match(Cut(pattern), path) == Some([]) ==> path == pattern
    ensures Cut(pattern).names == [] && Stem(pattern, []) == pattern
  {
    hide FrontOf, IndexOf, SameToNul;
    var m, n := Cut(pattern), |pattern|;
    ComparedPlain(pattern);
    if pattern != "" {
      assert m.fragments == [pattern] && m.fragments[1..] == [];
      if n <= |path| {
        SameIff(path[..n], pattern);
        assert path == path[..n] + path[n..];
        assert path == pattern ==> path[..n] == pattern && path[n..] == "";
        assert path[n..] == "" ==> path == path[..n];
        assert Values([], 0, Some(path[n..])) == if path[n..] == "" then Some([]) else None;
      }
    }
  }

  /** What the substitution puts behind the text in front of a parameter. */
  function SubstitutedAfter(pattern: string, values: seq<string>): string
    requires |values| == |Cut(pattern).names| && FrontOf(pattern).Param?
  {
    var f := FrontOf(pattern);
    values[0] + if f.tail.None? then "" else [SEPARATOR] + Substituted(f.Rest(), values[1..])
  }

  lemma {:induction false} SubstitutedFits(pattern: string, values: seq<string>)
    requires |values| == |Cut(pattern).names|
    ensures Fits(pattern, values, Substituted(pattern, values))
    decreases |pattern|
  {
    hide FrontOf;
    match FrontOf(pattern)
    case Plain =>
    case Param(pre, name, tail) =>
      CutUnfold(pattern);
      SubstitutedFits(FrontOf(pattern).Rest(), values[1..]);
      hide *;
      var path, u := Substituted(pattern, values), SubstitutedAfter(pattern, values);
      FitsUnfold(pattern, values, path);
      Joined(path, pre, u);
  }

  // ----- Which patterns match more than they should -----

  lemma ChangedAtEnd(fragment: string, path: string) returns (other: string)
    requires !WholeCompared(fragment) && fragment <= path
    ensures |other| == |path| && other[|fragment|..] == path[|fragment|..]
    ensures other[..|fragment|] != fragment && SameToNul(other[..|fragment|], fragment)
  {
    var last := |fragment| - 1;
    other := path[last := if path[last] == 'x' then 'y' else 'x'];
    assert other[..|fragment|][last] != fragment[last];
    var k := IndexOf(fragment, '\0') + 1;
    assert other[..|fragment|][..k] == fragment[..k];
  }

  lemma FrontLoose(pattern: string) returns (values: seq<string>, path: string)
    requires FrontOf(pattern).Param? && !WholeCompared(FrontOf(pattern).pre)
    ensures |values| == |Cut(pattern).names| && PlainValues(values)
    ensures Match(Cut(pattern), path) == Some(values) && !Fits(pattern, values, path)
  {
    values := seq(|Cut(pattern).names|, _ => "");
    hide *;
    var pre, good := FrontOf(pattern).pre, Substituted(pattern, values);
    SubstitutedFits(pattern, values);
    FitsUnfold(pattern, values, good);
    path := ChangedAtEnd(pre, good);
    FitsUnfold(pattern, values, path);
    MatchUnfold(pattern, path);
    AfterIff(pattern, values, good[|pre|..]);
  }

  lemma RestLoose(pattern: string, more: seq<string>, rest: string)
    requires FrontOf(pattern).Param? && FrontOf(pattern).Rest() != "" && |more| == |Cut(FrontOf(pattern).Rest()).names|
    requires Match(Cut(FrontOf(pattern).Rest()), rest) == Some(more) && !Fits(FrontOf(pattern).Rest(), more, rest)
    ensures |[""] + more| == |Cut(pattern).names|
    ensures var path := FrontOf(pattern).pre + ([SEPARATOR] + rest);
      Match(Cut(pattern), path) == Some([""] + more) && !Fits(pattern, [""] + more, path)
  {
    CutUnfold(pattern);
    hide FrontOf, Cut, Fits, Match, SameToNul;
    var pre, u, values := FrontOf(pattern).pre, [SEPARATOR] + rest, [""] + more;
    var path := pre + u;
    assert path[..|pre|] == pre && path[|pre|..] == u && u[1..] == rest && u[..0] == "" && values[1..] == more;
    MatchUnfold(pattern, path);
    FitsUnfold(pattern, values, path);
    SameIff(pre, pre);
    IndexOfIs(u, SEPARATOR, 0);
  }

  /** A pattern with a NUL before the last character of a fixed text is matched by a path that does not fit it. */
  lemma {:induction false} OtherPath(pattern: string) returns (values: seq<string>, path: string)
    requires !AllCompared(pattern)
    ensures |values| == |Cut(pattern).names| && PlainValues(values)
    ensures Match(Cut(pattern), path) == Some(values) && !Fits(pattern, values, path)
    decreases |pattern|
  {
    hide FrontOf, Cut, Fits, Match, WholeCompared, AllCompared;
    if FrontOf(pattern).Plain? {
      ComparedPlain(pattern);
      values := [];
      path := ChangedAtEnd(pattern, pattern);
      PlainLoose(pattern, path);
    } else if !WholeCompared(FrontOf(pattern).pre) {
      values, path := FrontLoose(pattern);
    } else {
      ComparedInside(pattern);
      EmptyAllCompared();
      var more, rest := OtherPath(FrontOf(pattern).Rest());
      RestLoose(pattern, more, rest);
      values, path := [""] + more, FrontOf(pattern).pre + ([SEPARATOR] + rest);
    }
  }

  lemma EmptyAllCompared()
    ensures AllCompared("")
  {}

  lemma PlainLoose(pattern: string, path: string)
    requires FrontOf(pattern).Plain? && pattern != ""
    requires |path| == |pattern| && path != pattern && SameToNul(path, pattern)
    ensures |Cut(pattern).names| == 0 && Match(Cut(pattern), path) == Some([]) && !Fits(pattern, [], path)
  {
    hide FrontOf, SameToNul;
    var m := Cut(pattern);
    assert m.fragments == [pattern] && m.fragments[1..] == [];
    assert path[..|pattern|] == path && path[|pattern|..] == "";
    assert Values([], 0, Some("")) == Some([]) && Values(m.fragments, 0, Some(path)) == Values([], 0, Some(""));
  }

  /** Only paths that fit the pattern match it, exactly when no fixed text of it has a NUL before its last character. */
  lemma MatchesOnlyFittingIff(pattern: string)
    ensures AllCompared(pattern) <==>
      forall values, path ::
        |values| == |Cut(pattern).names| && PlainValues(values) && Match(Cut(pattern), path) == Some(values) ==>
          Fits(pattern, values, path)
  {
    hide Cut, Match, AllCompared, PlainValues;
    if AllCompared(pattern) {
      forall values, path
        | |values| == |Cut(pattern).names| && PlainValues(values) && Match(Cut(pattern), path) == Some(values)
        ensures Fits(pattern, values, path)
      {
        MatchIff(pattern, values, path);
      }
    } else {
      var values, path := OtherPath(pattern);
    }
  }

  /** Behind a NUL another character matches. */
  lemma NulHidesTheRest()
    ensures Match(Cut("a\0b"), "a\0c") == Some([]) && !Fits("a\0b", [], "a\0c")
  {
    var pattern, path := "a\0b", "a\0c";
    IndexOfIs(pattern, '\0', 1);
    assert path[..2] == pattern[..2] && path[1] != MARKER && FrontOf(pattern).Plain?;
    PlainLoose(pattern, path);
  }

  /** The path made from a pattern and values without a separator matches and gives those values back. */
  lemma RoundTrip(pattern: string, values: seq<string>)
    requires |values| == |Cut(pattern).names| && PlainValues(values)
    ensures Match(Cut(pattern), Substituted(pattern, values)) == Some(values)
  {
    SubstitutedFits(pattern, values);
    MatchIff(pattern, values, Substituted(pattern, values));
  }

  // ----- In characters -----

  /** A colon begins a parameter, whose name ends at a slash or at the end of the pattern. */
  lemma CutIs(pre: string, name: string, rest: string)
    requires ':' !in pre && '/' !in name
    ensures Cut(pre) == Matcher(if pre == "" then [] else [pre], [])
    ensures Cut(pre + ":" + name) == Matcher([pre], [name])
    ensures Cut(pre + ":" + name + "/" + rest) == Matcher([pre] + Cut(rest).fragments, [name] + Cut(rest).names)
  {
    FrontIs(pre, name, rest);
    CutUnfold(pre);
    CutUnfold(pre + ":" + name);
    CutUnfold(pre + ":" + name + "/" + rest);
    CutNothing();
    hide FrontOf, Cut;
  }

  lemma FrontIs(pre: string, name: string, rest: string)
    requires ':' !in pre && '/' !in name
    ensures FrontOf(pre) == Plain
    ensures FrontOf(pre + ":" + name) == Param(pre, name, None)
    ensures FrontOf(pre + ":" + name + "/" + rest) == Param(pre, name, Some(rest))
  {
    var short, long := pre + ":" + name, pre + ":" + name + "/" + rest;
    var tail := name + "/" + rest;
    assert short[..|pre|] == pre && short[|pre| + 1..] == name;
    assert long[..|pre|] == pre && long[|pre| + 1..] == tail;
    assert tail[..|name|] == name && tail[|name| + 1..] == rest;
    IndexOfIs(pre, ':', |pre|);
    IndexOfIs(short, ':', |pre|);
    IndexOfIs(long, ':', |pre|);
    IndexOfIs(name, '/', |name|);
    IndexOfIs(tail, '/', |name|);
    assert name[..|name|] == name;
    hide IndexOf;
  }

  lemma CutNothing()
    ensures Cut("") == Matcher([], [])
  {
    IndexOfIs("", ':', 0);
  }

  /** Values take the places of the parameters, with the slash behind a name kept. */
  lemma SubstitutedIs(pre: string, name: string, rest: string, value: string, values: seq<string>)
    requires ':' !in pre && '/' !in name && |values| == |Cut(rest).names|
    ensures |Cut(pre).names| == 0 && Substituted(pre, []) == pre
    ensures |Cut(pre + ":" + name).names| == 1 && Substituted(pre + ":" + name, [value]) == pre + value
    ensures |Cut(pre + ":" + name + "/" + rest).names| == |[value] + values|
    ensures Substituted(pre + ":" + name + "/" + rest, [value] + values) ==
      pre + (value + ("/" + Substituted(rest, values)))
  {
    CutIs(pre, name, rest);
    FrontIs(pre, name, rest);
    hide FrontOf, Cut;
    assert ([value] + values)[1..] == values && value + "" == value;
    assert FrontOf(pre + ":" + name + "/" + rest).Rest() == rest;
  }
}
