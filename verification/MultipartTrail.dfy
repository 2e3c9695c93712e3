/** Where the parser has been: for any body and any way to cut it, the contents collected stand in the body in order,
    with delimiters and the headers of the next item between them. */
module MultipartTrail {
  import opened Wrappers
  import opened Sequences
  import opened HttpText
  import opened MultipartSpec
  import opened MultipartRoundTrip

  /** The place of a content in the whole body. */
  datatype Span = Span(start: nat, end: nat)

  /** The spans of the contents collected since an entry began at `base`. */
  datatype Trail = Trail(text: string, boundary: string, base: nat, spans: seq<Span>) {
    function Needle(): (needle: string)
      ensures |needle| == |boundary| + 4
    {
      Delimiter(boundary)
    }

    function Last(): Span
      requires spans != []
    {
      spans[|spans| - 1]
    }

    predicate Closed(span: Span) {
      OccursAt(text, Needle(), span.end)
    }

    predicate Dashed(span: Span) {
      span.end + |Needle()| < |text| && text[span.end + |Needle()|] == '-'
    }

    /** The first place at which an entry can begin behind the span's delimiter. */
    function NextEntry(span: Span): nat {
      span.end + |Needle()| + if Dashed(span) then 4 else 2
    }

    ghost predicate Chained() {
      && (spans != [] ==> base + 2 <= spans[0].start)
      && forall i :: 0 <= i < |spans| - 1 ==> Closed(spans[i]) && NextEntry(spans[i]) + 2 <= spans[i + 1].start
    }

    predicate Holds(span: Span, item: Item) {
      && 2 <= span.start <= span.end <= |text|
      && text[span.start - 2..span.start] == CRLF && item.content == text[span.start..span.end]
    }

    ghost predicate HoldsAll(items: seq<Item>) {
      |items| == |spans| && forall i :: 0 <= i < |spans| ==> Holds(spans[i], items[i])
    }
  }

  ghost predicate IsRest(text: string, rest: string) {
    |rest| <= |text| && text[|text| - |rest|..] == rest
  }

  /** What a header gives the first item, read from the file so far: None when it is refused or not complete. */
  function FirstFile(file: File, text: string): Option<File>
    decreases |text|
  {
    var pos := Find(text, CRLF);
    if pos == |text| then None
    else if pos == 0 then Some(file)
    else
      var (next, ok) := AfterLine(file, text[..pos]);
      if ok then FirstFile(next, text[pos + 2..]) else None
  }

  /** The place of the parser fits the spans. */
  ghost predicate PhaseFits(t: Trail, phase: Phase, rest: string)
    requires IsRest(t.text, rest)
  {
    var pos, d := |t.text| - |rest|, |t.Needle()|;
    match phase
    case InitialBoundary => false
    case NewEntry => if t.spans == [] then t.base <= pos else t.Closed(t.Last()) && t.NextEntry(t.Last()) <= pos
    case Headers => if t.spans == [] then t.base <= pos else t.Closed(t.Last()) && t.NextEntry(t.Last()) <= pos
    case Body =>
      && t.spans != [] && t.Last().end == pos && (pos == t.Last().start || |rest| >= d)
      && forall i :: t.Last().start <= i < pos ==> !OccursAt(t.text, t.Needle(), i)
    case Boundary =>
      && t.spans != [] && t.Closed(t.Last())
      && (pos == t.Last().end + d || (t.Dashed(t.Last()) && pos >= t.Last().end + d + 2))
  }

  /** The first item has the file its header gives. */
  ghost predicate FileFits(t: Trail, p: Parser, rest: string)
    requires t.base <= |t.text|
  {
    var goal := FirstFile(EMPTY_FILE, t.text[t.base..]);
    if t.spans != [] then Collected(p.events) != [] && goal == Some(Collected(p.events)[0].file)
    else
      && (p.phase == NewEntry ==> FirstFile(EMPTY_FILE, rest) == goal)
      && (p.phase == Headers ==> FirstFile(p.file, rest) == goal)
  }

  ghost predicate ValidFits(t: Trail, p: Parser) {
    p.valid ==> t.spans != [] && (p.phase == Body ==> |t.spans| >= 2)
  }

  ghost predicate Track(t: Trail, p: Parser, future: string) {
    && t.base <= |t.text| && IsRest(t.text, p.buf + future)
    && t.Chained() && t.HoldsAll(Collected(p.events))
    && PhaseFits(t, p.phase, p.buf + future) && FileFits(t, p, p.buf + future) && ValidFits(t, p)
  }

  /** The same body and entry. */
  predicate Follows(u: Trail, t: Trail) {
    u.text == t.text && u.boundary == t.boundary && u.base == t.base
  }

  // ----- Texts -----

  lemma RestDrop(text: string, buf: string, future: string, n: nat)
    requires IsRest(text, buf + future) && n <= |buf|
    ensures IsRest(text, buf[n..] + future)
    ensures var pos := |text| - |buf + future|;
      text[pos..pos + n] == buf[..n] && |buf[n..] + future| == |text| - pos - n
  {
    var rest := buf + future;
    var pos := |text| - |rest|;
    assert rest[n..] == buf[n..] + future && rest[..n] == buf[..n];
    SliceFrom(text, pos, n);
  }

  lemma OccursInRest(text: string, buf: string, future: string, needle: string, k: nat)
    requires IsRest(text, buf + future) && k + |needle| <= |buf|
    ensures OccursAt(buf, needle, k) <==> OccursAt(text, needle, |text| - |buf + future| + k)
  {
    var rest := buf + future;
    var pos := |text| - |rest|;
    assert rest[k..k + |needle|] == buf[k..k + |needle|];
    assert text[pos..][k..k + |needle|] == text[pos + k..pos + k + |needle|];
  }

  lemma FindMore(buf: string, future: string, needle: string)
    requires needle != "" && Find(buf, needle) < |buf|
    ensures Find(buf + future, needle) == Find(buf, needle)
  {
    hide Find;
    var k, all := Find(buf, needle), buf + future;
    assert all[k..k + |needle|] == buf[k..k + |needle|];
    forall i: nat | i < k ensures !OccursAt(all, needle, i) {
      assert i + |needle| <= |buf| ==> all[i..i + |needle|] == buf[i..i + |needle|];
      assert !OccursAt(buf, needle, i);
    }
    FindIs(all, needle, k);
  }

  lemma FirstFileUnfold(file: File, buf: string, future: string)
    requires Find(buf, CRLF) < |buf|
    ensures var pos := Find(buf, CRLF);
      FirstFile(file, buf + future) ==
        if pos == 0 then Some(file)
        else
          var (next, ok) := AfterLine(file, buf[..pos]);
          if ok then FirstFile(next, buf[pos + 2..] + future) else None
  {
    hide Find, AfterLine, OccursAt;
    var pos := Find(buf, CRLF);
    FindMore(buf, future, CRLF);
    FindFits(buf, CRLF);
    assert (buf + future)[..pos] == buf[..pos];
    if pos > 0 { assert (buf + future)[pos + 2..] == buf[pos + 2..] + future; }
  }

  // ----- One round of the parser -----

  lemma LineTrack(t: Trail, p: Parser, future: string, next: File)
    requires Track(t, p, future) && p.phase == Headers
    requires var pos := Find(p.buf, CRLF); 0 < pos < |p.buf| && AfterLine(p.file, p.buf[..pos]) == (next, true)
    ensures Track(t, p.(file := next).Drop(Find(p.buf, CRLF) + 2), future)
  {
    hide AfterLine, Collected, FirstFile, Find, OccursAt;
    var pos := Find(p.buf, CRLF);
    FindFits(p.buf, CRLF);
    FirstFileUnfold(p.file, p.buf, future);
    RestDrop(t.text, p.buf, future, pos + 2);
  }

  lemma FindFits(s: string, needle: string)
    requires needle != ""
    ensures var pos := Find(s, needle);
      pos <= |s| && (pos < |s| ==> pos + |needle| <= |s| && s[pos..pos + |needle|] == needle)
  {}

  // ----- Longer trails -----

  function More(t: Trail, span: Span): Trail {
    t.(spans := t.spans + [span])
  }

  function WithLast(t: Trail, end: nat): Trail
    requires t.spans != []
  {
    t.(spans := t.spans[|t.spans| - 1 := Span(t.Last().start, end)])
  }

  lemma SpanSame(t: Trail, u: Trail, span: Span, item: Item)
    requires Follows(u, t)
    ensures u.Closed(span) == t.Closed(span) && u.NextEntry(span) == t.NextEntry(span)
    ensures u.Holds(span, item) == t.Holds(span, item)
  {}

  lemma ChainedMore(t: Trail, span: Span)
    requires t.Chained()
    requires t.spans == [] ==> t.base + 2 <= span.start
    requires t.spans != [] ==> t.Closed(t.Last()) && t.NextEntry(t.Last()) + 2 <= span.start
    ensures More(t, span).Chained()
  {
    hide OccursAt;
    var u := More(t, span);
    forall i | 0 <= i < |u.spans| - 1
      ensures u.Closed(u.spans[i]) && u.NextEntry(u.spans[i]) + 2 <= u.spans[i + 1].start
    {
      SpanSame(t, u, u.spans[i], Item(EMPTY_FILE, ""));
      if i < |t.spans| - 1 { assert t.Closed(t.spans[i]); }
    }
  }

  lemma ChainedLast(t: Trail, end: nat)
    requires t.Chained() && t.spans != []
    ensures WithLast(t, end).Chained()
  {
    hide OccursAt;
    var u := WithLast(t, end);
    forall i | 0 <= i < |u.spans| - 1
      ensures u.Closed(u.spans[i]) && u.NextEntry(u.spans[i]) + 2 <= u.spans[i + 1].start
    {
      SpanSame(t, u, u.spans[i], Item(EMPTY_FILE, ""));
      assert t.Closed(t.spans[i]) && u.spans[i + 1].start == t.spans[i + 1].start;
    }
  }

  lemma HoldsAllMore(t: Trail, items: seq<Item>, span: Span, item: Item)
    requires t.HoldsAll(items) && t.Holds(span, item)
    ensures More(t, span).HoldsAll(items + [item])
  {
    hide Trail.Holds;
    var u, all := More(t, span), items + [item];
    forall i | 0 <= i < |u.spans| ensures u.Holds(u.spans[i], all[i]) {
      SpanSame(t, u, u.spans[i], all[i]);
    }
  }

  lemma HoldsAllLast(t: Trail, items: seq<Item>, end: nat, item: Item)
    requires t.HoldsAll(items) && items != [] && t.Holds(Span(t.Last().start, end), item)
    ensures WithLast(t, end).HoldsAll(items[..|items| - 1] + [item])
  {
    hide Trail.Holds;
    var u, all := WithLast(t, end), items[..|items| - 1] + [item];
    forall i | 0 <= i < |u.spans| ensures u.Holds(u.spans[i], all[i]) {
      SpanSame(t, u, u.spans[i], all[i]);
    }
  }

  // ----- Contents -----

  lemma BodyBegins(t: Trail, rest: string)
    requires IsRest(t.text, rest)
    ensures var start := |t.text| - |rest|; PhaseFits(More(t, Span(start, start)), Body, rest)
  {
    hide OccursAt;
  }

  /** The file of the first item is settled once its content begins. */
  lemma FileBegins(t: Trail, p: Parser, rest: string, q: Parser, u: Trail, rest1: string)
    requires t.base <= |t.text| && t.HoldsAll(Collected(p.events)) && FileFits(t, p, rest)
    requires p.phase == Headers && FirstFile(p.file, rest) == Some(p.file)
    requires Collected(q.events) == Record(Collected(p.events), Header(p.file))
    requires Follows(u, t) && |u.spans| == |t.spans| + 1
    ensures FileFits(u, q, rest1)
  {
    hide FirstFile, Collected;
  }

  lemma EmptyLine(t: Trail, p: Parser, future: string)
    requires Track(t, p, future) && p.phase == Headers && p.buf != "" && Find(p.buf, CRLF) == 0
    ensures |p.buf| >= 2 && IsRest(t.text, p.buf[2..] + future)
    ensures var start := |t.text| - |p.buf[2..] + future|;
      && t.Holds(Span(start, start), Item(p.file, ""))
      && (if t.spans == [] then t.base + 2 <= start else t.Closed(t.Last()) && t.NextEntry(t.Last()) + 2 <= start)
    ensures FirstFile(p.file, p.buf + future) == Some(p.file)
  {
    FindFits(p.buf, CRLF);
    FirstFileUnfold(p.file, p.buf, future);
    hide AfterLine, Collected, FirstFile, Find, OccursAt, Trail.HoldsAll, Trail.Chained, FileFits;
    RestDrop(t.text, p.buf, future, 2);
  }

  /** The empty line: a content begins. */
  lemma HeaderEndsTrack(t: Trail, p: Parser, future: string) returns (u: Trail)
    requires Track(t, p, future) && p.phase == Headers && p.buf != "" && Find(p.buf, CRLF) == 0
    ensures Follows(u, t) && |p.buf| >= 2 && Track(u, p.Emit(Header(p.file)).Drop(2).(phase := Body), future)
  {
    hide AfterLine, Collected, FirstFile, Find, OccursAt, FileFits, PhaseFits, IsRest;
    hide Trail.HoldsAll, Trail.Chained, Trail.Holds;
    EmptyLine(t, p, future);
    CollectedAfter(p.events, Header(p.file));
    var rest := p.buf[2..] + future;
    var start := |t.text| - |rest|;
    var span, item := Span(start, start), Item(p.file, "");
    var q := p.Emit(Header(p.file)).Drop(2).(phase := Body);
    u := More(t, span);
    HoldsAllMore(t, Collected(p.events), span, item);
    ChainedMore(t, span);
    BodyBegins(t, rest);
    FileBegins(t, p, p.buf + future, q, u, rest);
  }

  lemma Longer(t: Trail, span: Span, item: Item, n: nat, data: string)
    requires t.Holds(span, item) && span.end + n <= |t.text| && t.text[span.end..span.end + n] == data
    ensures t.Holds(Span(span.start, span.end + n), Item(item.file, item.content + data))
  {
    assert t.text[span.start..span.end + n] == t.text[span.start..span.end] + t.text[span.end..span.end + n];
  }

  /** The parser is in the last content. */
  lemma InBody(t: Trail, p: Parser, future: string, n: nat)
    requires Track(t, p, future) && p.phase == Body && n <= |p.buf|
    ensures t.spans != [] && IsRest(t.text, p.buf[n..] + future)
    ensures t.Last().start <= t.Last().end == |t.text| - |p.buf + future|
    ensures t.Last().end + n == |t.text| - |p.buf[n..] + future|
    ensures t.text[t.Last().end..t.Last().end + n] == p.buf[..n]
    ensures var items := Collected(p.events);
      |items| == |t.spans| && t.HoldsAll(items) && t.Holds(t.Last(), items[|items| - 1])
  {
    hide Collected, FirstFile, OccursAt, FileFits, Trail.Chained;
    RestDrop(t.text, p.buf, future, n);
    assert t.Holds(t.spans[|t.spans| - 1], Collected(p.events)[|t.spans| - 1]);
  }

  /** A longer last content. */
  lemma ContentMore(t: Trail, p: Parser, future: string, n: nat)
    requires Track(t, p, future) && p.phase == Body && n <= |p.buf|
    ensures t.spans != []
    ensures var u := WithLast(t, t.Last().end + n);
      u.Chained() && u.HoldsAll(Collected(p.Emit(Content(p.buf[..n])).events))
  {
    hide *;
    InBody(t, p, future, n);
    var items, last, data := Collected(p.events), t.Last(), p.buf[..n];
    var item := items[|items| - 1];
    CollectedMore(p, data);
    Longer(t, last, item, n, data);
    Parts(t, p, future);
    ChainedLast(t, last.end + n);
    HoldsAllLast(t, items, last.end + n, Item(item.file, item.content + data));
  }

  lemma CollectedMore(p: Parser, data: string)
    requires Collected(p.events) != []
    ensures var items := Collected(p.events);
      var item := items[|items| - 1];
      Collected(p.Emit(Content(data)).events) == items[..|items| - 1] + [Item(item.file, item.content + data)]
  {
    CollectedAfter(p.events, Content(data));
    hide Collected;
  }

  lemma Parts(t: Trail, p: Parser, future: string)
    requires Track(t, p, future)
    ensures t.Chained() && t.HoldsAll(Collected(p.events))
  {}

  /** Once there is an item, its file does not change. */
  lemma FileKept(t: Trail, p: Parser, rest: string, e: Event, q: Parser, u: Trail, rest1: string)
    requires t.base <= |t.text| && t.spans != [] && FileFits(t, p, rest) && q.events == p.events + [e]
    requires Follows(u, t) && u.spans != []
    ensures FileFits(u, q, rest1)
  {
    CollectedAfter(p.events, e);
    hide Collected, FirstFile;
  }

  lemma DelimiterFound(t: Trail, p: Parser, future: string)
    requires Track(t, p, future) && p.phase == Body && Find(p.buf, t.Needle()) < |p.buf|
    ensures var k, n := Find(p.buf, t.Needle()), |t.Needle()|;
      && k + n <= |p.buf| && t.spans != [] && IsRest(t.text, p.buf[k + n..] + future)
      && PhaseFits(WithLast(t, t.Last().end + k), Boundary, p.buf[k + n..] + future)
  {
    hide Find, Delimiter, Collected, FirstFile, FileFits, Trail.Chained, Trail.HoldsAll, Trail.Holds, Trail.Needle;
    var k, n := Find(p.buf, t.Needle()), |t.Needle()|;
    FindFits(p.buf, t.Needle());
    assert OccursAt(p.buf, t.Needle(), k);
    InBody(t, p, future, k + n);
    OccursInRest(t.text, p.buf, future, t.Needle(), k);
    hide OccursAt, IsRest, Track;
    var u := WithLast(t, t.Last().end + k);
    assert u.Last() == Span(t.Last().start, t.Last().end + k);
    SpanSame(t, u, u.Last(), Item(EMPTY_FILE, ""));
  }

  lemma BodyEndsTrack(t: Trail, p: Parser, future: string) returns (u: Trail)
    requires Track(t, p, future) && p.phase == Body && Find(p.buf, t.Needle()) < |p.buf|
    ensures var k := Find(p.buf, t.Needle());
      && Follows(u, t) && k + |t.Needle()| <= |p.buf|
      && Track(u, p.Emit(Content(p.buf[..k])).Drop(k + |t.Needle()|).(phase := Boundary), future)
  {
    hide Collected, FirstFile, OccursAt, FileFits, IsRest, PhaseFits, Trail.Chained, Trail.HoldsAll, Find, Trail.Needle;
    hide Delimiter;
    var k, n := Find(p.buf, t.Needle()), |t.Needle()|;
    DelimiterFound(t, p, future);
    ContentMore(t, p, future, k);
    var e, rest := Content(p.buf[..k]), p.buf[k + n..] + future;
    u := WithLast(t, t.Last().end + k);
    var q := p.Emit(e).Drop(k + n).(phase := Boundary);
    FileKept(t, p, p.buf + future, e, q, u, rest);
  }

  lemma NothingBefore(t: Trail, p: Parser, future: string, len: nat)
    requires Track(t, p, future) && p.phase == Body && len <= |p.buf|
    ensures Find(p.buf, t.Needle()) == |p.buf| == len + |t.Needle()| ==>
      forall i :: t.Last().start <= i < t.Last().end + len ==> !OccursAt(t.text, t.Needle(), i)
  {
    hide Collected, FirstFile, FileFits, Trail.Chained, Trail.HoldsAll, Find, OccursAt, Delimiter, Trail.Needle;
    var end := t.Last().end;
    if Find(p.buf, t.Needle()) == |p.buf| == len + |t.Needle()| {
      forall i | t.Last().start <= i < end + len ensures !OccursAt(t.text, t.Needle(), i) {
        if i >= end {
          OccursInRest(t.text, p.buf, future, t.Needle(), i - end);
          assert !OccursAt(p.buf, t.Needle(), i - end);
        }
      }
    }
  }

  lemma BodyGoesOnTrack(t: Trail, p: Parser, future: string, len: nat) returns (u: Trail)
    requires Track(t, p, future) && p.phase == Body && len <= |p.buf|
    ensures 0 < len && Find(p.buf, t.Needle()) == |p.buf| == len + |t.Needle()| ==>
      Follows(u, t) && Track(u, p.Emit(Content(p.buf[..len])).Drop(len), future)
  {
    ContentMore(t, p, future, len);
    InBody(t, p, future, len);
    u := WithLast(t, t.Last().end + len);
    if 0 < len && Find(p.buf, t.Needle()) == |p.buf| == len + |t.Needle()| {
      NothingBefore(t, p, future, len);
      hide Collected, FirstFile, OccursAt, FileFits, IsRest, Trail.Chained, Trail.HoldsAll, Find;
      var e, rest := Content(p.buf[..len]), p.buf[len..] + future;
      var q := p.Emit(e).Drop(len);
      FileKept(t, p, p.buf + future, e, q, u, rest);
    }
  }

  // ----- Behind a delimiter -----

  lemma AtStart(t: Trail, p: Parser, future: string, needle: string)
    requires IsRest(t.text, p.buf + future) && needle != "" && OccursAt(p.buf, needle, 0)
    ensures |needle| <= |p.buf| && IsRest(t.text, p.buf[|needle|..] + future)
    ensures var pos := |t.text| - |p.buf + future|;
      t.text[pos] == needle[0] && |p.buf[|needle|..] + future| == |t.text| - pos - |needle|
  {
    RestDrop(t.text, p.buf, future, |needle|);
    var pos := |t.text| - |p.buf + future|;
    assert t.text[pos] == t.text[pos..pos + |needle|][0];
  }

  lemma BoundaryTrack(t: Trail, p: Parser, future: string)
    requires Track(t, p, future) && p.phase == Boundary
    ensures OccursAt(p.buf, CRLF, 0) ==> Track(t, p.Drop(2).(phase := NewEntry), future)
    ensures OccursAt(p.buf, DASH, 0) ==> Track(t, p.(valid := true, buf := ""), future)
  {
    hide OccursAt, Delimiter, Trail.Needle, Collected, FirstFile, Trail.Chained, Trail.HoldsAll;
    if OccursAt(p.buf, CRLF, 0) {
      AtStart(t, p, future, CRLF);
    }
    if OccursAt(p.buf, DASH, 0) {
      AtStart(t, p, future, DASH);
      RestDrop(t.text, p.buf, future, |p.buf|);
      assert p.buf[|p.buf|..] == "";
    }
  }

  // ----- Whole runs -----

  ghost predicate AcceptsAll(accept: Callbacks) {
    forall events :: accept(events)
  }

  lemma {:induction false} HeaderTrack(t: Trail, p: Parser, future: string, accept: Callbacks) returns (u: Trail)
    requires Track(t, p, future) && p.phase == Headers && AcceptsAll(accept)
    ensures var o := HeaderLoop(p, accept);
      && Follows(u, t) && (o.Continue? || o.ok ==> Track(u, o.p, future)) && (o.Return? ==> o.p.phase == Headers)
    decreases |p.buf|
  {
    hide Find, AfterLine, Track;
    u := t;
    var pos := Find(p.buf, CRLF);
    if pos < |p.buf| {
      if pos == 0 {
        u := HeaderEndsTrack(t, p, future);
      } else {
        var (next, ok) := AfterLine(p.file, p.buf[..pos]);
        if ok {
          LineTrack(t, p, future, next);
          u := HeaderTrack(t, p.(file := next).Drop(pos + 2), future, accept);
        }
      }
    }
  }

  lemma NeedleIs(t: Trail)
    ensures t.Needle() == CRLF + DASH + t.boundary && Follows(t, t)
  {}

  lemma Accepted(accept: Callbacks)
    requires AcceptsAll(accept)
    ensures forall events :: accept(events)
  {}

  lemma BodyTrack(t: Trail, p: Parser, future: string, accept: Callbacks) returns (u: Trail)
    requires Track(t, p, future) && p.buf != "" && p.phase == Body && AcceptsAll(accept)
    ensures var o := Step(p, t.boundary, accept);
      && Follows(u, t) && (o.Continue? || o.ok ==> Track(u, o.p, future))
      && (o.Return? && o.p.phase == Body ==> |o.p.buf| <= |t.Needle()|)
  {
    hide *;
    NeedleIs(t);
    Accepted(accept);
    StepBody(p, t.boundary, accept);
    u := t;
    var len := |p.buf| - |t.Needle()|;
    if len >= 0 {
      if Find(p.buf, t.Needle()) < |p.buf| {
        u := BodyEndsTrack(t, p, future);
      } else if len > 0 {
        u := BodyGoesOnTrack(t, p, future, len);
        DropSize(p, Content(p.buf[..len]), len);
      }
    }
  }

  lemma DropSize(p: Parser, e: Event, n: nat)
    requires n <= |p.buf|
    ensures |p.Emit(e).Drop(n).buf| == |p.buf| - n
  {}

  lemma StepTrack(t: Trail, p: Parser, future: string, accept: Callbacks) returns (u: Trail)
    requires Track(t, p, future) && p.buf != "" && AcceptsAll(accept)
    ensures var o := Step(p, t.boundary, accept);
      && Follows(u, t) && (o.Continue? || o.ok ==> Track(u, o.p, future))
      && (o.Return? && o.p.phase == Body ==> |o.p.buf| <= |t.Needle()|)
  {
    assert p.phase != InitialBoundary;
    hide Find, OccursAt, Track, Step, HeaderLoop, Delimiter, Trail.Needle;
    u := t;
    match p.phase
    case NewEntry =>
      StepNewEntry(p, t.boundary, accept);
    case Headers =>
      StepHeaders(p, t.boundary, accept);
      u := HeaderTrack(t, p, future, accept);
    case Body => u := BodyTrack(t, p, future, accept);
    case Boundary =>
      StepBoundary(p, t.boundary, accept);
      BoundaryTrack(t, p, future);
  }

  lemma {:induction false} RunTrack(t: Trail, p: Parser, future: string, accept: Callbacks) returns (u: Trail)
    requires Track(t, p, future) && AcceptsAll(accept)
    ensures Follows(u, t)
    ensures var (q, ok) := Run(p, t.boundary, accept);
      ok ==> Track(u, q, future) && (q.phase == Body ==> |q.buf| <= |t.Needle()|)
    decreases Fuel(p)
  {
    hide Track, Step, Trail.Needle;
    u := t;
    if p.buf != "" {
      u := StepTrack(t, p, future, accept);
      match Step(p, t.boundary, accept)
      case Continue(q) => u := RunTrack(u, q, future, accept);
      case Return(q, ok) =>
    }
  }

  lemma FedTrack(t: Trail, p: Parser, pieces: seq<string>)
    requires pieces != [] && Track(t, p, Concat(pieces))
    ensures Track(t, p.(buf := p.buf + pieces[0]), Concat(pieces[1..]))
  {
    Append(p.buf, pieces[0], Concat(pieces[1..]));
    hide Collected, FirstFile, OccursAt, Trail.Chained, Trail.HoldsAll;
  }

  /** From an entry to the end of the input. */
  lemma {:induction false} ResumeTrack(t: Trail, p: Parser, pieces: seq<string>, accept: Callbacks) returns (u: Trail)
    requires Track(t, p, Concat(pieces)) && AcceptsAll(accept)
    ensures Follows(u, t)
    ensures var (q, ok) := Resume(p, pieces, t.boundary, accept);
      ok ==> Track(u, q, "") && (q.phase == Body ==> |q.buf| <= |t.Needle()|)
    decreases |pieces|
  {
    hide Track, Run, Trail.Needle;
    u := RunTrack(t, p, Concat(pieces), accept);
    var (q, ok) := Run(p, t.boundary, accept);
    if ok && pieces != [] {
      FedTrack(u, q, pieces);
      u := ResumeTrack(u, q.(buf := q.buf + pieces[0]), pieces[1..], accept);
    }
  }
}
