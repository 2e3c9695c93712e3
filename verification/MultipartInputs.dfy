/** What the multipart parser makes of other input than serialized items, and what its callbacks decide. */
module MultipartInputs {
  import opened Sequences
  import opened HttpText
  import opened HeaderFields
  import opened MultipartSpec
  import opened MultipartHeaders

  // ----- Callbacks -----

  /** Every call but perhaps the last has been accepted. */
  ghost predicate AcceptedBefore(events: seq<Event>, accept: Callbacks) {
    forall n :: 0 < n < |events| ==> accept(events[..n])
  }

  ghost predicate Accepted(events: seq<Event>, accept: Callbacks) {
    forall n :: 0 < n <= |events| ==> accept(events[..n])
  }

  /** The outcome is a refusal exactly then when the last call was refused, or else for the sake of the input. */
  ghost predicate Decided(p: Parser, ok: bool, accept: Callbacks) {
    if ok then Accepted(p.events, accept)
    else AcceptedBefore(p.events, accept) && (!Accepted(p.events, accept) ==> !p.valid)
  }

  lemma EmitDecides(p: Parser, e: Event, accept: Callbacks)
    requires Accepted(p.events, accept)
    ensures var q := p.Emit(e);
      AcceptedBefore(q.events, accept) && (Accepted(q.events, accept) <==> accept(q.events))
  {
    var events := p.Emit(e).events;
    assert forall n :: 0 <= n <= |p.events| ==> events[..n] == p.events[..n];
    assert events[..|events|] == events;
  }

  lemma {:induction false} HeaderLoopDecides(p: Parser, accept: Callbacks)
    requires Accepted(p.events, accept)
    ensures var o := HeaderLoop(p, accept);
      if o.Continue? then Accepted(o.p.events, accept) else Decided(o.p, o.ok, accept)
    decreases |p.buf|
  {
    hide Find, AfterLine, Accepted, AcceptedBefore;
    AcceptedIs(p.events, accept);
    var pos := Find(p.buf, CRLF);
    if pos == 0 && p.buf != "" {
      EmitDecides(p, Header(p.file), accept);
    } else if pos < |p.buf| {
      var (file, ok) := AfterLine(p.file, p.buf[..pos]);
      if ok { HeaderLoopDecides(p.(file := file).Drop(pos + 2), accept); }
    }
  }

  lemma AcceptedIs(events: seq<Event>, accept: Callbacks)
    ensures Accepted(events, accept) ==> AcceptedBefore(events, accept)
  {}

  lemma StepDecides(p: Parser, boundary: string, accept: Callbacks)
    requires p.buf != "" && Accepted(p.events, accept)
    ensures var o := Step(p, boundary, accept);
      if o.Continue? then Accepted(o.p.events, accept) else Decided(o.p, o.ok, accept)
  {
    AcceptedIs(p.events, accept);
    match p.phase
    case InitialBoundary => StepInitialBoundary(p, boundary, accept); hide *;
    case NewEntry => StepNewEntry(p, boundary, accept); hide *;
    case Headers =>
      StepHeaders(p, boundary, accept);
      HeaderLoopDecides(p, accept);
      hide Step, HeaderLoop, Find, Accepted, AcceptedBefore;
    case Body =>
      StepBody(p, boundary, accept);
      forall e {
        EmitDecides(p, e, accept);
      }
      hide Step, Find, Accepted, AcceptedBefore;
    case Boundary => StepBoundary(p, boundary, accept); hide *;
  }

  lemma {:induction false} RunDecides(p: Parser, boundary: string, accept: Callbacks)
    requires Accepted(p.events, accept)
    ensures var (q, ok) := Run(p, boundary, accept); Decided(q, ok, accept)
    decreases Fuel(p)
  {
    hide Step, Accepted, AcceptedBefore;
    if p.buf != "" {
      StepDecides(p, boundary, accept);
      match Step(p, boundary, accept)
      case Continue(q) => RunDecides(q, boundary, accept);
      case Return(q, ok) =>
    }
  }

  lemma {:induction false} FeedDecides(p: Parser, pieces: seq<string>, boundary: string, accept: Callbacks)
    requires Accepted(p.events, accept)
    ensures var (q, ok) := FeedAll(p, pieces, boundary, accept); Decided(q, ok, accept)
    decreases |pieces|
  {
    hide Run, Accepted, AcceptedBefore;
    if pieces != [] {
      RunDecides(p.(buf := p.buf + pieces[0]), boundary, accept);
      var (q, ok) := Feed(p, pieces[0], boundary, accept);
      if ok { FeedDecides(q, pieces[1..], boundary, accept); }
    }
  }

  /** In every parse a refused call is the last one and makes the parse fail; a parse that succeeds has had all its
      calls accepted. */
  lemma CallbacksDecide(pieces: seq<string>, boundary: string, accept: Callbacks)
    ensures var (q, ok) := FeedAll(Start(), pieces, boundary, accept);
      && (forall n :: 0 < n < |q.events| ==> accept(q.events[..n]))
      && (q.events != [] && !accept(q.events) ==> !ok && !q.valid)
  {
    FeedDecides(Start(), pieces, boundary, accept);
    var (q, ok) := FeedAll(Start(), pieces, boundary, accept);
    assert q.events[..|q.events|] == q.events;
    hide FeedAll;
  }

  // ----- Other input -----

  lemma LineIsFound(line: string, more: string)
    requires '\r' !in line
    ensures var s := line + (CRLF + more); Find(s, CRLF) == |line| < |s|
  {
    var s := line + (CRLF + more);
    assert s[|line|..|line| + 2] == CRLF;
    forall i | 0 <= i < |line| ensures !OccursAt(s, CRLF, i) { assert s[i] == line[i]; }
    FindIs(s, CRLF, |line|);
  }

  lemma FirstHeader(boundary: string, text: string, accept: Callbacks)
    requires text != ""
    ensures Feed(Start(), DelimiterLine(boundary) + text, boundary, accept) ==
      Run(Start().(buf := text, phase := Headers), boundary, accept)
  {
    var line := DelimiterLine(boundary);
    var fed := Start().(buf := line + text);
    assert "" + (line + text) == line + text && (line + text)[..|line|] == line && (line + text)[|line|..] == text;
    FindIs(fed.buf, line, 0);
    var entry := Start().(buf := text, phase := NewEntry);
    hide Find, HeaderLoop, DelimiterLine;
    assert fed.buf[0..] == fed.buf;
    assert Step(fed, boundary, accept) == Continue(entry);
    StepNewEntry(entry, boundary, accept);
    assert Run(fed, boundary, accept) == Run(entry, boundary, accept);
  }

  /** A first header line that is too long makes the parse fail, and so does one that is not understood, which makes the
      parser invalid as well. */
  lemma BadLineFails(boundary: string, line: string, more: string, accept: Callbacks)
    requires line != "" && '\r' !in line && (|line| > 8192 || !AfterLine(EMPTY_FILE, line).1)
    ensures var (q, ok) := Feed(Start(), DelimiterLine(boundary) + (line + (CRLF + more)), boundary, accept);
      !ok && !q.valid && q.events == []
  {
    var text := line + (CRLF + more);
    var p := Start().(buf := text, phase := Headers);
    LineIsFound(line, more);
    FirstHeader(boundary, text, accept);
    StepHeaders(p, boundary, accept);
    hide Step, AfterLine, Feed;
    assert text[..|line|] == line;
    assert HEADER_MAX_LENGTH == 8192;
  }

  /** Behind a delimiter that neither a line end nor two dashes follow, the parser waits for ever. */
  lemma StuckBehindDelimiter(p: Parser, piece: string, boundary: string, accept: Callbacks)
    requires p.phase == Boundary && |p.buf| >= 2 && p.buf[..2] != "\r\n" && p.buf[..2] != "--"
    ensures Feed(p, piece, boundary, accept) == (p.(buf := p.buf + piece), true)
  {
    var fed := p.(buf := p.buf + piece);
    assert fed.buf[..2] == p.buf[..2] && fed.buf[0..2] == fed.buf[..2];
    StepBoundary(fed, boundary, accept);
    hide Step;
  }

  // ----- The serialized text -----

  /** What is written for an item, and behind the last one. */
  lemma SerializedText(item: Item, boundary: string)
    ensures ItemBegin(item.file, boundary) ==
      "--" + boundary + "\r\n" +
      ("Content-Disposition: form-data; name=\"" + item.file.name + "\"" +
       (if item.file.filename == "" then "" else "; filename=\"" + item.file.filename + "\"")) + "\r\n" +
      (if item.file.contentType == "" then "" else "Content-Type: " + item.file.contentType + "\r\n") + "\r\n"
    ensures ItemsText([item], boundary) == ItemBegin(item.file, boundary) + (item.content + "\r\n")
    ensures Finish(boundary) == "--" + boundary + "--" + "\r\n"
  {
    assert [item][1..] == [] && ItemsText([], boundary) == "";
  }
}
