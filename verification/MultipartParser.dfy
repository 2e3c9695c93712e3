/** MultipartFormDataParser of deps/httplib.h: the sliding buffer and the parse loop, refining the step
    function of MultipartSpec. */
module MultipartParser {
  import opened Sequences
  import opened HttpText
  import opened MultipartSpec
  import opened MultipartLines

  class MultipartFormDataParser {
    const boundary: string
    /** What the two callbacks return, given every call made so far. */
    const accept: Callbacks
    var phase: Phase
    var isValid: bool
    var file: File
    /** The callbacks made so far. */
    var events: seq<Event>
    var buf: string
    var spos: nat
    var epos: nat

    ghost predicate Valid()
      reads this
    {
      spos <= epos <= |buf|
    }

    /** The unread part of the buffer. */
    ghost function Unread(): string
      requires Valid()
      reads this
    {
      buf[spos..epos]
    }

    ghost function State(): Parser
      requires Valid()
      reads this
    {
      Parser(phase, isValid, file, Unread(), events)
    }

    constructor (boundary: string, accept: Callbacks)
      ensures Valid() && State() == Start()
      ensures this.boundary == boundary && this.accept == accept
    {
      this.boundary, this.accept := boundary, accept;
      phase, isValid, file, events := InitialBoundary, false, EMPTY_FILE, [];
      buf, spos, epos := "", 0, 0;
    }

    /** start_with: p lies in the buffer at pos, before the end of its text. */
    method StartWith(pos: nat, p: string) returns (yes: bool)
      requires Valid() && spos <= pos <= epos
      ensures yes == (pos + |p| <= epos && buf[pos..pos + |p|] == p)
      ensures yes == OccursAt(Unread(), p, pos - spos)
    {
      if epos - pos < |p| { return false; }
      SliceOfSlice(buf, spos, epos, pos - spos, pos - spos + |p|);
      for i := 0 to |p|
        invariant buf[pos..pos + i] == p[..i]
      {
        if buf[i + pos] != p[i] {
          assert buf[pos..pos + |p|][i] != p[i];
          return false;
        }
      }
      assert p[..|p|] == p;
      return true;
    }

    /** buf_find: scan for the first character, then compare. */
    method BufFind(p: string) returns (found: nat)
      requires Valid() && p != ""
      ensures found == Find(Unread(), p)
      ensures found <= epos - spos && (found < epos - spos ==> found + |p| <= epos - spos)
    {
      hide Find, OccursAt;
      ghost var text := Unread();
      var off := spos;
      while off < epos
        invariant spos <= off <= epos
        invariant forall i :: 0 <= i < off - spos ==> !OccursAt(text, p, i)
      {
        var pos := off;
        while pos < epos && buf[pos] != p[0]
          invariant off <= pos <= epos
          invariant forall i :: 0 <= i < pos - spos ==> !OccursAt(text, p, i)
        {
          NoMatchAt(text, p, pos - spos);
          pos := pos + 1;
        }
        if pos == epos {
          FindIs(text, p, |text|);
          return epos - spos;
        }
        var remaining := epos - pos;
        if |p| > remaining {
          NoRoom(text, p, pos - spos);
          FindIs(text, p, |text|);
          return epos - spos;
        }
        var here := StartWith(pos, p);
        if here {
          FindIs(text, p, pos - spos);
          return pos - spos;
        }
        off := pos + 1;
      }
      FindIs(text, p, |text|);
      return epos - spos;
    }

    /** buf_append: move the unread text to the front, then write the new text behind it. */
    method BufAppend(data: string)
      requires Valid()
      modifies this`buf, this`spos, this`epos
      ensures Valid() && State() == old(State()).(buf := old(State()).buf + data)
    {
      MoveToFront();
      var remaining := epos;
      ghost var text := Unread();
      if remaining + |data| > |buf| {
        buf := buf + seq(remaining + |data| - |buf|, _ => '\0');
      }
      assert buf[..remaining] == text && data[..0] == "";
      for i := 0 to |data|
        invariant spos == 0 && epos == remaining && |buf| >= remaining + |data|
        invariant buf[..remaining + i] == text + data[..i]
      {
        buf := buf[epos + i := data[i]];
      }
      epos := epos + |data|;
      assert data[..|data|] == data && Unread() == buf[..remaining + |data|];
    }

    method MoveToFront()
      requires Valid()
      modifies this`buf, this`spos, this`epos
      ensures Valid() && spos == 0 && Unread() == old(Unread())
    {
      var remaining := epos - spos;
      ghost var text := Unread();
      if remaining > 0 && spos > 0 {
        for i := 0 to remaining
          invariant spos == old(spos) && epos == old(epos) && |buf| == |old(buf)|
          invariant forall k :: 0 <= k < i ==> buf[k] == old(buf)[spos + k]
          invariant forall k :: spos + i <= k < epos ==> buf[k] == old(buf)[k]
        {
          buf := buf[i := buf[spos + i]];
        }
      }
      spos := 0;
      epos := remaining;
    }

    method BufErase(n: nat)
      requires Valid() && spos + n <= epos
      modifies this`spos
      ensures Valid() && State() == old(State()).Drop(n)
    {
      spos := spos + n;
    }

    /** A callback; when it returns false the parser is no longer valid. */
    method Call(e: Event) returns (taken: bool)
      requires Valid()
      modifies this`events, this`isValid
      ensures Valid()
      ensures var q := old(State()).Emit(e);
        taken == accept(q.events) && State() == if taken then q else q.(valid := false)
    {
      events := events + [e];
      taken := accept(events);
      if !taken { isValid := false; }
    }

    /** buf_head */
    method BufHead(n: nat) returns (head: string)
      requires Valid() && spos + n <= epos
      ensures head == Unread()[..n]
    {
      head := buf[spos..spos + n];
    }

    /** One header line, which ends at pos. */
    method ReadLine(pos: nat) returns (good: bool)
      requires Valid() && spos + pos + 2 <= epos
      modifies this`file, this`isValid, this`spos
      ensures Valid()
      ensures var p := old(State()); var (next, ok) := AfterLine(p.file, p.buf[..pos]);
        good == ok && State() == if ok then p.(file := next).Drop(pos + 2) else p.(file := next, valid := false)
    {
      hide AfterLine;
      var line := BufHead(pos);
      var next, ok := HandleLine(file, line);
      file := next;
      if !ok {
        isValid := false;
        return false;
      }
      BufErase(pos + 2);
      return true;
    }

    /** The loop over header lines: either the header is complete or the call is over. */
    method ReadHeaders() returns (returned: bool, ok: bool)
      requires Valid() && phase == Headers
      modifies this
      ensures Valid()
      ensures HeaderLoop(old(State()), accept) == if returned then Return(State(), ok) else Continue(State())
    {
      hide AfterLine, HeaderLoop, Find, OccursAt, State, Unread;
      ghost var start := State();
      Sizes();
      var pos := BufFind(CRLF);
      HeaderLoopUnfold(start);
      while pos < epos - spos
        invariant Valid()
        invariant State().buf == Unread() && |State().buf| == epos - spos && State().file == file
        invariant pos == Find(State().buf, CRLF) && pos <= epos - spos && (pos < epos - spos ==> pos + 2 <= epos - spos)
        invariant Unfolded(State())
        invariant HeaderLoop(State(), accept) == HeaderLoop(start, accept)
        decreases epos - spos
      {
        if pos == 0 {
          var taken := Call(Header(file));
          if !taken { return true, false; }
          BufErase(2);
          SetPhase(Body);
          return false, true;
        }
        var good := ReadLine(pos);
        if !good { return true, false; }
        Sizes();
        pos := BufFind(CRLF);
        HeaderLoopUnfold(State());
      }
      return true, true;
    }

    method SetPhase(next: Phase)
      requires Valid()
      modifies this`phase
      ensures Valid() && State() == old(State()).(phase := next)
    {
      phase := next;
    }

    /** What the fields say of the state they stand for. */
    lemma Sizes()
      requires Valid()
      ensures State().phase == phase && State().file == file && State().buf == Unread() && |State().buf| == epos - spos
    {}

    /** Gives the first len characters to the content callback and, if it takes them, erases the first n. */
    method HandOver(len: nat, n: nat) returns (taken: bool)
      requires Valid() && len <= n && spos + n <= epos
      modifies this`events, this`isValid, this`spos
      ensures Valid()
      ensures |old(State()).buf| == old(epos - spos)
      ensures var q := old(State()).Emit(Content(old(State()).buf[..len]));
        taken == accept(q.events) && State() == if taken then q.Drop(n) else q.(valid := false)
    {
      var content := BufHead(len);
      taken := Call(Content(content));
      if taken { BufErase(n); }
    }

    method ReadBody() returns (returned: bool, ok: bool)
      requires Valid() && phase == Body && spos < epos
      modifies this
      ensures Valid()
      ensures Step(old(State()), boundary, accept) == if returned then Return(State(), ok) else Continue(State())
    {
      hide *;
      Sizes();
      StepBody(State(), boundary, accept);
      var delimiter := CRLF + DASH + boundary;
      if |delimiter| > epos - spos { return true, true; }
      var pos := BufFind(delimiter);
      if pos < epos - spos {
        var taken := HandOver(pos, pos + |delimiter|);
        if !taken { return true, false; }
        SetPhase(Boundary);
        return false, true;
      }
      var len := epos - spos - |delimiter|;
      if len > 0 {
        var taken := HandOver(len, len);
        if !taken { return true, false; }
      }
      return true, true;
    }

    method ReadBoundary() returns (returned: bool, ok: bool)
      requires Valid() && phase == Boundary && spos < epos
      modifies this
      ensures Valid()
      ensures Step(old(State()), boundary, accept) == if returned then Return(State(), ok) else Continue(State())
    {
      hide *;
      Sizes();
      StepBoundary(State(), boundary, accept);
      if 2 > epos - spos { return true, true; }
      var next := StartWith(spos, CRLF);
      if next {
        BufErase(2);
        SetPhase(NewEntry);
      } else {
        var last := StartWith(spos, DASH);
        if !last { return true, true; }
        Finish();
      }
      return false, true;
    }

    /** Behind the closing delimiter the parser is valid and takes the rest of the text unread. */
    method Finish()
      requires Valid() && spos + 2 <= epos
      modifies this`isValid, this`spos
      ensures Valid() && State() == old(State()).(valid := true, buf := "")
    {
      BufErase(2);
      isValid := true;
      BufErase(epos - spos);
    }

    method ReadInitialBoundary() returns (returned: bool, ok: bool)
      requires Valid() && phase == InitialBoundary && spos < epos
      modifies this
      ensures Valid()
      ensures Step(old(State()), boundary, accept) == if returned then Return(State(), ok) else Continue(State())
    {
      hide *;
      Sizes();
      StepInitialBoundary(State(), boundary, accept);
      var delimiter := DASH + boundary + CRLF;
      var pos := BufFind(delimiter);
      BufErase(pos);
      Sizes();
      if |delimiter| > epos - spos { return true, true; }
      var here := StartWith(spos, delimiter);
      if !here { return true, false; }
      BufErase(|delimiter|);
      SetPhase(NewEntry);
      return false, true;
    }

    /** One piece of the body; the loop ends because every round consumes text or starts an entry. */
    method Parse(data: string) returns (ok: bool)
      requires Valid()
      modifies this
      ensures Valid()
      ensures (State(), ok) == Feed(old(State()), data, boundary, accept)
    {
      hide Step, HeaderLoop, Find, OccursAt;
      BufAppend(data);
      ghost var fed := State();
      while epos - spos > 0
        invariant Valid()
        invariant Run(State(), boundary, accept) == Run(fed, boundary, accept)
        decreases Fuel(State())
      {
        ghost var before := State();
        var returned, good := false, true;
        match phase {
          case InitialBoundary =>
            returned, good := ReadInitialBoundary();
          case NewEntry =>
            StepNewEntry(before, boundary, accept);
            file := EMPTY_FILE;
            phase := Headers;
          case Headers =>
            StepHeaders(before, boundary, accept);
            var pos := BufFind(CRLF);
            if pos > HEADER_MAX_LENGTH { return false; }
            returned, good := ReadHeaders();
          case Body =>
            returned, good := ReadBody();
          case Boundary =>
            returned, good := ReadBoundary();
        }
        if returned { return good; }
      }
      return true;
    }

    /** The header loop's own equation, one round at a time. */
    ghost predicate Unfolded(p: Parser) {
      var pos := Find(p.buf, CRLF);
      HeaderLoop(p, accept) ==
        if pos == |p.buf| then Return(p, true)
        else if pos == 0 then
          var q := p.Emit(Header(p.file));
          if accept(q.events) then Continue(q.Drop(2).(phase := Body)) else Return(q.(valid := false), false)
        else
          var (next, ok) := AfterLine(p.file, p.buf[..pos]);
          if ok then HeaderLoop(p.(file := next).Drop(pos + 2), accept)
          else Return(p.(file := next, valid := false), false)
    }

    lemma HeaderLoopUnfold(p: Parser)
      ensures Unfolded(p)
    {
      hide Find, AfterLine;
    }
  }

  lemma NoRoom(s: string, p: string, i: nat)
    requires |p| > |s| - i
    ensures forall j :: i <= j ==> !OccursAt(s, p, j)
  {}

  lemma NoMatchAt(s: string, p: string, i: nat)
    requires p != "" && i < |s| && s[i] != p[0]
    ensures !OccursAt(s, p, i)
  {
    if i + |p| <= |s| { assert s[i..i + |p|][0] == s[i]; }
  }
}
