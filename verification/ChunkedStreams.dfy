/** write_content_chunked and read_content_chunked of deps/httplib.h as loops over streams. */
module ChunkedStreams {
  import opened Sequences
  import opened Wrappers
  import opened SocketStream
  import opened Chunked
  import opened HttpText
  import HeaderFields

  // ----- Writing -----

  /** A stream to write to; a healthy one is always writable and never fails, but may take a write in parts. */
  class OutStream {
    var sent: string
    const healthy: bool

    constructor (healthy: bool)
      ensures sent == "" && this.healthy == healthy
    {
      sent, this.healthy := "", healthy;
    }

    method Write(data: string) returns (n: int)
      requires data != ""
      modifies this
      ensures n < 0 ==> !healthy && sent == old(sent)
      ensures n >= 0 ==> 0 < n <= |data| && sent == old(sent) + data[..n]
    {
      if !healthy {
        if * { return -1; }
      }
      var k :| 0 < k <= |data|;
      sent := sent + data[..k];
      n := k;
    }
  }

  method WriteData(strm: OutStream, d: string) returns (ok: bool)
    modifies strm
    ensures ok ==> strm.sent == old(strm.sent) + d
    ensures strm.healthy ==> ok
  {
    var offset := 0;
    assert d[..0] == "";
    while offset < |d|
      invariant 0 <= offset <= |d| && strm.sent == old(strm.sent) + d[..offset]
    {
      var length := strm.Write(d[offset..]);
      if length < 0 { return false; }
      assert d[..offset] + d[offset..][..length] == d[..offset + length];
      Append(old(strm.sent), d[..offset], d[offset..][..length]);
      offset := offset + length;
    }
    assert d[..|d|] == d;
    return true;
  }

  method FromIToHex(n0: nat) returns (ret: string)
    ensures ret == ToHex(n0)
  {
    var n := n0;
    ret := [LowerHexDigit(n % 16)];
    n := n / 16;
    while n > 0
      invariant ToHex(n0) == (if n == 0 then "" else ToHex(n)) + ret
    {
      ghost var high := if n < 16 then "" else ToHex(n / 16);
      Append(high, [LowerHexDigit(n % 16)], ret);
      ret := [LowerHexDigit(n % 16)] + ret;
      n := n / 16;
    }
    assert "" + ret == ret;
  }

  /** The data sink a content provider writes to, without a compressor. */
  class DataSink {
    const strm: OutStream
    var ok: bool
    var dataAvailable: bool
    var offset: nat

    constructor (strm: OutStream)
      ensures this.strm == strm && ok && dataAvailable && offset == 0
    {
      this.strm, ok, dataAvailable, offset := strm, true, true, 0;
    }

    method Write(data: string) returns (good: bool)
      modifies this, strm
      ensures good == ok
      ensures !old(ok) ==> !ok && dataAvailable == old(dataAvailable)
      ensures old(ok) ==> dataAvailable == (data != "") && offset == old(offset) + |data|
      ensures old(ok) && strm.healthy ==> ok
      ensures ok ==> strm.sent == old(strm.sent) + EmitOne(Action.Write(data))
    {
      if ok {
        dataAvailable := |data| > 0;
        offset := offset + |data|;
        if data != "" {
          var hex := FromIToHex(|data|);
          var chunk := hex + CRLF + data + CRLF;
          ChunkText(hex, data);
          var writable := IsReady(strm.healthy);
          if !writable {
            ok := false;
          } else {
            var sent := WriteData(strm, chunk);
            if !sent { ok := false; }
          }
        }
      }
      assert strm.sent + "" == strm.sent;
      good := ok;
    }

    /** done, and done_with_trailer */
    method Done(trailer: seq<Field>)
      modifies this, strm
      ensures !old(ok) ==> !ok && dataAvailable == old(dataAvailable)
      ensures old(ok) ==> !dataAvailable && (strm.healthy ==> ok)
      ensures ok ==> strm.sent == old(strm.sent) + EmitOne(Action.Done(trailer))
    {
      if !ok { return; }
      dataAvailable := false;
      ghost var sent := strm.sent;
      var good := WriteData(strm, "0\r\n");
      if !good { ok := false; }
      assert Concat(FieldLines(trailer[0..])) == Concat(FieldLines(trailer)) by { assert trailer[0..] == trailer; }
      ghost var lines := "";
      for i := 0 to |trailer|
        invariant ok ==> strm.sent == sent + "0\r\n" + lines
        invariant !dataAvailable && (strm.healthy ==> ok)
        invariant Concat(FieldLines(trailer)) == lines + Concat(FieldLines(trailer[i..]))
      {
        var line := trailer[i].0 + ": " + trailer[i].1 + CRLF;
        good := WriteData(strm, line);
        if !good { ok := false; }
        assert trailer[i..][1..] == trailer[i + 1..];
        assert FieldLines(trailer[i..])[1..] == FieldLines(trailer[i + 1..]);
        Append(lines, line, Concat(FieldLines(trailer[i + 1..])));
        Append(sent + "0\r\n", lines, line);
        lines := lines + line;
      }
      good := WriteData(strm, CRLF);
      if !good { ok := false; }
      assert trailer[|trailer|..] == [] && lines + "" == lines;
      LastChunkText(sent, lines);
    }
  }

  lemma ChunkText(hex: string, data: string)
    ensures hex + CRLF + data + CRLF == hex + (CRLF + (data + CRLF))
  {
    Append(hex + CRLF, data, CRLF);
    Append(hex, CRLF, data + CRLF);
  }

  lemma LastChunkText(sent: string, lines: string)
    ensures sent + "0\r\n" + lines + CRLF == sent + ("0\r\n" + (lines + CRLF))
  {
    Append(sent + "0\r\n", lines, CRLF);
    Append(sent, "0\r\n", lines + CRLF);
  }

  /** One call of the content provider: what it does with the sink and what it returns. */
  datatype ProviderCall = ProviderCall(actions: seq<Action>, result: bool)

  /** Whether more data is announced after the actions. */
  function MoreAfter(actions: seq<Action>): bool {
    actions == [] || (actions[|actions| - 1].Write? && actions[|actions| - 1].data != "")
  }

  /** The actions of the calls that are made, and whether none of them returned false; the server shuts
      down after the last call of the list. */
  function Provided(calls: seq<ProviderCall>): (seq<Action>, bool) {
    if calls == [] then ([], true)
    else if !calls[0].result then (calls[0].actions, false)
    else if !MoreAfter(calls[0].actions) then (calls[0].actions, true)
    else (calls[0].actions + Provided(calls[1..]).0, Provided(calls[1..]).1)
  }

  /** The provider is asked for more while a call returns true and its last action is a write of some data, or it has
      none. */
  ghost predicate GoesOn(call: ProviderCall) {
    call.result && (call.actions == [] ||
      exists data :: data != "" && call.actions[|call.actions| - 1] == Action.Write(data))
  }

  function ActionsOf(calls: seq<ProviderCall>): seq<Action> {
    if calls == [] then [] else calls[0].actions + ActionsOf(calls[1..])
  }

  /** The calls up to the first that ends the content are made, and all of them when none does. */
  lemma {:induction false} ProvidedIs(calls: seq<ProviderCall>, k: nat)
    requires k <= |calls| && forall i :: 0 <= i < k ==> GoesOn(calls[i])
    ensures k == |calls| ==> Provided(calls) == (ActionsOf(calls), true)
    ensures k < |calls| && !GoesOn(calls[k]) ==> Provided(calls) == (ActionsOf(calls[..k + 1]), calls[k].result)
    decreases |calls|
  {
    if calls != [] {
      MoreIff(calls[0]);
      hide GoesOn;
      if k > 0 {
        ProvidedIs(calls[1..], k - 1);
        if k < |calls| { assert calls[1..][..k] == calls[..k + 1][1..]; }
      } else {
        assert calls[..1][1..] == [] && calls[0].actions + [] == calls[0].actions;
      }
    }
  }

  lemma MoreIff(call: ProviderCall)
    ensures GoesOn(call) <==> call.result && MoreAfter(call.actions)
  {
    if call.actions != [] && call.actions[|call.actions| - 1].Write? {
      assert call.actions[|call.actions| - 1] == Action.Write(call.actions[|call.actions| - 1].data);
    }
  }

  lemma {:induction false} EmitConcat(a: seq<Action>, b: seq<Action>)
    ensures Emit(a + b) == Emit(a) + Emit(b)
  {
    if a == [] {
      assert a + b == b && "" + Emit(b) == Emit(b);
    } else {
      assert (a + b)[1..] == a[1..] + b;
      EmitConcat(a[1..], b);
      Append(EmitOne(a[0]), Emit(a[1..]), Emit(b));
    }
  }

  method Perform(sink: DataSink, actions: seq<Action>)
    requires sink.ok && sink.dataAvailable
    modifies sink, sink.strm
    ensures sink.strm.healthy ==> sink.ok
    ensures sink.ok ==> sink.strm.sent == old(sink.strm.sent) + Emit(actions)
    ensures sink.ok ==> sink.dataAvailable == MoreAfter(actions)
  {
    hide EmitOne;
    ghost var sent := sink.strm.sent;
    assert actions[..0] == [] && sent + "" == sent;
    for i := 0 to |actions|
      invariant sink.strm.healthy ==> sink.ok
      invariant sink.ok ==> sink.strm.sent == sent + Emit(actions[..i]) && sink.dataAvailable == MoreAfter(actions[..i])
    {
      EmitSnoc(actions, i);
      Append(sent, Emit(actions[..i]), EmitOne(actions[i]));
      match actions[i] {
        case Write(data) => var _ := sink.Write(data);
        case Done(trailer) => sink.Done(trailer);
      }
    }
    assert actions[..|actions|] == actions;
  }

  lemma EmitSnoc(actions: seq<Action>, i: nat)
    requires i < |actions|
    ensures Emit(actions[..i + 1]) == Emit(actions[..i]) + EmitOne(actions[i])
  {
    assert actions[..i + 1] == actions[..i] + [actions[i]];
    EmitConcat(actions[..i], [actions[i]]);
    assert [actions[i]][1..] == [] && EmitOne(actions[i]) + "" == EmitOne(actions[i]);
  }

  /** What is provided in all, when `done` has been and the calls from i on are left. */
  ghost function ProvidedFrom(done: seq<Action>, calls: seq<ProviderCall>, i: nat, more: bool): (seq<Action>, bool)
    requires i <= |calls|
  {
    if more then (done + Provided(calls[i..]).0, Provided(calls[i..]).1) else (done, true)
  }

  lemma ProvidedStep(done: seq<Action>, calls: seq<ProviderCall>, i: nat)
    requires i < |calls|
    ensures var call := calls[i];
      ProvidedFrom(done, calls, i, true) ==
        if call.result then ProvidedFrom(done + call.actions, calls, i + 1, MoreAfter(call.actions))
        else (done + call.actions, false)
  {
    hide MoreAfter;
    var rest := Provided(calls[i + 1..]).0;
    assert calls[i..][1..] == calls[i + 1..];
    assert (done + calls[i].actions) + rest == done + (calls[i].actions + rest);
  }

  lemma ProvidedEnds(calls: seq<ProviderCall>, done: seq<Action>, more: bool)
    ensures ProvidedFrom([], calls, 0, true) == Provided(calls)
    ensures ProvidedFrom(done, calls, |calls|, more) == (done, true)
  {
    hide MoreAfter;
    assert calls[0..] == calls && [] + Provided(calls).0 == Provided(calls).0;
    assert calls[|calls|..] == [] && done + [] == done;
  }

  method WriteContentChunked(strm: OutStream, calls: seq<ProviderCall>) returns (ok: bool)
    modifies strm
    ensures ok ==> Provided(calls).1 && strm.sent == old(strm.sent) + Emit(Provided(calls).0)
    ensures strm.healthy ==> ok == Provided(calls).1 && strm.sent == old(strm.sent) + Emit(Provided(calls).0)
  {
    hide Emit, MoreAfter, Provided, ProvidedFrom;
    var sink := new DataSink(strm);
    ghost var done: seq<Action>, sent := [], strm.sent;
    EmitNothing();
    assert sent + "" == sent;
    ProvidedEnds(calls, [], true);
    var i := 0;
    while sink.dataAvailable && i < |calls|
      invariant sink.strm == strm && fresh(sink) && 0 <= i <= |calls| && sink.ok
      invariant strm.sent == sent + Emit(done)
      invariant Provided(calls) == ProvidedFrom(done, calls, i, sink.dataAvailable)
    {
      var writable := IsReady(strm.healthy);
      if !writable { return false; }
      ProvidedStep(done, calls, i);
      EmitConcat(done, calls[i].actions);
      Append(sent, Emit(done), Emit(calls[i].actions));
      Perform(sink, calls[i].actions);
      done := done + calls[i].actions;
      if !calls[i].result { return false; }
      if !sink.ok { return false; }
      i := i + 1;
    }
    ProvidedEnds(calls, done, sink.dataAvailable);
    ProvidedStops(done, calls, i);
    return true;
  }

  lemma ProvidedStops(done: seq<Action>, calls: seq<ProviderCall>, i: nat)
    requires i <= |calls|
    ensures ProvidedFrom(done, calls, i, false) == (done, true)
  {}

  lemma EmitNothing()
    ensures Emit([]) == ""
  {}

  // ----- Reading -----

  /** The lines after the last chunk, through the blank one, and the headers they add. */
  method ReadTrailer(reader: StreamLineReader) returns (ok: bool, headers: seq<Field>)
    requires reader.Valid()
    modifies reader, reader.fixedBuffer, reader.strm, reader.strm.readBuff, reader.strm.socket
    ensures reader.Valid()
    ensures ok ==> var d := DecodeTrailer(old(reader.strm.Unread()));
      d.Good? && d.content == "" && headers == TrailerHeaders(d.trailers) && reader.strm.Unread() == d.rest
    ensures reader.strm.socket.healthy ==> ok == DecodeTrailer(old(reader.strm.Unread())).Good?
  {
    hide IsBlankLine, LineOf, TrailerHeaders, HeaderFields.HeaderOf;
    headers := [];
    ghost var trailers: seq<string> := [];
    ghost var text := reader.strm.Unread();
    ghost var goal := DecodeTrailer(text);
    NoTrailers();
    ok := reader.Getline();
    if !ok { return; }
    AfterLine(text, reader.Line(), reader.strm.Unread());
    while !IsBlankLine(reader.Line())
      invariant reader.Valid()
      invariant text != "" && reader.Line() == LineOf(text) && reader.strm.Unread() == text[|reader.Line()|..]
      invariant goal == AddTrailers(trailers, DecodeTrailer(text)) && headers == TrailerHeaders(trailers)
      decreases |text|
    {
      var line := reader.Line();
      if |line| > HEADER_MAX_LENGTH { return false, headers; }
      MoreTrailers(trailers, line);
      if |line| >= 2 {
        var header := HeaderFields.ParseHeader(line[..|line| - 2]);
        if header.Some? { headers := headers + [header.value]; }
      }
      trailers := trailers + [line];
      AddOne(trailers, line, DecodeTrailer(reader.strm.Unread()));
      text := reader.strm.Unread();
      ok := reader.Getline();
      if !ok { return; }
      AfterLine(text, reader.Line(), reader.strm.Unread());
    }
    assert trailers + [] == trailers;
    return true, headers;
  }

  lemma NoTrailers()
    ensures TrailerHeaders([]) == []
  {}

  lemma {:induction false} MoreTrailers(lines: seq<string>, line: string)
    ensures TrailerHeaders(lines + [line]) == TrailerHeaders(lines) + Listed(TrailerHeader(line))
  {
    hide TrailerHeader, Listed;
    if lines == [] {
      assert [line][1..] == [] && Listed(TrailerHeader(line)) + [] == [] + Listed(TrailerHeader(line));
    } else {
      assert (lines + [line])[1..] == lines[1..] + [line];
      MoreTrailers(lines[1..], line);
      Append(Listed(TrailerHeader(lines[0])), TrailerHeaders(lines[1..]), Listed(TrailerHeader(line)));
    }
  }

  ghost function AddTrailers(lines: seq<string>, d: Decoded): Decoded {
    match d
    case Bad => Bad
    case Good(content, trailers, rest) => Good(content, lines + trailers, rest)
  }

  lemma AddOne(lines: seq<string>, line: string, d: Decoded)
    requires lines != [] && lines[|lines| - 1] == line
    ensures AddTrailers(lines, d) ==
      AddTrailers(lines[..|lines| - 1], if d.Bad? then Bad else Good(d.content, [line] + d.trailers, d.rest))
  {
    if d.Good? { assert lines + d.trailers == lines[..|lines| - 1] + ([line] + d.trailers); }
  }

  lemma AfterLine(text: string, line: string, rest: string)
    requires text == line + rest
    ensures text[|line|..] == rest
  {}

  /** The data of a chunk is followed by a blank line and another line. */
  ghost predicate ChunkEnds(text: string, n: nat) {
    && n <= |text| && text[n..] != "" && IsBlankLine(LineOf(text[n..]))
    && text[n + |LineOf(text[n..])|..] != ""
  }

  ghost function NextLine(text: string, n: nat): string
    requires ChunkEnds(text, n)
  {
    LineOf(text[n + |LineOf(text[n..])|..])
  }

  ghost function NextText(text: string, n: nat): string
    requires ChunkEnds(text, n)
  {
    text[n + |LineOf(text[n..])|..][|NextLine(text, n)|..]
  }

  lemma DecodeAfterIs(line: string, text: string)
    ensures DecodeAfter(line, text) ==
      match ChunkLength(line)
      case None => Bad
      case Some(n) =>
        if n == 0 then DecodeTrailer(text)
        else if !ChunkEnds(text, n) then Bad
        else Prepend(text[..n], DecodeAfter(NextLine(text, n), NextText(text, n)))
  {
    hide ChunkLength, IsBlankLine, LineOf, DecodeTrailer;
  }

  /** Delivers one chunk's data and reads on through the next chunk line. */
  method ReadChunk(reader: StreamLineReader, n: nat, out: Receiver) returns (ok: bool, ghost data: string)
    requires reader.Valid()
    modifies reader, reader.fixedBuffer, reader.strm, reader.strm.readBuff, reader.strm.socket, out
    ensures reader.Valid()
    ensures Received(out.pieces, old(out.pieces), data, n)
    ensures ok ==> var text := old(reader.strm.Unread());
      && ChunkEnds(text, n) && data == text[..n]
      && reader.Line() == NextLine(text, n) && reader.strm.Unread() == NextText(text, n)
    ensures reader.strm.socket.healthy && out.AcceptsAll() ==> ok == ChunkEnds(old(reader.strm.Unread()), n)
  {
    hide Received, IsBlankLine, LineOf, ChunkEnds, NextLine, NextText;
    ghost var text := reader.strm.Unread();
    ChunkEndsIs(text, n);
    ok, data := ReadContentWithLength(reader.strm, n, None, out);
    if !ok { return; }
    ghost var afterData := reader.strm.Unread();
    AfterLine(text, data, afterData);
    AfterLine(data, data, "");
    assert text[..n] == data;
    ok := reader.Getline();
    if !ok { return; }
    ghost var end, afterEnd := reader.Line(), reader.strm.Unread();
    AfterLine(afterData, end, afterEnd);
    if !IsBlankLine(reader.Line()) { return false, data; }
    ok := reader.Getline();
    if !ok { return; }
    AfterLine(afterEnd, reader.Line(), reader.strm.Unread());
  }

  lemma ChunkEndsIs(text: string, n: nat)
    ensures n > |text| ==> !ChunkEnds(text, n)
    ensures n <= |text| ==>
      var body := text[n..];
      var end := LineOf(body);
      var rest := body[|end|..];
      && (ChunkEnds(text, n) <==> body != "" && IsBlankLine(end) && rest != "")
      && (ChunkEnds(text, n) ==> NextLine(text, n) == LineOf(rest) && NextText(text, n) == rest[|LineOf(rest)|..])
  {
    hide IsBlankLine, LineOf;
    if n <= |text| {
      var end := LineOf(text[n..]);
      assert text[n..][|end|..] == text[n + |end|..];
    }
  }

  /** Whatever short reads the stream makes: on success the receiver got the decoded content and nothing
      behind the body was consumed; a healthy stream and a willing receiver fail only on a bad body. */
  method ReadContentChunked(strm: SocketStream, out: Receiver) returns (ok: bool, headers: seq<Field>)
    requires strm.Valid()
    modifies strm, strm.readBuff, strm.socket, out
    ensures strm.Valid() && old(out.pieces) <= out.pieces
    ensures ok ==> var d := Decode(old(strm.Unread()));
      && d.Good? && Text(out.pieces) == Text(old(out.pieces)) + d.content
      && headers == TrailerHeaders(d.trailers) && strm.Unread() == d.rest
    ensures strm.socket.healthy && out.AcceptsAll() ==> ok == Decode(old(strm.Unread())).Good?
  {
    hide Text, DecodeAfter, DecodeTrailer, ChunkLength, Received, ChunkEnds, NextLine, NextText, TrailerHeaders;
    ghost var text, before, got := strm.Unread(), out.pieces, "";
    ghost var goal := Decode(text);
    headers := [];
    var buf := new char[16](_ => '\0');
    var reader := new StreamLineReader(strm, buf);
    ok := reader.Getline();
    if !ok { return; }
    AfterLine(text, reader.Line(), strm.Unread());
    PrependNothing(goal);
    assert Text(before) + "" == Text(before);
    while true
      invariant reader.Valid() && reader.strm == strm && reader.fixedBuffer == buf && fresh(buf) && fresh(reader)
      invariant before <= out.pieces && Text(out.pieces) == Text(before) + got
      invariant goal == Prepend(got, DecodeAfter(reader.Line(), strm.Unread()))
      decreases |strm.Unread()|
    {
      text := strm.Unread();
      DecodeAfterIs(reader.Line(), text);
      var chunkLen := ChunkLength(reader.Line());
      if chunkLen.None? { return false, headers; }
      if chunkLen.value == 0 { break; }
      ghost var pieces := out.pieces;
      ghost var data;
      ok, data := ReadChunk(reader, chunkLen.value, out);
      ReceivedIs(out.pieces, pieces, data, chunkLen.value);
      if !ok { return; }
      NextShorter(text, chunkLen.value);
      PrependPrepend(got, data, DecodeAfter(reader.Line(), strm.Unread()));
      Append(Text(before), got, data);
      got := got + data;
    }
    ok, headers := ReadTrailer(reader);
    assert got + "" == got;
  }

  lemma ReceivedIs(pieces: seq<Piece>, before: seq<Piece>, got: string, length: nat)
    requires Received(pieces, before, got, length)
    ensures before <= pieces && Text(pieces) == Text(before) + got
  {}

  lemma NextShorter(text: string, n: nat)
    requires ChunkEnds(text, n)
    ensures |NextText(text, n)| < |text|
  {
    hide IsBlankLine;
  }

  lemma PrependNothing(d: Decoded)
    ensures Prepend("", d) == d
  {
    if d.Good? { assert "" + d.content == d.content; }
  }

  lemma PrependPrepend(a: string, b: string, d: Decoded)
    ensures Prepend(a, Prepend(b, d)) == Prepend(a + b, d)
  {
    if d.Good? { Append(a, b, d.content); }
  }

  // ----- Through both ends -----

  /** What the writer emits for non-empty writes and done, sent over a socket that may deliver it in any
      portions and followed by anything, is given back by the reader. */
  method SendAndReceive(texts: seq<string>, trailer: seq<Field>, following: string, out: Receiver)
    returns (ok: bool, headers: seq<Field>, strm: SocketStream)
    requires TextsOk(texts) && FieldsOk(trailer) && out.AcceptsAll()
    modifies out
    ensures strm.Valid() && fresh(strm) && fresh(strm.readBuff) && fresh(strm.socket)
    ensures ok && strm.Unread() == following
    ensures Text(out.pieces) == Text(old(out.pieces)) + Concat(texts)
    ensures AreFields(trailer) ==> headers == AsRead(trailer)
    ensures headers == trailer <==> Intact(trailer)
  {
    hide Emit, Decode, Text, FieldsOk, MoreAfter, TrailerHeaders, AsRead, Intact;
    var actions := Writes(texts) + [Action.Done(trailer)];
    DoneEnds(texts, trailer);
    var writer := new OutStream(true);
    var sent := WriteContentChunked(writer, [ProviderCall(actions, true)]);
    assert "" + Emit(actions) == Emit(actions);
    var socket := new Socket(writer.sent + following, true);
    strm := new SocketStream(socket);
    RoundTrip(texts, trailer, following);
    ok, headers := ReadContentChunked(strm, out);
    if AreFields(trailer) { TrailerReadsBack(trailer); }
    TrailerIntactIff(trailer);
  }

  lemma DoneEnds(texts: seq<string>, trailer: seq<Field>)
    ensures var actions := Writes(texts) + [Action.Done(trailer)];
      !MoreAfter(actions) && Provided([ProviderCall(actions, true)]) == (actions, true)
  {}
}
