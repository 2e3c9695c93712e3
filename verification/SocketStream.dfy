/** Buffered reading of deps/httplib.h: SocketStream::read over a socket with arbitrary short reads, the
    line reader and the fixed-length reader on top of it. */
module SocketStream {
  import opened Wrappers
  import Sequences

  /** The bytes the peer will still send; a healthy socket never times out and never fails. */
  class Socket {
    var incoming: string
    const healthy: bool

    constructor (incoming: string, healthy: bool)
      ensures this.incoming == incoming && this.healthy == healthy
    {
      this.incoming, this.healthy := incoming, healthy;
    }

    /** recv: any positive number of the next bytes, 0 at the end, -1 on an error. */
    method Recv(max: nat) returns (n: int, data: string)
      requires max > 0
      modifies this
      ensures n < 0 ==> !healthy
      ensures n <= 0 ==> data == "" && incoming == old(incoming)
      ensures n == 0 ==> incoming == ""
      ensures n > 0 ==> n == |data| <= max && old(incoming) == data + incoming
    {
      if !healthy {
        if * { return -1, ""; }
      }
      if incoming == "" { return 0, ""; }
      var k :| 0 < k <= max && k <= |incoming|;
      data := incoming[..k];
      n := k;
      incoming := incoming[k..];
    }
  }

  /** is_readable and is_writable: certain to hold only on a healthy connection. */
  method IsReady(healthy: bool) returns (ready: bool)
    ensures healthy ==> ready
  {
    ready := healthy;
    if * { ready := true; }
  }

  const READ_BUFF_SIZE := 4096
  const RECV_BUFSIZ := 16384

  class SocketStream {
    const socket: Socket
    const readBuff: array<char>
    var off: nat
    var contentSize: nat

    ghost predicate Valid()
      reads this
    {
      readBuff.Length == READ_BUFF_SIZE && off <= contentSize <= READ_BUFF_SIZE
    }

    /** Everything received or to come that has not been returned yet. */
    ghost function Unread(): string
      requires Valid()
      reads this, readBuff, socket
    {
      readBuff[off..contentSize] + socket.incoming
    }

    constructor (socket: Socket)
      ensures Valid() && this.socket == socket && fresh(readBuff) && Unread() == socket.incoming
    {
      this.socket := socket;
      readBuff := new char[READ_BUFF_SIZE](_ => '\0');
      off, contentSize := 0, 0;
      new;
      assert readBuff[0..0] == "";
    }

    /** memcpy into the buffer */
    method Fill(data: string)
      requires Valid() && |data| <= READ_BUFF_SIZE
      modifies readBuff
      ensures readBuff[..|data|] == data
    {
      for i := 0 to |data|
        invariant readBuff[..i] == data[..i]
      {
        readBuff[i] := data[i];
      }
      assert data[..|data|] == data;
    }

    method Read(size: nat) returns (n: int, data: string)
      requires Valid()
      modifies this, readBuff, socket
      ensures Valid()
      ensures |data| == (if n > 0 then n else 0) <= size
      ensures old(Unread()) == data + Unread()
      ensures n < 0 ==> !socket.healthy
      ensures n == 0 && size > 0 ==> Unread() == ""
    {
      if off < contentSize {
        var remaining := contentSize - off;
        n := if size <= remaining then size else remaining;
        data := readBuff[off..off + n];
        assert readBuff[off..contentSize] == data + readBuff[off + n..contentSize];
        Sequences.Append(data, readBuff[off + n..contentSize], socket.incoming);
        off := off + n;
        return;
      }
      assert readBuff[off..contentSize] == "";
      assert Unread() == socket.incoming;
      var readable := IsReady(socket.healthy);
      if !readable { return -1, ""; }
      off, contentSize := 0, 0;
      assert readBuff[off..contentSize] == "";
      if size < READ_BUFF_SIZE {
        n, data := Refill(size);
      } else {
        n, data := socket.Recv(size);
        assert readBuff[off..contentSize] == "";
      }
    }

    /** A small read fills the buffer and takes the front of it. */
    method Refill(size: nat) returns (n: int, data: string)
      requires Valid() && off == contentSize == 0 && size < READ_BUFF_SIZE
      modifies this, readBuff, socket
      ensures Valid()
      ensures |data| == (if n > 0 then n else 0) <= size
      ensures old(socket.incoming) == data + Unread()
      ensures n < 0 ==> !socket.healthy
      ensures n == 0 && size > 0 ==> Unread() == ""
    {
      var got, bytes := socket.Recv(READ_BUFF_SIZE);
      assert readBuff[off..contentSize] == "";
      if got <= 0 {
        return got, "";
      }
      Fill(bytes);
      if got <= size {
        assert readBuff[off..contentSize] == "";
        return got, bytes;
      }
      data := bytes[..size];
      assert readBuff[size..got] == readBuff[..got][size..] == bytes[size..];
      Sequences.Append(data, bytes[size..], socket.incoming);
      assert bytes == data + bytes[size..];
      off, contentSize := size, got;
      n := size;
    }
  }

  // ----- Lines -----

  /** The text through the first newline, or all of it. */
  function LineOf(s: string): (line: string)
    ensures line <= s && (s != "" ==> line != "")
  {
    if s == "" then "" else if s[0] == '\n' then s[..1] else [s[0]] + LineOf(s[1..])
  }

  lemma {:induction false} LineOfAt(s: string, k: nat)
    requires k < |s| && s[k] == '\n' && '\n' !in s[..k]
    ensures LineOf(s) == s[..k + 1]
  {
    if k > 0 {
      assert s[1..][..k - 1] == s[..k][1..];
      assert s[0] == s[..k][0];
      LineOfAt(s[1..], k - 1);
    }
  }

  lemma {:induction false} LineOfAll(s: string)
    requires '\n' !in s
    ensures LineOf(s) == s
  {
    if s != "" { LineOfAll(s[1..]); }
  }

  /** The line is kept in the caller's fixed buffer, NUL-terminated, until it outgrows it. */
  class StreamLineReader {
    const strm: SocketStream
    const fixedBuffer: array<char>
    var used: nat
    var growable: string

    ghost predicate Valid()
      reads this, strm, fixedBuffer
    {
      && strm.Valid() && strm.readBuff != fixedBuffer
      && 2 <= fixedBuffer.Length && used < fixedBuffer.Length
      && (used > 0 ==> fixedBuffer[used] == '\0')
      && (growable != "" ==> used == fixedBuffer.Length - 1)
    }

    /** ptr() and size(): the bytes of the line. */
    function Line(): string
      reads this, fixedBuffer
      requires used <= fixedBuffer.Length
    {
      if growable == "" then fixedBuffer[..used] else growable
    }

    constructor (strm: SocketStream, fixedBuffer: array<char>)
      requires strm.Valid() && strm.readBuff != fixedBuffer && 2 <= fixedBuffer.Length
      ensures Valid() && this.strm == strm && this.fixedBuffer == fixedBuffer && Line() == ""
    {
      this.strm, this.fixedBuffer := strm, fixedBuffer;
      used, growable := 0, "";
    }

    /** append */
    method Append(c: char)
      requires Valid()
      modifies this, fixedBuffer
      ensures Valid() && Line() == old(Line()) + [c]
    {
      if used < fixedBuffer.Length - 1 {
        fixedBuffer[used] := c;
        used := used + 1;
        fixedBuffer[used] := '\0';
      } else {
        if growable == "" {
          assert fixedBuffer[used] == '\0';
          growable := fixedBuffer[..used];
        }
        growable := growable + [c];
      }
    }

    /** One byte of the stream onto the line. */
    method ReadByte() returns (n: int, byte: char)
      requires Valid()
      modifies this, fixedBuffer, strm, strm.readBuff, strm.socket
      ensures Valid()
      ensures if n > 0 then Line() == old(Line()) + [byte] && old(strm.Unread()) == [byte] + strm.Unread()
              else Line() == old(Line()) && strm.Unread() == old(strm.Unread())
      ensures n < 0 ==> !strm.socket.healthy
      ensures n == 0 ==> strm.Unread() == ""
    {
      var bytes;
      n, bytes := strm.Read(1);
      byte := '\0';
      if n > 0 {
        byte := bytes[0];
        assert bytes == [byte];
        AppendKeepsStream(byte);
      } else {
        assert bytes + strm.Unread() == strm.Unread();
      }
    }

    method AppendKeepsStream(c: char)
      requires Valid()
      modifies this, fixedBuffer
      ensures Valid() && Line() == old(Line()) + [c] && strm.Unread() == old(strm.Unread())
    {
      Append(c);
    }

    /** Nothing is lost even when the stream fails; a line read is the text through the next newline. */
    method Getline() returns (ok: bool)
      requires Valid()
      modifies this, fixedBuffer, strm, strm.readBuff, strm.socket
      ensures Valid()
      ensures old(strm.Unread()) == Line() + strm.Unread()
      ensures ok ==> Line() != "" && Line() == LineOf(old(strm.Unread()))
      ensures strm.socket.healthy ==> ok == (old(strm.Unread()) != "")
    {
      ghost var text := strm.Unread();
      Reset();
      ghost var line := "";
      while true
        invariant Valid() && line == Line()
        invariant text == line + strm.Unread()
        invariant '\n' !in line
        decreases |strm.Unread()|
      {
        ghost var unread := strm.Unread();
        var n, byte := ReadByte();
        if n < 0 {
          return false;
        } else if n == 0 {
          assert text == line;
          LineOfAll(text);
          return Line() != "";
        }
        Sequences.Append(line, [byte], strm.Unread());
        if byte == '\n' {
          LineOfAt(text, |line|);
          assert text[..|line|] == line && text[..|line| + 1] == line + [byte];
          return true;
        }
        line := line + [byte];
      }
    }

    method Reset()
      requires Valid()
      modifies this
      ensures Valid() && Line() == "" && strm.Unread() == old(strm.Unread())
    {
      used := 0;
      growable := "";
    }
  }

  // ----- A known number of bytes -----

  /** One call of the content receiver. */
  datatype Piece = Piece(data: string, offset: nat, length: nat)

  function Text(pieces: seq<Piece>): string {
    if pieces == [] then "" else Text(pieces[..|pieces| - 1]) + pieces[|pieces| - 1].data
  }

  lemma TextAppend(pieces: seq<Piece>, piece: Piece)
    ensures Text(pieces + [piece]) == Text(pieces) + piece.data
  {
    assert (pieces + [piece])[..|pieces|] == pieces;
  }

  /** What the receiver was given; it returns whatever it likes of all that it has seen. */
  class Receiver {
    const accept: seq<Piece> -> bool
    var pieces: seq<Piece>

    constructor (accept: seq<Piece> -> bool)
      ensures this.accept == accept && pieces == []
    {
      this.accept, pieces := accept, [];
    }

    ghost predicate AcceptsAll() {
      forall ps :: accept(ps)
    }

    method Receive(piece: Piece) returns (ok: bool)
      modifies this
      ensures pieces == old(pieces) + [piece] && ok == accept(pieces)
    {
      pieces := pieces + [piece];
      ok := accept(pieces);
    }
  }

  /** Pieces that carry a text of the given length without a gap, none of them empty or too large. */
  ghost predicate Contiguous(pieces: seq<Piece>, from: nat, length: nat) {
    forall i :: from <= i < |pieces| ==>
      && pieces[i].offset == |Text(pieces[..i])| - |Text(pieces[..from])|
      && pieces[i].length == length && 0 < |pieces[i].data| <= RECV_BUFSIZ
  }

  /** Reads once, up to the buffer size, and hands on what came. */
  method ReceiveSome(strm: SocketStream, r: nat, len: nat, out: Receiver) returns (ok: bool, data: string)
    requires strm.Valid() && r < len
    modifies strm, strm.readBuff, strm.socket, out
    ensures strm.Valid()
    ensures old(strm.Unread()) == data + strm.Unread() && |data| <= len - r
    ensures out.pieces == if data == "" then old(out.pieces) else old(out.pieces) + [Piece(data, r, len)]
    ensures |data| <= RECV_BUFSIZ && (data == "" ==> !ok)
    ensures strm.socket.healthy && out.AcceptsAll() ==> (if old(strm.Unread()) == "" then data == "" else ok)
  {
    var n;
    n, data := strm.Read(if len - r < RECV_BUFSIZ then len - r else RECV_BUFSIZ);
    if n <= 0 { return false, data; }
    ok := out.Receive(Piece(data, r, len));
  }

  /** The pieces since `before` carry `got`, in order and without a gap. */
  ghost predicate Received(pieces: seq<Piece>, before: seq<Piece>, got: string, length: nat) {
    before <= pieces && Text(pieces) == Text(before) + got && Contiguous(pieces, |before|, length)
  }

  lemma ReceivedNothing(before: seq<Piece>, length: nat)
    ensures Received(before, before, "", length)
  {
    hide Text;
  }

  lemma ReceivedMore(pieces: seq<Piece>, before: seq<Piece>, got: string, length: nat, data: string)
    requires Received(pieces, before, got, length) && 0 < |data| <= RECV_BUFSIZ
    ensures Received(pieces + [Piece(data, |got|, length)], before, got + data, length)
  {
    hide Text;
    assert pieces[..|before|] == before;
    TextAppend(pieces, Piece(data, |got|, length));
    Sequences.Append(Text(before), got, data);
    var more := pieces + [Piece(data, |got|, length)];
    assert more[..|pieces|] == pieces && more[..|before|] == before;
    forall i | |before| <= i < |pieces|
      ensures more[i] == pieces[i] && more[..i] == pieces[..i]
    {}
  }

  /** A progress callback; it is told how many bytes have come, which the pieces delivered so far say too. */
  type Progress = Option<seq<Piece> -> bool>

  ghost predicate GoesOn(progress: Progress) {
    progress.Some? ==> forall ps :: progress.value(ps)
  }

  method ReadContentWithLength(strm: SocketStream, len: nat, progress: Progress, out: Receiver)
    returns (ok: bool, ghost got: string)
    requires strm.Valid()
    modifies strm, strm.readBuff, strm.socket, out
    ensures strm.Valid()
    ensures Received(out.pieces, old(out.pieces), got, len)
    ensures old(strm.Unread()) == got + strm.Unread() && |got| <= len && (ok ==> |got| == len)
    ensures strm.socket.healthy && out.AcceptsAll() && GoesOn(progress) ==> ok == (|old(strm.Unread())| >= len)
  {
    hide Received;
    var r := 0;
    ghost var before, unread := out.pieces, strm.Unread();
    got := "";
    ReceivedNothing(before, len);
    while r < len
      invariant r == |got| <= len && strm.Valid()
      invariant Received(out.pieces, before, got, len)
      invariant unread == got + strm.Unread()
    {
      ghost var pieces := out.pieces;
      var good, data := ReceiveSome(strm, r, len, out);
      if data != "" {
        ReceivedMore(pieces, before, got, len, data);
        Sequences.Append(got, data, strm.Unread());
        got := got + data;
      } else {
        assert data + strm.Unread() == strm.Unread();
      }
      assert unread == got + strm.Unread();
      if !good { return false, got; }
      r := r + |data|;
      if progress.Some? {
        var goOn := progress.value(out.pieces);
        if !goOn { return false, got; }
      }
    }
    return true, got;
  }
}
