/** The pipe bridge: what `pipein_read` does with one burst of data from
    the input pipe (src/websocket.c:264-341). The burst is forwarded to the
    client as one fragmented message, the input pipe is reopened, and the
    client's answer is streamed to the output pipe. The other ends of the
    two pipes observe an ordered log of events. */
module Bridge {
  import opened Bytes
  import opened Io
  import opened Frame
  import opened Connection

  const PIPEOUT_WRITE_TIMEOUT: nat := 3000

  /** `pipeout_open` tries this many times, 10 ms apart (src/websocket.c:165). */
  const OPEN_ATTEMPTS: nat := PIPEOUT_WRITE_TIMEOUT / 10

  const NOT_CONNECTED: seq<byte> := AsBytes("EError: not connected\n")
  const SOCKET_WRITE_ERROR: seq<byte> := AsBytes("EError: socket write error\n")

  /** What the processes on the other ends of the pipes see. */
  datatype Event =
    | InReopened            // pipein_reopen: the input pipe was flushed and opened anew
    | OutOpened             // pipeout_open succeeded
    | OutData(data: seq<byte>)  // pipeout_write
    | OutClosed             // pipeout_close on an open pipe

  /** The server state `pipein_read` works on: the client slot, the input
      pipe descriptor, whether the output pipe is open, and the event log. */
  datatype World = World(conn: Conn, pipeinFd: int, outOpen: bool, log: seq<Event>)

  /** Everything written to the output pipe, in order. */
  function Written(log: seq<Event>): seq<byte>
  {
    if log == [] then []
    else Written(log[..|log| - 1]) + (if log[|log| - 1].OutData? then log[|log| - 1].data else [])
  }

  lemma {:induction false} WrittenAppend(a: seq<Event>, b: seq<Event>)
    ensures Written(a + b) == Written(a) + Written(b)
    decreases |b|
  {
    if b != [] {
      var last := b[|b| - 1];
      assert (a + b)[..|a + b| - 1] == a + b[..|b| - 1];
      WrittenAppend(a, b[..|b| - 1]);
    } else {
      assert a + b == a;
    }
  }

  // ---------------------------------------------------------------------
  // The output pipe
  // ---------------------------------------------------------------------

  /** pipein_reopen (src/websocket.c:239-261) with the descriptor `fd` the
      new `open` returns. */
  function Reopen(w: World, fd: int): (r: World)
    ensures r.conn == w.conn && r.outOpen == w.outOpen && r.pipeinFd == fd
    ensures r.log == w.log + [InReopened]
  {
    w.(pipeinFd := fd, log := w.log + [InReopened])
  }

  /** pipeout_open (src/websocket.c:152-193): the reader of the output pipe
      shows up after `delay` failed attempts; the open succeeds iff that is
      within OPEN_ATTEMPTS attempts. */
  function OutOpen(w: World, delay: nat): (r: World)
    ensures r.conn == w.conn && r.pipeinFd == w.pipeinFd
    ensures r.outOpen <==> delay < OPEN_ATTEMPTS
    ensures delay < OPEN_ATTEMPTS ==> r.log == w.log + [OutOpened]
    ensures delay >= OPEN_ATTEMPTS ==> r.log == w.log
  {
    if delay < OPEN_ATTEMPTS then w.(outOpen := true, log := w.log + [OutOpened])
    else w.(outOpen := false)
  }

  /** pipeout_write (src/websocket.c:206-221): nothing happens when the
      pipe is not open. */
  function OutWrite(w: World, data: seq<byte>): (r: World)
    ensures r.conn == w.conn && r.pipeinFd == w.pipeinFd && r.outOpen == w.outOpen
    ensures r.log == w.log + (if w.outOpen then [OutData(data)] else [])
    ensures Written(r.log) == Written(w.log) + (if w.outOpen then data else [])
    ensures OnlyWrites(w.log, r.log)
  {
    var r := if w.outOpen then w.(log := w.log + [OutData(data)]) else w;
    assert w.outOpen ==> r.log[..|r.log| - 1] == w.log;
    r
  }

  /** pipeout_close (src/websocket.c:195-204). */
  function OutClose(w: World): (r: World)
    ensures r.conn == w.conn && r.pipeinFd == w.pipeinFd && !r.outOpen
    ensures r.log == w.log + (if w.outOpen then [OutClosed] else [])
  {
    if w.outOpen then w.(outOpen := false, log := w.log + [OutClosed]) else w
  }

  /** pipeout_error (src/websocket.c:224-228): open, write `msg`, close. */
  function OutError(w: World, msg: seq<byte>, delay: nat): (r: World)
    requires !w.outOpen
    ensures r.conn == w.conn && r.pipeinFd == w.pipeinFd && !r.outOpen
    ensures r.log == w.log + (if delay < OPEN_ATTEMPTS then [OutOpened, OutData(msg), OutClosed] else [])
  {
    OutClose(OutWrite(OutOpen(w, delay), msg))
  }

  // ---------------------------------------------------------------------
  // Forwarding the input pipe to the client
  // ---------------------------------------------------------------------

  /** What successive `read`s of the input pipe return before end of file:
      each between 1 and BUFFERSIZE bytes. */
  predicate Chunks(chunks: seq<seq<byte>>)
  {
    forall i :: 0 <= i < |chunks| ==> 0 < |chunks[i]| <= BUFFERSIZE
  }

  /** The frames the pipe chunks become: text for the first chunk of the
      burst, continuation after it, FIN never set. */
  function OutFrames(chunks: seq<seq<byte>>, first: bool): (r: seq<Frame>)
    requires Chunks(chunks)
    ensures |r| == |chunks|
    ensures forall i :: 0 <= i < |r| ==> |r[i].payload| <= BUFFERSIZE && r[i].opcode <= 2
  {
    if chunks == [] then []
    else
      var tail := OutFrames(chunks[1..], false);
      var r := [Frame(false, if first then OP_TEXT else OP_CONTINUATION, chunks[0])] + tail;
      assert forall i :: 1 <= i < |r| ==> r[i] == tail[i - 1];
      r
  }

  /** The empty continuation frame with FIN set that ends every burst. */
  const FINAL_FRAME: Frame := Frame(true, OP_CONTINUATION, [])

  /** Everything a burst sends the client when all writes succeed. */
  function Outbound(chunks: seq<seq<byte>>): seq<Frame>
    requires Chunks(chunks)
  {
    OutFrames(chunks, true) + [FINAL_FRAME]
  }

  /** The frame loop of pipein_read (src/websocket.c:277-297): one frame
      per chunk, stopping at the first failed write. */
  function Forward(c: Conn, chunks: seq<seq<byte>>, first: bool): (r: (Conn, bool))
    requires Chunks(chunks)
    ensures r.0.peer.input == c.peer.input && r.0.peer.pos == c.peer.pos
    ensures r.1 ==> r.0.fd == c.fd
    ensures !r.1 ==> r.0.fd == -1
    decreases |chunks|
  {
    if chunks == [] then (c, true)
    else
      var (c2, ok) := SendFrame(c, Frame(false, if first then OP_TEXT else OP_CONTINUATION, chunks[0]));
      if !ok then (c2, false)
      else Forward(c2, chunks[1..], false)
  }

  // ---------------------------------------------------------------------
  // Streaming the answer to the output pipe
  // ---------------------------------------------------------------------

  /** The inner loop of pipein_read (src/websocket.c:327-338): the payload
      of one frame, read in pieces of at most BUFFERSIZE bytes, each
      unmasked on its own and written to the output pipe. */
  function CopyData(w: World, len: int, key: seq<byte>): (r: (World, bool))
    requires |key| == 4
    ensures r.0.conn.peer.input == w.conn.peer.input && w.conn.peer.pos <= r.0.conn.peer.pos
    ensures r.0.conn.fd == w.conn.fd || r.0.conn.fd == -1
    ensures r.0.pipeinFd == w.pipeinFd && r.0.outOpen == w.outOpen && w.log <= r.0.log
    decreases len
  {
    if len <= 0 then (w, true)
    else
      var rlen := Min(len, BUFFERSIZE);
      var (c, d) := ReadData(w.conn, rlen, key);
      match d
      case None => (w.(conn := c), false)
      case Some(bytes) => CopyData(OutWrite(w.(conn := c), bytes), len - rlen, key)
  }

  /** The answer loop of pipein_read (src/websocket.c:318-340, without the
      final close): frame after frame until one has FIN set, the header
      reader fails, or a payload read fails. */
  function ReplyLoop(w: World): (r: World)
    ensures r.conn.peer.input == w.conn.peer.input && w.conn.peer.pos <= r.conn.peer.pos
    ensures r.pipeinFd == w.pipeinFd && r.outOpen == w.outOpen && w.log <= r.log
    decreases if w.conn.fd >= 0 then 1 else 0, |w.conn.peer.input| - w.conn.peer.pos
  {
    var g := ReadHeader(w.conn);
    if g.len < 0 then w.(conn := g.conn)
    else
      var (w2, ok) := CopyData(w.(conn := g.conn), g.len, g.key);
      if !ok || g.fin then w2 else ReplyLoop(w2)
  }

  /** pipein_read (src/websocket.c:264-341) on a burst that the input pipe
      delivers as `chunks`; `delay` is how long the reader of the output
      pipe takes to show up and `fd` the descriptor the input pipe is
      reopened as. */
  function PipeinRead(w: World, chunks: seq<seq<byte>>, delay: nat, fd: int): (r: World)
    requires Chunks(chunks) && !w.outOpen
    ensures r.pipeinFd == fd && !r.outOpen
    ensures w.log + [InReopened] <= r.log
    ensures w.conn.fd < 0 ==>
      && r.conn == w.conn
      && r.log == w.log + [InReopened] +
           (if delay < OPEN_ATTEMPTS then [OutOpened, OutData(NOT_CONNECTED), OutClosed] else [])
  {
    if w.conn.fd < 0 then OutError(Reopen(w, fd), NOT_CONNECTED, delay)
    else
      var (c1, ok) := Forward(w.conn, chunks, true);
      var w1 := Reopen(w.(conn := c1), fd);
      if !ok then OutError(w1, SOCKET_WRITE_ERROR, delay)
      else
        var (c2, ok2) := SendFrame(c1, FINAL_FRAME);
        if !ok2 then OutError(w1.(conn := c2), SOCKET_WRITE_ERROR, delay)
        else OutClose(ReplyLoop(OutOpen(w1.(conn := c2), delay)))
  }

  // ---------------------------------------------------------------------
  // Properties
  // ---------------------------------------------------------------------

  /** A burst of at least one chunk sends a message of the shape of
      section 5.4 of RFC 6455: a text frame, continuation frames, and FIN
      on the last one only; each payload is a chunk of the pipe, at most
      BUFFERSIZE bytes. A burst whose first read returns nothing sends the
      closing continuation frame alone, with no text frame before it. */
  lemma OutboundShape(chunks: seq<seq<byte>>)
    requires Chunks(chunks)
    ensures chunks == [] ==> Outbound(chunks) == [FINAL_FRAME]
    ensures var fs := Outbound(chunks);
      && |fs| == |chunks| + 1
      && (forall i :: 0 <= i < |chunks| ==>
            !fs[i].fin && fs[i].payload == chunks[i]
            && fs[i].opcode == if i == 0 then OP_TEXT else OP_CONTINUATION)
      && fs[|chunks|] == Frame(true, OP_CONTINUATION, [])
      && (forall i :: 0 <= i < |fs| ==> |fs[i].payload| <= BUFFERSIZE && fs[i].opcode <= 2)
  {
    OutFramesShape(chunks, true);
    var fs := Outbound(chunks);
    var body := OutFrames(chunks, true);
    assert forall i :: 0 <= i < |chunks| ==> fs[i] == body[i];
  }

  /** Together the payloads of a burst are the pipe bytes in order, and
      the client decodes exactly the frames sent. */
  lemma OutboundDecodes(chunks: seq<seq<byte>>)
    requires Chunks(chunks)
    ensures Payloads(Outbound(chunks)) == Flatten(chunks)
    ensures DecodeFrames(Wire(Outbound(chunks))) == Outbound(chunks)
  {
    PayloadsOutFrames(chunks, true);
    PayloadsAppend(OutFrames(chunks, true), [FINAL_FRAME]);
    WireRoundTrip(Outbound(chunks));
  }

  lemma {:induction false} OutFramesShape(chunks: seq<seq<byte>>, first: bool)
    requires Chunks(chunks)
    ensures var fs := OutFrames(chunks, first);
      forall i :: 0 <= i < |chunks| ==>
        !fs[i].fin && fs[i].payload == chunks[i]
        && fs[i].opcode == if i == 0 && first then OP_TEXT else OP_CONTINUATION
  {
    if chunks != [] {
      OutFramesShape(chunks[1..], false);
      var fs := OutFrames(chunks, first);
      assert forall i :: 1 <= i < |chunks| ==> fs[i] == OutFrames(chunks[1..], false)[i - 1];
    }
  }

  lemma {:induction false} PayloadsOutFrames(chunks: seq<seq<byte>>, first: bool)
    requires Chunks(chunks)
    ensures Payloads(OutFrames(chunks, first)) == Flatten(chunks)
  {
    if chunks != [] {
      PayloadsOutFrames(chunks[1..], false);
      assert OutFrames(chunks, first)[1..] == OutFrames(chunks[1..], false);
    }
  }

  lemma {:induction false} PayloadsAppend(a: seq<Frame>, b: seq<Frame>)
    ensures Payloads(a + b) == Payloads(a) + Payloads(b)
  {
    if a != [] {
      assert (a + b)[1..] == a[1..] + b;
      PayloadsAppend(a[1..], b);
    } else {
      assert a + b == b;
    }
  }

  lemma {:induction false} WireAppend(a: seq<Frame>, b: seq<Frame>)
    requires forall i :: 0 <= i < |a| ==> |a[i].payload| < U32
    requires forall i :: 0 <= i < |b| ==> |b[i].payload| < U32
    ensures Wire(a + b) == Wire(a) + Wire(b)
  {
    if a != [] {
      assert (a + b)[0] == a[0] && (a + b)[1..] == a[1..] + b;
      WireAppend(a[1..], b);
      ConcatAssoc(EncodeFrame(a[0]), Wire(a[1..]), Wire(b));
    } else {
      assert a + b == b;
    }
  }

  /** The frame loop sends the first chunk, then goes on with the rest
      only if that write succeeded. */
  lemma ForwardOne(c: Conn, chunks: seq<seq<byte>>, first: bool)
    requires Chunks(chunks) && chunks != []
    ensures Chunks(chunks[1..])
    ensures var (c2, ok) := SendFrame(c, Frame(false, if first then OP_TEXT else OP_CONTINUATION, chunks[0]));
      Forward(c, chunks, first) == if ok then Forward(c2, chunks[1..], false) else (c2, false)
  {
  }

  /** The frames of a burst on the wire: the first chunk's frame, then
      the rest. */
  lemma OutFramesWire(chunks: seq<seq<byte>>, first: bool)
    requires Chunks(chunks) && chunks != []
    ensures Chunks(chunks[1..])
    ensures Wire(OutFrames(chunks, first)) ==
              EncodeFrame(Frame(false, if first then OP_TEXT else OP_CONTINUATION, chunks[0])) + Wire(OutFrames(chunks[1..], false))
  {
    var fs := OutFrames(chunks, first);
    assert fs[1..] == OutFrames(chunks[1..], false);
  }

  /** What sending `bytes` to a connected client did: it took all of
      them, appended to what it had received, or it was released after
      taking a prefix of them. */
  predicate Sent(c: Conn, r: Conn, ok: bool, bytes: seq<byte>)
  {
    && (ok <==> |bytes| <= c.peer.room)
    && (ok ==> r == c.(peer := c.peer.(output := c.peer.output + bytes, room := c.peer.room - |bytes|)))
    && (!ok ==> r.fd == -1 && r.released == c.released + [r.peer])
    && r.peer.input == c.peer.input && r.peer.pos == c.peer.pos
    && r.peer.output <= c.peer.output + bytes
  }

  lemma SentFrame(c: Conn, f: Frame)
    requires c.fd >= 0 && |f.payload| < U32
    ensures Sent(c, SendFrame(c, f).0, SendFrame(c, f).1, EncodeFrame(f))
  {
  }

  /** Sending one frame and then the rest is sending both. */
  lemma SentGlue(c: Conn, c2: Conn, r: Conn, ok: bool, e: seq<byte>, tail: seq<byte>)
    requires Sent(c, c2, true, e) && Sent(c2, r, ok, tail)
    ensures Sent(c, r, ok, e + tail)
  {
    ConcatAssoc(c.peer.output, e, tail);
  }

  /** A failed send fails whatever was to follow it. */
  lemma FailGlue(c: Conn, r: Conn, e: seq<byte>, tail: seq<byte>)
    requires Sent(c, r, false, e)
    ensures Sent(c, r, false, e + tail)
  {
    ConcatAssoc(c.peer.output, e, tail);
  }

  /** When the client takes every byte, the chunks reach it as the frames
      of `OutFrames`, back to back; when it does not, the client is
      released and received a prefix of them. */
  lemma {:induction false} ForwardSends(c: Conn, chunks: seq<seq<byte>>, first: bool) returns (r: Conn, ok: bool)
    requires c.fd >= 0 && Chunks(chunks)
    ensures Forward(c, chunks, first) == (r, ok)
    ensures Sent(c, r, ok, Wire(OutFrames(chunks, first)))
    decreases |chunks|
  {
    if chunks == [] {
      r, ok := c, true;
      assert c.peer.output + [] == c.peer.output;
    } else {
      var f := Frame(false, if first then OP_TEXT else OP_CONTINUATION, chunks[0]);
      ForwardOne(c, chunks, first);
      OutFramesWire(chunks, first);
      SentFrame(c, f);
      var (c2, sent) := SendFrame(c, f);
      if sent {
        r, ok := ForwardSends(c2, chunks[1..], false);
        SentGlue(c, c2, r, ok, EncodeFrame(f), Wire(OutFrames(chunks[1..], false)));
      } else {
        r, ok := c2, false;
        FailGlue(c, r, EncodeFrame(f), Wire(OutFrames(chunks[1..], false)));
      }
    }
  }

  /** The bytes after the first `k` of a slice are the slice after `k`. */
  lemma SliceRest(s: seq<byte>, p: nat, data: seq<byte>, k: nat)
    requires p + |data| <= |s| && s[p..p + |data|] == data && k <= |data|
    ensures s[p..p + k] == data[..k]
    ensures s[p + k..p + k + |data[k..]|] == data[k..]
  {
    assert forall i :: p <= i < p + |data| ==> s[i] == data[i - p];
  }

  /** Reading the first `k` bytes of a payload that is all there. */
  lemma ReadPiece(c: Conn, data: seq<byte>, k: nat, key: seq<byte>)
    requires c.fd >= 0 && |key| == 4 && k <= |data|
    requires c.peer.pos + |data| <= |c.peer.input|
    requires c.peer.input[c.peer.pos..c.peer.pos + |data|] == data
    ensures ReadData(c, k, key) == (Advance(c, k), Some(Unmask(data[..k], key)))
    ensures var c2 := Advance(c, k);
      c2.peer.input[c2.peer.pos..c2.peer.pos + |data[k..]|] == data[k..]
  {
    SliceRest(c.peer.input, c.peer.pos, data, k);
  }

  /** What copying `n` client bytes whose unmasked form is `y` did to the
      world: the client's read position moved by `n`, the pipes are as they
      were, and `y` was written to the output pipe if it is open, with
      nothing but writes logged. */
  predicate Copied(w: World, r: World, n: nat, y: seq<byte>)
  {
    && r.conn.fd == w.conn.fd && r.conn.released == w.conn.released
    && r.conn.peer.pos == w.conn.peer.pos + n
    && r.conn.peer == w.conn.peer.(pos := r.conn.peer.pos)
    && r.pipeinFd == w.pipeinFd && r.outOpen == w.outOpen
    && (w.outOpen ==> Written(r.log) == Written(w.log) + y)
    && (!w.outOpen ==> r.log == w.log)
    && OnlyWrites(w.log, r.log)
  }

  lemma CopiedGlue(w: World, w2: World, r: World, n1: nat, n2: nat, x: seq<byte>, y: seq<byte>)
    requires Copied(w, w2, n1, x) && Copied(w2, r, n2, y)
    ensures Copied(w, r, n1 + n2, x + y)
  {
    LogGlue(w.log, w2.log, r.log, w.outOpen, x, y, x + y);
  }

  /** One BUFFERSIZE piece of CopyData on a client that holds the bytes. */
  lemma CopyDataStep(w: World, data: seq<byte>, key: seq<byte>) returns (w2: World)
    requires w.conn.fd >= 0 && |key| == 4 && 0 < |data|
    requires w.conn.peer.pos + |data| <= |w.conn.peer.input|
    requires w.conn.peer.input[w.conn.peer.pos..w.conn.peer.pos + |data|] == data
    ensures var rlen := Min(|data|, BUFFERSIZE);
      && CopyData(w, |data|, key) == CopyData(w2, |data| - rlen, key)
      && Copied(w, w2, rlen, Unmask(data[..rlen], key)) && w2.conn.fd >= 0
      && w2.conn.peer.pos + |data[rlen..]| <= |w2.conn.peer.input|
      && w2.conn.peer.input[w2.conn.peer.pos..w2.conn.peer.pos + |data[rlen..]|] == data[rlen..]
  {
    var rlen := Min(|data|, BUFFERSIZE);
    ReadPiece(w.conn, data, rlen, key);
    w2 := OutWrite(w.(conn := Advance(w.conn, rlen)), Unmask(data[..rlen], key));
  }

  /** The payload of a frame read in BUFFERSIZE pieces reaches the output
      pipe unmasked, as if unmasked in one go (BUFFERSIZE is a multiple of
      4, so every piece starts at mask byte 0); only writes are logged. */
  lemma {:induction false} CopyDataUnmasks(w: World, data: seq<byte>, key: seq<byte>) returns (r: World)
    requires w.conn.fd >= 0 && |key| == 4
    requires w.conn.peer.pos + |data| <= |w.conn.peer.input|
    requires w.conn.peer.input[w.conn.peer.pos..w.conn.peer.pos + |data|] == data
    ensures CopyData(w, |data|, key) == (r, true)
    ensures Copied(w, r, |data|, Unmask(data, key))
    decreases |data|
  {
    if data != [] {
      var rlen := Min(|data|, BUFFERSIZE);
      var w2 := CopyDataStep(w, data, key);
      r := CopyDataUnmasks(w2, data[rlen..], key);
      CopiedGlue(w, w2, r, rlen, |data[rlen..]|, Unmask(data[..rlen], key), Unmask(data[rlen..], key));
      UnmaskPieces(data, rlen, key);
    } else {
      r := w;
      assert Unmask(data, key) == [];
      assert Written(w.log) + [] == Written(w.log);
    }
  }

  /** Only writes were logged between `l0` and `l2`, and nothing written
      before is lost. */
  predicate OnlyWrites(l0: seq<Event>, l2: seq<Event>)
  {
    l0 <= l2 && forall i :: |l0| <= i < |l2| ==> l2[i].OutData?
  }

  lemma WritesGlue(l0: seq<Event>, l1: seq<Event>, l2: seq<Event>)
    requires OnlyWrites(l0, l1) && OnlyWrites(l1, l2)
    ensures OnlyWrites(l0, l2)
  {
  }

  /** A write of `x` followed by writes of `y` in all is a write of `x + y`. */
  lemma LogGlue(l0: seq<Event>, l1: seq<Event>, l2: seq<Event>, open: bool, x: seq<byte>, y: seq<byte>, xy: seq<byte>)
    requires xy == x + y
    requires OnlyWrites(l0, l1) && OnlyWrites(l1, l2)
    requires open ==> Written(l1) == Written(l0) + x && Written(l2) == Written(l1) + y
    requires !open ==> l2 == l1 == l0
    ensures open ==> Written(l2) == Written(l0) + xy
    ensures !open ==> l2 == l0
    ensures OnlyWrites(l0, l2)
  {
    WritesGlue(l0, l1, l2);
    if open {
      ConcatAssoc(Written(l0), x, y);
    }
  }

  /** Unmasking the first `k` bytes and the rest separately is unmasking
      the whole, provided the first piece ends on a 4-byte boundary or is
      all of it. */
  lemma UnmaskPieces(data: seq<byte>, k: nat, key: seq<byte>)
    requires |key| == 4 && k <= |data| && (k % 4 == 0 || k == |data|)
    ensures Unmask(data, key) == Unmask(data[..k], key) + Unmask(data[k..], key)
  {
    if k == |data| {
      assert data[..k] == data && data[k..] == [];
    } else {
      assert data == data[..k] + data[k..];
      UnmaskSplit(data[..k], data[k..], key);
    }
  }

  /** The answer loop on a client data frame: its payload is copied, then
      the loop stops if the frame has FIN set. */
  lemma ReplyHeader(w: World, f: Frame, key: seq<byte>, rest: seq<byte>)
    requires w.conn.fd >= 0 && |key| == 4 && f.opcode <= 2 && |f.payload| <= MAXFRAMESIZE
    requires Unread(w.conn.peer) == ClientFrame(f, key) + rest
    ensures var r := CopyData(w.(conn := Advance(w.conn, 6 + ExtSize(|f.payload|))), |f.payload|, key);
      ReplyLoop(w) == (if !r.1 || f.fin then r.0 else ReplyLoop(r.0))
  {
    ReadClientDataHeader(w.conn, f, key, rest);
  }

  /** A ping or pong from the client between the frames of the answer is
      consumed whole, nothing reaches the output pipe, and the loop goes
      on; a ping is first answered with a pong carrying its payload. */
  lemma ReplyControl(w: World, f: Frame, key: seq<byte>, rest: seq<byte>)
    requires w.conn.fd >= 0 && |key| == 4
    requires f.fin && (f.opcode == OP_PING || f.opcode == OP_PONG) && |f.payload| <= MAXFRAMESIZE
    requires Unread(w.conn.peer) == ClientFrame(f, key) + rest
    ensures var c1 := Advance(w.conn, |ClientFrame(f, key)|);
      && Unread(c1.peer) == rest
      && ReplyLoop(w) ==
           ReplyLoop(w.(conn := if f.opcode == OP_PING then SendFrame(c1, Frame(true, OP_PONG, f.payload)).0 else c1))
  {
    ControlHeader(w.conn, f, key, rest);
  }

  /** The payload of one client data frame goes to the output pipe
      unmasked, and the client's bytes after the frame are what follows it. */
  lemma ReplyFrameData(w: World, f: Frame, key: seq<byte>, rest: seq<byte>) returns (r: World)
    requires w.conn.fd >= 0 && |key| == 4 && |f.payload| <= MAXFRAMESIZE
    requires Unread(w.conn.peer) == ClientFrame(f, key) + rest
    ensures 6 + ExtSize(|f.payload|) + |f.payload| == |ClientFrame(f, key)|
    ensures CopyData(w.(conn := Advance(w.conn, 6 + ExtSize(|f.payload|))), |f.payload|, key) == (r, true)
    ensures Copied(w, r, |ClientFrame(f, key)|, f.payload)
  {
    ClientFrameBody(w.conn, f, key, rest);
    var hl := 6 + ExtSize(|f.payload|);
    var c1 := Advance(w.conn, hl);
    var masked := Unmask(f.payload, key);
    BytesAt(c1.peer, masked, rest);
    r := CopyDataUnmasks(w.(conn := c1), masked, key);
    UnmaskTwice(f.payload, key);
    CopiedAfter(w, hl, r, |masked|, f.payload);
  }

  /** The unread bytes of `p` begin with `m`. */
  lemma BytesAt(p: Endpoint, m: seq<byte>, rest: seq<byte>)
    requires Unread(p) == m + rest
    ensures p.pos + |m| <= |p.input| && p.input[p.pos..p.pos + |m|] == m
  {
    assert Unread(p)[..|m|] == m;
  }

  /** Skipping `skip` bytes and then copying is one copy from the start. */
  lemma CopiedAfter(w: World, skip: nat, r: World, n: nat, y: seq<byte>)
    requires w.conn.peer.pos + skip <= |w.conn.peer.input|
    requires Copied(w.(conn := Advance(w.conn, skip)), r, n, y)
    ensures Copied(w, r, skip + n, y)
  {
  }

  /** The bytes left to read after `n` of `Unread(w.conn.peer)` are read. */
  lemma CopiedRest(w: World, r: World, n: nat, y: seq<byte>, head: seq<byte>, rest: seq<byte>)
    requires Copied(w, r, n, y) && Unread(w.conn.peer) == head + rest && n == |head|
    ensures Unread(r.conn.peer) == rest
  {
    assert Unread(r.conn.peer) == Unread(w.conn.peer)[n..];
  }

  /** The answer loop on a whole client message: every payload reaches the
      output pipe unmasked and in order, only writes are logged, and the
      loop stops right after the frame with FIN set. */
  lemma {:induction false} ReplyMessage(w: World, frames: seq<Frame>, keys: seq<seq<byte>>, rest: seq<byte>) returns (r: World)
    requires w.conn.fd >= 0 && MaskKeys(frames, keys) && Message(frames)
    requires Unread(w.conn.peer) == ClientStream(frames, keys) + rest
    ensures ReplyLoop(w) == r
    ensures Copied(w, r, |ClientStream(frames, keys)|, Payloads(frames))
    decreases |frames|
  {
    var f, key := frames[0], keys[0];
    var tail := frames[1..];
    MessageSplit(frames, keys);
    var stream := ClientStream(tail, keys[1..]);
    ConcatAssoc(ClientFrame(f, key), stream, rest);
    ReplyHeader(w, f, key, stream + rest);
    var r1 := ReplyFrameData(w, f, key, stream + rest);
    if f.fin {
      r := r1;
      assert ClientStream(frames, keys) == ClientFrame(f, key) + [];
      assert Payloads(frames) == f.payload + [];
      assert Copied(w, r, |ClientStream(frames, keys)|, Payloads(frames));
    } else {
      CopiedRest(w, r1, |ClientFrame(f, key)|, f.payload, ClientFrame(f, key), stream + rest);
      r := ReplyMessage(r1, tail, keys[1..], rest);
      CopiedGlue(w, r1, r, |ClientFrame(f, key)|, |stream|, f.payload, Payloads(tail));
    }
  }

  /** The bytes a burst sends the client: the chunk frames, then the
      final frame. */
  lemma OutboundWire(chunks: seq<seq<byte>>)
    requires Chunks(chunks)
    ensures Wire(Outbound(chunks)) == Wire(OutFrames(chunks, true)) + EncodeFrame(FINAL_FRAME)
  {
    WireAppend(OutFrames(chunks, true), [FINAL_FRAME]);
    assert Wire([FINAL_FRAME]) == EncodeFrame(FINAL_FRAME) + Wire([]);
  }

  /** A burst the client takes in full: what is left of pipein_read is
      the answer loop, on the output pipe as the open attempts left it. */
  lemma PipeinSends(w: World, chunks: seq<seq<byte>>, delay: nat, fd: int) returns (w3: World)
    requires w.conn.fd >= 0 && Chunks(chunks) && !w.outOpen
    requires |Wire(Outbound(chunks))| <= w.conn.peer.room
    ensures PipeinRead(w, chunks, delay, fd) == OutClose(ReplyLoop(w3))
    ensures w3.conn == w.conn.(peer := w.conn.peer.(output := w.conn.peer.output + Wire(Outbound(chunks)),
                                                     room := w.conn.peer.room - |Wire(Outbound(chunks))|))
    ensures w3.pipeinFd == fd && (w3.outOpen <==> delay < OPEN_ATTEMPTS)
    ensures delay < OPEN_ATTEMPTS ==> w3.log == w.log + [InReopened, OutOpened]
    ensures delay >= OPEN_ATTEMPTS ==> w3.log == w.log + [InReopened]
  {
    OutboundWire(chunks);
    var c1, ok1 := ForwardSends(w.conn, chunks, true);
    var (c2, ok2) := SendFrame(c1, FINAL_FRAME);
    ConcatAssoc(w.conn.peer.output, Wire(OutFrames(chunks, true)), EncodeFrame(FINAL_FRAME));
    w3 := OutOpen(Reopen(w.(conn := c2), fd), delay);
    assert w.log + [InReopened] + [OutOpened] == w.log + [InReopened, OutOpened];
  }

  /** A burst to a client that takes all of it and answers with a
      message: the client receives the whole outbound message, its answer
      is read to the end of the message, and the output pipe sees it opened,
      the answer's payloads written in order, and closed. The input pipe
      is reopened before anything reaches the output pipe. */
  lemma PipeinDelivers(w: World, chunks: seq<seq<byte>>, delay: nat, fd: int,
                       frames: seq<Frame>, keys: seq<seq<byte>>, rest: seq<byte>) returns (r: World)
    requires w.conn.fd >= 0 && Chunks(chunks) && !w.outOpen
    requires |Wire(Outbound(chunks))| <= w.conn.peer.room
    requires MaskKeys(frames, keys) && Message(frames)
    requires Unread(w.conn.peer) == ClientStream(frames, keys) + rest
    ensures PipeinRead(w, chunks, delay, fd) == r
    ensures r.conn.fd == w.conn.fd && r.conn.released == w.conn.released
    ensures r.conn.peer.output == w.conn.peer.output + Wire(Outbound(chunks))
    ensures Unread(r.conn.peer) == rest
    ensures delay < OPEN_ATTEMPTS ==>
      && |w.log| + 3 <= |r.log|
      && OnlyWrites(w.log + [InReopened, OutOpened], r.log[..|r.log| - 1])
      && r.log[|r.log| - 1] == OutClosed
      && Written(r.log) == Written(w.log) + Payloads(frames)
    ensures delay >= OPEN_ATTEMPTS ==> r.log == w.log + [InReopened]
  {
    var w3 := PipeinSends(w, chunks, delay, fd);
    var r0 := ReplyMessage(w3, frames, keys, rest);
    CopiedRest(w3, r0, |ClientStream(frames, keys)|, Payloads(frames), ClientStream(frames, keys), rest);
    r := OutClose(r0);
    DeliversLog(w, w3, r0, |ClientStream(frames, keys)|, Payloads(frames), delay);
  }

  /** The log of PipeinDelivers: the answer's writes between the opening
      and the closing of the output pipe, or only the reopening of the
      input pipe when the output pipe never opened. */
  lemma DeliversLog(w: World, w3: World, r0: World, n: nat, y: seq<byte>, delay: nat)
    requires (w3.outOpen <==> delay < OPEN_ATTEMPTS) && Copied(w3, r0, n, y)
    requires delay < OPEN_ATTEMPTS ==> w3.log == w.log + [InReopened, OutOpened]
    requires delay >= OPEN_ATTEMPTS ==> w3.log == w.log + [InReopened]
    ensures var r := OutClose(r0);
      && (delay < OPEN_ATTEMPTS ==>
            && |w.log| + 3 <= |r.log|
            && OnlyWrites(w.log + [InReopened, OutOpened], r.log[..|r.log| - 1])
            && r.log[|r.log| - 1] == OutClosed
            && Written(r.log) == Written(w.log) + y)
      && (delay >= OPEN_ATTEMPTS ==> r.log == w.log + [InReopened])
  {
    if delay < OPEN_ATTEMPTS {
      ReplyLogGlue(w.log, w3.log, r0.log, OutClose(r0).log, y);
    }
  }

  /** The output pipe's events around the answer: opened, written,
      closed. */
  lemma ReplyLogGlue(l0: seq<Event>, l1: seq<Event>, l2: seq<Event>, l3: seq<Event>, y: seq<byte>)
    requires l1 == l0 + [InReopened, OutOpened]
    requires OnlyWrites(l1, l2) && Written(l2) == Written(l1) + y
    requires l3 == l2 + [OutClosed]
    ensures |l0| + 3 <= |l3|
    ensures OnlyWrites(l0 + [InReopened, OutOpened], l3[..|l3| - 1]) && l3[|l3| - 1] == OutClosed
    ensures Written(l3) == Written(l0) + y
  {
    assert l3[..|l3| - 1] == l2;
    ReplyWritten(l0, l1, l2, l3, y);
  }

  lemma ReplyWritten(l0: seq<Event>, l1: seq<Event>, l2: seq<Event>, l3: seq<Event>, y: seq<byte>)
    requires l1 == l0 + [InReopened, OutOpened]
    requires Written(l2) == Written(l1) + y
    requires l3 == l2 + [OutClosed]
    ensures Written(l3) == Written(l0) + y
  {
    assert Written(l3) == Written(l2) by {
      assert l3[..|l3| - 1] == l2;
    }
    WrittenAppend(l0, [InReopened, OutOpened]);
    NoWrites([InReopened, OutOpened]);
    assert Written(l0) + [] == Written(l0);
  }

  /** A log without writes writes nothing. */
  lemma {:induction false} NoWrites(l: seq<Event>)
    requires forall i :: 0 <= i < |l| ==> !l[i].OutData?
    ensures Written(l) == []
  {
    if l != [] {
      NoWrites(l[..|l| - 1]);
    }
  }

  /** A burst the client cannot take in full: the client is released
      after receiving a prefix of the outbound message, none of its bytes
      are read, and the reader of the output pipe is told of the write
      error. */
  lemma PipeinWriteFails(w: World, chunks: seq<seq<byte>>, delay: nat, fd: int)
    requires w.conn.fd >= 0 && Chunks(chunks) && !w.outOpen
    requires |Wire(Outbound(chunks))| > w.conn.peer.room
    ensures var r := PipeinRead(w, chunks, delay, fd);
      && r.conn.fd == -1 && r.conn.released == w.conn.released + [r.conn.peer]
      && r.conn.peer.output <= w.conn.peer.output + Wire(Outbound(chunks))
      && r.conn.peer.input == w.conn.peer.input && r.conn.peer.pos == w.conn.peer.pos
      && r.log == w.log + [InReopened] +
           (if delay < OPEN_ATTEMPTS then [OutOpened, OutData(SOCKET_WRITE_ERROR), OutClosed] else [])
  {
    OutboundWire(chunks);
    var c1, ok1 := ForwardSends(w.conn, chunks, true);
    ConcatAssoc(w.conn.peer.output, Wire(OutFrames(chunks, true)), EncodeFrame(FINAL_FRAME));
    if ok1 {
      var (c2, ok2) := SendFrame(c1, FINAL_FRAME);
      assert !ok2;
    }
  }
}
