/** The client slot and what the server does on it: sending a frame,
    closing with a reason, reading a frame header (and absorbing the
    control frames), reading frame data, and reassembling an unsolicited
    message (socket_client_* in src/websocket.c). */
module Connection {
  import opened Bytes
  import opened Io
  import opened Frame

  /** The client slot.
      - `fd` is `client_fd`: -1 when no client is connected.
      - `peer` is the connected client's end of the socket.
      - `released` lists the endpoints of the clients whose descriptor was
        closed, as they were at that moment (what each one received). */
  datatype Conn = Conn(fd: int, peer: Endpoint, released: seq<Endpoint>)

  /** What the header reader returns: the length (-1 on failure, 0 for an
      absorbed control frame), FIN and the mask key. */
  datatype Got = Got(conn: Conn, len: int, fin: bool, key: seq<byte>)

  const ZERO_KEY: seq<byte> := [0, 0, 0, 0]

  /** The frame a close with reason `code` sends. */
  function CloseFrame(code: nat): Frame
    requires code < 65536
  {
    Frame(true, OP_CLOSE, ClosePayload(code))
  }

  /** The one message the server answers: the version query `V`. */
  const VERSION_REQUEST: seq<byte> := AsBytes("V")

  /** The answer to it: the text frame `V0`. */
  const VERSION_REPLY: Frame := Frame(true, OP_TEXT, AsBytes("V0"))

  /** close(client_fd); client_fd = -1 (src/websocket.c:410-412). Closing
      -1 does nothing. */
  function Release(c: Conn): Conn
  {
    Conn(-1, c.peer, if c.fd >= 0 then c.released + [c.peer] else c.released)
  }

  /** The client's bytes after `n` more of them were read. */
  function Advance(c: Conn, n: nat): (r: Conn)
    requires c.peer.pos + n <= |c.peer.input|
    ensures Unread(r.peer) == Unread(c.peer)[n..]
  {
    c.(peer := c.peer.(pos := c.peer.pos + n))
  }

  /** socket_client_write_frame (src/websocket.c:417-455): header and
      payload in one block_write; on failure the client is released. */
  function SendFrame(c: Conn, f: Frame): (r: (Conn, bool))
    requires |f.payload| < U32
    ensures r.1 <==> c.fd >= 0 && |EncodeFrame(f)| <= c.peer.room
    ensures r.1 ==> r.0 == c.(peer := c.peer.(output := c.peer.output + EncodeFrame(f),
                                                room := c.peer.room - |EncodeFrame(f)|))
    ensures !r.1 ==> r.0.fd == -1
    ensures !r.1 && c.fd >= 0 ==> r.0.released == c.released + [r.0.peer]
    ensures r.0.peer.input == c.peer.input && r.0.peer.pos == c.peer.pos
    ensures c.released <= r.0.released && |r.0.released| <= |c.released| + 1
    ensures c.peer.output <= r.0.peer.output <= c.peer.output + EncodeFrame(f)
  {
    if c.fd < 0 then (Release(c), false)
    else
      var (p, ok) := WriteAll(c.peer, EncodeFrame(f));
      if ok then (c.(peer := p), true) else (Release(c.(peer := p)), false)
  }

  /** socket_client_close (src/websocket.c:397-413): with a reason, a close
      frame carrying it is sent first (whether or not that succeeds); then
      the descriptor is released. */
  function CloseConn(c: Conn, code: int): (r: Conn)
    requires code < 65536
    ensures r.fd == -1
    ensures r.peer.input == c.peer.input && r.peer.pos == c.peer.pos
    ensures c.fd < 0 ==> r.released == c.released
    ensures c.fd >= 0 ==> r.released == c.released + [r.peer]
    ensures c.fd >= 0 && code < 0 ==> r.peer == c.peer
    ensures c.fd >= 0 && code >= 0 ==>
              var e := EncodeFrame(CloseFrame(code));
              r.peer == c.peer.(output := c.peer.output + e[..Min(|e|, c.peer.room)],
                                room := c.peer.room - Min(|e|, c.peer.room))
  {
    Release(if code > -1 then SendFrame(c, CloseFrame(code)).0 else c)
  }

  /** socket_client_read_frame_header (src/websocket.c:464-591) on the
      client's unread bytes, as `HeaderStep` decides: a data header is
      returned; a refusal closes with its code; a close frame releases the
      client without a close frame of its own; a ping is answered with a
      pong carrying its payload; ping and pong return length 0 with FIN
      clear, so that callers read on. */
  function ReadHeader(c: Conn): (g: Got)
    ensures -1 <= g.len <= MAXFRAMESIZE && |g.key| == 4
    ensures g.conn.peer.input == c.peer.input && c.peer.pos <= g.conn.peer.pos
    ensures g.len < 0 ==> g.conn.fd == -1
    ensures g.len >= 0 ==> c.fd >= 0 && g.conn.peer.pos > c.peer.pos && (g.conn.fd == c.fd || (g.conn.fd == -1 && g.len == 0))
    ensures g.conn.fd == c.fd || g.conn.fd == -1
  {
    if c.fd < 0 then Got(Release(c), -1, false, ZERO_KEY)
    else
      var s := Unread(c.peer);
      match HeaderStep(s)
      case Truncated => Got(Release(c.(peer := c.peer.(pos := |c.peer.input|))), -1, false, ZERO_KEY)
      case Reject(code, used) => Got(CloseConn(Advance(c, used), code), -1, false, ZERO_KEY)
      case Data(h, used) => Got(Advance(c, used), h.length, h.fin, h.key)
      case CloseReceived(used) => Got(Release(Advance(c, used)), -1, false, ZERO_KEY)
      case PingReceived(payload, used) => Got(SendFrame(Advance(c, used), Frame(true, OP_PONG, payload)).0, 0, false, ZERO_KEY)
      case PongReceived(used) => Got(Advance(c, used), 0, false, ZERO_KEY)
  }

  /** socket_client_read_frame_data (src/websocket.c:598-617): exactly `n`
      bytes, unmasked with `key`; a failed read releases the client.
      Reading nothing always succeeds, even without a client. */
  function ReadData(c: Conn, n: nat, key: seq<byte>): (r: (Conn, Option<seq<byte>>))
    requires |key| == 4
    ensures r.0.peer.input == c.peer.input && c.peer.pos <= r.0.peer.pos
    ensures r.1.Some? <==> n == 0 || (c.fd >= 0 && c.peer.pos + n <= |c.peer.input|)
    ensures r.1.Some? ==> r.0 == c.(peer := c.peer.(pos := c.peer.pos + n))
                          && r.1.value == Unmask(c.peer.input[c.peer.pos..c.peer.pos + n], key)
    ensures r.1.None? ==> r.0.fd == -1
  {
    if c.fd < 0 then (if n == 0 then (c, Some([])) else (Release(c), None))
    else
      var (p, d) := ReadExactly(c.peer, n);
      match d
      case None => (Release(c.(peer := p)), None)
      case Some(bytes) => (c.(peer := p), Some(Unmask(bytes, key)))
  }

  /** socket_client_read (src/websocket.c:620-670): frames are read and
      their payloads appended to `acc` until one has FIN set. A failure
      releases the client; a message over MAXFRAMESIZE closes it with 1009
      before its payload is read; a complete message that is exactly `V`
      is answered with `V0`, any other message is dropped. */
  function ClientRead(c: Conn, acc: seq<byte>): (r: Conn)
    ensures r.peer.input == c.peer.input && c.peer.pos <= r.peer.pos
    ensures r.fd == c.fd || r.fd == -1
    decreases if c.fd >= 0 then 1 else 0, |c.peer.input| - c.peer.pos
  {
    var g := ReadHeader(c);
    if g.len < 0 then Release(g.conn)
    else if |acc| + g.len > MAXFRAMESIZE then CloseConn(g.conn, CLOSE_TOO_BIG)
    else
      var (c2, data) := ReadData(g.conn, g.len, g.key);
      match data
      case None => Release(c2)
      case Some(d) =>
        if !g.fin then ClientRead(c2, acc + d)
        else if acc + d == VERSION_REQUEST then SendFrame(c2, VERSION_REPLY).0
        else c2
  }

  // ---------------------------------------------------------------------
  // Properties
  // ---------------------------------------------------------------------

  /** A close always leaves the slot empty, and the client released last
      received exactly the close frame, or as much of it as it took. */
  lemma CloseSendsReason(c: Conn, code: nat)
    requires c.fd >= 0 && code < 65536
    ensures var r := CloseConn(c, code);
      && r.fd == -1 && r.released == c.released + [r.peer]
      && (|EncodeFrame(CloseFrame(code))| <= c.peer.room ==>
            r.peer.output == c.peer.output + EncodeFrame(CloseFrame(code)))
      && r.peer.output <= c.peer.output + EncodeFrame(CloseFrame(code))
  {
    var e := EncodeFrame(CloseFrame(code));
    assert e[..Min(|e|, c.peer.room)] <= e;
  }

  /** Ping and pong never reach the caller: both give length 0 with FIN
      clear. A close frame from the client releases it without a close
      frame of the server's own, and refusals close with their code. */
  lemma ControlFramesAbsorbed(c: Conn)
    requires c.fd >= 0
    ensures var g := ReadHeader(c);
      match HeaderStep(Unread(c.peer))
      case PingReceived(_, _) => g.len == 0 && !g.fin
      case PongReceived(used) =>
        && g.len == 0 && !g.fin && g.conn.fd == c.fd
        && g.conn.peer.pos == c.peer.pos + used && g.conn.peer.output == c.peer.output
      case CloseReceived(used) => g.len == -1 && g.conn.fd == -1 && g.conn.released == c.released + [Advance(c, used).peer]
      case Reject(code, used) =>
        var e := EncodeFrame(CloseFrame(code));
        && g.len == -1 && g.conn.fd == -1 && g.conn.released == c.released + [g.conn.peer]
        && g.conn.peer.pos == c.peer.pos + used
        && g.conn.peer.output <= c.peer.output + e
        && (|e| <= c.peer.room ==> g.conn.peer.output == c.peer.output + e)
      case Truncated => g.len == -1 && g.conn.fd == -1 && g.conn.peer.pos == |c.peer.input|
      case Data(h, used) =>
        && g.len == h.length && g.fin == h.fin && g.key == h.key && g.conn.fd == c.fd
        && g.conn.peer.pos == c.peer.pos + used && g.conn.peer.output == c.peer.output
  {
    match HeaderStep(Unread(c.peer))
    case Reject(code, used) =>
      CloseSendsReason(Advance(c, used), code);
    case _ =>
  }

  /** A ping is answered by a pong (opcode 10, FIN set) with the same
      payload, written right after everything the client had received. */
  lemma PingAnswered(c: Conn, payload: seq<byte>, used: nat)
    requires c.fd >= 0 && HeaderStep(Unread(c.peer)) == PingReceived(payload, used)
    ensures var g := ReadHeader(c); var pong := EncodeFrame(Frame(true, OP_PONG, payload));
      && g.len == 0 && !g.fin
      && g.conn.peer.pos == c.peer.pos + used
      && (|pong| <= c.peer.room ==> g.conn.fd == c.fd && g.conn.peer.output == c.peer.output + pong)
      && (|pong| > c.peer.room ==> g.conn.fd == -1)
  {
  }

  /** One 4-byte masking key per frame: section 5.3 of RFC 6455 has the
      client pick a fresh key for every frame it sends. */
  predicate MaskKeys(frames: seq<Frame>, keys: seq<seq<byte>>)
  {
    |keys| == |frames| && forall i :: 0 <= i < |keys| ==> |keys[i]| == 4
  }

  /** Client frames in sequence, frame `i` masked with `keys[i]`. */
  function ClientStream(frames: seq<Frame>, keys: seq<seq<byte>>): seq<byte>
    requires MaskKeys(frames, keys)
    requires forall i :: 0 <= i < |frames| ==> |frames[i].payload| <= MAXFRAMESIZE
  {
    if frames == [] then [] else ClientFrame(frames[0], keys[0]) + ClientStream(frames[1..], keys[1..])
  }

  /** The concatenated payloads of `frames`. */
  function Payloads(frames: seq<Frame>): seq<byte>
  {
    if frames == [] then [] else frames[0].payload + Payloads(frames[1..])
  }

  /** A fragmented message in the sense of section 5.4 of RFC 6455: data
      frames, the last one alone with FIN set. */
  predicate Message(frames: seq<Frame>)
  {
    && |frames| > 0
    && (forall i :: 0 <= i < |frames| ==> frames[i].opcode <= 2 && |frames[i].payload| <= MAXFRAMESIZE)
    && (forall i :: 0 <= i < |frames| - 1 ==> !frames[i].fin)
    && frames[|frames| - 1].fin
  }

  /** After the header of a client frame come its masked payload and
      whatever follows the frame. */
  lemma ClientFrameBody(c: Conn, f: Frame, key: seq<byte>, rest: seq<byte>)
    requires |key| == 4 && |f.payload| < U32
    requires Unread(c.peer) == ClientFrame(f, key) + rest
    ensures var hl := 6 + ExtSize(|f.payload|);
      && hl + |f.payload| == |ClientFrame(f, key)|
      && c.peer.pos + hl <= |c.peer.input|
      && Unread(Advance(c, hl).peer) == Unmask(f.payload, key) + rest
  {
    var h := ClientHeader(|f.payload|, f.opcode, f.fin, key);
    assert ClientFrame(f, key) + rest == h + (Unmask(f.payload, key) + rest);
    assert Unread(c.peer)[|h|..] == Unmask(f.payload, key) + rest;
  }

  /** The header reader on a client data frame hands back its header. */
  lemma ReadClientDataHeader(c: Conn, f: Frame, key: seq<byte>, rest: seq<byte>)
    requires c.fd >= 0 && |key| == 4 && f.opcode <= 2 && |f.payload| <= MAXFRAMESIZE
    requires Unread(c.peer) == ClientFrame(f, key) + rest
    ensures var hl := 6 + ExtSize(|f.payload|);
      && hl + |f.payload| == |ClientFrame(f, key)|
      && ReadHeader(c) == Got(Advance(c, hl), |f.payload|, f.fin, key)
      && Unread(Advance(c, hl).peer) == Unmask(f.payload, key) + rest
  {
    ClientFrameDecision(f, key, rest);
    ClientFrameBody(c, f, key, rest);
  }

  /** Reading a masked payload gives it back unmasked. */
  lemma ReadClientData(c: Conn, payload: seq<byte>, key: seq<byte>, rest: seq<byte>)
    requires c.fd >= 0 && |key| == 4
    requires Unread(c.peer) == Unmask(payload, key) + rest
    ensures c.peer.pos + |payload| <= |c.peer.input|
    ensures ReadData(c, |payload|, key) == (Advance(c, |payload|), Some(payload))
    ensures Unread(Advance(c, |payload|).peer) == rest
  {
    var n := |payload|;
    assert c.peer.input[c.peer.pos..c.peer.pos + n] == Unread(c.peer)[..n] == Unmask(payload, key);
    UnmaskTwice(payload, key);
  }

  /** One client data frame read by socket_client_read. */
  lemma ClientReadFrame(c: Conn, acc: seq<byte>, f: Frame, key: seq<byte>, rest: seq<byte>)
    requires c.fd >= 0 && |key| == 4 && f.opcode <= 2 && |f.payload| <= MAXFRAMESIZE
    requires |acc| + |f.payload| <= MAXFRAMESIZE
    requires Unread(c.peer) == ClientFrame(f, key) + rest
    ensures var c2 := Advance(c, |ClientFrame(f, key)|);
      && Unread(c2.peer) == rest
      && ClientRead(c, acc) ==
           if !f.fin then ClientRead(c2, acc + f.payload)
           else if acc + f.payload == VERSION_REQUEST then SendFrame(c2, VERSION_REPLY).0
           else c2
  {
    ReadClientDataHeader(c, f, key, rest);
    var c1 := Advance(c, 6 + ExtSize(|f.payload|));
    ReadClientData(c1, f.payload, key, rest);
    assert Advance(c1, |f.payload|) == Advance(c, |ClientFrame(f, key)|);
  }

  /** A message is its first frame followed by the rest of the message,
      or, when that frame has FIN set, the first frame alone. */
  lemma MessageSplit(frames: seq<Frame>, keys: seq<seq<byte>>)
    requires MaskKeys(frames, keys) && Message(frames)
    ensures ClientStream(frames, keys) == ClientFrame(frames[0], keys[0]) + ClientStream(frames[1..], keys[1..])
    ensures Payloads(frames) == frames[0].payload + Payloads(frames[1..])
    ensures frames[0].fin ==> ClientStream(frames[1..], keys[1..]) == [] && Payloads(frames[1..]) == []
    ensures !frames[0].fin ==> Message(frames[1..])
    ensures MaskKeys(frames[1..], keys[1..])
  {
    var tail := frames[1..];
    if !frames[0].fin {
      assert forall i :: 0 <= i < |tail| ==> tail[i] == frames[i + 1];
    }
    assert forall i :: 0 <= i < |keys[1..]| ==> keys[1..][i] == keys[i + 1];
  }

  /** The slot after a whole message, frame by frame: each frame is
      consumed in turn, and the frame with FIN set decides on the answer. */
  function Reply(c: Conn, acc: seq<byte>, frames: seq<Frame>, keys: seq<seq<byte>>): Conn
    requires MaskKeys(frames, keys) && Message(frames)
    requires c.peer.pos + |ClientStream(frames, keys)| <= |c.peer.input|
    decreases |frames|
  {
    MessageSplit(frames, keys);
    var f := frames[0];
    var c2 := Advance(c, |ClientFrame(f, keys[0])|);
    if !f.fin then Reply(c2, acc + f.payload, frames[1..], keys[1..])
    else if acc + f.payload == VERSION_REQUEST then SendFrame(c2, VERSION_REPLY).0
    else c2
  }

  /** Frame by frame, a message is consumed whole and answered on its
      gathered payload. */
  lemma {:induction false} ReplyValue(c: Conn, acc: seq<byte>, frames: seq<Frame>, keys: seq<seq<byte>>)
    requires MaskKeys(frames, keys) && Message(frames)
    requires c.peer.pos + |ClientStream(frames, keys)| <= |c.peer.input|
    ensures var c2 := Advance(c, |ClientStream(frames, keys)|);
      Reply(c, acc, frames, keys) == if acc + Payloads(frames) == VERSION_REQUEST then SendFrame(c2, VERSION_REPLY).0 else c2
    decreases |frames|
  {
    MessageSplit(frames, keys);
    var f := frames[0];
    if !f.fin {
      var c2 := Advance(c, |ClientFrame(f, keys[0])|);
      ReplyValue(c2, acc + f.payload, frames[1..], keys[1..]);
      MessageGlue(c, acc, frames, keys);
    }
  }

  /** socket_client_read follows the message frame by frame, each frame
      unmasked with its own key. */
  lemma {:induction false} ClientReadReply(c: Conn, acc: seq<byte>, frames: seq<Frame>, keys: seq<seq<byte>>, rest: seq<byte>)
    requires c.fd >= 0 && MaskKeys(frames, keys) && Message(frames)
    requires |acc| + |Payloads(frames)| <= MAXFRAMESIZE
    requires Unread(c.peer) == ClientStream(frames, keys) + rest
    ensures c.peer.pos + |ClientStream(frames, keys)| <= |c.peer.input|
    ensures ClientRead(c, acc) == Reply(c, acc, frames, keys)
    decreases |frames|
  {
    var f := frames[0];
    var tail := frames[1..];
    MessageSplit(frames, keys);
    ClientReadFrame(c, acc, f, keys[0], ClientStream(tail, keys[1..]) + rest);
    if !f.fin {
      var c2 := Advance(c, |ClientFrame(f, keys[0])|);
      ClientReadReply(c2, acc + f.payload, tail, keys[1..], rest);
    }
  }

  /** An unsolicited message sent as client frames, each with its own
      masking key, is read whole: the client is answered `V0` when the
      message, with what was gathered before, is exactly `V`, and nothing
      is written otherwise. */
  lemma ClientReadMessage(c: Conn, acc: seq<byte>, frames: seq<Frame>, keys: seq<seq<byte>>, rest: seq<byte>)
    requires c.fd >= 0 && MaskKeys(frames, keys) && Message(frames)
    requires |acc| + |Payloads(frames)| <= MAXFRAMESIZE
    requires Unread(c.peer) == ClientStream(frames, keys) + rest
    ensures |ClientStream(frames, keys)| <= |Unread(c.peer)|
    ensures var c2 := Advance(c, |ClientStream(frames, keys)|);
      ClientRead(c, acc) == if acc + Payloads(frames) == VERSION_REQUEST then SendFrame(c2, VERSION_REPLY).0 else c2
  {
    ClientReadReply(c, acc, frames, keys, rest);
    ReplyValue(c, acc, frames, keys);
  }

  /** Reading the first frame of a longer message and then the rest of it
      consumes the whole message and gathers all of its payload. */
  lemma MessageGlue(c: Conn, acc: seq<byte>, frames: seq<Frame>, keys: seq<seq<byte>>)
    requires MaskKeys(frames, keys) && Message(frames) && !frames[0].fin
    requires c.peer.pos + |ClientStream(frames, keys)| <= |c.peer.input|
    ensures var f := frames[0]; var n1 := |ClientFrame(f, keys[0])|;
      && n1 + |ClientStream(frames[1..], keys[1..])| == |ClientStream(frames, keys)|
      && acc + f.payload + Payloads(frames[1..]) == acc + Payloads(frames)
      && Advance(Advance(c, n1), |ClientStream(frames[1..], keys[1..])|) == Advance(c, |ClientStream(frames, keys)|)
  {
    MessageSplit(frames, keys);
  }

  /** A ping or pong from the client between the frames of a message is
      consumed whole and the message reading goes on with what was gathered
      so far; a ping is first answered with a pong carrying its payload. */
  lemma ClientReadControl(c: Conn, acc: seq<byte>, f: Frame, key: seq<byte>, rest: seq<byte>)
    requires c.fd >= 0 && |key| == 4 && |acc| <= MAXFRAMESIZE
    requires f.fin && (f.opcode == OP_PING || f.opcode == OP_PONG) && |f.payload| <= MAXFRAMESIZE
    requires Unread(c.peer) == ClientFrame(f, key) + rest
    ensures var c1 := Advance(c, |ClientFrame(f, key)|);
      && Unread(c1.peer) == rest
      && ClientRead(c, acc) ==
           ClientRead(if f.opcode == OP_PING then SendFrame(c1, Frame(true, OP_PONG, f.payload)).0 else c1, acc)
  {
    ControlHeader(c, f, key, rest);
    ClientReadSkips(c, acc);
  }

  /** The header reader on a client ping or pong. */
  lemma ControlHeader(c: Conn, f: Frame, key: seq<byte>, rest: seq<byte>)
    requires c.fd >= 0 && |key| == 4
    requires f.fin && (f.opcode == OP_PING || f.opcode == OP_PONG) && |f.payload| <= MAXFRAMESIZE
    requires Unread(c.peer) == ClientFrame(f, key) + rest
    ensures var c1 := Advance(c, |ClientFrame(f, key)|);
      && Unread(c1.peer) == rest
      && ReadHeader(c) ==
           Got(if f.opcode == OP_PING then SendFrame(c1, Frame(true, OP_PONG, f.payload)).0 else c1, 0, false, ZERO_KEY)
  {
    ClientFrameDecision(f, key, rest);
    assert Unread(c.peer)[|ClientFrame(f, key)|..] == rest;
  }

  /** A header that reads as length 0 without FIN leaves the message to
      the frames after it. */
  lemma ClientReadSkips(c: Conn, acc: seq<byte>)
    requires |acc| <= MAXFRAMESIZE && ReadHeader(c).len == 0 && !ReadHeader(c).fin
    ensures ClientRead(c, acc) == ClientRead(ReadHeader(c).conn, acc)
  {
    assert acc + [] == acc;
  }

  /** A message that would grow past MAXFRAMESIZE is refused with 1009 as
      soon as the header of the frame that overflows it is read: its
      payload stays unread. */
  lemma ClientReadOversize(c: Conn, acc: seq<byte>, f: Frame, key: seq<byte>, rest: seq<byte>)
    requires c.fd >= 0 && |key| == 4 && f.opcode <= 2 && |f.payload| <= MAXFRAMESIZE
    requires |acc| + |f.payload| > MAXFRAMESIZE
    requires Unread(c.peer) == ClientFrame(f, key) + rest
    ensures ClientRead(c, acc) == CloseConn(Advance(c, 6 + ExtSize(|f.payload|)), CLOSE_TOO_BIG)
  {
    ReadClientDataHeader(c, f, key, rest);
  }
}
