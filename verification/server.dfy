/** The server process itself: the global descriptors and the poll array
    that the handlers of src/websocket.c update in place, and the handlers
    as methods whose effect is stated by the functions of Connection,
    Handshake and Bridge. */
module Server {
  import opened Bytes
  import opened Io
  import opened Frame
  import opened Connection
  import opened Handshake
  import opened Bridge

  /** The poll array has three slots: the listening socket, the input pipe
      and the client (src/websocket.c:51-56). */
  const SERVER_SLOT := 0
  const PIPEIN_SLOT := 1
  const CLIENT_SLOT := 2

  /** The 101 response to the key `key`, written after the `used` bytes
      of the request. */
  function Answer(p: Endpoint, used: nat, key: string, sha1: seq<byte> -> seq<byte>, base64: seq<byte> -> seq<byte>): (r: (Endpoint, bool))
    requires forall d :: |base64(d)| == 28
    requires p.pos + used <= |p.input|
    ensures r.0.input == p.input && r.0.pos == p.pos + used
    ensures r.1 <==> |Response(AcceptToken(key, sha1, base64))| <= p.room
    ensures r.1 ==> r.0.output == p.output + Response(AcceptToken(key, sha1, base64))
  {
    WriteAll(p.(pos := p.pos + used), Response(AcceptToken(key, sha1, base64)))
  }

  /** The new client's side of socket_server_accept
      (src/websocket.c:703-862): its request is read up to the empty line
      and, if accepted, answered with the 101 response. The result is the
      client's endpoint afterwards and whether it is taken on. */
  function Greet(p: Endpoint, sha1: seq<byte> -> seq<byte>, base64: seq<byte> -> seq<byte>): (r: (Endpoint, bool))
    requires forall d :: |base64(d)| == 28
    ensures r.0.input == p.input && p.pos <= r.0.pos
    ensures r.1 ==> Negotiate(ToText(Unread(p))).Accepted?
    ensures Negotiate(ToText(Unread(p))).Rejected? ==> r == (p, false)
    ensures Negotiate(ToText(Unread(p))).Accepted? ==>
      (r.1 <==> |Response(AcceptToken(Negotiate(ToText(Unread(p))).key, sha1, base64))| <= p.room)
    ensures r.1 ==> r.0.output == p.output + Response(AcceptToken(Negotiate(ToText(Unread(p))).key, sha1, base64))
  {
    var text := ToText(Unread(p));
    match Negotiate(text)
    case Rejected(_) => (p, false)
    case Accepted(key, used) =>
      AcceptedUsed(text);
      Answer(p, used, key, sha1, base64)
  }

  /** The handshake as socket_server_accept runs it
      (src/websocket.c:703-862): the request is read line by line and, if
      accepted, the 101 response is written with one block_write. */
  method Greeting(p: Endpoint, sha1: seq<byte> -> seq<byte>, base64: seq<byte> -> seq<byte>) returns (q: Endpoint, ok: bool)
    requires forall d :: |base64(d)| == 28
    ensures (q, ok) == Greet(p, sha1, base64)
  {
    var text := ToText(Unread(p));
    var v := ReadRequest(text);
    q, ok := p, false;
    if v.Accepted? {
      AcceptedUsed(text);
      q, ok := BlockWrite(p.(pos := p.pos + v.used), Response(AcceptToken(v.key, sha1, base64)));
    }
  }

  /** The slot after socket_server_accept (src/websocket.c:673-885) takes
      the descriptor `newFd` with endpoint `p`: the new client takes the
      slot only once its 101 response is written in full, and only then is
      the previous client sent close 1001. A refused or unwritable
      handshake closes the new descriptor, which joins the released
      endpoints, and leaves the slot alone. */
  function Admit(c: Conn, newFd: int, p: Endpoint, sha1: seq<byte> -> seq<byte>, base64: seq<byte> -> seq<byte>): (r: Conn)
    requires forall d :: |base64(d)| == 28
    ensures newFd < 0 ==> r == c
    ensures r.fd == c.fd || r.fd == newFd
    ensures newFd >= 0 && r.fd != newFd ==> r.fd == c.fd && r.peer == c.peer && r.released == c.released + [Greet(p, sha1, base64).0]
    ensures newFd >= 0 && !Greet(p, sha1, base64).1 ==> r == c.(released := c.released + [Greet(p, sha1, base64).0])
    ensures newFd >= 0 && Greet(p, sha1, base64).1 ==> r.fd == newFd && r.peer == Greet(p, sha1, base64).0
  {
    if newFd < 0 then c
    else
      var (p2, ok) := Greet(p, sha1, base64);
      if !ok then c.(released := c.released + [p2])
      else
        var old_ := if c.fd >= 0 then CloseConn(c, CLOSE_GOING_AWAY) else c;
        Conn(newFd, p2, old_.released)
  }

  /** A new client whose handshake succeeds replaces a connected one, and
      the replaced client's last bytes are the close frame with 1001, or
      as much of it as it took. */
  lemma AdmitReplaces(c: Conn, newFd: int, p: Endpoint, sha1: seq<byte> -> seq<byte>, base64: seq<byte> -> seq<byte>)
    requires forall d :: |base64(d)| == 28
    requires newFd >= 0 && c.fd >= 0 && Greet(p, sha1, base64).1
    ensures var r := Admit(c, newFd, p, sha1, base64);
      var e := EncodeFrame(CloseFrame(CLOSE_GOING_AWAY as nat));
      && r.fd == newFd && r.peer == Greet(p, sha1, base64).0
      && |r.released| == |c.released| + 1 && r.released[..|c.released|] == c.released
      && r.released[|c.released|].input == c.peer.input && r.released[|c.released|].pos == c.peer.pos
      && r.released[|c.released|].output <= c.peer.output + e
      && (|e| <= c.peer.room ==> r.released[|c.released|].output == c.peer.output + e)
  {
    CloseSendsReason(c, CLOSE_GOING_AWAY as nat);
  }

  /** Which descriptors ppoll reported readable: the listening socket,
      the input pipe, the client. */
  datatype Ready = Ready(server: bool, pipein: bool, client: bool)

  /** What the handlers of one round meet: the descriptor `accept` returns
      and its other end, and the input pipe's burst, the output pipe
      reader's delay and the input pipe's new descriptor. */
  datatype Poll = Poll(n: int, ready: Ready, newFd: int, newPeer: Endpoint,
                       chunks: seq<seq<byte>>, delay: nat, inFd: int)

  /** How many of the events a round handles. */
  function Handled(ready: Ready): (k: nat)
    ensures k <= 3
  {
    (if ready.server then 1 else 0) + (if ready.pipein then 1 else 0) + (if ready.client then 1 else 0)
  }

  predicate WellFormedPoll(p: Poll)
  {
    Chunks(p.chunks)
  }

  /** One round of main's loop (src/websocket.c:979-1009): a ppoll error
      ends the loop before any handler runs; otherwise the handlers run in
      the fixed order accept, input pipe, client, and the loop ends when
      ppoll reported more events than were handled. */
  function Dispatch(w: World, p: Poll, sha1: seq<byte> -> seq<byte>, base64: seq<byte> -> seq<byte>): (r: (World, bool))
    requires forall d :: |base64(d)| == 28
    requires WellFormedPoll(p) && !w.outOpen
    ensures !r.0.outOpen
    ensures r.1 <==> p.n < 0 || p.n > Handled(p.ready)
    ensures p.n < 0 ==> r.0 == w
    ensures w.log <= r.0.log
  {
    if p.n < 0 then (w, true)
    else
      var w1 := if p.ready.server then w.(conn := Admit(w.conn, p.newFd, p.newPeer, sha1, base64)) else w;
      var w2 := if p.ready.pipein then PipeinRead(w1, p.chunks, p.delay, p.inFd) else w1;
      var w3 := if p.ready.client then w2.(conn := ClientRead(w2.conn, [])) else w2;
      (w3, p.n - Handled(p.ready) > 0)
  }

  /** The input pipe is the only handler that touches the pipes: a round
      without it leaves the log and the input descriptor alone, and a
      round with it logs the reopening of the input pipe first. */
  lemma DispatchLog(w: World, p: Poll, sha1: seq<byte> -> seq<byte>, base64: seq<byte> -> seq<byte>)
    requires forall d :: |base64(d)| == 28
    requires WellFormedPoll(p) && !w.outOpen
    ensures var r := Dispatch(w, p, sha1, base64).0;
      && (!p.ready.pipein ==> r.log == w.log && r.pipeinFd == w.pipeinFd)
      && (p.ready.pipein && p.n >= 0 ==> w.log + [InReopened] <= r.log)
  {
  }

  /** main's loop over the rounds `polls` (the loop also ends when a
      signal arrives, which is the end of `polls` here). */
  function Serve(w: World, polls: seq<Poll>, sha1: seq<byte> -> seq<byte>, base64: seq<byte> -> seq<byte>): (r: World)
    requires forall d :: |base64(d)| == 28
    requires (forall i :: 0 <= i < |polls| ==> WellFormedPoll(polls[i])) && !w.outOpen
    ensures !r.outOpen && w.log <= r.log
    decreases |polls|
  {
    if polls == [] then w
    else
      var (w1, stop) := Dispatch(w, polls[0], sha1, base64);
      if stop then w1 else Serve(w1, polls[1..], sha1, base64)
  }

  /** The shutdown of main (src/websocket.c:1015-1016): `if (client_fd)`
      is also true for -1, where the close changes nothing. */
  function Shutdown(c: Conn): (r: Conn)
    ensures r.fd == -1 || r.fd == 0
    ensures c.fd > 0 ==> r == CloseConn(c, CLOSE_GOING_AWAY)
    ensures c.fd < 0 ==> r == c.(fd := -1)
    ensures c.fd == 0 ==> r == c
  {
    if c.fd != 0 then CloseConn(c, CLOSE_GOING_AWAY) else c
  }

  class Server {
    /** `fds[i].fd` of the poll array. */
    var fds: array<int>
    var serverFd: int
    /** `client_fd`, the connected client's end and the released clients. */
    var clientFd: int
    var peer: Endpoint
    var released: seq<Endpoint>
    var pipeinFd: int
    /** `pipeout_fd > -1`. */
    var outOpen: bool
    /** What the other ends of the pipes have seen. */
    var log: seq<Event>

    /** The poll array mirrors the descriptors. */
    ghost predicate Valid()
      reads this, fds
    {
      fds.Length == 3 && fds[SERVER_SLOT] == serverFd && fds[PIPEIN_SLOT] == pipeinFd && fds[CLIENT_SLOT] == clientFd
    }

    /** The client slot as a value. */
    function Slot(): Conn
      reads this
    {
      Conn(clientFd, peer, released)
    }

    /** The state pipein_read works on, as a value. */
    function State(): World
      reads this
    {
      World(Slot(), pipeinFd, outOpen, log)
    }

    /** main's set-up (src/websocket.c:957-968, 382-390): every slot -1,
        the listening socket, then the input pipe opened. */
    constructor(listenFd: int, inFd: int)
      ensures Valid() && fresh(fds)
      ensures serverFd == listenFd && pipeinFd == inFd && clientFd == -1
      ensures released == [] && !outOpen && log == [InReopened]
    {
      fds := new int[3](_ => -1);
      serverFd := listenFd;
      clientFd := -1;
      peer := Peer([], 0, [], 0, 1);
      released := [];
      pipeinFd := -1;
      outOpen := false;
      log := [];
      new;
      fds[SERVER_SLOT] := listenFd;
      PipeinReopen(inFd);
    }

    /** socket_client_close (src/websocket.c:397-413). */
    method Close(code: int)
      requires Valid() && code < 65536
      modifies this, fds
      ensures Valid() && fds == old(fds)
      ensures Slot() == CloseConn(old(Slot()), code) && clientFd == -1
      ensures serverFd == old(serverFd) && pipeinFd == old(pipeinFd) && outOpen == old(outOpen) && log == old(log)
    {
      if code > -1 {
        var _ := WriteFrame(CloseFrame(code));
      }
      if clientFd >= 0 {
        released := released + [peer];
      }
      clientFd := -1;
      fds[CLIENT_SLOT] := -1;
    }

    /** socket_client_write_frame (src/websocket.c:417-455): the header
        and the payload go out in one block_write; a failure closes the
        client. */
    method WriteFrame(f: Frame) returns (ok: bool)
      requires Valid() && |f.payload| < U32
      modifies this, fds
      ensures Valid() && fds == old(fds)
      ensures (Slot(), ok) == SendFrame(old(Slot()), f)
      ensures serverFd == old(serverFd) && pipeinFd == old(pipeinFd) && outOpen == old(outOpen) && log == old(log)
    {
      if clientFd < 0 {
        // block_write on descriptor -1 fails at its first write
        ok := false;
      } else {
        var q;
        q, ok := BlockWrite(peer, EncodeFrame(f));
        peer := q;
      }
      if !ok {
        if clientFd >= 0 {
          released := released + [peer];
        }
        clientFd := -1;
        fds[CLIENT_SLOT] := -1;
      }
    }

    /** socket_client_read_frame_data (src/websocket.c:598-617): exactly
        `n` bytes with block_read, unmasked in place; a failed read closes
        the client. */
    method ReadFrameData(n: nat, key: seq<byte>) returns (data: Option<seq<byte>>)
      requires Valid() && |key| == 4
      modifies this, fds
      ensures Valid() && fds == old(fds)
      ensures (Slot(), data) == ReadData(old(Slot()), n, key)
      ensures serverFd == old(serverFd) && pipeinFd == old(pipeinFd) && outOpen == old(outOpen) && log == old(log)
    {
      var got: Option<seq<byte>>;
      if clientFd < 0 {
        // read on descriptor -1 fails, but block_read of nothing never reads
        got := if n == 0 then Some([]) else None;
      } else {
        var q;
        q, got := BlockRead(peer, n);
        peer := q;
      }
      if got.None? {
        Close(-1);
        return None;
      }
      var buf := new byte[n](i requires 0 <= i < n => got.value[i]);
      assert buf[..] == got.value;
      UnmaskWords(buf, key);
      data := Some(buf[..]);
    }

    /** socket_client_read_frame_header (src/websocket.c:464-591): the
        header is decided by HeaderStep on the unread bytes; the method
        performs what the decision asks of the slot. */
    method ReadFrameHeader() returns (len: int, fin: bool, key: seq<byte>)
      requires Valid()
      modifies this, fds
      ensures Valid() && fds == old(fds)
      ensures Got(Slot(), len, fin, key) == ReadHeader(old(Slot()))
      ensures serverFd == old(serverFd) && pipeinFd == old(pipeinFd) && outOpen == old(outOpen) && log == old(log)
    {
      len, fin, key := -1, false, ZERO_KEY;
      if clientFd < 0 {
        Close(-1);
        return;
      }
      match HeaderStep(Unread(peer))
      case Truncated =>
        Skip(|peer.input| - peer.pos);
        Close(-1);
      case Reject(code, used) =>
        Skip(used);
        Close(code);
      case Data(h, used) =>
        Skip(used);
        len, fin, key := h.length, h.fin, h.key;
      case CloseReceived(used) =>
        Skip(used);
        Close(-1);
      case PingReceived(payload, used) =>
        Skip(used);
        var _ := WriteFrame(Frame(true, OP_PONG, payload));
        len := 0;
      case PongReceived(used) =>
        Skip(used);
        len := 0;
    }

    /** Consume `n` bytes of the client's input (block_read's effect on
        the stream). */
    method Skip(n: nat)
      requires Valid() && peer.pos + n <= |peer.input|
      modifies this
      ensures Valid() && Slot() == Advance(old(Slot()), n)
      ensures fds == old(fds) && serverFd == old(serverFd) && pipeinFd == old(pipeinFd) && outOpen == old(outOpen) && log == old(log)
    {
      peer := peer.(pos := peer.pos + n);
    }

    /** pipein_reopen (src/websocket.c:239-261), where `inFd` is what the
        new `open` returns. */
    method PipeinReopen(inFd: int)
      requires fds.Length == 3
      modifies this, fds
      ensures fds == old(fds) && fds[SERVER_SLOT] == old(fds[SERVER_SLOT]) && fds[CLIENT_SLOT] == old(fds[CLIENT_SLOT])
      ensures fds[PIPEIN_SLOT] == inFd
      ensures State() == Reopen(old(State()), inFd) && serverFd == old(serverFd)
    {
      pipeinFd := inFd;
      log := log + [InReopened];
      fds[PIPEIN_SLOT] := inFd;
    }

    /** pipeout_open (src/websocket.c:152-193): up to OPEN_ATTEMPTS
        attempts, the reader of the output pipe answering the one after
        `delay` failed ones. */
    method PipeoutOpen(delay: nat) returns (attempts: nat)
      modifies this
      ensures State() == OutOpen(old(State()), delay)
      ensures fds == old(fds)
      ensures attempts == Min(delay + 1, OPEN_ATTEMPTS) && attempts <= OPEN_ATTEMPTS
      ensures serverFd == old(serverFd)
    {
      var answered := false;
      attempts := 0;
      while attempts < OPEN_ATTEMPTS && !answered
        invariant attempts <= OPEN_ATTEMPTS
        invariant answered <==> delay < attempts
        invariant !answered ==> attempts <= delay
        invariant answered ==> attempts == delay + 1
      {
        answered := attempts == delay;
        attempts := attempts + 1;
      }
      if answered {
        outOpen := true;
        log := log + [OutOpened];
      } else {
        // pipeout_close on a pipe that never opened changes nothing
        outOpen := false;
      }
    }

    /** pipeout_close (src/websocket.c:195-204). */
    method PipeoutClose()
      modifies this
      ensures State() == OutClose(old(State())) && serverFd == old(serverFd)
      ensures fds == old(fds)
    {
      if outOpen {
        outOpen := false;
        log := log + [OutClosed];
      }
    }

    /** pipeout_write (src/websocket.c:206-221). */
    method PipeoutWrite(data: seq<byte>)
      modifies this
      ensures State() == OutWrite(old(State()), data) && serverFd == old(serverFd)
      ensures fds == old(fds)
    {
      if outOpen {
        log := log + [OutData(data)];
      }
    }

    /** pipeout_error (src/websocket.c:224-228). */
    method PipeoutError(msg: seq<byte>, delay: nat)
      requires !outOpen
      modifies this
      ensures State() == OutError(old(State()), msg, delay) && serverFd == old(serverFd)
      ensures fds == old(fds)
    {
      var _ := PipeoutOpen(delay);
      PipeoutWrite(msg);
      PipeoutClose();
    }

    /** socket_client_read (src/websocket.c:620-670): frames are read and
        their payloads gathered in a growing buffer until one has FIN set. */
    method ClientRead()
      requires Valid()
      modifies this, fds
      ensures Valid() && fds == old(fds)
      ensures Slot() == Connection.ClientRead(old(Slot()), [])
      ensures serverFd == old(serverFd) && pipeinFd == old(pipeinFd) && outOpen == old(outOpen) && log == old(log)
    {
      var buffer: seq<byte> := [];
      ghost var target := Connection.ClientRead(Slot(), []);
      while true
        invariant Valid() && fds == old(fds)
        invariant Connection.ClientRead(Slot(), buffer) == target
        invariant serverFd == old(serverFd) && pipeinFd == old(pipeinFd) && outOpen == old(outOpen) && log == old(log)
        decreases if clientFd >= 0 then 1 else 0, |peer.input| - peer.pos
      {
        var curlen, fin, key := ReadFrameHeader();
        if curlen < 0 {
          Close(-1);
          return;
        }
        if |buffer| + curlen > MAXFRAMESIZE {
          Close(CLOSE_TOO_BIG);
          return;
        }
        var data := ReadFrameData(curlen, key);
        if data.None? {
          Close(-1);
          return;
        }
        buffer := buffer + data.value;
        if fin {
          if buffer == VERSION_REQUEST {
            var ok := WriteFrame(VERSION_REPLY);
            if !ok {
              Close(-1);
            }
          }
          return;
        }
      }
    }

    /** socket_server_accept (src/websocket.c:673-885) on the descriptor
        `newFd` that `accept` returned, whose other end is `p`. */
    method Accept(newFd: int, p: Endpoint, sha1: seq<byte> -> seq<byte>, base64: seq<byte> -> seq<byte>)
      requires Valid() && forall d :: |base64(d)| == 28
      modifies this, fds
      ensures Valid() && fds == old(fds)
      ensures Slot() == Admit(old(Slot()), newFd, p, sha1, base64)
      ensures serverFd == old(serverFd) && pipeinFd == old(pipeinFd) && outOpen == old(outOpen) && log == old(log)
    {
      if newFd < 0 {
        return;
      }
      var q, ok := Greeting(p, sha1, base64);
      if !ok {
        // close(newclient_fd)
        released := released + [q];
        return;
      }
      if clientFd >= 0 {
        Close(CLOSE_GOING_AWAY);
      }
      clientFd, peer := newFd, q;
      fds[CLIENT_SLOT] := newFd;
    }

    /** The inner loop of pipein_read (src/websocket.c:327-338): `len`
        payload bytes in pieces of at most BUFFERSIZE, each unmasked and
        written to the output pipe. */
    method CopyPayload(len: int, key: seq<byte>) returns (ok: bool)
      requires Valid() && |key| == 4
      modifies this, fds
      ensures Valid() && fds == old(fds) && serverFd == old(serverFd)
      ensures (State(), ok) == CopyData(old(State()), len, key)
    {
      var remaining := len;
      ghost var target := CopyData(State(), len, key);
      while remaining > 0
        invariant Valid() && fds == old(fds) && serverFd == old(serverFd)
        invariant CopyData(State(), remaining, key) == target
        decreases remaining
      {
        var rlen := Min(remaining, BUFFERSIZE);
        var data := ReadFrameData(rlen, key);
        if data.None? {
          return false;
        }
        PipeoutWrite(data.value);
        remaining := remaining - rlen;
      }
      return true;
    }

    /** The answer loop of pipein_read (src/websocket.c:318-340, without
        the final pipeout_close). */
    method ReadAnswer()
      requires Valid()
      modifies this, fds
      ensures Valid() && fds == old(fds) && serverFd == old(serverFd)
      ensures State() == ReplyLoop(old(State()))
    {
      ghost var target := ReplyLoop(State());
      while true
        invariant Valid() && fds == old(fds) && serverFd == old(serverFd)
        invariant ReplyLoop(State()) == target
        decreases if clientFd >= 0 then 1 else 0, |peer.input| - peer.pos
      {
        var len, fin, key := ReadFrameHeader();
        if len < 0 {
          return;
        }
        var ok := CopyPayload(len, key);
        if !ok || fin {
          return;
        }
      }
    }

    /** The frame loop of pipein_read (src/websocket.c:277-297): one
        frame per chunk, the first as text, stopping at the first failed
        write. */
    method SendChunks(chunks: seq<seq<byte>>) returns (ok: bool)
      requires Valid() && Chunks(chunks)
      modifies this, fds
      ensures Valid() && fds == old(fds)
      ensures (Slot(), ok) == Forward(old(Slot()), chunks, true)
      ensures serverFd == old(serverFd) && pipeinFd == old(pipeinFd) && outOpen == old(outOpen) && log == old(log)
    {
      var i := 0;
      var first := true;
      ghost var target := Forward(Slot(), chunks, true);
      while i < |chunks|
        invariant Valid() && fds == old(fds)
        invariant 0 <= i <= |chunks| && first == (i == 0)
        invariant serverFd == old(serverFd) && pipeinFd == old(pipeinFd) && outOpen == old(outOpen) && log == old(log)
        invariant Chunks(chunks[i..])
        invariant Forward(Slot(), chunks[i..], first) == target
      {
        ForwardOne(Slot(), chunks[i..], first);
        assert chunks[i..][1..] == chunks[i + 1..];
        ok := WriteFrame(Frame(false, if first then OP_TEXT else OP_CONTINUATION, chunks[i]));
        if !ok {
          return;
        }
        first := false;
        i := i + 1;
      }
      ok := true;
    }

    /** pipein_read (src/websocket.c:264-341): the input pipe delivers
        `chunks` before end of file, the reader of the output pipe takes
        `delay` attempts to show up, and the input pipe is reopened as
        `inFd`. */
    method PipeinRead(chunks: seq<seq<byte>>, delay: nat, inFd: int)
      requires Valid() && Chunks(chunks) && !outOpen
      modifies this, fds
      ensures Valid() && fds == old(fds) && serverFd == old(serverFd)
      ensures State() == Bridge.PipeinRead(old(State()), chunks, delay, inFd)
    {
      if clientFd < 0 {
        PipeinReopen(inFd);
        PipeoutError(NOT_CONNECTED, delay);
        return;
      }
      var sent := SendChunks(chunks);
      if !sent {
        PipeinReopen(inFd);
        PipeoutError(SOCKET_WRITE_ERROR, delay);
        return;
      }
      PipeinReopen(inFd);
      var ok := WriteFrame(FINAL_FRAME);
      if !ok {
        PipeoutError(SOCKET_WRITE_ERROR, delay);
        return;
      }
      var _ := PipeoutOpen(delay);
      ReadAnswer();
      PipeoutClose();
    }

    /** One round of main's loop after ppoll returned `p.n`. */
    method Round(p: Poll, sha1: seq<byte> -> seq<byte>, base64: seq<byte> -> seq<byte>) returns (stop: bool)
      requires Valid() && forall d :: |base64(d)| == 28
      requires WellFormedPoll(p) && !outOpen
      modifies this, fds
      ensures Valid() && fds == old(fds) && serverFd == old(serverFd)
      ensures (State(), stop) == Dispatch(old(State()), p, sha1, base64)
    {
      if p.n < 0 {
        return true;
      }
      var n := p.n;
      if p.ready.server {
        Accept(p.newFd, p.newPeer, sha1, base64);
        n := n - 1;
      }
      if p.ready.pipein {
        PipeinRead(p.chunks, p.delay, p.inFd);
        n := n - 1;
      }
      if p.ready.client {
        ClientRead();
        n := n - 1;
      }
      stop := n > 0;
    }

    /** main (src/websocket.c:970-1016): rounds until one ends the loop or
        the rounds run out, then the client is sent close 1001. */
    method Run(polls: seq<Poll>, sha1: seq<byte> -> seq<byte>, base64: seq<byte> -> seq<byte>)
      requires Valid() && forall d :: |base64(d)| == 28
      requires (forall i :: 0 <= i < |polls| ==> WellFormedPoll(polls[i])) && !outOpen
      modifies this, fds
      ensures Valid() && fds == old(fds)
      ensures var w := Serve(old(State()), polls, sha1, base64);
        Slot() == Shutdown(w.conn) && pipeinFd == w.pipeinFd && outOpen == w.outOpen && log == w.log
    {
      var i := 0;
      ghost var target := Serve(State(), polls, sha1, base64);
      while i < |polls|
        invariant Valid() && fds == old(fds) && !outOpen
        invariant 0 <= i <= |polls|
        invariant Serve(State(), polls[i..], sha1, base64) == target
      {
        assert polls[i..][1..] == polls[i + 1..];
        var stop := Round(polls[i], sha1, base64);
        if stop {
          break;
        }
        i := i + 1;
      }
      if clientFd != 0 {
        Close(CLOSE_GOING_AWAY);
      }
    }
  }

  /** Inside a word that starts at a multiple of four, the offset in the
      word is the position modulo four. */
  lemma WordOffset(i: int, j: int)
    requires 0 <= i <= j < i + 4 && i % 4 == 0
    ensures j % 4 == j - i
  {
    WordShift(j, i);
  }

  /** The unmasking loop of socket_client_read_frame_data
      (src/websocket.c:607-614): the buffer is XORed with the key one
      4-byte word at a time, the last word possibly partial. */
  method UnmaskWords(buf: array<byte>, key: seq<byte>)
    requires |key| == 4
    modifies buf
    ensures buf[..] == Unmask(old(buf[..]), key)
  {
    var i := 0;
    while i < buf.Length
      invariant 0 <= i <= buf.Length && (i % 4 == 0 || i == buf.Length)
      invariant forall k :: 0 <= k < i ==> buf[k] == Xor(old(buf[k]), key[k % 4])
      invariant forall k :: i <= k < buf.Length ==> buf[k] == old(buf[k])
    {
      i := UnmaskWord(buf, key, i);
    }
    assert forall k :: 0 <= k < buf.Length ==> buf[..][k] == Unmask(old(buf[..]), key)[k];
  }

  /** One word of the unmasking loop: the bytes from `i` up to the next
      multiple of four, or to the end of the buffer, are XORed with the
      key; `next` is where the next word starts. */
  method UnmaskWord(buf: array<byte>, key: seq<byte>, i: nat) returns (next: nat)
    requires |key| == 4 && i < buf.Length && i % 4 == 0
    modifies buf
    ensures next == Min(i + 4, buf.Length) && (next % 4 == 0 || next == buf.Length)
    ensures forall k :: i <= k < next ==> buf[k] == Xor(old(buf[k]), key[k % 4])
    ensures forall k :: 0 <= k < buf.Length && !(i <= k < next) ==> buf[k] == old(buf[k])
  {
    var j := i;
    while j < i + 4 && j < buf.Length
      invariant i <= j <= buf.Length && j <= i + 4
      invariant forall k :: i <= k < j ==> buf[k] == Xor(old(buf[k]), key[k % 4])
      invariant forall k :: 0 <= k < buf.Length && !(i <= k < j) ==> buf[k] == old(buf[k])
    {
      WordOffset(i, j);
      buf[j] := Xor(buf[j], key[j - i]);
      j := j + 1;
    }
    next := j;
  }
}
