/** Descriptors as the server sees them: a byte stream to read from and a
    byte trace written to, and the "exactly n bytes or failure" loops
    `block_read` and `block_write` built on single `read`/`write` calls. */
module Io {
  import opened Bytes

  /** One end of a connection.
      - `input` is everything the peer will ever send and `pos` how much of
        it has been read; a read past the end is end of stream.
      - `output` is everything written to the peer so far.
      - `room` is how many more bytes a write may deliver before the
        descriptor starts failing (a peer that went away).
      - `chunk` bounds what a single `read` or `write` call transfers. */
  datatype Peer = Peer(input: seq<byte>, pos: nat, output: seq<byte>, room: nat, chunk: nat)

  type Endpoint = p: Peer | p.pos <= |p.input| && p.chunk > 0
    witness Peer([], 0, [], 0, 1)

  /** Bytes sent by the peer and not read yet. */
  function Unread(p: Endpoint): seq<byte>
  {
    p.input[p.pos..]
  }

  /** The outcome `block_read` has on an endpoint: the next `size` bytes, or
      failure after the stream ran dry. */
  function ReadExactly(p: Endpoint, size: nat): (Endpoint, Option<seq<byte>>)
  {
    if p.pos + size <= |p.input| then (p.(pos := p.pos + size), Some(p.input[p.pos..p.pos + size]))
    else (p.(pos := |p.input|), None)
  }

  /** The outcome `block_write` has on an endpoint: as much of `data` as the
      peer takes, and success only if it took all of it. */
  function WriteAll(p: Endpoint, data: seq<byte>): (Endpoint, bool)
  {
    var n := Min(|data|, p.room);
    (p.(output := p.output + data[..n], room := p.room - n), |data| <= p.room)
  }

  /** block_read (src/websocket.c:73-87): loops over `read` until `size`
      bytes are in; a `read` that returns 0 (end of stream) is a failure. */
  method BlockRead(p: Endpoint, size: nat) returns (q: Endpoint, data: Option<seq<byte>>)
    ensures data.Some? <==> p.pos + size <= |p.input|
    ensures data.Some? ==> data.value == p.input[p.pos..p.pos + size] && |data.value| == size
    ensures q.input == p.input && q.output == p.output && q.room == p.room && q.chunk == p.chunk
    ensures q.pos == if data.Some? then p.pos + size else |p.input|
    ensures (q, data) == ReadExactly(p, size)
  {
    var tot := 0;
    var buf: seq<byte> := [];
    q := p;
    while tot < size
      invariant tot <= size
      invariant q == p.(pos := p.pos + tot)
      invariant buf == p.input[p.pos..p.pos + tot]
    {
      // one read(): at most `chunk` bytes, at most what was asked, at most what has arrived
      var n := Min(Min(q.chunk, size - tot), |q.input| - q.pos);
      if n == 0 {
        return q, None;
      }
      buf := buf + q.input[q.pos..q.pos + n];
      q := q.(pos := q.pos + n);
      tot := tot + n;
    }
    data := Some(buf);
  }

  /** block_write (src/websocket.c:90-104): loops over `write` until all of
      `data` is out; a `write` that transfers nothing is a failure. */
  method BlockWrite(p: Endpoint, data: seq<byte>) returns (q: Endpoint, ok: bool)
    ensures ok <==> |data| <= p.room
    ensures q.input == p.input && q.pos == p.pos && q.chunk == p.chunk
    ensures ok ==> q.output == p.output + data && q.room == p.room - |data|
    ensures !ok ==> q.output == p.output + data[..p.room] && q.room == 0
    ensures (q, ok) == WriteAll(p, data)
  {
    var tot := 0;
    q := p;
    while tot < |data|
      invariant tot <= |data| && tot <= p.room
      invariant q == p.(output := p.output + data[..tot], room := p.room - tot)
    {
      // one write(): at most `chunk` bytes, at most what is left, at most what the peer takes
      var n := Min(Min(q.chunk, |data| - tot), q.room);
      if n == 0 {
        return q, false;
      }
      assert data[..tot + n] == data[..tot] + data[tot..tot + n];
      q := q.(output := q.output + data[tot..tot + n], room := q.room - n);
      tot := tot + n;
    }
    ok := true;
  }
}
