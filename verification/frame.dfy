/** The WebSocket frame codec of section 5.2 of RFC 6455 as the server
    implements it: the header the server writes, the header it reads (with
    its size limits and its handling of the control frames of section 5.5),
    and the client-to-server masking of section 5.3. */
module Frame {
  import opened Bytes

  const BUFFERSIZE: nat := 4096
  const FRAMEMAXHEADERSIZE: nat := 2 + 8
  const MAXFRAMESIZE: nat := 16 * 1048576
  const U32: nat := 0x1_0000_0000
  const U64: nat := 0x1_0000_0000_0000_0000

  const OP_CONTINUATION: nat := 0
  const OP_TEXT: nat := 1
  const OP_CLOSE: nat := 8
  const OP_PING: nat := 9
  const OP_PONG: nat := 10

  /** Close codes of section 7.4.1 of RFC 6455. */
  const CLOSE_GOING_AWAY: int := 1001
  const CLOSE_PROTOCOL_ERROR: int := 1002
  const CLOSE_TOO_BIG: int := 1009

  /** The text that follows the code in every close frame the server sends. */
  const CLOSE_TEXT: seq<byte> := AsBytes("croutonwebsocket error\n")

  /** The payload of a close frame: the code in network order, then the
      fixed text (src/websocket.c:402-404, as the writer's contract at
      src/websocket.c:415-416 means it to reach the wire). */
  function ClosePayload(code: nat): (r: seq<byte>)
    requires code < 65536
    ensures |r| == 2 + |CLOSE_TEXT| && FromBigEndian(r[..2]) == code && r[2..] == CLOSE_TEXT
  {
    var r := BigEndian(code, 2) + CLOSE_TEXT;
    assert r[..2] == BigEndian(code, 2) && r[2..] == CLOSE_TEXT;
    BigEndianRoundTrip(code, 2);
    r
  }

  /** A data frame as the wire carries it (opcode 0, 1 or 2 here). */
  datatype Frame = Frame(fin: bool, opcode: nat, payload: seq<byte>)

  // ---------------------------------------------------------------------
  // Writing: socket_client_write_frame
  // ---------------------------------------------------------------------

  /** Number of extended-length bytes for a payload of `n` bytes. */
  function ExtSize(n: nat): nat
  {
    if n <= 125 then 0 else if n < 65536 then 2 else 8
  }

  /** The 7-bit length field: the length itself, or the marker 126 or 127. */
  function LengthMarker(n: nat): byte
  {
    if n <= 125 then n else if n < 65536 then 126 else 127
  }

  /** Byte 0 of a header: FIN in the top bit, the opcode in the low four
      bits, the reserved bits clear. */
  function FirstByte(fin: bool, opcode: nat): (b: byte)
    ensures (b >= 128 <==> fin) && b % 16 == opcode % 16 && (b / 16) % 8 == 0
  {
    var o := opcode % 16;
    if fin then
      assert (128 + o) / 16 == 8 && (128 + o) % 16 == o;
      128 + o
    else
      assert o / 16 == 0;
      o
  }

  /** The header the server writes before `n` payload bytes
      (src/websocket.c:417-446): FIN and opcode in byte 0, reserved bits and
      mask bit clear, the length class chosen by size, then the extended
      length in network order. */
  function EncodeHeader(n: nat, opcode: nat, fin: bool): (r: seq<byte>)
    requires n < U32
    ensures |r| == 2 + ExtSize(n)
    ensures (r[0] >= 128 <==> fin) && r[0] % 16 == opcode % 16 && (r[0] / 16) % 8 == 0
    ensures r[1] < 128
    ensures n <= 125 ==> r[1] == n
    ensures 125 < n < 65536 ==> r[1] == 126 && FromBigEndian(r[2..]) == n
    ensures 65536 <= n ==> r[1] == 127 && FromBigEndian(r[2..]) == n
  {
    var ext := BigEndian(n, ExtSize(n));
    var r := [FirstByte(fin, opcode), LengthMarker(n)] + ext;
    assert r[2..] == ext;
    if n <= 125 then r
    else if n < 65536 then BigEndianRoundTrip(n, 2); r
    else BigEndianRoundTrip(n, 8); r
  }

  /** A whole frame the server sends: header, then the payload unmasked. */
  function EncodeFrame(f: Frame): (r: seq<byte>)
    requires |f.payload| < U32
  {
    EncodeHeader(|f.payload|, f.opcode, f.fin) + f.payload
  }

  /** Consecutive frames on the wire. */
  function Wire(frames: seq<Frame>): seq<byte>
    requires forall i :: 0 <= i < |frames| ==> |frames[i].payload| < U32
  {
    if frames == [] then [] else EncodeFrame(frames[0]) + Wire(frames[1..])
  }

  // ---------------------------------------------------------------------
  // Masking: socket_client_read_frame_data
  // ---------------------------------------------------------------------

  /** XOR of byte i with key byte i mod 4 (section 5.3 of RFC 6455). The C
      code XORs 4-byte words of the buffer with the key as stored in
      memory, which is the same thing byte by byte. Masking and unmasking
      are the same operation. */
  function Unmask(data: seq<byte>, key: seq<byte>): (r: seq<byte>)
    requires |key| == 4
    ensures |r| == |data|
  {
    seq(|data|, i requires 0 <= i < |data| => Xor(data[i], key[i % 4]))
  }

  /** Unmasking a masked payload restores it. */
  lemma UnmaskTwice(data: seq<byte>, key: seq<byte>)
    requires |key| == 4
    ensures Unmask(Unmask(data, key), key) == data
  {
    forall i | 0 <= i < |data|
      ensures Unmask(Unmask(data, key), key)[i] == data[i]
    {
      XorTwice(data[i], key[i % 4]);
    }
  }

  /** An all-zero key (the "no mask" key) leaves the payload alone. */
  lemma UnmaskZeroKey(data: seq<byte>)
    ensures Unmask(data, [0, 0, 0, 0]) == data
  {
    forall i | 0 <= i < |data|
      ensures Unmask(data, [0, 0, 0, 0])[i] == data[i]
    {
      XorZero(data[i]);
    }
  }

  /** Unmasking two pieces separately, each from key offset 0, equals
      unmasking them together whenever the first piece is a whole number of
      4-byte words. */
  lemma UnmaskSplit(a: seq<byte>, b: seq<byte>, key: seq<byte>)
    requires |key| == 4 && |a| % 4 == 0
    ensures Unmask(a + b, key) == Unmask(a, key) + Unmask(b, key)
  {
    forall i | 0 <= i < |a| + |b|
      ensures Unmask(a + b, key)[i] == (Unmask(a, key) + Unmask(b, key))[i]
    {
      if i >= |a| {
        WordShift(i, |a|);
      }
    }
  }

  /** Moving back by whole 4-byte words keeps the position in the key. */
  lemma WordShift(i: int, n: int)
    requires 0 <= n <= i && n % 4 == 0
    ensures (i - n) % 4 == i % 4
  {
    var k := n / 4;
    assert n == 4 * k;
  }

  // ---------------------------------------------------------------------
  // Reading: socket_client_read_frame_header
  // ---------------------------------------------------------------------

  /** What the header reader hands to its caller for a data frame. */
  datatype Header = Header(fin: bool, opcode: nat, key: seq<byte>, length: nat)

  /** What one call of the header reader does with the bytes in front of
      it. `used` is how many bytes it consumed. */
  datatype Step =
    | Truncated                                   // the stream ended inside the header or a control payload
    | Reject(code: int, used: nat)                // protocol violation: the connection is closed with `code`
    | Data(header: Header, used: nat)             // a data-frame header; `header.length` payload bytes follow
    | CloseReceived(used: nat)                    // a close frame: the connection is released
    | PingReceived(payload: seq<byte>, used: nat) // a ping: answered with a pong
    | PongReceived(used: nat)                     // a pong: ignored

  /** The three reserved bits of byte 0. */
  function Reserved(b0: byte): nat
  {
    (b0 / 16) % 8
  }

  /** The header reader's decision on the bytes `s` (src/websocket.c:464-591).
      In order: two bytes, the reserved bits (1002), the extended length,
      the mask key, the size limit (1009); then a data opcode goes back to
      the caller, while a control opcode must have FIN set (1002), has its
      payload read and unmasked, and is handled as close, ping, pong or an
      unknown opcode (1002). */
  function HeaderStep(s: seq<byte>): (r: Step)
    ensures |s| < 2 ==> r == Truncated
    ensures |s| >= 2 && Reserved(s[0]) != 0 ==> r == Reject(CLOSE_PROTOCOL_ERROR, 2)
    ensures r.Reject? ==> 2 <= r.used <= |s| && (r.code == CLOSE_PROTOCOL_ERROR || r.code == CLOSE_TOO_BIG)
    ensures r.Data? ==> 2 <= r.used <= |s| && |r.header.key| == 4 && r.header.length <= MAXFRAMESIZE
                        && r.header.opcode <= 2
    ensures r.CloseReceived? || r.PongReceived? ==> 2 <= r.used <= |s|
    ensures r.PingReceived? ==> 2 <= r.used <= |s| && |r.payload| <= MAXFRAMESIZE
  {
    if |s| < 2 then Truncated
    else if Reserved(s[0]) != 0 then Reject(CLOSE_PROTOCOL_ERROR, 2)
    else
      var fin, opcode, masked, len7 := s[0] >= 128, s[0] % 16, s[1] >= 128, s[1] % 128;
      var extSize := if len7 == 126 then 2 else if len7 == 127 then 8 else 0;
      var used := 2 + extSize + (if masked then 4 else 0);
      if |s| < used then Truncated
      else
        var length := if extSize == 0 then len7 else FromBigEndian(s[2..2 + extSize]);
        var key := if masked then s[2 + extSize..used] else [0, 0, 0, 0];
        if length > MAXFRAMESIZE then Reject(CLOSE_TOO_BIG, used)
        else if opcode <= 2 then Data(Header(fin, opcode, key, length), used)
        else if !fin then Reject(CLOSE_PROTOCOL_ERROR, used)
        else if |s| < used + length then Truncated
        else
          var payload := Unmask(s[used..used + length], key);
          if opcode == OP_CLOSE then CloseReceived(used + length)
          else if opcode == OP_PING then PingReceived(payload, used + length)
          else if opcode == OP_PONG then PongReceived(used + length)
          else Reject(CLOSE_PROTOCOL_ERROR, used + length)
  }

  // ---------------------------------------------------------------------
  // Round trips
  // ---------------------------------------------------------------------

  /** Reading back a header the server wrote recovers FIN, opcode and
      length, with the all-zero ("unmasked") key. */
  lemma HeaderRoundTrip(n: nat, opcode: nat, fin: bool, rest: seq<byte>)
    requires n <= MAXFRAMESIZE && opcode <= 2
    ensures HeaderStep(EncodeHeader(n, opcode, fin) + rest)
         == Data(Header(fin, opcode, [0, 0, 0, 0], n), 2 + ExtSize(n))
  {
    var h := EncodeHeader(n, opcode, fin);
    var s := h + rest;
    assert s[0] == h[0] && s[1] == h[1];
    assert s[2..2 + ExtSize(n)] == h[2..];
  }

  /** The header a client writes: as the server's, but with the mask bit
      set and the 4-byte key after the length. */
  function ClientHeader(n: nat, opcode: nat, fin: bool, key: seq<byte>): (r: seq<byte>)
    requires n < U32 && |key| == 4
    ensures |r| == 6 + ExtSize(n)
  {
    var h := EncodeHeader(n, opcode, fin);
    [h[0], h[1] + 128] + h[2..] + key
  }

  /** A whole client frame: header, then the payload masked with `key`. */
  function ClientFrame(f: Frame, key: seq<byte>): seq<byte>
    requires |f.payload| < U32 && |key| == 4
  {
    ClientHeader(|f.payload|, f.opcode, f.fin, key) + Unmask(f.payload, key)
  }

  /** The header reader on a client header followed by `t`: the length and
      key come back as written, and the decision follows the order of the
      checks. */
  lemma ClientHeaderStep(n: nat, opcode: nat, fin: bool, key: seq<byte>, t: seq<byte>)
    requires n < U32 && |key| == 4 && opcode < 16
    ensures var hl := 6 + ExtSize(n);
      HeaderStep(ClientHeader(n, opcode, fin, key) + t) ==
        if n > MAXFRAMESIZE then Reject(CLOSE_TOO_BIG, hl)
        else if opcode <= 2 then Data(Header(fin, opcode, key, n), hl)
        else if !fin then Reject(CLOSE_PROTOCOL_ERROR, hl)
        else if |t| < n then Truncated
        else if opcode == OP_CLOSE then CloseReceived(hl + n)
        else if opcode == OP_PING then PingReceived(Unmask(t[..n], key), hl + n)
        else if opcode == OP_PONG then PongReceived(hl + n)
        else Reject(CLOSE_PROTOCOL_ERROR, hl + n)
  {
    var s := ClientHeader(n, opcode, fin, key) + t;
    var e := ExtSize(n);
    ClientHeaderBytes(n, opcode, fin, key, t);
    assert |s| >= 6 + e + n ==> s[6 + e..6 + e + n] == t[..n];
  }

  /** The fields of a client header, byte by byte. */
  lemma ClientHeaderBytes(n: nat, opcode: nat, fin: bool, key: seq<byte>, t: seq<byte>)
    requires n < U32 && |key| == 4 && opcode < 16
    ensures var s, e := ClientHeader(n, opcode, fin, key) + t, ExtSize(n);
      && |s| == 6 + e + |t|
      && Reserved(s[0]) == 0 && s[0] % 16 == opcode && (s[0] >= 128 <==> fin)
      && s[1] >= 128 && s[1] % 128 == LengthMarker(n)
      && (e > 0 ==> FromBigEndian(s[2..2 + e]) == n)
      && s[2 + e..6 + e] == key && s[6 + e..] == t
  {
    var h := EncodeHeader(n, opcode, fin);
    var s := ClientHeader(n, opcode, fin, key) + t;
    var e := ExtSize(n);
    assert s[0] == h[0] && s[1] == h[1] + 128;
    assert s[2..2 + e] == h[2..];
  }

  /** A client header may declare a longer length class than its length
      needs: a 16-bit or 64-bit extended field is read as its
      network-order value whatever that value is, so only the size limit
      decides between a data header and a 1009 refusal. */
  lemma ExtendedLengthAnyClass(b0: byte, marker: nat, ext: seq<byte>, key: seq<byte>, t: seq<byte>)
    requires Reserved(b0) == 0 && b0 % 16 <= 2 && |key| == 4
    requires (marker == 126 && |ext| == 2) || (marker == 127 && |ext| == 8)
    ensures var n, used := FromBigEndian(ext), 6 + |ext|;
      HeaderStep([b0, 128 + marker] + ext + key + t) ==
        if n > MAXFRAMESIZE then Reject(CLOSE_TOO_BIG, used)
        else Data(Header(b0 >= 128, b0 % 16, key, n), used)
  {
    var s := [b0, 128 + marker] + ext + key + t;
    var e := |ext|;
    assert s[0] == b0 && s[1] >= 128 && s[1] % 128 == marker && |s| >= 6 + e;
    assert s[2..2 + e] == ext;
    assert s[2 + e..6 + e] == key;
  }

  /** A data header of length class 127 whose 64-bit extended length is 0
      is a valid empty frame taking 14 bytes. */
  lemma ExtLengthZero(b0: byte, key: seq<byte>, t: seq<byte>)
    requires Reserved(b0) == 0 && b0 % 16 <= 2 && |key| == 4
    ensures HeaderStep([b0, 255, 0, 0, 0, 0, 0, 0, 0, 0] + key + t)
         == Data(Header(b0 >= 128, b0 % 16, key, 0), 14)
  {
    var zero: seq<byte> := [0, 0, 0, 0, 0, 0, 0, 0];
    assert BigEndian(0, 8) == zero;
    BigEndianRoundTrip(0, 8);
    assert [b0, 255] + zero + key + t == [b0, 255, 0, 0, 0, 0, 0, 0, 0, 0] + key + t;
    ExtendedLengthAnyClass(b0, 127, zero, key, t);
  }

  /** What the header reader does with every frame a client can send: too
      long is refused with 1009 after the header alone, a data frame is
      handed back with its key, a fragmented control frame is refused with
      1002, and a complete control frame is consumed whole: close releases,
      ping carries the unmasked payload, pong is ignored, and any other
      opcode is refused with 1002. */
  lemma ClientFrameDecision(f: Frame, key: seq<byte>, rest: seq<byte>)
    requires |f.payload| < U32 && |key| == 4 && f.opcode < 16
    ensures var hl, n := 6 + ExtSize(|f.payload|), |f.payload|;
      HeaderStep(ClientFrame(f, key) + rest) ==
        if n > MAXFRAMESIZE then Reject(CLOSE_TOO_BIG, hl)
        else if f.opcode <= 2 then Data(Header(f.fin, f.opcode, key, n), hl)
        else if !f.fin then Reject(CLOSE_PROTOCOL_ERROR, hl)
        else if f.opcode == OP_CLOSE then CloseReceived(hl + n)
        else if f.opcode == OP_PING then PingReceived(f.payload, hl + n)
        else if f.opcode == OP_PONG then PongReceived(hl + n)
        else Reject(CLOSE_PROTOCOL_ERROR, hl + n)
  {
    var n := |f.payload|;
    var masked := Unmask(f.payload, key);
    var t := masked + rest;
    assert ClientFrame(f, key) + rest == ClientHeader(n, f.opcode, f.fin, key) + t;
    assert t[..n] == masked;
    ClientHeaderStep(n, f.opcode, f.fin, key, t);
    UnmaskTwice(f.payload, key);
  }

  /** One data frame taken off the front of a byte stream, with the number
      of bytes it occupied. */
  function DecodeFrame(s: seq<byte>): (r: Option<(Frame, nat)>)
    ensures r.Some? ==> 2 <= r.value.1 <= |s|
  {
    match HeaderStep(s)
    case Data(h, used) =>
      if used + h.length <= |s|
      then Some((Frame(h.fin, h.opcode, Unmask(s[used..used + h.length], h.key)), used + h.length))
      else None
    case _ => None
  }

  /** The data frames at the front of a stream, up to the first thing that
      is not a complete data frame. */
  function DecodeFrames(s: seq<byte>): seq<Frame>
    decreases |s|
  {
    match DecodeFrame(s)
    case None => []
    case Some((f, n)) => [f] + DecodeFrames(s[n..])
  }

  /** A frame the server wrote reads back as the same frame. */
  lemma DecodeEncodeFrame(f: Frame, rest: seq<byte>)
    requires f.opcode <= 2 && |f.payload| <= MAXFRAMESIZE
    ensures DecodeFrame(EncodeFrame(f) + rest) == Some((f, |EncodeFrame(f)|))
  {
    var n := |f.payload|;
    var h := EncodeHeader(n, f.opcode, f.fin);
    var s := EncodeFrame(f) + rest;
    assert s == h + (f.payload + rest);
    HeaderRoundTrip(n, f.opcode, f.fin, f.payload + rest);
    assert s[|h|..|h| + n] == f.payload;
    UnmaskZeroKey(f.payload);
  }

  /** A sequence of frames the server wrote reads back as the same frames. */
  lemma {:induction false} WireRoundTrip(frames: seq<Frame>)
    requires forall i :: 0 <= i < |frames| ==> frames[i].opcode <= 2 && |frames[i].payload| <= MAXFRAMESIZE
    ensures DecodeFrames(Wire(frames)) == frames
  {
    if frames == [] {
      assert DecodeFrame([]) == None;
    } else {
      var e, w' := EncodeFrame(frames[0]), Wire(frames[1..]);
      assert Wire(frames) == e + w';
      DecodeEncodeFrame(frames[0], w');
      DecodeFramesStep(e + w', frames[0], |e|);
      assert (e + w')[|e|..] == w';
      WireRoundTrip(frames[1..]);
    }
  }

  /** A stream that starts with a complete data frame decodes to that
      frame followed by what the rest decodes to. */
  lemma DecodeFramesStep(s: seq<byte>, f: Frame, n: nat)
    requires DecodeFrame(s) == Some((f, n))
    ensures DecodeFrames(s) == [f] + DecodeFrames(s[n..])
  {
  }

  /** A frame a client wrote reads back as the same frame, unmasked. */
  lemma DecodeClientFrame(f: Frame, key: seq<byte>, rest: seq<byte>)
    requires f.opcode <= 2 && |f.payload| <= MAXFRAMESIZE && |key| == 4
    ensures DecodeFrame(ClientFrame(f, key) + rest) == Some((f, |ClientFrame(f, key)|))
  {
    var n := |f.payload|;
    var ch := ClientHeader(n, f.opcode, f.fin, key);
    var s := ClientFrame(f, key) + rest;
    ClientFrameDecision(f, key, rest);
    assert s[|ch|..|ch| + n] == Unmask(f.payload, key);
    UnmaskTwice(f.payload, key);
  }

  /** A declared length over the limit is refused from the header alone:
      whatever bytes follow it, the decision and the bytes consumed are the
      same, so no payload byte is ever read. */
  lemma OversizeDecidedByHeader(s: seq<byte>, t: seq<byte>)
    requires HeaderStep(s).Reject? && HeaderStep(s).code == CLOSE_TOO_BIG
    ensures HeaderStep(s).used <= 14
    ensures HeaderStep(s[..HeaderStep(s).used] + t) == HeaderStep(s)
  {
    var used := HeaderStep(s).used;
    var s' := s[..used] + t;
    assert s'[..used] == s[..used];
    assert s'[0] == s[0] && s'[1] == s[1];
    var len7 := s[1] % 128;
    var extSize := if len7 == 126 then 2 else if len7 == 127 then 8 else 0;
    assert s'[2..2 + extSize] == s[2..2 + extSize];
    if s[1] >= 128 {
      assert s'[2 + extSize..used] == s[2 + extSize..used];
    }
  }
}
