/** Three places where the C code does not do what its own contracts and
    the protocol say, modelled exactly as written. The rest of the model
    uses the intended behaviour (`Frame.HeaderStep`, `Frame.ClosePayload`,
    the pong of `Connection.ReadHeader`); the lemmas here exhibit an input
    on which each written version differs from it. */
module AsWritten {
  import opened Bytes
  import opened Frame

  /** The extended length as src/websocket.c:508-511 computes it: `extlen`
      is plain `char`, so where `char` is signed a byte of 0x80 or more is
      sign-extended to 64 bits before it is ORed into the 64-bit `length`.
      Shifting left by 8 keeps the low 64 bits; the OR with a sign-extended
      byte sets every bit above the low eight. */
  function ExtLengthAsWritten(ext: seq<byte>): nat
    decreases |ext|
  {
    if ext == [] then 0
    else
      var shifted := ExtLengthAsWritten(ext[..|ext| - 1]) * 256 % U64;
      var b := ext[|ext| - 1];
      if b < 128 then shifted + b else U64 - 256 + b
  }

  /** A last length byte of 0x80 or more makes the written computation
      exceed the frame limit, so the frame is refused with 1009. */
  lemma LastByteHighRefused(ext: seq<byte>)
    requires ext != [] && ext[|ext| - 1] >= 128
    ensures ExtLengthAsWritten(ext) > MAXFRAMESIZE
  {
  }

  /** In the 16-bit length class, a first byte of 0x80 or more does too:
      every length from 32768 to 65535 is refused. */
  lemma FirstOfTwoHighRefused(ext: seq<byte>)
    requires |ext| == 2 && ext[0] >= 128
    ensures ExtLengthAsWritten(ext) > MAXFRAMESIZE
  {
    if ext[1] < 128 {
      var inner := ExtLengthAsWritten(ext[..1]);
      assert ext[..1][..0] == [];
      assert inner == U64 - 256 + ext[0];
      var b0: int := ext[0];
      var v := U64 - 65536 + 256 * b0;
      assert inner * 256 == 255 * U64 + v;
      assert inner * 256 % U64 == v;
    }
  }

  /** The finding: the header the server itself writes for a 200-byte
      payload carries the extended length [0, 200]; read as written it
      exceeds 16 MiB and is refused with 1009, while `Frame.HeaderStep`
      reads it back as 200 (`Frame.HeaderRoundTrip`). */
  lemma Length200RefusedAsWritten()
    ensures EncodeHeader(200, OP_TEXT, true)[2..] == [0, 200]
    ensures FromBigEndian([0, 200]) == 200
    ensures ExtLengthAsWritten([0, 200]) > MAXFRAMESIZE
  {
    assert BigEndian(200, 2) == [0, 200];
    LastByteHighRefused([0, 200]);
  }

  /** The close frame as src/websocket.c:402-405 sends it: the payload is
      built at offset 0 of `buffer`, but the writer takes its data from
      offset FRAMEMAXHEADERSIZE, so the 25 bytes sent start 10 bytes in:
      the code and the first eight characters of the text are skipped, and
      the snprintf terminator and nine bytes of uninitialised stack (`junk`)
      are sent instead. */
  function ClosePayloadAsWritten(code: nat, junk: seq<byte>): (r: seq<byte>)
    requires code < 65536 && |junk| >= FRAMEMAXHEADERSIZE
    ensures |r| == 2 + |CLOSE_TEXT|
  {
    var buffer := BigEndian(code, 2) + CLOSE_TEXT + [0] + junk;
    buffer[FRAMEMAXHEADERSIZE..FRAMEMAXHEADERSIZE + 2 + |CLOSE_TEXT|]
  }

  /** The finding: whatever the code, the first two payload bytes the peer
      receives are the characters "eb" (close code 25954), never the code;
      `Frame.ClosePayload` carries it. */
  lemma CloseCodeLostAsWritten(code: nat, junk: seq<byte>)
    requires code < 65536 && |junk| >= FRAMEMAXHEADERSIZE
    ensures ClosePayloadAsWritten(code, junk)[..2] == AsBytes("eb")
    ensures FromBigEndian(ClosePayloadAsWritten(code, junk)[..2]) == 25954
    ensures FromBigEndian(ClosePayload(code)[..2]) == code
  {
    var buffer := BigEndian(code, 2) + CLOSE_TEXT + [0] + junk;
    assert buffer[10] == CLOSE_TEXT[8] && buffer[11] == CLOSE_TEXT[9];
    assert CLOSE_TEXT[8] == 'e' as int && CLOSE_TEXT[9] == 'b' as int;
    assert AsBytes("eb") == [101, 98];
    assert ClosePayloadAsWritten(code, junk)[..2] == [buffer[10], buffer[11]];
  }

  /** The pong as src/websocket.c:555-573 sends it: the ping payload sits at
      offset 0 of its buffer, but the writer takes data from offset
      FRAMEMAXHEADERSIZE, so the pong carries the ping's bytes from index 10
      on, followed by 10 bytes from past the end of the allocation (`junk`). */
  function PongPayloadAsWritten(ping: seq<byte>, junk: seq<byte>): (r: seq<byte>)
    requires |junk| >= FRAMEMAXHEADERSIZE
    ensures |r| == |ping|
  {
    (ping + junk)[FRAMEMAXHEADERSIZE..FRAMEMAXHEADERSIZE + |ping|]
  }

  /** The finding: an 11-byte ping starting with 1 is answered, as written,
      by a pong starting with 0, whatever lies past the buffer; section 5.5.3
      of RFC 6455 asks for the same payload back, which is what
      `Connection.PingAnswered` proves of the model. */
  lemma PongDiffersAsWritten(junk: seq<byte>)
    requires |junk| >= FRAMEMAXHEADERSIZE
    ensures var ping := [1, 0, 0, 0, 0, 0, 0, 0, 0, 0, 0];
      PongPayloadAsWritten(ping, junk) != ping
  {
    var ping: seq<byte> := [1, 0, 0, 0, 0, 0, 0, 0, 0, 0, 0];
    assert PongPayloadAsWritten(ping, junk)[0] == (ping + junk)[10] == 0;
  }
}
