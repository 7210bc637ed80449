# websocket.c, modelled in Dafny

This project models the core of `src/websocket.c`, the WebSocket server of
crouton. The server connects one browser-extension client to the
processes on a pair of named pipes:

- It listens on a TCP socket and performs the opening handshake of
  section 4.2 of RFC 6455. A new client that completes the handshake
  replaces the connected one, which is closed with code 1001.
- Each burst of data arriving on the input pipe is sent to the client as
  one fragmented message, as in section 5.4 of RFC 6455. The burst is a
  text frame, then continuation frames, then an empty final frame. A burst
  whose first read returns nothing sends the empty final continuation
  frame alone.
- After each burst it reopens the input pipe and opens the output pipe.
  It then copies the client's answer (a whole message, unmasked) into the
  output pipe and closes it.
- An unsolicited client message `V` is answered with `V0`.
- Pings are answered with pongs and pongs are ignored.
- Protocol violations close the connection with 1002. Frames or messages
  over 16 MiB close it with 1009.

The model has eight modules:

- `Bytes`: octets, big-endian integers and XOR.
- `Io`: descriptors as byte streams, with the `block_read`/`block_write`
  loops.
- `Frame`: the frame codec of section 5.2 of RFC 6455. It holds the
  header the server writes, the header reader's decision on the bytes in
  front of it, and masking.
- `Handshake`: the request parser and the 101 response.
- `Connection`: the client slot. It covers sending a frame, closing with
  a reason, reading a header, reading payload data and the unsolicited
  message reader.
- `Bridge`: `pipein_read` and the pipe helpers, on a `World` value. The
  `World` holds the client slot, the input pipe descriptor, whether the
  output pipe is open, and an ordered log of what the pipe peers see.
- `Server`: the global descriptors and the poll array as a class. Every
  handler is a method whose effect is stated by the functions above, plus
  `main`'s loop.
- `AsWritten`: three places where the code differs from what it
  evidently means, modelled as written (see "## Findings").

A peer socket is modelled by four things:

- everything it will ever send, and a read cursor (the end of the input
  is end of stream);
- everything written to it;
- how many bytes it still accepts before writes fail;
- the most one `read`/`write` call transfers.

SHA-1 and Base64 are parameters. The time the output pipe's reader takes
to appear is a parameter `delay`, counted in 10 ms retries. The poll
results of `main`'s loop are a parameter too.

## Model

| member | source | states |
|---|---|---|
| Io.BlockRead | src/websocket.c:73-87 | reads exactly `size` bytes, the next ones of the stream, whatever the per-call chunk; fails exactly when the stream ends first, having consumed it; the writes are untouched |
| Io.BlockWrite | src/websocket.c:90-104 | succeeds exactly when the peer takes all of `data`, which is then appended whole; on failure the output grows by exactly what the peer took; the input side is untouched |
| Bytes.BigEndianRoundTrip | src/websocket.c:434-440 | a length written in network order over `width` bytes reads back as the same number when it fits |
| Bytes.FromBigEndianRoundTrip | src/websocket.c:508-511 | every extended-length field is the network-order encoding of the number read from it |
| Bytes.XorTwice | src/websocket.c:607-614 | XORing a byte with the same key byte twice restores it |
| Frame.ClosePayload | src/websocket.c:402-405 | the close payload carries the code as a 2-byte network-order number, followed by the fixed error text |
| Frame.FirstByte | src/websocket.c:443-446 | byte 0 of a header has the top bit set exactly when FIN is, the opcode in the low four bits, the reserved bits clear |
| Frame.EncodeHeader | src/websocket.c:417-446 | the header is 2, 4 or 10 bytes; the mask bit is clear; lengths up to 125 are stored inline, below 65536 behind marker 126, otherwise behind marker 127, the extended field reading back as the length |
| Frame.HeaderStep | src/websocket.c:464-591 | the reader's decision: fewer than 2 bytes is a truncated stream; nonzero reserved bits are refused with 1002 after the 2 fixed bytes; reject codes are only 1002 or 1009; a data header has a 4-byte key, an opcode of 0-2 and a length within MAXFRAMESIZE; a ping payload is within MAXFRAMESIZE; every decision consumes at least the 2 fixed bytes and no more than are there |
| Frame.UnmaskTwice | src/websocket.c:598-617 | unmasking what was masked with the same key gives the payload back |
| Frame.UnmaskZeroKey | src/websocket.c:526-528 | the all-zero key used for unmasked frames leaves data unchanged |
| Frame.UnmaskSplit | src/websocket.c:325-338 | unmasking a payload in pieces that start on whole 4-byte words is unmasking it in one go |
| Frame.HeaderRoundTrip | src/websocket.c:417-446 | reading a header the server wrote gives back its FIN, opcode and length with the zero key, consuming exactly the header |
| Frame.ClientHeaderStep | src/websocket.c:464-591 | on a masked client header, the decision follows the source's order of checks: size limit (1009), data frame, unfragmented control (1002), payload present, then close, ping with the unmasked payload, pong or unknown opcode (1002) |
| Frame.ClientHeaderBytes | src/websocket.c:474-528 | the fields the reader extracts from a client header (reserved bits, opcode, FIN, mask bit, length class, extended length, key) are those the client wrote |
| Frame.ExtendedLengthAnyClass | src/websocket.c:495-539 | a client data header with a 16-bit or 64-bit extended length field, needed or not, is read as the field's network-order value, refused with 1009 exactly when that value is over MAXFRAMESIZE, taking 6 bytes plus the field |
| Frame.ExtLengthZero | src/websocket.c:495-539 | a data header of length class 127 with a 64-bit extended length of 0 is a valid empty frame of 14 header bytes |
| Frame.ClientFrameDecision | src/websocket.c:533-588 | for every frame a client can send: too long is refused with 1009 after the header alone; data comes back with its key; fragmented control is refused with 1002; close, ping (with its own payload) and pong are consumed whole; other opcodes are refused with 1002 |
| Frame.DecodeFrame | src/websocket.c:464-617 | a decoded data frame occupies at least 2 bytes and no more than the input |
| Frame.DecodeEncodeFrame | src/websocket.c:417-455 | a frame the server wrote decodes back to itself, followed by whatever comes after it |
| Frame.WireRoundTrip | src/websocket.c:417-455 | any sequence of data frames the server writes decodes back to the same sequence |
| Frame.DecodeClientFrame | src/websocket.c:464-617 | a masked client data frame decodes to the frame the client meant |
| Frame.OversizeDecidedByHeader | src/websocket.c:533-539 | a 1009 refusal needs at most 14 bytes and is the same whatever follows the header, so no payload byte is read |
| Handshake.IndexOf | src/websocket.c:743-746 | the index found is the colon, or the end of the line when there is none |
| Handshake.Find | src/websocket.c:733-740 | the line end found is an LF at or after `i`, or the end of the text |
| Handshake.FindFirst | src/websocket.c:733-740 | no LF comes before the one found, so lines end at their first LF |
| Handshake.Apply | src/websocket.c:768-795 | a header line fails the request exactly when it is a version other than 13 or a key whose value is not 24 characters; otherwise it adds the header it supplies to the seen set and replaces the key only for a key line |
| Handshake.ScanWalks | src/websocket.c:709-797 | a request is accepted only if its lines, walked in order up to the empty line, all pass and supply all five required headers |
| Handshake.WalkNeedsHeader | src/websocket.c:768-795 | every header recorded was supplied by some line |
| Handshake.RequiredHeadersPresent | src/websocket.c:799-803 | an accepted request contains a line for each of Upgrade, Connection, Sec-WebSocket-Version, Sec-WebSocket-Key and Host |
| Handshake.WalkValidates | src/websocket.c:778-791 | a walk that passes met no version line other than 13 and no key line of the wrong length |
| Handshake.AcceptedHeadersValid | src/websocket.c:778-791 | on an accepted request, every version header says 13 and every key header is 24 characters long |
| Handshake.AcceptedStartsWithRequestLine | src/websocket.c:760-766 | an accepted request starts with the line `GET / HTTP/1.1` |
| Handshake.WalkKey | src/websocket.c:785-791 | the key kept is the value of the last key line, and is 24 characters long once a key was seen |
| Handshake.AcceptedKey | src/websocket.c:785-803 | the key answered is the last Sec-WebSocket-Key value of the request, and is 24 characters long |
| Handshake.SplitHeader | src/websocket.c:743-746 | a line `name: value` is read as the header `name` with the value after the colon and its space, and fits as one line |
| Handshake.WrittenSplits | src/websocket.c:733-746 | a request line and header lines written by a client are read back as the request line (no value) and the headers written |
| Handshake.ScanRequest | src/websocket.c:709-797 | lines written one after another, each passing, then the empty line with all five headers seen, are accepted with the last key, consuming exactly up to the empty line's LF: the converse of ScanWalks |
| Handshake.RequestAccepted | src/websocket.c:702-803 | a request whose lines each fit and whose fields pass and supply all five headers is accepted whole, answering the last key, which is 24 characters long |
| Handshake.HeadersAccepted | src/websocket.c:702-803 | `GET / HTTP/1.1` followed by plain `name: value` headers that pass and supply all five required headers is accepted whole |
| Handshake.UpgradeRequestAccepted | src/websocket.c:702-803 | the upgrade request of section 4.1 of RFC 6455 (Host, Upgrade, Connection, Sec-WebSocket-Key, Sec-WebSocket-Version 13) is accepted whole for any host and any 24-character key |
| Handshake.SampleRequestAccepted | src/websocket.c:702-803 | the sample request of section 1.3 of RFC 6455 is accepted whole with its key `dGhlIHNhbXBsZSBub25jZQ==` |
| Handshake.ScanUsed | src/websocket.c:709-756 | an accepted parse consumes a non-empty part of the text, and no more than is there |
| Handshake.AcceptedUsed | src/websocket.c:709-756 | the bytes an accepted request takes are a non-empty prefix of the input |
| Handshake.AcceptToken | src/websocket.c:813-841 | the accept token is 28 bytes long |
| Handshake.Response | src/websocket.c:843-848 | the 101 response is the fixed 101 bytes of text around the token |
| Handshake.ResponseFits | src/websocket.c:850-854 | the response is always shorter than the buffer, and carries the token at bytes 97-124 |
| Handshake.LineFrom | src/websocket.c:715-749 | the walk along a line stops at its first LF, at the end of the input, or when the buffer is full, having passed no LF |
| Handshake.LineEnd | src/websocket.c:733-740 | where the walk stopped agrees with the first LF |
| Handshake.ReadLine | src/websocket.c:709-797 | one line of the parser's loop either settles the verdict or moves strictly forward with the same verdict still to come |
| Handshake.ReadRequest | src/websocket.c:702-803 | the parser loop reaches the verdict of the request specification `Negotiate` |
| Connection.Advance | src/websocket.c:73-87 | after reading `n` bytes, the unread bytes are what followed them |
| Connection.SendFrame | src/websocket.c:417-455 | a send succeeds exactly when a client is connected and takes the whole frame, which is then appended to its output; a failed send releases the client and empties the slot; the output never grows past the frame |
| Connection.CloseConn | src/websocket.c:397-413 | closing always empties the slot and releases the client; with a reason, the client is sent the close frame with that code (as much of it as it takes); without one, nothing is sent |
| Connection.ReadHeader | src/websocket.c:464-591 | the length returned is -1 (the slot is then empty) or within MAXFRAMESIZE; a non-negative length means input was consumed from a connected client; the key is 4 bytes |
| Connection.ReadData | src/websocket.c:598-617 | reading succeeds exactly when the bytes are all there on a connected client (or none were asked for), and returns them unmasked; a failure empties the slot |
| Connection.ClientRead | src/websocket.c:620-670 | reading a message only consumes input, and leaves the slot as it was or empty |
| Connection.CloseSendsReason | src/websocket.c:397-413 | closing with a reason sends the close frame with that code to a client that takes it, and releases that client |
| Connection.ControlFramesAbsorbed | src/websocket.c:541-591 | for every decision of the header reader: ping and pong give length 0 with FIN clear, and a pong consumes its frame, keeps the client and sends nothing; close gives -1 and releases; a refusal consumes its bytes, releases the client and sends it the close frame with its code (as much as it takes); a truncated header closes after consuming the stream; a data header comes back with its length, FIN and key, the client kept and nothing sent |
| Connection.PingAnswered | src/websocket.c:572-573 | a ping is answered by a pong with the same payload when the client takes it, and the whole ping is consumed; otherwise the client is dropped |
| Connection.ReadClientDataHeader | src/websocket.c:464-591 | on a client data frame, the header reader returns its length, FIN and key and leaves the masked payload next |
| Connection.ReadClientData | src/websocket.c:598-617 | reading a masked payload gives it back unmasked and leaves what followed |
| Connection.ClientReadFrame | src/websocket.c:620-670 | one data frame of an unsolicited message: a frame without FIN continues the message; the last frame answers `V` with `V0` and otherwise leaves the slot after the message |
| Connection.ReplyValue | src/websocket.c:655-668 | following a message whose frames each carry their own masking key, frame by frame, consumes it whole and answers exactly `V` with `V0` |
| Connection.ClientReadReply | src/websocket.c:620-670 | the message reader follows a fragmented client message frame by frame, unmasking each frame with its own key |
| Connection.ClientReadMessage | src/websocket.c:620-670 | an unsolicited client message within the size limit, each frame masked with its own key, is consumed whole; it is answered with `V0` exactly when its payloads together are `V`, and otherwise ignored |
| Connection.ClientReadControl | src/websocket.c:554-587 | a client ping or pong between the frames of a message is consumed whole and the message reading goes on with what was gathered, a ping first answered with a pong carrying its payload |
| Connection.ClientReadOversize | src/websocket.c:635-641 | a message that would grow past MAXFRAMESIZE is refused with 1009 after the header of the frame that overflows it |
| Bridge.Reopen | src/websocket.c:239-261 | reopening replaces the input pipe's descriptor, records the reopening, and touches nothing else |
| Bridge.OutOpen | src/websocket.c:152-193 | the output pipe opens exactly when its reader appears within the 300 tries; only then is the opening logged |
| Bridge.OutWrite | src/websocket.c:206-221 | data reaches the output pipe exactly when it is open, appended after what was written before; otherwise nothing happens |
| Bridge.OutClose | src/websocket.c:195-204 | the output pipe ends closed; a close is logged only if it was open |
| Bridge.OutError | src/websocket.c:224-228 | an error message is an open, the message and a close when the reader appears in time, and nothing otherwise |
| Bridge.OutFrames | src/websocket.c:276-298 | one frame per pipe chunk, each small enough for the buffer and a data opcode |
| Bridge.Forward | src/websocket.c:276-298 | the frame loop never reads from the client; on success the client stays connected, on failure the slot is empty |
| Bridge.CopyData | src/websocket.c:321-338 | copying a payload only consumes client input and only appends to the pipe log; the output pipe's state and the input pipe are unchanged |
| Bridge.ReplyLoop | src/websocket.c:318-340 | the answer loop only consumes client input and only appends to the pipe log |
| Bridge.PipeinRead | src/websocket.c:264-341 | after a burst the input pipe has been reopened and the output pipe is closed again; with no client, the pipe peer gets "not connected" (if its reader appears) and the slot is untouched |
| Bridge.OutboundShape | src/websocket.c:276-310 | a burst of chunks becomes one text frame, continuation frames for later chunks (none with FIN, each carrying its chunk), and an empty continuation frame with FIN; a burst with no chunk is that final frame alone |
| Bridge.OutboundDecodes | src/websocket.c:276-310 | the payloads of a burst's frames are the pipe bytes in order, and the bytes sent decode back to those frames |
| Bridge.ForwardSends | src/websocket.c:276-298 | the frame loop sends the burst's frames back to back to a client that takes them, and otherwise fails having sent a prefix of them |
| Bridge.CopyDataUnmasks | src/websocket.c:321-338 | a payload read in BUFFERSIZE pieces reaches the output pipe unmasked and in order, and the client stays connected |
| Bridge.ReplyHeader | src/websocket.c:321-338 | after a client data frame's payload is copied, the answer loop stops at FIN or on a read failure, and otherwise goes on |
| Bridge.ReplyControl | src/websocket.c:318-338 | a client ping or pong inside the answer is consumed whole without reaching the output pipe and the answer loop goes on, a ping first answered with a pong carrying its payload |
| Bridge.ReplyFrameData | src/websocket.c:321-338 | the payload of one client data frame reaches the output pipe unmasked, and exactly that frame is consumed |
| Bridge.ReplyMessage | src/websocket.c:318-340 | a whole client message, each frame masked with its own key, is consumed and its payloads together reach the output pipe in order |
| Bridge.PipeinSends | src/websocket.c:264-319 | when the client takes the burst, it receives exactly the burst's frames, then the input pipe is reopened and the output pipe opened (if its reader appears) before the answer is read |
| Bridge.PipeinDelivers | src/websocket.c:264-341 | a full round trip: the client receives the burst's frames and its answer (a key per frame) is consumed whole; the output pipe sees open, only writes whose bytes are the answer's payloads, then close (or nothing if its reader never appears); the client stays connected |
| Bridge.PipeinWriteFails | src/websocket.c:288-310 | when the client cannot take the burst, it is released; the input pipe is reopened and the pipe peer gets "socket write error" (if its reader appears) |
| Server.Answer | src/websocket.c:843-866 | the response is written after the request has been consumed; the write succeeds exactly when the client takes the whole 101 response, which is then appended to its output |
| Server.Greet | src/websocket.c:703-866 | a handshake succeeds only on an accepted request, and on an accepted request exactly when the client takes the whole 101 response for its key; a rejected request leaves the new client untouched |
| Server.Greeting | src/websocket.c:703-866 | the handshake as the server runs it (read, parse, write) has the effect `Greet` specifies |
| Server.Admit | src/websocket.c:673-885 | an accept error keeps the slot; a new client whose handshake fails is released and the slot is kept as it was; a new client whose handshake succeeds takes the slot with its endpoint after the 101 |
| Server.AdmitReplaces | src/websocket.c:871-876 | a new client that completes the handshake takes the slot, and the old one is released after being sent a close frame with 1001 |
| Server.Dispatch | src/websocket.c:979-1009 | a round stops the loop exactly when ppoll failed or reported more events than were handled; a failed ppoll changes nothing; the output pipe stays closed between rounds and the log only grows |
| Server.DispatchLog | src/websocket.c:985-1002 | only the input pipe's handler touches the pipes, and it always reopens the input pipe |
| Server.Serve | src/websocket.c:970-1010 | over any number of rounds the output pipe is closed between rounds and the log only grows |
| Server.Shutdown | src/websocket.c:1015-1016 | at shutdown a client on a positive descriptor is closed with 1001; an empty slot stays empty (closing -1 has no effect); descriptor 0 is not closed, as the source's truth test has it |
| Server.Server.constructor | src/websocket.c:957-968 | every poll slot and descriptor starts empty except the listening socket and the input pipe, the output pipe closed; the log holds the one opening of the input pipe that `pipe_init` does (src/websocket.c:382-390) |
| Server.Server.Close | src/websocket.c:397-413 | the slot becomes what `CloseConn` specifies and the poll array's client slot is emptied |
| Server.Server.WriteFrame | src/websocket.c:417-455 | the slot and the result are what `SendFrame` specifies |
| Server.Server.ReadFrameData | src/websocket.c:598-617 | the slot and the data are what `ReadData` specifies |
| Server.Server.ReadFrameHeader | src/websocket.c:464-591 | the slot, length, FIN and key are what `ReadHeader` specifies |
| Server.Server.Skip | src/websocket.c:73-87 | consuming bytes only moves the read cursor |
| Server.Server.PipeinReopen | src/websocket.c:239-261 | the state becomes what `Reopen` specifies and the poll array's input slot holds the new descriptor |
| Server.Server.PipeoutOpen | src/websocket.c:152-193 | the state becomes what `OutOpen` specifies, after one try more than the delay, capped at 300 tries |
| Server.Server.PipeoutClose | src/websocket.c:195-204 | the state becomes what `OutClose` specifies |
| Server.Server.PipeoutWrite | src/websocket.c:206-221 | the state becomes what `OutWrite` specifies |
| Server.Server.PipeoutError | src/websocket.c:224-228 | the state becomes what `OutError` specifies |
| Server.Server.ClientRead | src/websocket.c:620-670 | the slot becomes what `Connection.ClientRead` specifies |
| Server.Server.Accept | src/websocket.c:673-885 | the slot becomes what `Admit` specifies |
| Server.Server.CopyPayload | src/websocket.c:327-338 | the state and the result are what `CopyData` specifies |
| Server.Server.ReadAnswer | src/websocket.c:318-340 | the state becomes what `ReplyLoop` specifies |
| Server.Server.SendChunks | src/websocket.c:276-298 | the slot and the result are what `Forward` specifies |
| Server.Server.PipeinRead | src/websocket.c:264-341 | the state becomes what `Bridge.PipeinRead` specifies |
| Server.Server.Round | src/websocket.c:979-1009 | the state and the stop flag are what `Dispatch` specifies |
| Server.Server.Run | src/websocket.c:970-1016 | the final state is `Serve` over the rounds, followed by `Shutdown` of the slot |
| Server.UnmaskWords | src/websocket.c:607-614 | the buffer is unmasked in place, byte `i` XORed with key byte `i mod 4` |
| Server.UnmaskWord | src/websocket.c:607-614 | one 4-byte word is XORed with the key and every other byte is left alone |
| AsWritten.LastByteHighRefused | src/websocket.c:508-511 | as written, a last extended-length byte of 0x80 or more makes any length exceed the limit |
| AsWritten.FirstOfTwoHighRefused | src/websocket.c:508-511 | as written, a 16-bit length whose first byte is 0x80 or more exceeds the limit |
| AsWritten.Length200RefusedAsWritten | src/websocket.c:508-511 | as written, the 200-byte length the server itself encodes as `[0, 200]` is read as more than the limit |
| AsWritten.ClosePayloadAsWritten | src/websocket.c:402-405 | as written, the close payload has the intended length |
| AsWritten.CloseCodeLostAsWritten | src/websocket.c:402-416 | as written, every close frame carries the code 25954 (`eb`) instead of the code asked for, which `ClosePayload` carries |
| AsWritten.PongPayloadAsWritten | src/websocket.c:555-573 | as written, the pong has the ping's length |
| AsWritten.PongDiffersAsWritten | src/websocket.c:555-573 | as written, an 11-byte ping starting with 1 gets a pong whose payload differs from it |

## Left out

- SHA-1 and Base64 (run through `popen2`, src/websocket.c:108-145) are parameters. Only the Base64 output length, 28 bytes, is assumed.
- The FIFO checks of `checkfifo`/`pipe_init` are not modelled, because they are file-system queries. The model starts with the input pipe's descriptor given.
- `socket_server_init`, argument parsing and `usage` are not modelled, because they are socket and process set-up.
- Signals, `ppoll`'s timeout and `terminate` are not modelled. Their effect, ending the loop, is the end of the `polls` sequence.
- `usleep` timing is not modelled. Only the number of tries the output pipe's open takes is kept, as `delay`.
- Failures of `fcntl` on the output pipe are not modelled.
- The process exit on a failing `read` of the input pipe (src/websocket.c:281-284) is not modelled, because that read is the chunk sequence. The exit on a failing reopen (src/websocket.c:239-261) is not modelled either; the reopen takes the new descriptor as given.
- Writes to the open output pipe always succeed, because SIGPIPE and write errors are not modelled. A write to a closed output pipe does nothing, as in the source.
- Verbose output and the hex dump of close payloads are not modelled.
- `vtmonitor.c` and the browser-extension and host-application code are not part of this model.
- Handshake.Scan: the handshake's reads are not modelled chunk by chunk. The buffer is compacted, moving the current line to its start, only when the read data runs out (src/websocket.c:716-728), so a line can be read whole exactly when it fits the 4096-byte buffer; the model refuses a line that does not fit.
- Handshake.Scan: bytes the client sends after the empty line in the same read are taken as unread input of the connection, not dropped.
- Handshake.Apply: a colon at the very end of a line makes the C code read its value past the line end. The model gives that value as `Dangling`, which matches no expected value and is not a valid key.
- Handshake.Apply: a line with no colon has a NULL value. The C code would crash comparing it for Upgrade, Connection, Sec-WebSocket-Version and Sec-WebSocket-Key. The model treats such a line as matching nothing, and as a failing version or key line.
- Handshake.ResponseFits: the `len == BUFFERSIZE` error branch of src/websocket.c:850-854 is proved unreachable, so it is not modelled.
- Frame.HeaderStep: the header reader is modelled as one decision on the unread bytes, not as one `block_read` per field. A truncated stream at any field has the same effect, closing without a reason.
- Frame.HeaderStep: the unmasked control payload uses the intended byte-by-byte masking. The `+3` slack of the word loop and its unaligned word accesses are undefined-behaviour details that are not modelled.
- Connection.ClientReadMessage: stated for messages made of data frames only. A ping or pong between the frames is covered one frame at a time by `ClientReadControl`, not by a whole-message lemma, because each ping's pong changes the client's output and may release it.
- Bridge.ReplyMessage: stated for answers made of data frames only. A ping or pong inside the answer is covered one frame at a time by `ReplyControl`.
- Bridge.PipeinDelivers: the round trip is stated for answers made of data frames only, as `ReplyMessage` is.
- Connection.CloseConn: `close(-1)` on an empty slot is not modelled. Closing an empty slot changes nothing but the descriptor.

## Findings

| source | as written | input that shows it | evidently intended | confidence | as-written member | corrected member |
|---|---|---|---|---|---|---|
| src/websocket.c:508-511 | each `extlen[i]` is plain `char`; where that is signed, a byte of 0x80 or more is sign-extended before it is ORed into the 64-bit length | a client text frame of 200 bytes, whose extended length is `[0, 200]`, is read as a length over 16 MiB and closed with 1009 | the extended length read as an unsigned network-order number, 200 | not executed; holds where `char` is signed (e.g. x86) | AsWritten.Length200RefusedAsWritten | Frame.ClientHeaderStep |
| src/websocket.c:402-416 | the close payload is built at `buffer[0]`, but the frame writer takes its payload from `buffer[10]` on | closing with 1009: the peer receives a payload that starts with `eb` (code 25954) instead of the code | the code in network order, then the text | not executed | AsWritten.CloseCodeLostAsWritten | Frame.ClosePayload |
| src/websocket.c:555-573 | the ping payload is read to the start of a fresh buffer, and that buffer is handed to the frame writer, which takes its payload from offset 10 | an 11-byte ping `[1, 0, …, 0]` gets a pong whose payload differs from the ping's | the pong carries the ping's payload, as section 5.5.3 of RFC 6455 requires | not executed | AsWritten.PongDiffersAsWritten | Connection.PingAnswered |
