# WebSocket frame layer of go-websocket-from-scratch, in Dafny

This project models the server side of the WebSocket frame layer that
`ws.go` and `frame.go` implement, and proves properties of it. The server
side covers the following:

- reading one frame from the client (`recv`) and unmasking its payload;
- checking it against an ordered list of protocol rules (`validate`), which
  latches a close status of 1002 or 1007 on the first failure;
- writing an unmasked server frame (`send`) and the two-byte status close
  frame (`close`);
- writing the 101 upgrade response (`handshake`);
- the frame helpers: `Pong`, `Text`, `IsControl`, `HasReservedOpcode` and
  `CloseCode`.

The model follows the code as written, including where the code departs
from RFC 6455. Those places are listed under Findings.

Modules:

- `Bytes` (bytes.dfy): bytes as the integers 0 to 255, Go's `&`, `|` and
  `^` on them defined bit by bit, the header-byte facts those operators
  give, big-endian numbers, Go's `binary.BigEndian.Uint16`/`PutUint16`,
  and Go strings as one character per byte.
- `Utf8` (utf8.dfy): well-formed UTF-8 following the syntax of section 4
  of RFC 3629. It stands in for Go's `utf8.Valid`.
- `Frames` (frame.dfy): the `Frame` record and the helpers of frame.go.
- `Reference` (reference.dfy): the partner for the decoder and the
  encoder, written from RFC 6455 rather than from the server. It holds the
  masking of section 5.3, the bytes a client sends for a frame
  (section 5.2), and a client's reading of an unmasked server frame.
- `Codec` (codec.dfy): pure functions giving what `recv` decodes, what
  `validate` decides, what `send` and `close` write, and the handshake
  text.
- `CodecLemmas` (codec_lemmas.dfy): the properties of those functions:
  - the header bits and length forms;
  - a failed read is an error;
  - decoding a client frame gives the client's frame back;
  - which frames `validate` accepts, in both directions, and with which
    status it rejects the rest;
  - a client reads back what `send` writes;
  - the close frame's exact bytes;
  - the handshake text.
- `Connection` (websocket.dfy): the `Websocket` class. It holds the
  stream, the bytes written, the closed flag and the mutable `status`.
  Each of its methods (`Read`, `Write`, `Handshake`, `Recv` with its two
  steps `ReadLength` and `ReadPayload`, `Unmask`, `Validate`, `Send`,
  `Close`) is proved against the Codec function it implements.
- `Corrected` (corrected.dfy): the behaviour the code evidently intends
  where it departs from RFC 6455, with the intended properties proved and
  lemmas showing the as-written behaviour.

The stream is modelled like this:

- Reading takes bytes from a fixed `input` sequence at a cursor `pos`. A
  read of n bytes fails exactly when fewer than n bytes remain, and it
  then consumes what is left.
- Writing appends to `output`. It succeeds exactly when `writable` holds.
- `getAcceptHash` is a function parameter of `Handshake`.

## Model

| member | source | states |
|---|---|---|
| Bytes.Uint16PutUint16 | ws.go:282 | `PutUint16` writes the high byte then the low byte, `Uint16` of those bytes gives the value back, and it is the 2-byte big-endian form |
| Bytes.Uint16BigEndian | ws.go:157 | `binary.BigEndian.Uint16` of two bytes is their big-endian value |
| Bytes.BigEndianHighBytes | ws.go:166 | a big-endian number is at least `Uint16` of its first two bytes times 256 to the power of the remaining length |
| Bytes.XorInvolution | ws.go:185 | XOR with the same key byte twice gives the byte back |
| Bytes.FirstByteFields | ws.go:133-140 | a first byte assembled from a FIN bit, RSV bits and a 4-bit opcode gives each back under the masks 0x80, 0x70 and 0x0F that `recv` applies |
| Bytes.HighBit | ws.go:142-148 | a second byte made of the mask bit and a 7-bit length reads back as masked, with that length in the low seven bits |
| Bytes.SendFirstByteFields | ws.go:244-249 | `0x80 \| opcode`, with bit 7 cleared for a fragment, has bit 7 iff the frame is final and keeps the opcode's low seven bits; a 4-bit opcode lands in the low four bits with no RSV bit |
| Bytes.CloseOpcodeByte | ws.go:244 | the first byte `send` writes for the final close frame is 0x88 |
| Bytes.BytesStringRoundTrip | frame.go:25 | `string(payload)` has one character per byte and converts back to the same bytes |
| Utf8.ConcatValid | ws.go:213 | well-formed UTF-8 is closed under concatenation |
| Utf8.ValidAfterValid | ws.go:221 | after a well-formed prefix, the whole is well formed iff the rest is |
| Utf8.AsciiValid | ws.go:213 | every ASCII byte sequence is accepted as UTF-8 |
| Utf8.ValidExcludesBytes | ws.go:213 | the octets C0, C1 and F5 to FF never occur in accepted UTF-8 |
| Utf8.InvalidFFFE | ws.go:213 | the bytes FF FE are rejected as UTF-8 |
| Frames.PongFields | frame.go:18-21 | `Pong` sets the opcode to 10 and leaves every other field unchanged |
| Frames.PongIsControl | frame.go:18-35 | a pong is a control frame whose opcode is not reserved |
| Frames.IsControlIff | frame.go:29-31 | for a 4-bit opcode, `IsControl` holds iff the opcode is 8 or more |
| Frames.HasReservedOpcodeIff | frame.go:33-35 | of the 4-bit opcodes, exactly 0, 1, 2, 8, 9 and 10 are not reserved |
| Frames.TextBytes | frame.go:24-26 | `Text` has one character per payload byte, and its bytes are the payload |
| Frames.CloseCodeOfPayload | frame.go:37-41 | a payload that starts with the two big-endian bytes of `c` has close code `c` |
| Frames.CloseCodeShort | frame.go:37-41 | a payload of fewer than two bytes has close code 0, because `binary.Read` fails before assigning |
| Reference.MaskInvolution | ws.go:182-185 | XOR with the 4-byte key, taken cyclically, is its own inverse |
| Codec.LengthField | ws.go:148 | the length field taken from byte 1 is below 128 |
| Codec.DecodeHeader | ws.go:133-143 | the opcode fits in 4 bits and RSV only uses bits 4 to 6 |
| Codec.DecodeFrame | ws.go:126-190 | a decoded frame never consumes more bytes than the stream holds |
| CodecLemmas.DecodeFrameFails | ws.go:128-180 | a stream that ends before the extended length, or before the end of the mask and payload, gives a read error |
| CodecLemmas.DecodeFrameShortHeader | ws.go:128-164 | fewer than 2 bytes, or a 126 or 127 marker without its extended-length bytes, gives a read error |
| Reference.FirstByte | ws.go:133-140 | a client's first byte, read under `recv`'s masks, gives back the frame's fragment flag, RSV bits and opcode |
| CodecLemmas.ClientHeader | ws.go:133-143 | the header `recv` takes from a client's first byte and a second byte with the mask bit set is the client's FIN, RSV and opcode, marked masked |
| CodecLemmas.DecodeAsClient | ws.go:126-190 | bytes laid out as a client sends them (first byte, masked length byte, extended length, key, masked payload) decode to the client's frame and consume exactly those bytes |
| CodecLemmas.DecodeFrameLength | ws.go:145-187 | decoding succeeds iff the stream holds 2 + ext + 4 + n bytes. Here n is the 7-bit field, or for both the 126 and the 127 marker `s[2]*256 + s[3]`. Then exactly those bytes are consumed, the payload has n bytes, `Length` is n mod 256, and payload byte i is `s[6+ext+i] XOR s[2+ext+i mod 4]` |
| CodecLemmas.DecodeFramePrefix | ws.go:126-190 | the bytes after the frame do not change what is decoded |
| CodecLemmas.DecodeClientFrame | ws.go:126-190 | decoding the bytes a client sends for any frame with fewer than 65536 payload bytes gives back that frame, marked masked, with `Length` equal to its size mod 256, and consumes exactly those bytes |
| CodecLemmas.DecodedFrameCheckable | ws.go:175 | a decoded frame's `Length` is its payload size mod 256, so `Length >= 2` implies the payload has the two code bytes that `Payload[:2]` needs |
| CodecLemmas.CloseCodeTest | ws.go:222 | the close-code test rejects a code iff it is neither in `closeCodes` nor in 3000 to 4999 |
| CodecLemmas.CheckFrameAcceptIff | ws.go:192-237 | `validate` accepts a frame iff all of these hold: it is masked; it is not a control frame with `Length > 125` or fragmented; its opcode is not reserved; RSV is zero; a final text frame is UTF-8; a close frame has `Length` other than 1, and with `Length >= 2` a legal code and, beyond 2, a UTF-8 reason |
| CodecLemmas.CheckFrameStatus | ws.go:192-237 | every rejection carries status 1002 or 1007, both in `closeCodes` |
| CodecLemmas.CheckFrameInvalidPayloadIff | ws.go:213-230 | the status is 1007 iff the structural checks pass and the final text payload, or the close reason behind a legal code, is not UTF-8 |
| CodecLemmas.CheckFrameUnmasked | ws.go:193-196 | an unmasked frame is rejected with 1002 whatever else it carries |
| CodecLemmas.CheckFrameControlVectors | ws.go:198-201 | a ping, pong or close frame of 130 bytes, and a fragmented ping, are rejected with 1002 |
| CodecLemmas.CheckFrameReservedVectors | ws.go:203-211 | opcode 5, and RSV bit 0x20, are rejected with 1002 |
| CodecLemmas.CheckFrameTextVectors | ws.go:213-216 | FF FE is rejected with 1007 in a final text frame and accepted in a fragment |
| CodecLemmas.CheckFrameCloseVectors | ws.go:218-236 | close codes 1000 and 3001 pass, 5000 fails, a 1-byte close payload fails, and an empty one passes |
| CodecLemmas.EncodeFrameLayout | ws.go:241-271 | bit 7 of byte 0 is clear iff the frame is a fragment; the opcode is in the low bits; no mask bit and no key; `Length <= 125` is written directly, otherwise after 126 as a big-endian 16-bit value; the whole payload follows |
| CodecLemmas.EncodeFrameParses | ws.go:241-273 | when `Length` is the payload size, a client reads back the FIN bit, the opcode, RSV 0 and the whole payload, and nothing more |
| CodecLemmas.EchoRoundTrip | ws.go:126-273 | a client frame of fewer than 256 payload bytes, decoded and sent back, reads on the client as the same FIN bit, opcode and payload |
| CodecLemmas.CloseFrameBytes | ws.go:275-285 | the close frame is exactly `[0x88, 0x02, status>>8, status&0xFF]`, a client reads it as a final close frame, and its close code is the status |
| CodecLemmas.JoinSnoc | ws.go:122 | `strings.Join` of a list with one more element appends the separator and that element |
| CodecLemmas.HandshakeResponseText | ws.go:110-123 | the response is the status line and four header lines each ended by CRLF, the last carrying the hash, and then an empty line, so it ends in CRLF CRLF |
| Connection.Websocket.constructor | ws.go:66 | a new connection has read and written nothing, is open, and has status 1000 |
| Connection.Websocket.Read | ws.go:70-98 | the chunked read succeeds iff enough bytes remain, and then returns exactly the next `bytesToRead` bytes and advances past them |
| Connection.Websocket.Write | ws.go:100-107 | a successful write appends the data, and a failed one leaves the output unchanged |
| Connection.Websocket.Handshake | ws.go:110-123 | writes the bytes of the joined header list around `getAcceptHash` of the key |
| Connection.Websocket.ReadLength | ws.go:145-168 | the length step succeeds iff the extended-length bytes are there; the length is the 7-bit field, or `Uint16` of the 2 or 8 bytes read |
| Connection.Websocket.ReadPayload | ws.go:171-189 | the key-and-payload step succeeds iff 4 + n bytes remain, and returns the n bytes after the key unmasked with it |
| Connection.Websocket.Recv | ws.go:126-190 | succeeds iff `DecodeFrame` of the unread stream succeeds; then returns that frame and consumes exactly its bytes. Any failed read is an error |
| Connection.Websocket.Unmask | ws.go:182-187 | the in-place XOR loop leaves the payload equal to the masked data under the key |
| Connection.Websocket.Validate | ws.go:192-237 | accepts iff `CheckFrame` accepts; a rejection latches the verdict's status, and acceptance leaves `status` unchanged |
| Connection.Websocket.Send | ws.go:241-273 | the bytes written are exactly `EncodeFrame` of the frame |
| Connection.Websocket.Close | ws.go:275-288 | writes the close frame carrying the latched status, whose last four bytes are `0x88, 0x02` and the status big-endian, and then marks the connection closed |
| Corrected.DecodeFrame | ws.go:160-167 | a decoded frame never consumes more bytes than the stream holds |
| Corrected.DecodeFrameAgrees | ws.go:150-158 | without the 127 marker the corrected decoder is `recv`'s |
| Corrected.DecodeClientFrame | ws.go:126-190 | with the full 64-bit length, every frame a client may send is decoded back exactly |
| Corrected.LongClientFrameMisread | ws.go:160-167 | as written, a client frame of 65536 to 2^48 - 1 payload bytes is decoded as an empty frame of 14 bytes; the corrected decoder returns its payload |
| Corrected.AcceptedControlFrame | ws.go:198-201 | a control frame accepted by the corrected validator is final and has at most 125 payload bytes |
| Corrected.AcceptedCloseFrame | ws.go:218-236 | a close frame accepted by the corrected validator has no body, or a legal code and a UTF-8 reason |
| Corrected.CheckFrameAgrees | ws.go:192-237 | when `Length` is the payload size, both validators give the same verdict |
| Corrected.OversizedPingAccepted | ws.go:198 | as written, a masked final ping of 256 + k payload bytes (k ≤ 125) decodes with `Length` k and is accepted; the corrected validator rejects it with 1002 |
| Corrected.HighLengthBytesZero | ws.go:160-166 | a length below 2^48 written on eight bytes has `Uint16` 0 in its first two bytes |
| Corrected.EncodeFrameAgrees | ws.go:241-273 | when `Length` is the payload size, both encoders write the same bytes |
| Corrected.EncodeFrameParses | ws.go:241-273 | a client reads back the FIN bit, the opcode and the whole payload of every corrected frame |
| Corrected.EchoRoundTrip | ws.go:126-273 | with the corrected decoder and encoder, any client frame sent back reads as the same FIN bit, opcode and payload |
| Corrected.LongEchoTruncated | ws.go:251-261 | as written, sending a frame of 256 or more payload bytes, with `Length` its size mod 256, frames only the first `Length` bytes, so a client reads a shorter payload that ends before the bytes written |

## Left out

- main.go is not part of this model. It holds the HTTP server, the route
  and `ListenAndServe`, and it calls `ws.Handshake()`, which ws.go does not
  define (ws.go only has `handshake`). The source has no frame receive or
  dispatch loop to model.
- `NewWebsocket`'s hijacking (ws.go:53-65) is `net/http` plumbing. Only
  the initial status 1000 is modelled, in the constructor.
- `getAcceptHash` (ws.go:37-43) is SHA-1 and base64 from Go's libraries.
  It is a function parameter of `Handshake`. Its GUID literal at ws.go:40
  is not the one in section 1.3 of RFC 6455. `handshake` sends the hash
  under the label `Sec-WebSocket-Key` instead of `Sec-WebSocket-Accept`.
  The model makes no claim of conformance on either point.
- Connection.Websocket.Read:
  - When the stream reaches EOF, the loop at ws.go:73-95 spins without
    end, because EOF is not treated as an error at ws.go:90. The model
    instead fails the read once the input is exhausted.
  - Transport errors are folded into that same failure.
- Connection.Websocket.Write: a write fails or succeeds as a whole, as
  `writable` decides. Short writes and the flushing of the buffered writer
  are not modelled.
- Connection.Websocket.Close: `connection.Close()` is taken to succeed.
  Its error is not modelled.
- Connection.Websocket.Validate requires that a close frame with
  `Length >= 2` holds at least two payload bytes. On any other such close
  frame that reaches ws.go:220, Go would panic at `Payload[:2]`. Every
  frame `recv` returns satisfies this (CodecLemmas.DecodedFrameCheckable).
- `send` tests `float64(frame.Length) < math.Pow(2, 16)` at ws.go:254 and
  `>=` at ws.go:262. For a byte `Length` the first always holds and the
  second never does, so the model keeps only the `<= 125` test, and the
  third branch (ws.go:262-270) is left out. As written that branch would
  also put the length into bytes 0-1 of the 8-byte field with
  `PutUint16` (ws.go:265-266) and leave bytes 2-7 zero, so the 64-bit
  value would be `Length` times 2^48. Only the corrected encoder (module
  `Corrected`) compares with 65536 and writes the 64-bit form.
- Bytes.StringBytes takes every character to be a byte, as Go strings
  here are: a character above 255 would be reduced mod 256. The result of
  `getAcceptHash` is base64 text, so its characters are ASCII, but the
  function parameter of `Handshake` does not constrain that.
- Error message texts, `fmt.Sprintf` formatting and logging are left out.
  Only whether an error occurs and which status is latched are modelled.
- The class follows the code as written. The definitions in `Corrected`
  are not wired into it.
- The state-changing methods have two-state contracts that give the new
  state through `old(...)` and the Codec functions.

## Findings

| source | as written | input that shows it | evidently intended | confidence | as-written member | corrected member |
|---|---|---|---|---|---|---|
| ws.go:166 | the 127-marker branch reads 8 length bytes and takes `Uint16` of them, so only the first two count | a masked client frame with 65536 payload bytes, whose length bytes are 00 00 00 00 00 01 00 00, is decoded as an empty frame after 14 bytes | the 64-bit big-endian value of all eight bytes (section 5.2 of RFC 6455) | not executed | Corrected.LongClientFrameMisread | Corrected.DecodeClientFrame |
| ws.go:198 | the control-frame size test uses the byte `Length`, which is the size mod 256 | a masked final ping with 261 payload bytes has `Length` 5 and is accepted | control frames of more than 125 payload bytes rejected (section 5.5 of RFC 6455) | not executed | Corrected.OversizedPingAccepted | Corrected.AcceptedControlFrame |
| ws.go:251-261 | `send` chooses the length form and the length value from the byte `Length` | echoing a 300-byte text frame as `recv` returns it (`Length` 44) writes `[0x81, 44]` and all 300 bytes, so the client reads a 44-byte payload and then takes the remaining 256 bytes as further frames | frames framed by the payload's size, with the 16-bit or 64-bit form when needed | not executed | Corrected.LongEchoTruncated | Corrected.EchoRoundTrip |
