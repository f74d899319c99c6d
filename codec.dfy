/** The pure content of ws.go: what `recv` decodes from a byte stream, what
    `validate` decides about a frame, what `send` and `close` put on the
    wire, and the text `handshake` writes. The `Websocket` class in module
    Connection is proved against these functions. Everything here follows
    the code as written, including where it departs from RFC 6455. */
module Codec {
  import opened Bytes
  import opened Utf8
  import opened Frames
  import opened Reference

  // ---------------------------------------------------------------------
  // Close codes (ws.go:24-34)

  /** The `closeCodes` table. */
  const CloseCodes: map<int, string> := map[
    1000 := "NormalError",
    1001 := "GoingAwayError",
    1002 := "ProtocolError",
    1003 := "UnknownType",
    1007 := "TypeError",
    1008 := "PolicyError",
    1009 := "MessageTooLargeError",
    1010 := "ExtensionError",
    1011 := "UnexpectedError"
  ]

  /** Go's `closeCodes[code]`: the empty string for a missing key. */
  function CloseCodeName(code: int): string
  {
    if code in CloseCodes then CloseCodes[code] else ""
  }

  /** The close codes a peer may send: a registered code, or one of the
      range 3000 to 4999 left for libraries and applications. */
  predicate LegalCloseCode(code: uint16)
  {
    code in CloseCodes || 3000 <= code < 5000
  }

  /** Status 1002, "ProtocolError". */
  const ProtocolError: uint16 := 1002

  /** Status 1007, "TypeError" (invalid UTF-8). */
  const InvalidPayload: uint16 := 1007

  // ---------------------------------------------------------------------
  // Decoding (recv, ws.go:126-190)

  datatype Decoded = Decoded(frame: Frame, size: nat) | ReadError

  /** The 7-bit payload length field of byte 1 (`head[1] & 0x7F`). */
  function LengthField(b1: byte): (field: nat)
    ensures field < 128
  {
    And(b1, 0x7F)
  }

  /** How many extended-length bytes follow the 7-bit field. */
  function ExtendedLengthSize(field: nat): (k: nat)
    ensures k <= 8
  {
    if field == 126 then 2 else if field == 127 then 8 else 0
  }

  /** The header fields `recv` takes from the two base bytes (ws.go:134-143). */
  function DecodeHeader(b0: byte, b1: byte): (frame: Frame)
    ensures frame.length == 0 && frame.payload == []
    ensures frame.opcode < 16 && RsvOnly(frame.rsv)
  {
    RsvMask(b0);
    Frame(And(b0, 0x80) == 0x00, And(b0, 0x70), And(b0, 0x0F), And(b1, 0x80) == 0x80, 0, [])
  }

  /** The frame `recv` reads from a stream that still holds the bytes `s`,
      with the number of bytes it consumes; `ReadError` when a read runs
      past the end. The 127 marker reads eight length bytes but uses only the
      first two (ws.go:166), and `length` keeps the declared length modulo
      256 (ws.go:175). The payload is unmasked with the four key bytes. */
  function DecodeFrame(s: seq<byte>): (r: Decoded)
    ensures r.Decoded? ==> r.size <= |s|
  {
    if |s| < 2 then ReadError
    else
      var field := LengthField(s[1]);
      var ext := ExtendedLengthSize(field);
      if |s| < 2 + ext then ReadError
      else
        var payloadLength := if ext == 0 then field else Uint16(s[2..2 + ext]);
        var m := 2 + ext;
        if |s| < m + 4 then ReadError
        else if |s| < m + 4 + payloadLength then ReadError
        else
          var payload := Mask(s[m + 4..m + 4 + payloadLength], s[m..m + 4]);
          var frame := DecodeHeader(s[0], s[1]).(length := ToByte(payloadLength), payload := payload);
          Decoded(frame, m + 4 + payloadLength)
  }

  // ---------------------------------------------------------------------
  // Validation (validate, ws.go:192-237)

  datatype Verdict = Accept | Reject(status: uint16)

  /** The checks of `validate`, in their order, with the length tests applied
      to `length`: the first failing check decides the status. `validate`
      itself uses the byte field `length` (see CheckFrame); the corrected
      validator of module Corrected uses the payload's true length. */
  function Check(frame: Frame, length: nat): (v: Verdict)
    requires frame.opcode == 8 && length >= 2 ==> |frame.payload| >= 2
  {
    if !frame.isMasked then Reject(ProtocolError)
    else if IsControl(frame) && (length > 125 || frame.isFragment) then Reject(ProtocolError)
    else if HasReservedOpcode(frame) then Reject(ProtocolError)
    else if frame.rsv > 0 then Reject(ProtocolError)
    else if frame.opcode == 1 && !frame.isFragment && !IsValid(frame.payload) then Reject(InvalidPayload)
    else if frame.opcode == 8 then
      if length >= 2 then
        var code := Uint16(frame.payload[..2]);
        if code >= 5000 || (code < 3000 && CloseCodeName(code) == "") then Reject(ProtocolError)
        else if length > 2 && !IsValid(frame.payload[2..]) then Reject(InvalidPayload)
        else Accept
      else if length != 0 then Reject(ProtocolError)
      else Accept
    else Accept
  }

  /** What `validate` decides: the checks applied to the byte `Length`. Go
      slices `Payload[:2]` for a close frame with `Length >= 2`; frames
      `recv` returns always have the bytes (see DecodedFrameCheckable). */
  function CheckFrame(frame: Frame): (v: Verdict)
    requires frame.opcode == 8 && frame.length >= 2 ==> |frame.payload| >= 2
  {
    Check(frame, frame.length)
  }

  // ---------------------------------------------------------------------
  // Encoding (send, ws.go:241-273; close, ws.go:275-288)

  /** The bytes `send` writes: FIN set unless `isFragment`, the opcode, no
      mask bit and no key, the byte `length` directly when at most 125 and
      otherwise after the 126 marker as a 16-bit big-endian value, then the
      whole payload. The third branch (the 127 marker, ws.go:262-270) needs
      `Length >= 65536`, which a byte never is. */
  function EncodeFrame(frame: Frame): (s: seq<byte>)
  {
    var b0 := SendFirstByte(frame.isFragment, frame.opcode);
    if frame.length <= 125 then [b0, frame.length] + frame.payload
    else [b0, 126] + PutUint16(frame.length) + frame.payload
  }

  /** The frame `close` sends: opcode 8, `Length` 2 and the status as two
      big-endian bytes. */
  function CloseFrame(status: uint16): (s: seq<byte>)
  {
    EncodeFrame(Frame(false, 0, 8, false, 2, PutUint16(status)))
  }

  // ---------------------------------------------------------------------
  // Handshake (handshake, ws.go:110-123)

  /** The header lines of the 101 response around the accept hash. */
  function HandshakeLines(hash: string): (lines: seq<string>)
  {
    [ "HTTP/1.1 101 Web Socket Protocol Handshake",
      "Server: go/testserver",
      "Upgrade: websocket",
      "Connection: Upgrade",
      "Sec-WebSocket-Key: " + hash,
      "",
      "" ]
  }

  /** Go's `strings.Join`. */
  function Join(parts: seq<string>, sep: string): (s: string)
  {
    if parts == [] then ""
    else if |parts| == 1 then parts[0]
    else parts[0] + sep + Join(parts[1..], sep)
  }

  /** The text `handshake` writes. */
  function HandshakeResponse(hash: string): (s: string)
  {
    Join(HandshakeLines(hash), "\r\n")
  }
}
