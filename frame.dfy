/** One WebSocket frame and the classification helpers of frame.go. */
module Frames {
  import opened Bytes

  /** frame.go's `Frame`. `isFragment` is true when the FIN bit is clear;
      `rsv` holds the three reserved bits in place (`byte0 & 0x70`);
      `length` is a byte, so it holds the declared payload length
      modulo 256 (see ws.go:175). */
  datatype Frame = Frame(
    isFragment: bool,
    rsv: byte,
    opcode: byte,
    isMasked: bool,
    length: byte,
    payload: seq<byte>)

  /** The frame answering a ping: the same frame with opcode 10. */
  function Pong(frame: Frame): (r: Frame)
  {
    frame.(opcode := 10)
  }

  /** The payload as a Go string. */
  function Text(frame: Frame): (s: string)
  {
    BytesString(frame.payload)
  }

  /** Control frames have the most significant opcode bit set. */
  predicate IsControl(frame: Frame)
  {
    And(frame.opcode, 0x08) == 0x08
  }

  predicate HasReservedOpcode(frame: Frame)
  {
    frame.opcode > 10 || (frame.opcode >= 3 && frame.opcode <= 7)
  }

  /** The close code a close frame carries: `binary.Read` of a big-endian
      `uint16`, which leaves the code at 0 when fewer than two bytes exist. */
  function CloseCode(frame: Frame): (code: uint16)
  {
    if |frame.payload| < 2 then 0 else Uint16(frame.payload)
  }

  /** Pong changes the opcode to 10 and nothing else. */
  lemma PongFields(frame: Frame)
    ensures Pong(frame).opcode == 10
    ensures Pong(frame).isFragment == frame.isFragment && Pong(frame).rsv == frame.rsv
    ensures Pong(frame).isMasked == frame.isMasked && Pong(frame).length == frame.length
    ensures Pong(frame).payload == frame.payload
    ensures Pong(Pong(frame)) == Pong(frame)
  {
  }

  /** A pong is a control frame whose opcode is not reserved. */
  lemma PongIsControl(frame: Frame)
    ensures IsControl(Pong(frame)) && !HasReservedOpcode(Pong(frame))
  {
    BitThree(10);
  }

  /** For a 4-bit opcode, "control" means opcode 8 to 15. */
  lemma IsControlIff(frame: Frame)
    requires frame.opcode <= 15
    ensures IsControl(frame) <==> frame.opcode >= 8
  {
    BitThree(frame.opcode);
  }

  /** Of the sixteen 4-bit opcodes exactly 0, 1, 2, 8, 9 and 10 are defined. */
  lemma HasReservedOpcodeIff(frame: Frame)
    requires frame.opcode <= 15
    ensures !HasReservedOpcode(frame) <==> frame.opcode in {0, 1, 2, 8, 9, 10}
  {
  }

  /** Text gives back the payload's bytes, one character per byte. */
  lemma TextBytes(frame: Frame)
    ensures |Text(frame)| == |frame.payload|
    ensures StringBytes(Text(frame)) == frame.payload
  {
    BytesStringRoundTrip(frame.payload);
  }

  /** A payload that starts with `PutUint16(c)` carries the close code `c`. */
  lemma CloseCodeOfPayload(frame: Frame, c: uint16, reason: seq<byte>)
    requires frame.payload == PutUint16(c) + reason
    ensures CloseCode(frame) == c
  {
    var b := PutUint16(c);
    Uint16PutUint16(c);
    assert frame.payload[0] == b[0] && frame.payload[1] == b[1];
    assert Uint16(frame.payload) == Uint16(b);
  }

  /** A payload of fewer than two bytes carries the close code 0. */
  lemma CloseCodeShort(frame: Frame)
    requires |frame.payload| < 2
    ensures CloseCode(frame) == 0
  {
  }
}
