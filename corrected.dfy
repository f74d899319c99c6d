/** The three places where ws.go departs from RFC 6455, each shown on the
    code as written (module Codec) and paired with the definition the code
    evidently intends, for which the intended property is proved:

    - `recv` reads the 64-bit extended length but keeps only its first two
      bytes (ws.go:166);
    - `validate` tests the byte `Length`, the declared length modulo 256,
      instead of the payload's length (ws.go:198, 219, 227, 232);
    - `send` frames the payload by the byte `Length` (ws.go:251-270). */
module Corrected {
  import opened Bytes
  import opened Utf8
  import opened Frames
  import opened Reference
  import Codec
  import CodecLemmas

  // ---------------------------------------------------------------------
  // Decoding with the whole 64-bit length

  /** `recv` reading all eight bytes of a 64-bit length (section 5.2 of
      RFC 6455); the 16-bit case is unchanged. */
  function DecodeFrame(s: seq<byte>): (r: Codec.Decoded)
    ensures r.Decoded? ==> r.size <= |s|
  {
    if |s| < 2 then Codec.ReadError
    else
      var field := Codec.LengthField(s[1]);
      var ext := Codec.ExtendedLengthSize(field);
      if |s| < 2 + ext then Codec.ReadError
      else
        var payloadLength := if ext == 0 then field else BigEndian(s[2..2 + ext]);
        var m := 2 + ext;
        if |s| < m + 4 + payloadLength then Codec.ReadError
        else
          var payload := Mask(s[m + 4..m + 4 + payloadLength], s[m..m + 4]);
          var frame := Codec.DecodeHeader(s[0], s[1]).(length := ToByte(payloadLength), payload := payload);
          Codec.Decoded(frame, m + 4 + payloadLength)
  }

  /** `DecodeFrame` once the length form and the declared length are known. */
  lemma DecodeFrameAt(s: seq<byte>, ext: nat, n: nat)
    requires |s| >= 2 && Codec.ExtendedLengthSize(Codec.LengthField(s[1])) == ext
    requires ext == 0 ==> Codec.LengthField(s[1]) == n
    requires ext > 0 ==> |s| >= 2 + ext && BigEndian(s[2..2 + ext]) == n
    requires |s| >= 2 + ext + 4 + n
    ensures DecodeFrame(s) == Codec.Decoded(
      Codec.DecodeHeader(s[0], s[1]).(length := ToByte(n), payload := Mask(s[2 + ext + 4..2 + ext + 4 + n], s[2 + ext..2 + ext + 4])),
      2 + ext + 4 + n)
  {
  }

  /** Without the 127 marker the corrected decoder is `recv`'s decoder. */
  lemma DecodeFrameAgrees(s: seq<byte>)
    requires |s| < 2 || Codec.LengthField(s[1]) != 127
    ensures DecodeFrame(s) == Codec.DecodeFrame(s)
  {
    if |s| >= 4 && Codec.LengthField(s[1]) == 126 {
      Uint16BigEndian(s[2..4]);
    }
  }

  /** The corrected decoder reads back every frame a client may send:
      the client's frame, marked as masked, and exactly its bytes. */
  lemma DecodeClientFrame(frame: Frame, key: seq<byte>, rest: seq<byte>)
    requires frame.opcode < 16 && RsvOnly(frame.rsv)
    requires |key| == 4 && |frame.payload| < MaxPayload
    ensures DecodeFrame(ClientFrame(frame, key) + rest)
         == Codec.Decoded(frame.(isMasked := true, length := ToByte(|frame.payload|)),
                          |ClientFrame(frame, key)|)
  {
    var n := |frame.payload|;
    Pow256Values();
    if n < 0x1_0000 {
      ClientMarker(frame, key);
      var s := ClientFrame(frame, key) + rest;
      assert s[1] == ClientFrame(frame, key)[1];
      DecodeFrameAgrees(s);
      CodecLemmas.DecodeClientFrame(frame, key, rest);
    } else {
      ClientFrameLayout(frame, key);
      var c := ClientFrame(frame, key);
      var s := c + rest;
      assert s[..|c|] == c;
      DecodeLongClientFrame(frame, key, s);
    }
  }

  /** A client frame shorter than 65536 payload bytes does not use the 127 marker. */
  lemma ClientMarker(frame: Frame, key: seq<byte>)
    requires frame.opcode < 16 && RsvOnly(frame.rsv)
    requires |key| == 4 && |frame.payload| < 0x1_0000
    ensures |ClientFrame(frame, key)| >= 2 && Codec.LengthField(ClientFrame(frame, key)[1]) != 127
  {
    ClientFrameLayout(frame, key);
    var n := |frame.payload|;
    if n <= 125 {
      HighBit(n);
    } else {
      HighBit(126);
    }
  }

  lemma DecodeLongClientFrame(frame: Frame, key: seq<byte>, s: seq<byte>)
    requires frame.opcode < 16 && RsvOnly(frame.rsv)
    requires |key| == 4 && 0x1_0000 <= |frame.payload| < MaxPayload
    requires var n := |frame.payload|;
      Pow256(8) == 0x1_0000_0000_0000_0000 && |s| >= 14 + n &&
      s[..14 + n] == [ClientFirstByte(frame), 0x80 + 127] + ToBigEndian(n, 8) + key + Mask(frame.payload, key)
    ensures DecodeFrame(s) == Codec.Decoded(frame.(isMasked := true, length := ToByte(|frame.payload|)), 14 + |frame.payload|)
  {
    var n := |frame.payload|;
    var len := ToBigEndian(n, 8);
    CodecLemmas.ClientLayout(frame, key, 0x80 + 127, len, s);
    HighBit(127);
    LongClientHeader(frame, key, s);
  }

  /** The corrected decoder on a frame laid out with the 127 marker. */
  lemma LongClientHeader(frame: Frame, key: seq<byte>, s: seq<byte>)
    requires frame.opcode < 16 && RsvOnly(frame.rsv) && |key| == 4
    requires var n := |frame.payload|;
      && |s| >= 14 + n
      && s[0] == ClientFirstByte(frame) && And(s[1], 0x80) == 0x80 && Codec.LengthField(s[1]) == 127
      && BigEndian(s[2..10]) == n
      && s[10..14] == key && s[14..14 + n] == Mask(frame.payload, key)
    ensures DecodeFrame(s) == Codec.Decoded(frame.(isMasked := true, length := ToByte(|frame.payload|)), 14 + |frame.payload|)
  {
    CodecLemmas.ClientHeader(frame, s[1]);
    MaskInvolution(frame.payload, key);
    DecodeFrameAt(s, 8, |frame.payload|);
  }

  /** As written: a client frame of 65536 to 2^48 - 1 payload bytes carries
      its length in 64 bits whose first two bytes are zero, so `recv` takes
      the length to be 0 and returns an empty frame after 14 bytes; the
      payload is left in the stream to be read as frames. */
  lemma LongClientFrameMisread(frame: Frame, key: seq<byte>, rest: seq<byte>)
    requires frame.opcode < 16 && RsvOnly(frame.rsv)
    requires |key| == 4 && 0x1_0000 <= |frame.payload| < 0x1_0000_0000_0000
    ensures Codec.DecodeFrame(ClientFrame(frame, key) + rest)
         == Codec.Decoded(frame.(isMasked := true, length := 0, payload := []), 14)
    ensures DecodeFrame(ClientFrame(frame, key) + rest).Decoded?
    ensures DecodeFrame(ClientFrame(frame, key) + rest).frame.payload == frame.payload
  {
    Pow256Values();
    ClientFrameLayout(frame, key);
    DecodeClientFrame(frame, key, rest);
    var c := ClientFrame(frame, key);
    var s := c + rest;
    var n := |frame.payload|;
    assert s[..|c|] == c;
    assert |c| == 14 + n;
    MisreadLongLength(frame, key, s);
  }

  lemma MisreadLongLength(frame: Frame, key: seq<byte>, s: seq<byte>)
    requires frame.opcode < 16 && RsvOnly(frame.rsv)
    requires |key| == 4 && 0x1_0000 <= |frame.payload| < 0x1_0000_0000_0000
    requires var n := |frame.payload|;
      Pow256(6) == 0x1_0000_0000_0000 && Pow256(8) == 0x1_0000_0000_0000_0000 && |s| >= 14 + n &&
      s[..14 + n] == [ClientFirstByte(frame), 0x80 + 127] + ToBigEndian(n, 8) + key + Mask(frame.payload, key)
    ensures Codec.DecodeFrame(s) == Codec.Decoded(frame.(isMasked := true, length := 0, payload := []), 14)
  {
    var n := |frame.payload|;
    var len := ToBigEndian(n, 8);
    HighLengthBytesZero(n);
    CodecLemmas.ClientLayout(frame, key, 0x80 + 127, len, s);
    HighBit(127);
    CodecLemmas.ClientHeader(frame, s[1]);
    CodecLemmas.DecodeFrameAt(s, 8, 0);
  }

  /** A length below 2^48 written on eight bytes starts with two zero bytes. */
  lemma HighLengthBytesZero(n: nat)
    requires n < 0x1_0000_0000_0000
    ensures Pow256(8) == 0x1_0000_0000_0000_0000
    ensures Uint16(ToBigEndian(n, 8)) == 0
  {
    Pow256Values();
    var len := ToBigEndian(n, 8);
    BigEndianHighBytes(len);
    var p := Pow256(6);
    assert Uint16(len) * p < p;
  }

  // ---------------------------------------------------------------------
  // Validation by the payload's length

  /** `validate` with its length tests applied to the payload's length. */
  function CheckFrame(frame: Frame): (v: Codec.Verdict)
  {
    Codec.Check(frame, |frame.payload|)
  }

  /** An accepted control frame is final and carries at most 125 bytes
      (section 5.5 of RFC 6455). */
  lemma AcceptedControlFrame(frame: Frame)
    requires IsControl(frame) && CheckFrame(frame) == Codec.Accept
    ensures !frame.isFragment && |frame.payload| <= 125
  {
  }

  /** An accepted close frame has no body, or a legal code and then a
      well-formed reason. */
  lemma AcceptedCloseFrame(frame: Frame)
    requires frame.opcode == 8 && CheckFrame(frame) == Codec.Accept
    ensures |frame.payload| != 1
    ensures |frame.payload| >= 2 ==> Codec.LegalCloseCode(Uint16(frame.payload)) && IsValid(frame.payload[2..])
  {
    if |frame.payload| >= 2 {
      CodecLemmas.CloseCodeTest(Uint16(frame.payload[..2]));
      assert frame.payload[..2][0] == frame.payload[0] && frame.payload[..2][1] == frame.payload[1];
      if |frame.payload| == 2 {
        assert frame.payload[2..] == [];
      }
    }
  }

  /** When `length` is the payload's length, both validators agree; this
      holds for every frame `recv` decodes with fewer than 256 payload bytes. */
  lemma CheckFrameAgrees(frame: Frame)
    requires frame.length == |frame.payload|
    ensures CheckFrame(frame) == Codec.CheckFrame(frame)
  {
  }

  /** As written: a masked final ping whose payload has 256 + k bytes
      (k <= 125) decodes with `length` k, and `validate` accepts it; the
      corrected validator rejects it with 1002. */
  lemma OversizedPingAccepted(payload: seq<byte>, key: seq<byte>, rest: seq<byte>)
    requires |key| == 4 && 256 <= |payload| < 0x1_0000 && |payload| % 256 <= 125
    ensures Codec.DecodeFrame(ClientFrame(Frame(false, 0, 9, false, 0, payload), key) + rest).Decoded?
    ensures var f := Codec.DecodeFrame(ClientFrame(Frame(false, 0, 9, false, 0, payload), key) + rest).frame;
      && f.opcode == 9 && !f.isFragment && f.isMasked && f.payload == payload
      && Codec.CheckFrame(f) == Codec.Accept
      && CheckFrame(f) == Codec.Reject(Codec.ProtocolError)
  {
    var frame := Frame(false, 0, 9, false, 0, payload);
    CodecLemmas.DecodeClientFrame(frame, key, rest);
    PingVerdicts(frame.(isMasked := true, length := ToByte(|payload|)));
  }

  lemma PingVerdicts(f: Frame)
    requires f == Frame(false, 0, 9, true, f.length, f.payload)
    requires 256 <= |f.payload| && f.length == |f.payload| % 256 <= 125
    ensures Codec.CheckFrame(f) == Codec.Accept
    ensures CheckFrame(f) == Codec.Reject(Codec.ProtocolError)
  {
    IsControlIff(f);
    assert IsControl(f) && !HasReservedOpcode(f);
  }

  // ---------------------------------------------------------------------
  // Encoding by the payload's length

  /** `send` framing the payload by its length, with the shortest of the
      three length forms (section 5.2 of RFC 6455): the size itself, the
      marker 126 and the size in 16 bits, or the marker 127 and the size in
      64 bits. */
  function EncodeFrame(frame: Frame): (s: seq<byte>)
    requires |frame.payload| < MaxPayload
  {
    var n := |frame.payload|;
    var b0 := SendFirstByte(frame.isFragment, frame.opcode);
    if n <= 125 then [b0, n] + frame.payload
    else if n < 0x1_0000 then [b0, 126] + PutUint16(n) + frame.payload
    else [b0, 127] + PutUint64(n) + frame.payload
  }

  /** When `length` is the payload's length, both encoders write the same bytes. */
  lemma EncodeFrameAgrees(frame: Frame)
    requires frame.length == |frame.payload|
    ensures EncodeFrame(frame) == Codec.EncodeFrame(frame)
  {
  }

  /** A client reads back the FIN bit, the opcode and the whole payload of
      every frame the corrected encoder writes. */
  lemma EncodeFrameParses(frame: Frame, rest: seq<byte>)
    requires frame.opcode < 16 && |frame.payload| < MaxPayload
    ensures ParseServerFrame(EncodeFrame(frame) + rest)
         == Some(Parsed(!frame.isFragment, 0, frame.opcode, frame.payload, |EncodeFrame(frame)|))
  {
    if |frame.payload| < 256 {
      ParseShortFrame(frame, rest);
    } else {
      ParseLongFrame(frame, rest);
    }
  }

  lemma ParseShortFrame(frame: Frame, rest: seq<byte>)
    requires frame.opcode < 16 && |frame.payload| < 256
    ensures ParseServerFrame(EncodeFrame(frame) + rest)
         == Some(Parsed(!frame.isFragment, 0, frame.opcode, frame.payload, |EncodeFrame(frame)|))
  {
    var f := frame.(length := ToByte(|frame.payload|));
    assert f.payload == frame.payload && f.isFragment == frame.isFragment && f.opcode == frame.opcode;
    assert EncodeFrame(f) == EncodeFrame(frame);
    EncodeFrameAgrees(f);
    CodecLemmas.EncodeFrameParses(f, rest);
  }

  lemma ParseLongFrame(frame: Frame, rest: seq<byte>)
    requires frame.opcode < 16 && 256 <= |frame.payload| < MaxPayload
    ensures ParseServerFrame(EncodeFrame(frame) + rest)
         == Some(Parsed(!frame.isFragment, 0, frame.opcode, frame.payload, |EncodeFrame(frame)|))
  {
    SendFirstByteFields(frame.isFragment, frame.opcode);
    var n := |frame.payload|;
    var e := EncodeFrame(frame);
    var s := e + rest;
    assert s[..|e|] == e;
    assert e[0] == SendFirstByte(frame.isFragment, frame.opcode);
    if n < 0x1_0000 {
      var len := PutUint16(n);
      Uint16PutUint16(n);
      Uint16BigEndian(len);
      assert e == [e[0], 126] + len + frame.payload;
      assert e[2..4] == len && e[4..] == frame.payload;
      ParseLongEncoding(frame, e, s, 2);
    } else {
      var len := PutUint64(n);
      assert e == [e[0], 127] + len + frame.payload;
      assert e[2..10] == len && e[10..] == frame.payload;
      ParseLongEncoding(frame, e, s, 8);
    }
  }

  lemma ParseLongEncoding(frame: Frame, e: seq<byte>, s: seq<byte>, ext: nat)
    requires ext == 2 || ext == 8
    requires |e| == 2 + ext + |frame.payload|
    requires e[1] == (if ext == 2 then 126 else 127)
    requires BigEndian(e[2..2 + ext]) == |frame.payload| && e[2 + ext..] == frame.payload
    requires |s| >= |e| && s[..|e|] == e
    ensures ParseServerFrame(s) == Some(Parsed(And(e[0], 0x80) == 0x80, And(e[0], 0x70), And(e[0], 0x0F), frame.payload, |e|))
  {
    var n := |frame.payload|;
    assert s[0] == e[0] && s[1] == e[1];
    SevenBits(e[1]);
    assert s[2..2 + ext] == s[..|e|][2..2 + ext] == e[2..2 + ext];
    assert s[2 + ext..2 + ext + n] == s[..|e|][2 + ext..] == e[2 + ext..];
    ParseServerFrameAt(s, ext, n);
  }

  /** Echo with the corrected decoder and encoder: whatever a client sends
      comes back with the same FIN bit, opcode and payload. */
  lemma EchoRoundTrip(frame: Frame, key: seq<byte>, rest: seq<byte>)
    requires frame.opcode < 16 && RsvOnly(frame.rsv)
    requires |key| == 4 && |frame.payload| < MaxPayload
    ensures DecodeFrame(ClientFrame(frame, key) + rest).Decoded?
    ensures var f := DecodeFrame(ClientFrame(frame, key) + rest).frame;
      && |f.payload| < MaxPayload
      && ParseServerFrame(EncodeFrame(f)) == Some(Parsed(!frame.isFragment, 0, frame.opcode, frame.payload, |EncodeFrame(f)|))
  {
    DecodeClientFrame(frame, key, rest);
    var f := DecodeFrame(ClientFrame(frame, key) + rest).frame;
    EncodeFrameParses(f, []);
    assert EncodeFrame(f) + [] == EncodeFrame(f);
  }

  /** As written: a frame whose payload has 256 or more bytes and whose
      `length` is that size modulo 256, as `recv` leaves it, is framed by
      `send` as only its first `length` bytes; a client reads a shorter
      payload and the rest of the bytes as further frames. */
  lemma LongEchoTruncated(frame: Frame)
    requires frame.opcode < 16 && |frame.payload| >= 256
    requires frame.length == |frame.payload| % 256
    ensures var e := Codec.EncodeFrame(frame);
      && ParseServerFrame(e).Some?
      && ParseServerFrame(e).value.payload == frame.payload[..frame.length]
      && ParseServerFrame(e).value.payload != frame.payload
      && ParseServerFrame(e).value.size < |e|
  {
    var e := Codec.EncodeFrame(frame);
    var n := frame.length;
    var b0 := SendFirstByte(frame.isFragment, frame.opcode);
    if frame.length <= 125 {
      assert e == [b0, frame.length] + frame.payload;
      SevenBits(frame.length);
      ParseTruncated(e, frame.payload, 0, n);
    } else {
      var len := PutUint16(n);
      assert e == [b0, 126] + len + frame.payload;
      Uint16PutUint16(n);
      Uint16BigEndian(len);
      assert e[2..4] == len;
      SevenBits(126);
      ParseTruncated(e, frame.payload, 2, n);
    }
  }

  lemma ParseTruncated(e: seq<byte>, payload: seq<byte>, ext: nat, n: nat)
    requires ext == 0 || ext == 2
    requires n < |payload| && |e| >= 2 + ext && e[2 + ext..] == payload && And(e[1], 0x80) == 0
    requires ext == 0 ==> And(e[1], 0x7F) < 126 && And(e[1], 0x7F) == n
    requires ext == 2 ==> And(e[1], 0x7F) == 126 && BigEndian(e[2..4]) == n
    ensures ParseServerFrame(e).Some?
    ensures ParseServerFrame(e).value.payload == payload[..n]
    ensures ParseServerFrame(e).value.size < |e|
  {
    assert e[2 + ext..2 + ext + n] == payload[..n];
    ParseServerFrameAt(e, ext, n);
  }
}
