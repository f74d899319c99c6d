/** Properties of the ws.go functions of module Codec. */
module CodecLemmas {
  import opened Bytes
  import opened Utf8
  import opened Frames
  import opened Reference
  import opened Codec

  // ---------------------------------------------------------------------
  // Decoding

  /** `DecodeFrame` once the length field, the extended length and the
      declared length `n` are known and the stream holds all the bytes. */
  lemma DecodeFrameAt(s: seq<byte>, ext: nat, n: nat)
    requires |s| >= 2 && ExtendedLengthSize(LengthField(s[1])) == ext
    requires ext == 0 ==> LengthField(s[1]) == n
    requires ext > 0 ==> |s| >= 2 + ext && Uint16(s[2..2 + ext]) == n
    requires |s| >= 2 + ext + 4 + n
    ensures DecodeFrame(s) == Decoded(
      DecodeHeader(s[0], s[1]).(length := ToByte(n), payload := Mask(s[2 + ext + 4..2 + ext + 4 + n], s[2 + ext..2 + ext + 4])),
      2 + ext + 4 + n)
  {
  }

  /** `DecodeFrame` is a read error when the stream ends before the
      extended length (`|s| < 2 + ext`), or before the end of the payload
      whose declared length is `n`. */
  lemma DecodeFrameFails(s: seq<byte>, ext: nat, n: nat)
    requires |s| < 2 || ExtendedLengthSize(LengthField(s[1])) == ext
    requires || |s| < 2 + ext
             || (&& (ext == 0 ==> LengthField(s[1]) == n)
                 && (ext > 0 ==> Uint16(s[2..2 + ext]) == n)
                 && |s| < 2 + ext + 4 + n)
    ensures DecodeFrame(s) == ReadError
  {
  }

  /** Decoding what a client sends gives back the client's frame, marked as
      masked, with `length` the payload length modulo 256, and consumes
      exactly the client's bytes, for every payload shorter than 65536 bytes. */
  lemma DecodeClientFrame(frame: Frame, key: seq<byte>, rest: seq<byte>)
    requires frame.opcode < 16 && RsvOnly(frame.rsv)
    requires |key| == 4 && |frame.payload| < 0x1_0000
    ensures DecodeFrame(ClientFrame(frame, key) + rest)
         == Decoded(frame.(isMasked := true, length := ToByte(|frame.payload|)),
                    |ClientFrame(frame, key)|)
  {
    ClientFrameLayout(frame, key);
    var c := ClientFrame(frame, key);
    var s := c + rest;
    assert s[..|c|] == c;
    var n := |frame.payload|;
    if n <= 125 {
      assert |c| == 6 + n;
      HighBit(n);
      DecodeShortClientFrame(frame, key, 0x80 + n, s);
    } else {
      Pow256Values();
      assert |c| == 8 + n;
      DecodeMediumClientFrame(frame, key, s);
    }
  }

  lemma DecodeShortClientFrame(frame: Frame, key: seq<byte>, b1: byte, s: seq<byte>)
    requires frame.opcode < 16 && RsvOnly(frame.rsv)
    requires |key| == 4 && |frame.payload| <= 125
    requires And(b1, 0x80) == 0x80 && LengthField(b1) == |frame.payload|
    requires var n := |frame.payload|;
      |s| >= 6 + n && s[..6 + n] == [ClientFirstByte(frame), b1] + key + Mask(frame.payload, key)
    ensures DecodeFrame(s) == Decoded(frame.(isMasked := true, length := ToByte(|frame.payload|)), 6 + |frame.payload|)
  {
    ClientLayout(frame, key, b1, [], s);
    DecodeAsClient(frame, key, 0, s);
  }

  lemma DecodeMediumClientFrame(frame: Frame, key: seq<byte>, s: seq<byte>)
    requires frame.opcode < 16 && RsvOnly(frame.rsv)
    requires |key| == 4 && 125 < |frame.payload| < 0x1_0000
    requires var n := |frame.payload|;
      Pow256(2) == 0x1_0000 && |s| >= 8 + n &&
      s[..8 + n] == [ClientFirstByte(frame), 0x80 + 126] + ToBigEndian(n, 2) + key + Mask(frame.payload, key)
    ensures DecodeFrame(s) == Decoded(frame.(isMasked := true, length := ToByte(|frame.payload|)), 8 + |frame.payload|)
  {
    var len := ToBigEndian(|frame.payload|, 2);
    ClientLayout(frame, key, 0x80 + 126, len, s);
    Uint16BigEndian(len);
    HighBit(126);
    DecodeAsClient(frame, key, 2, s);
  }

  /** The bytes of a client frame, each at its place in the stream `s`. */
  lemma ClientLayout(frame: Frame, key: seq<byte>, b1: byte, len: seq<byte>, s: seq<byte>)
    requires |key| == 4
    requires var m := 2 + |len| + 4 + |frame.payload|;
      |s| >= m && s[..m] == [ClientFirstByte(frame), b1] + len + key + Mask(frame.payload, key)
    ensures var k := 2 + |len|;
      && s[0] == ClientFirstByte(frame) && s[1] == b1 && s[2..k] == len
      && s[k..k + 4] == key && s[k + 4..k + 4 + |frame.payload|] == Mask(frame.payload, key)
  {
    var head := [ClientFirstByte(frame), b1] + len;
    SplitFrame(s, head, key, Mask(frame.payload, key));
    assert s[0] == head[0] && s[1] == head[1];
    assert s[2..2 + |len|] == s[..2 + |len|][2..] == head[2..] == len;
  }

  /** `recv` reads back a client's frame from bytes laid out as the client
      sends them, with `ext` extended-length bytes. */
  lemma DecodeAsClient(frame: Frame, key: seq<byte>, ext: nat, s: seq<byte>)
    requires frame.opcode < 16 && RsvOnly(frame.rsv) && |key| == 4
    requires var n := |frame.payload|;
      && |s| >= 2 + ext + 4 + n
      && s[0] == ClientFirstByte(frame) && And(s[1], 0x80) == 0x80
      && ExtendedLengthSize(LengthField(s[1])) == ext
      && (ext == 0 ==> LengthField(s[1]) == n)
      && (ext > 0 ==> Uint16(s[2..2 + ext]) == n)
      && s[2 + ext..2 + ext + 4] == key && s[2 + ext + 4..2 + ext + 4 + n] == Mask(frame.payload, key)
    ensures DecodeFrame(s) == Decoded(frame.(isMasked := true, length := ToByte(|frame.payload|)), 2 + ext + 4 + |frame.payload|)
  {
    ClientHeader(frame, s[1]);
    MaskInvolution(frame.payload, key);
    DecodeFrameAt(s, ext, |frame.payload|);
  }

  /** A stream that starts with a header, a key and a payload holds each at its place. */
  lemma SplitFrame(s: seq<byte>, head: seq<byte>, key: seq<byte>, payload: seq<byte>)
    requires |key| == 4
    requires var m := |head| + 4 + |payload|; |s| >= m && s[..m] == head + key + payload
    ensures s[..|head|] == head
    ensures s[|head|..|head| + 4] == key
    ensures s[|head| + 4..|head| + 4 + |payload|] == payload
  {
    var m := |head| + 4 + |payload|;
    var c := head + key + payload;
    assert s[..|head|] == c[..|head|];
    assert s[|head|..|head| + 4] == c[|head|..|head| + 4];
    assert s[|head| + 4..m] == c[|head| + 4..m];
  }

  /** The header `recv` reads from a client's first byte and a second byte
      with the mask bit set. */
  lemma ClientHeader(frame: Frame, b1: byte)
    requires frame.opcode < 16 && RsvOnly(frame.rsv) && And(b1, 0x80) == 0x80
    ensures DecodeHeader(ClientFirstByte(frame), b1) == frame.(isMasked := true, length := 0, payload := [])
  {
    FirstByte(frame);
  }

  /** The declared payload length: the 7-bit field below 126; after the 126
      marker the next two bytes big-endian; after the 127 marker the first
      two of the next eight bytes. `recv` then reads four key bytes and that
      many payload bytes, fails exactly when the stream runs out first, and
      unmasks byte `i` with key byte `i mod 4`. */
  lemma DecodeFrameLength(s: seq<byte>)
    requires |s| >= 2
    requires And(s[1], 0x7F) == 126 ==> |s| >= 4
    requires And(s[1], 0x7F) == 127 ==> |s| >= 10
    ensures var field := And(s[1], 0x7F);
      var ext := if field == 126 then 2 else if field == 127 then 8 else 0;
      var n := if field < 126 then field else s[2] as int * 256 + s[3] as int;
      && (DecodeFrame(s).Decoded? <==> |s| >= 2 + ext + 4 + n)
      && (DecodeFrame(s).Decoded? ==>
            && DecodeFrame(s).size == 2 + ext + 4 + n
            && |DecodeFrame(s).frame.payload| == n
            && DecodeFrame(s).frame.length == n % 256
            && forall i :: 0 <= i < n ==>
                 DecodeFrame(s).frame.payload[i] == Xor(s[2 + ext + 4 + i], s[2 + ext + i % 4]))
  {
    var field := LengthField(s[1]);
    var ext := ExtendedLengthSize(field);
    var n := if field < 126 then field else s[2] as int * 256 + s[3] as int;
    if ext > 0 {
      assert s[2..2 + ext][0] == s[2] && s[2..2 + ext][1] == s[3];
      assert Uint16(s[2..2 + ext]) == n;
    }
    if |s| >= 2 + ext + 4 + n {
      DecodedFrameFields(s, ext, n);
    } else {
      DecodeFrameFails(s, ext, n);
    }
  }

  /** `DecodeFrameLength` for a stream that holds the whole frame. */
  lemma DecodedFrameFields(s: seq<byte>, ext: nat, n: nat)
    requires |s| >= 2 && ExtendedLengthSize(LengthField(s[1])) == ext
    requires ext == 0 ==> LengthField(s[1]) == n
    requires ext > 0 ==> |s| >= 2 + ext && Uint16(s[2..2 + ext]) == n
    requires |s| >= 2 + ext + 4 + n
    ensures var d := DecodeFrame(s);
      && d.Decoded?
      && d.size == 2 + ext + 4 + n
      && |d.frame.payload| == n
      && d.frame.length == n % 256
      && forall i :: 0 <= i < n ==> d.frame.payload[i] == Xor(s[2 + ext + 4 + i], s[2 + ext + i % 4])
  {
    DecodeFrameAt(s, ext, n);
    MaskedPayload(s, 2 + ext, n);
    var payload := Mask(s[2 + ext + 4..2 + ext + 4 + n], s[2 + ext..2 + ext + 4]);
    var frame := DecodeHeader(s[0], s[1]).(length := ToByte(n), payload := payload);
    assert DecodeFrame(s) == Decoded(frame, 2 + ext + 4 + n);
    assert frame.length == n % 256;
    assert |frame.payload| == n;
  }

  /** The payload unmasked from the `n` bytes after the four key bytes at `k`. */
  lemma MaskedPayload(s: seq<byte>, k: nat, n: nat)
    requires |s| >= k + 4 + n
    ensures forall i :: 0 <= i < n ==> Mask(s[k + 4..k + 4 + n], s[k..k + 4])[i] == Xor(s[k + 4 + i], s[k + i % 4])
  {
    forall i | 0 <= i < n
      ensures Mask(s[k + 4..k + 4 + n], s[k..k + 4])[i] == Xor(s[k + 4 + i], s[k + i % 4])
    {
      assert s[k + 4..k + 4 + n][i] == s[k + 4 + i];
      assert s[k..k + 4][i % 4] == s[k + i % 4];
    }
  }

  /** A stream too short for the base header or the extended length makes
      `recv` fail. */
  lemma DecodeFrameShortHeader(s: seq<byte>)
    requires || |s| < 2
             || (And(s[1], 0x7F) == 126 && |s| < 4)
             || (And(s[1], 0x7F) == 127 && |s| < 10)
    ensures DecodeFrame(s) == ReadError
  {
  }

  /** `recv` reads exactly the bytes of one frame: what follows them never
      changes the result. */
  lemma DecodeFramePrefix(s: seq<byte>, t: seq<byte>)
    requires DecodeFrame(s).Decoded?
    ensures DecodeFrame(s[..DecodeFrame(s).size] + t) == DecodeFrame(s)
  {
    var size := DecodeFrame(s).size;
    var u := s[..size] + t;
    SamePrefix(s, t, size);
    var ext := ExtendedLengthSize(LengthField(s[1]));
    var n := if ext == 0 then LengthField(s[1]) else Uint16(s[2..2 + ext]);
    assert u[1] == s[1];
    if ext > 0 {
      assert u[2..2 + ext] == s[2..2 + ext];
    }
    DecodeFrameAt(s, ext, n);
    assert size == 2 + ext + 4 + n;
    assert u[2 + ext..2 + ext + 4] == s[2 + ext..2 + ext + 4];
    assert u[2 + ext + 4..2 + ext + 4 + n] == s[2 + ext + 4..2 + ext + 4 + n];
    DecodeFrameAt(u, ext, n);
  }

  /** Cutting `s` after `size` bytes and appending `t` keeps the first `size` bytes. */
  lemma SamePrefix(s: seq<byte>, t: seq<byte>, size: nat)
    requires size <= |s|
    ensures |s[..size] + t| >= size
    ensures forall i, j :: 0 <= i <= j <= size ==> (s[..size] + t)[i..j] == s[i..j]
    ensures forall i :: 0 <= i < size ==> (s[..size] + t)[i] == s[i]
  {
    var u := s[..size] + t;
    forall i, j | 0 <= i <= j <= size
      ensures u[i..j] == s[i..j]
    {
      assert u[i..j] == s[..size][i..j];
    }
  }

  /** A decoded frame has `length == |payload| mod 256`, so whenever
      `length >= 2` the payload holds the two close-code bytes. */
  lemma DecodedFrameCheckable(s: seq<byte>)
    requires DecodeFrame(s).Decoded?
    ensures DecodeFrame(s).frame.length == |DecodeFrame(s).frame.payload| % 256
    ensures DecodeFrame(s).frame.length <= |DecodeFrame(s).frame.payload|
    ensures DecodeFrame(s).frame.opcode < 16 && RsvOnly(DecodeFrame(s).frame.rsv)
  {
    var n := |DecodeFrame(s).frame.payload|;
    assert n % 256 <= n;
  }

  // ---------------------------------------------------------------------
  // Validation

  /** The test of ws.go:222 rejects exactly the codes that are neither
      registered nor in 3000 to 4999. */
  lemma CloseCodeTest(code: uint16)
    ensures (code >= 5000 || (code < 3000 && CloseCodeName(code) == "")) <==> !LegalCloseCode(code)
    ensures LegalCloseCode(code) <==>
      code in {1000, 1001, 1002, 1003, 1007, 1008, 1009, 1010, 1011} || 3000 <= code < 5000
  {
    if code in CloseCodes {
      assert CloseCodes[code] != "";
    }
  }

  /** The frames `validate` accepts, rule by rule: masked; a control frame
      neither longer than 125 (by the byte `length`) nor fragmented; no
      reserved opcode; no RSV bit; final text frames well-formed UTF-8; a
      close frame with no payload, or a legal close code and, when more
      bytes follow, a well-formed reason. */
  lemma CheckFrameAcceptIff(frame: Frame)
    requires frame.opcode == 8 && frame.length >= 2 ==> |frame.payload| >= 2
    ensures CheckFrame(frame) == Accept <==>
      && frame.isMasked
      && !(IsControl(frame) && (frame.length > 125 || frame.isFragment))
      && !HasReservedOpcode(frame)
      && frame.rsv == 0
      && (frame.opcode == 1 && !frame.isFragment ==> IsValid(frame.payload))
      && (frame.opcode == 8 ==>
            && frame.length != 1
            && (frame.length >= 2 ==>
                  && LegalCloseCode(CloseCode(frame))
                  && (frame.length > 2 ==> IsValid(frame.payload[2..]))))
  {
    var p := frame.payload;
    if frame.opcode == 8 && frame.length >= 2 {
      assert Uint16(p[..2]) == CloseCode(frame);
      CloseCodeTest(CloseCode(frame));
    }
  }

  /** Every rejection carries 1002 or 1007, both registered close codes. */
  lemma CheckFrameStatus(frame: Frame)
    requires frame.opcode == 8 && frame.length >= 2 ==> |frame.payload| >= 2
    ensures CheckFrame(frame).Reject? ==>
      && (CheckFrame(frame).status == 1002 || CheckFrame(frame).status == 1007)
      && CheckFrame(frame).status in CloseCodes
  {
  }

  /** Status 1007 is reported exactly when the structural checks pass and
      the UTF-8 of a final text frame, or of a close frame's reason behind a
      legal code, is ill-formed; every other failure is 1002. */
  lemma CheckFrameInvalidPayloadIff(frame: Frame)
    requires frame.opcode == 8 && frame.length >= 2 ==> |frame.payload| >= 2
    ensures CheckFrame(frame) == Reject(1007) <==>
      && frame.isMasked
      && !(IsControl(frame) && (frame.length > 125 || frame.isFragment))
      && !HasReservedOpcode(frame)
      && frame.rsv == 0
      && (|| (frame.opcode == 1 && !frame.isFragment && !IsValid(frame.payload))
          || (&& frame.opcode == 8 && frame.length > 2
              && LegalCloseCode(CloseCode(frame)) && !IsValid(frame.payload[2..])))
  {
    if frame.opcode == 8 && frame.length >= 2 {
      assert Uint16(frame.payload[..2]) == CloseCode(frame);
      CloseCodeTest(CloseCode(frame));
    }
  }

  /** An unmasked frame is a protocol error whatever else is wrong with it:
      masking is checked first. */
  lemma CheckFrameUnmasked(frame: Frame)
    requires frame.opcode == 8 && frame.length >= 2 ==> |frame.payload| >= 2
    requires !frame.isMasked
    ensures CheckFrame(frame) == Reject(1002)
  {
  }

  /** Control frames: 130 bytes, or fragmented, is a protocol error. */
  lemma CheckFrameControlVectors(payload: seq<byte>)
    requires |payload| == 130
    ensures CheckFrame(Frame(false, 0, 9, true, 130, payload)) == Reject(1002)
    ensures CheckFrame(Frame(false, 0, 10, true, 130, payload)) == Reject(1002)
    ensures CheckFrame(Frame(false, 0, 8, true, 130, payload)) == Reject(1002)
    ensures CheckFrame(Frame(true, 0, 9, true, 0, [])) == Reject(1002)
  {
  }

  /** Reserved opcode 5 and RSV bits 010 are protocol errors. */
  lemma CheckFrameReservedVectors()
    ensures CheckFrame(Frame(false, 0, 5, true, 0, [])) == Reject(1002)
    ensures CheckFrame(Frame(false, 0x20, 1, true, 0, [])) == Reject(1002)
  {
  }

  /** `[0xFF, 0xFE]` is rejected with 1007 in a final text frame and
      accepted in a fragment, which `validate` does not check. */
  lemma CheckFrameTextVectors()
    ensures CheckFrame(Frame(false, 0, 1, true, 2, [0xFF, 0xFE])) == Reject(1007)
    ensures CheckFrame(Frame(true, 0, 1, true, 2, [0xFF, 0xFE])) == Accept
  {
    InvalidFFFE();
  }

  /** Close codes 1000 and 3001 pass, 5000 fails, as does a 1-byte payload;
      an empty close payload passes. */
  lemma CheckFrameCloseVectors()
    ensures CheckFrame(Frame(false, 0, 8, true, 2, [0x03, 0xE8])) == Accept
    ensures CheckFrame(Frame(false, 0, 8, true, 2, [0x0B, 0xB9])) == Accept
    ensures CheckFrame(Frame(false, 0, 8, true, 2, [0x13, 0x88])) == Reject(1002)
    ensures CheckFrame(Frame(false, 0, 8, true, 1, [0x03])) == Reject(1002)
    ensures CheckFrame(Frame(false, 0, 8, true, 0, [])) == Accept
  {
    assert [0x03, 0xE8][..2] == [0x03, 0xE8];
    assert [0x0B, 0xB9][..2] == [0x0B, 0xB9];
    assert [0x13, 0x88][..2] == [0x13, 0x88];
  }

  // ---------------------------------------------------------------------
  // Encoding

  /** What `send` writes: bit 7 of byte 0 is clear exactly for a fragment,
      the low bits carry the opcode, byte 1 never has the mask bit and is
      never the 127 marker, and the whole payload follows the length with
      no masking key. */
  lemma EncodeFrameLayout(frame: Frame)
    ensures var s := EncodeFrame(frame);
      && |s| >= 2
      && And(s[0], 0x80) == (if frame.isFragment then 0 else 0x80)
      && And(s[0], 0x7F) == And(frame.opcode, 0x7F)
      && And(s[1], 0x80) == 0
      && s[1] != 127
      && (frame.length <= 125 ==> s[1] == frame.length && s[2..] == frame.payload)
      && (frame.length > 125 ==>
            && s[1] == 126 && |s| >= 4
            && BigEndian(s[2..4]) == frame.length
            && s[4..] == frame.payload)
  {
    var s := EncodeFrame(frame);
    SendFirstByteFields(frame.isFragment, frame.opcode);
    if frame.length > 125 {
      SevenBits(126);
      Uint16PutUint16(frame.length);
      Uint16BigEndian(PutUint16(frame.length));
      assert s[2..4] == PutUint16(frame.length);
    } else {
      SevenBits(frame.length);
    }
  }

  /** A client reads back what `send` writes — FIN, opcode and the whole
      payload, RSV zero — whenever `length` is the payload's true length
      and the opcode has four bits. */
  lemma EncodeFrameParses(frame: Frame, rest: seq<byte>)
    requires frame.opcode < 16 && frame.length == |frame.payload|
    ensures ParseServerFrame(EncodeFrame(frame) + rest)
         == Some(Parsed(!frame.isFragment, 0, frame.opcode, frame.payload, |EncodeFrame(frame)|))
  {
    var e := EncodeFrame(frame);
    var s := e + rest;
    EncodeFrameLayout(frame);
    SendFirstByteFields(frame.isFragment, frame.opcode);
    assert s[..|e|] == e;
    if frame.length <= 125 {
      ParseShortEncoding(frame, e, s);
    } else {
      ParseMediumEncoding(frame, e, s);
    }
  }

  lemma ParseShortEncoding(frame: Frame, e: seq<byte>, s: seq<byte>)
    requires frame.length <= 125 && frame.length == |frame.payload|
    requires |e| >= 2 && e[1] == frame.length && e[2..] == frame.payload
    requires |s| >= |e| && s[..|e|] == e
    ensures ParseServerFrame(s) == Some(Parsed(And(e[0], 0x80) == 0x80, And(e[0], 0x70), And(e[0], 0x0F), frame.payload, |e|))
  {
    var n := |frame.payload|;
    assert s[0] == e[0] && s[1] == e[1];
    assert s[2..2 + n] == e[2..];
    SevenBits(frame.length);
    ParseServerFrameAt(s, 0, n);
  }

  lemma ParseMediumEncoding(frame: Frame, e: seq<byte>, s: seq<byte>)
    requires frame.length > 125 && frame.length == |frame.payload|
    requires |e| >= 4 && e[1] == 126 && BigEndian(e[2..4]) == |frame.payload| && e[4..] == frame.payload
    requires |s| >= |e| && s[..|e|] == e
    ensures ParseServerFrame(s) == Some(Parsed(And(e[0], 0x80) == 0x80, And(e[0], 0x70), And(e[0], 0x0F), frame.payload, |e|))
  {
    var n := |frame.payload|;
    assert s[0] == e[0] && s[1] == e[1];
    assert s[2..4] == e[2..4];
    assert s[4..4 + n] == e[4..];
    SevenBits(126);
    ParseServerFrameAt(s, 2, n);
  }

  /** Echo: a frame a client sent with fewer than 256 payload bytes, decoded
      by `recv` and written back by `send`, reads back on the client as the
      same FIN bit, opcode and payload. */
  lemma EchoRoundTrip(frame: Frame, key: seq<byte>, rest: seq<byte>)
    requires frame.opcode < 16 && RsvOnly(frame.rsv)
    requires |key| == 4 && |frame.payload| < 256
    ensures DecodeFrame(ClientFrame(frame, key) + rest).Decoded?
    ensures var f := DecodeFrame(ClientFrame(frame, key) + rest).frame;
      ParseServerFrame(EncodeFrame(f)) == Some(Parsed(!frame.isFragment, 0, frame.opcode, frame.payload, |EncodeFrame(f)|))
  {
    var s := ClientFrame(frame, key) + rest;
    DecodeSmallClientFrame(frame, key, rest);
    EchoDecoded(s, frame.(isMasked := true, length := |frame.payload|));
  }

  /** `DecodeClientFrame` for payloads below 256 bytes, where `length` is exact. */
  lemma DecodeSmallClientFrame(frame: Frame, key: seq<byte>, rest: seq<byte>)
    requires frame.opcode < 16 && RsvOnly(frame.rsv)
    requires |key| == 4 && |frame.payload| < 256
    ensures DecodeFrame(ClientFrame(frame, key) + rest).Decoded?
    ensures DecodeFrame(ClientFrame(frame, key) + rest).frame == frame.(isMasked := true, length := |frame.payload|)
  {
    assert ToByte(|frame.payload|) == |frame.payload|;
    DecodeClientFrame(frame, key, rest);
  }

  /** `send` on the frame `recv` decoded from `s`, when that frame's `length`
      is its payload's length. */
  lemma EchoDecoded(s: seq<byte>, f: Frame)
    requires DecodeFrame(s).Decoded? && DecodeFrame(s).frame == f
    requires f.opcode < 16 && f.length == |f.payload|
    ensures ParseServerFrame(EncodeFrame(DecodeFrame(s).frame))
         == Some(Parsed(!f.isFragment, 0, f.opcode, f.payload, |EncodeFrame(DecodeFrame(s).frame)|))
  {
    EchoFrame(f);
  }

  /** `send` on a frame whose `length` is its payload's length. */
  lemma EchoFrame(f: Frame)
    requires f.opcode < 16 && f.length == |f.payload|
    ensures ParseServerFrame(EncodeFrame(f)) == Some(Parsed(!f.isFragment, 0, f.opcode, f.payload, |EncodeFrame(f)|))
  {
    EncodeFrameParses(f, []);
    assert EncodeFrame(f) + [] == EncodeFrame(f);
  }

  /** `close` writes `[0x88, 0x02]` and the status big-endian, which a client
      reads as a final close frame whose close code is the status. */
  lemma CloseFrameBytes(status: uint16)
    ensures CloseFrame(status) == [0x88, 0x02, ToByte(status / 256), ToByte(status)]
    ensures ParseServerFrame(CloseFrame(status)) == Some(Parsed(true, 0, 8, PutUint16(status), 4))
    ensures CloseCode(Frame(false, 0, 8, true, 2, ParseServerFrame(CloseFrame(status)).value.payload)) == status
  {
    var f := Frame(false, 0, 8, false, 2, PutUint16(status));
    assert f.length == |f.payload|;
    EncodeFrameParses(f, []);
    assert EncodeFrame(f) + [] == EncodeFrame(f);
    Uint16PutUint16(status);
    CloseOpcodeByte();
  }

  // ---------------------------------------------------------------------
  // Handshake

  /** `strings.Join` of a longer list: the join of all but the last, the
      separator, and the last. */
  lemma {:induction false} JoinSnoc(parts: seq<string>, last: string, sep: string)
    requires parts != []
    ensures Join(parts + [last], sep) == Join(parts, sep) + sep + last
  {
    if |parts| > 1 {
      assert (parts + [last])[1..] == parts[1..] + [last];
      JoinSnoc(parts[1..], last, sep);
    }
  }

  /** `strings.Join` of seven elements. */
  lemma JoinSeven(parts: seq<string>, sep: string)
    requires |parts| == 7
    ensures Join(parts, sep) == parts[0] + sep + parts[1] + sep + parts[2] + sep + parts[3]
                                + sep + parts[4] + sep + parts[5] + sep + parts[6]
  {
    var p := parts;
    assert Join(p[6..], sep) == p[6];
    assert p[5..][1..] == p[6..];
    assert Join(p[5..], sep) == p[5] + sep + p[6];
    assert p[4..][1..] == p[5..];
    assert Join(p[4..], sep) == p[4] + sep + (p[5] + sep + p[6]);
    assert p[3..][1..] == p[4..];
    assert Join(p[3..], sep) == p[3] + sep + Join(p[4..], sep);
    assert p[2..][1..] == p[3..];
    assert Join(p[2..], sep) == p[2] + sep + Join(p[3..], sep);
    assert p[1..][1..] == p[2..];
    assert Join(p[1..], sep) == p[1] + sep + Join(p[2..], sep);
    assert Join(p, sep) == p[0] + sep + Join(p[1..], sep);
  }

  /** The response is the status line and four header lines, each ended by
      CRLF, the last carrying the hash, and then an empty line: it ends in
      CRLF CRLF. */
  lemma HandshakeResponseText(hash: string)
    ensures HandshakeResponse(hash) ==
      "HTTP/1.1 101 Web Socket Protocol Handshake" + "\r\n" +
      "Server: go/testserver" + "\r\n" +
      "Upgrade: websocket" + "\r\n" +
      "Connection: Upgrade" + "\r\n" +
      ("Sec-WebSocket-Key: " + hash) + "\r\n" +
      "" + "\r\n" + ""
    ensures |HandshakeResponse(hash)| >= 4
    ensures HandshakeResponse(hash)[|HandshakeResponse(hash)| - 4..] == "\r\n\r\n"
  {
    JoinSeven(HandshakeLines(hash), "\r\n");
  }
}
