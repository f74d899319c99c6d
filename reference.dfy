/** Reference definitions of the wire format of RFC 6455, written from the
    standard rather than from the server: the masking of section 5.3, the
    frame a client puts on the wire (section 5.2), and the reading of an
    unmasked server frame. The server's decoder and encoder are proved
    against these. */
module Reference {
  import opened Bytes
  import opened Frames

  datatype Option<T> = None | Some(value: T)

  /** Section 5.3: byte `i` of the data is XORed with byte `i mod 4` of the key. */
  function Mask(data: seq<byte>, key: seq<byte>): (r: seq<byte>)
    requires |key| == 4
    ensures |r| == |data|
  {
    seq(|data|, i requires 0 <= i < |data| => Xor(data[i], key[i % 4]))
  }

  /** Masking keeps the length, and masking twice with the same key is the identity. */
  lemma MaskInvolution(data: seq<byte>, key: seq<byte>)
    requires |key| == 4
    ensures Mask(Mask(data, key), key) == data
  {
    forall i | 0 <= i < |data|
      ensures Mask(Mask(data, key), key)[i] == data[i]
    {
      XorInvolution(data[i], key[i % 4]);
    }
  }

  /** Section 5.2 allows 64-bit lengths whose most significant bit is 0. */
  const MaxPayload: nat := 0x8000_0000_0000_0000

  /** The bytes a client sends for `frame` with masking key `key`: FIN, RSV and
      opcode, the mask bit, the shortest length encoding (7 bits, 126 and 16 bits,
      or 127 and 64 bits), the key, and the masked payload. `isMasked` and
      `length` of `frame` are not used: a client always masks, and the length
      is that of the payload. */
  function ClientFrame(frame: Frame, key: seq<byte>): (s: seq<byte>)
    requires frame.opcode < 16 && RsvOnly(frame.rsv)
    requires |key| == 4 && |frame.payload| < MaxPayload
  {
    Pow256Values();
    var n := |frame.payload|;
    var lengthField :=
      if n <= 125 then [0x80 + n]
      else if n < 0x1_0000 then [0x80 + 126] + ToBigEndian(n, 2)
      else [0x80 + 127] + ToBigEndian(n, 8);
    [ClientFirstByte(frame)] + lengthField + key + Mask(frame.payload, key)
  }

  /** The fields a client reads from a server frame. */
  datatype Parsed = Parsed(fin: bool, rsv: byte, opcode: byte, payload: seq<byte>, size: nat)

  /** The frame at the front of `s` as a client reads it: `None` when the
      frame is masked (servers must not mask) or `s` is too short. */
  function ParseServerFrame(s: seq<byte>): (r: Option<Parsed>)
  {
    if |s| < 2 || And(s[1], 0x80) != 0 then None
    else
      var marker := And(s[1], 0x7F);
      var ext := if marker == 126 then 2 else if marker == 127 then 8 else 0;
      if |s| < 2 + ext then None
      else
        var n := if ext == 0 then marker else BigEndian(s[2..2 + ext]);
        if |s| < 2 + ext + n then None
        else Some(Parsed(And(s[0], 0x80) == 0x80, And(s[0], 0x70), And(s[0], 0x0F), s[2 + ext..2 + ext + n], 2 + ext + n))
  }

  /** The client's first byte: FIN, the RSV bits and the opcode. */
  function ClientFirstByte(frame: Frame): (b0: byte)
  {
    Or(Or(if frame.isFragment then 0x00 else 0x80, frame.rsv), frame.opcode)
  }

  /** The layout of a client frame, by payload size. */
  lemma ClientFrameLayout(frame: Frame, key: seq<byte>)
    requires frame.opcode < 16 && RsvOnly(frame.rsv)
    requires |key| == 4 && |frame.payload| < MaxPayload
    ensures var n := |frame.payload|;
      var tail := key + Mask(frame.payload, key);
      && (n <= 125 ==> ClientFrame(frame, key) == [ClientFirstByte(frame), 0x80 + n] + tail)
      && (125 < n < 0x1_0000 ==> ClientFrame(frame, key) == [ClientFirstByte(frame), 0x80 + 126] + ToBigEndian(n, 2) + tail)
      && (0x1_0000 <= n ==> ClientFrame(frame, key) == [ClientFirstByte(frame), 0x80 + 127] + ToBigEndian(n, 8) + tail)
  {
    Pow256Values();
    var n := |frame.payload|;
    var b0 := ClientFirstByte(frame);
    var masked := Mask(frame.payload, key);
    var field := if n <= 125 then [0x80 + n]
      else if n < 0x1_0000 then [0x80 + 126] + ToBigEndian(n, 2)
      else [0x80 + 127] + ToBigEndian(n, 8);
    assert ClientFrame(frame, key) == [b0] + field + key + masked;
    if n <= 125 {
      assert [b0] + field == [b0, 0x80 + n];
    } else if n < 0x1_0000 {
      assert [b0] + field == [b0, 0x80 + 126] + ToBigEndian(n, 2);
    } else {
      assert [b0] + field == [b0, 0x80 + 127] + ToBigEndian(n, 8);
    }
  }

  /** The client's first byte carries FIN, RSV and opcode in their places. */
  lemma FirstByte(frame: Frame)
    requires frame.opcode < 16 && RsvOnly(frame.rsv)
    ensures var b0 := ClientFirstByte(frame);
      && ((And(b0, 0x80) == 0) <==> frame.isFragment)
      && And(b0, 0x70) == frame.rsv
      && And(b0, 0x0F) == frame.opcode
  {
    FirstByteFields(if frame.isFragment then 0x00 else 0x80, frame.rsv, frame.opcode);
  }

  /** `ParseServerFrame` once the marker form and the declared length `n`
      are known and `s` holds all the bytes. */
  lemma ParseServerFrameAt(s: seq<byte>, ext: nat, n: nat)
    requires |s| >= 2 + ext + n && And(s[1], 0x80) == 0
    requires ext == 0 ==> And(s[1], 0x7F) < 126 && And(s[1], 0x7F) == n
    requires ext == 2 ==> And(s[1], 0x7F) == 126 && BigEndian(s[2..4]) == n
    requires ext == 8 ==> And(s[1], 0x7F) == 127 && BigEndian(s[2..10]) == n
    requires ext == 0 || ext == 2 || ext == 8
    ensures ParseServerFrame(s)
         == Some(Parsed(And(s[0], 0x80) == 0x80, And(s[0], 0x70), And(s[0], 0x0F), s[2 + ext..2 + ext + n], 2 + ext + n))
  {
  }
}
