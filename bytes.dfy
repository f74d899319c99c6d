/** Byte-level vocabulary shared by the frame layer: Go's `byte` and
    `uint16`, big-endian integers, and the byte view of Go strings. */
module Bytes {

  /** Go's `byte`. */
  type byte = b: int | 0 <= b < 256

  /** Go's `uint16`. */
  type uint16 = x: int | 0 <= x < 0x1_0000

  /** Go's conversion `byte(n)`: the low eight bits. */
  function ToByte(n: nat): (b: byte)
    ensures b == n % 256 && b <= n
  {
    n % 256
  }

  // ---------------------------------------------------------------------
  // Bitwise operators, one bit at a time from the least significant

  /** 2 to the power `k`. */
  function Pow2(k: nat): (r: nat)
    ensures r >= 1
  {
    if k == 0 then 1 else 2 * Pow2(k - 1)
  }

  /** Bitwise AND of two naturals. */
  function BitAnd(a: nat, b: nat): (r: nat)
    decreases a
  {
    if a == 0 || b == 0 then 0
    else 2 * BitAnd(a / 2, b / 2) + (if a % 2 == 1 && b % 2 == 1 then 1 else 0)
  }

  /** Bitwise OR of two naturals. */
  function BitOr(a: nat, b: nat): (r: nat)
    decreases a + b
  {
    if a == 0 then b
    else if b == 0 then a
    else 2 * BitOr(a / 2, b / 2) + (if a % 2 == 1 || b % 2 == 1 then 1 else 0)
  }

  /** Bitwise exclusive OR of two naturals. */
  function BitXor(a: nat, b: nat): (r: nat)
    decreases a + b
  {
    if a == 0 then b
    else if b == 0 then a
    else 2 * BitXor(a / 2, b / 2) + (if a % 2 != b % 2 then 1 else 0)
  }

  /** Go's `a & b` on bytes. */
  function And(a: byte, b: byte): (r: byte)
    ensures r <= a && r <= b
  {
    AndBound(a, b);
    BitAnd(a, b)
  }

  /** Go's `a | b` on bytes. */
  function Or(a: byte, b: byte): (r: byte)
  {
    Pow2Values();
    OrBound(a, b, 8);
    BitOr(a, b)
  }

  /** Go's `a ^ b` on bytes. */
  function Xor(a: byte, b: byte): (r: byte)
  {
    Pow2Values();
    XorBound(a, b, 8);
    BitXor(a, b)
  }

  lemma Pow2Values()
    ensures Pow2(4) == 16 && Pow2(7) == 128 && Pow2(8) == 256
  {
  }

  lemma {:induction false} AndBound(a: nat, b: nat)
    ensures BitAnd(a, b) <= a && BitAnd(a, b) <= b
    decreases a
  {
    if a != 0 && b != 0 {
      AndBound(a / 2, b / 2);
    }
  }

  lemma {:induction false} OrBound(a: nat, b: nat, k: nat)
    requires a < Pow2(k) && b < Pow2(k)
    ensures BitOr(a, b) < Pow2(k)
    decreases a + b
  {
    if a != 0 && b != 0 {
      OrBound(a / 2, b / 2, k - 1);
    }
  }

  lemma {:induction false} XorBound(a: nat, b: nat, k: nat)
    requires a < Pow2(k) && b < Pow2(k)
    ensures BitXor(a, b) < Pow2(k)
    decreases a + b
  {
    if a != 0 && b != 0 {
      XorBound(a / 2, b / 2, k - 1);
    }
  }

  lemma {:induction false} XorSelf(a: nat)
    ensures BitXor(a, a) == 0
  {
    if a != 0 {
      XorSelf(a / 2);
    }
  }

  /** XOR with the same value twice is the identity. */
  lemma {:induction false} XorInvolution(a: nat, b: nat)
    ensures BitXor(BitXor(a, b), b) == a
    decreases a + b
  {
    if a == 0 {
      XorSelf(b);
    } else if b != 0 {
      XorInvolution(a / 2, b / 2);
      var x := BitXor(a, b);
      assert x / 2 == BitXor(a / 2, b / 2) && x % 2 == (if a % 2 != b % 2 then 1 else 0);
      if x == 0 {
        assert a / 2 == b / 2;
      }
    }
  }

  lemma {:induction false} AndSelf(a: nat)
    ensures BitAnd(a, a) == a
  {
    if a != 0 {
      AndSelf(a / 2);
    }
  }

  lemma {:induction false} AndCommutes(a: nat, b: nat)
    ensures BitAnd(a, b) == BitAnd(b, a)
    decreases a
  {
    if a != 0 && b != 0 {
      AndCommutes(a / 2, b / 2);
    }
  }

  lemma {:induction false} AndAssociates(a: nat, b: nat, c: nat)
    ensures BitAnd(BitAnd(a, b), c) == BitAnd(a, BitAnd(b, c))
    decreases a
  {
    if a != 0 && b != 0 && c != 0 {
      AndAssociates(a / 2, b / 2, c / 2);
      var ab, bc := BitAnd(a, b), BitAnd(b, c);
      assert ab / 2 == BitAnd(a / 2, b / 2) && bc / 2 == BitAnd(b / 2, c / 2);
    }
  }

  /** AND distributes over OR. */
  lemma {:induction false} AndDistributes(a: nat, b: nat, c: nat)
    ensures BitAnd(BitOr(a, b), c) == BitOr(BitAnd(a, c), BitAnd(b, c))
    decreases a + b
  {
    if a != 0 && b != 0 && c != 0 {
      AndDistributes(a / 2, b / 2, c / 2);
      var o, ac, bc := BitOr(a, b), BitAnd(a, c), BitAnd(b, c);
      assert o / 2 == BitOr(a / 2, b / 2) && o % 2 == (if a % 2 == 1 || b % 2 == 1 then 1 else 0);
      assert ac / 2 == BitAnd(a / 2, c / 2) && bc / 2 == BitAnd(b / 2, c / 2);
    }
  }

  /** `(a | x) & a == a`. */
  lemma {:induction false} AndAbsorbs(a: nat, x: nat)
    ensures BitAnd(BitOr(a, x), a) == a
    decreases a + x
  {
    if x == 0 {
      AndSelf(a);
    } else if a != 0 {
      AndAbsorbs(a / 2, x / 2);
      var o := BitOr(a, x);
      assert o / 2 == BitOr(a / 2, x / 2) && o % 2 == (if a % 2 == 1 || x % 2 == 1 then 1 else 0);
    }
  }

  /** ANDing with an even mask: bit 0 is dropped. */
  lemma AndEvenStep(a: nat, m: nat)
    ensures BitAnd(a, 2 * m) == 2 * BitAnd(a / 2, m)
  {
    var b := 2 * m;
    if a == 0 {
      assert BitAnd(a / 2, m) == 0;
    } else if m == 0 {
      assert BitAnd(a / 2, m) == 0;
    } else {
      assert b / 2 == m && b % 2 == 0;
      assert BitAnd(a, b) == 2 * BitAnd(a / 2, b / 2);
    }
  }

  /** Bit 3 of a 4-bit number is set exactly from 8 on. */
  lemma BitThree(x: byte)
    requires x < 16
    ensures And(x, 0x08) == (if x >= 8 then 0x08 else 0)
  {
    var x1, x2, x3 := x / 2, x / 4, x / 8;
    assert x2 == x1 / 2 && x3 == x2 / 2;
    AndEvenStep(x, 4);
    AndEvenStep(x1, 2);
    AndEvenStep(x2, 1);
    AndLow(x3, 1);
  }

  /** The low `k` bits of a number below `2^k` are the number itself. */
  lemma {:induction false} AndLow(x: nat, k: nat)
    requires x < Pow2(k)
    ensures BitAnd(x, Pow2(k) - 1) == x
    decreases k
  {
    if x != 0 {
      AndLow(x / 2, k - 1);
    }
  }

  /** Bit `k` of a number below `2^k` is clear. */
  lemma {:induction false} AndHigh(x: nat, k: nat)
    requires x < Pow2(k)
    ensures BitAnd(x, Pow2(k)) == 0
    decreases k
  {
    if x != 0 {
      assert Pow2(k) == 2 * Pow2(k - 1);
      AndHigh(x / 2, k - 1);
    }
  }

  /** The masks of a frame header share no bits. */
  lemma MaskLiterals()
    ensures BitAnd(0x70, 0x0F) == 0 && BitAnd(0x0F, 0x70) == 0
    ensures BitAnd(0x70, 0x80) == 0 && BitAnd(0x80, 0x70) == 0
    ensures BitAnd(0x0F, 0x80) == 0 && BitAnd(0x80, 0x0F) == 0
    ensures BitAnd(0x7F, 0x80) == 0 && BitAnd(0x80, 0x7F) == 0
    ensures BitAnd(0x7F, 0x70) == 0x70 && BitAnd(0x7F, 0x0F) == 0x0F
    ensures BitAnd(0x7F, 0x7F) == 0x7F && BitAnd(0x70, 0x70) == 0x70
  {
    assert BitAnd(0x70, 0x0F) == 2 * BitAnd(0x38, 0x07);
    assert BitAnd(0x38, 0x07) == 2 * BitAnd(0x1C, 0x03);
    assert BitAnd(0x1C, 0x03) == 2 * BitAnd(0x0E, 0x01);
    assert BitAnd(0x0E, 0x01) == 2 * BitAnd(0x07, 0);
    AndCommutes(0x70, 0x0F);
    Pow2Values();
    AndHigh(0x70, 7);
    AndCommutes(0x70, 0x80);
    AndHigh(0x0F, 7);
    AndCommutes(0x0F, 0x80);
    AndHigh(0x7F, 7);
    AndCommutes(0x7F, 0x80);
    AndLow(0x70, 7);
    AndCommutes(0x70, 0x7F);
    AndLow(0x0F, 7);
    AndCommutes(0x0F, 0x7F);
    AndSelf(0x7F);
    AndSelf(0x70);
  }

  // ---------------------------------------------------------------------
  // The header bytes of a frame

  /** A byte below 128: no bit 7, and its low seven bits are itself. */
  lemma SevenBits(x: byte)
    requires x < 128
    ensures And(x, 0x80) == 0 && And(x, 0x7F) == x
  {
    Pow2Values();
    AndHigh(x, 7);
    AndLow(x, 7);
  }

  /** `0x80 | x` for `x` below 128: bit 7 set, and `x` in the low seven bits. */
  lemma HighBitOr(x: byte)
    requires x < 128
    ensures And(Or(0x80, x), 0x80) == 0x80 && And(Or(0x80, x), 0x7F) == x
  {
    AndAbsorbs(0x80, x);
    AndDistributes(0x80, x, 0x7F);
    MaskLiterals();
    SevenBits(x);
  }

  /** The mask bit added to a 7-bit value `x`: bit 7 set, and `x` in the low seven bits. */
  lemma HighBit(x: byte)
    requires x < 128
    ensures And(0x80 + x, 0x80) == 0x80 && And(0x80 + x, 0x7F) == x
  {
    Pow2Values();
    AndHigh(x, 7);
    AndCommutes(x, 0x80);
    OrDisjoint(0x80, x);
    HighBitOr(x);
  }

  /** Two numbers with no bit in common: OR adds them. */
  lemma {:induction false} OrDisjoint(a: nat, b: nat)
    requires BitAnd(a, b) == 0
    ensures BitOr(a, b) == a + b
    decreases a + b
  {
    if a != 0 && b != 0 {
      OrDisjoint(a / 2, b / 2);
    }
  }

  /** The first byte of a final close frame. */
  lemma CloseOpcodeByte()
    ensures SendFirstByte(false, 8) == 0x88
  {
    Pow2Values();
    AndHigh(8, 7);
    AndCommutes(8, 0x80);
    OrDisjoint(0x80, 8);
  }

  /** The bytes `rsv` may be: only bits 4 to 6 set. */
  predicate RsvOnly(rsv: byte)
  {
    And(rsv, 0x70) == rsv
  }

  /** `b & 0x70` keeps only RSV bits. */
  lemma RsvMask(b: byte)
    ensures RsvOnly(And(b, 0x70))
  {
    AndAssociates(b, 0x70, 0x70);
    AndSelf(0x70);
  }

  /** The first byte of a frame assembled from FIN, RSV and a 4-bit opcode
      gives back each of them under its mask. */
  lemma FirstByteFields(fin: byte, rsv: byte, opcode: byte)
    requires (fin == 0 || fin == 0x80) && RsvOnly(rsv) && opcode < 16
    ensures var b0 := Or(Or(fin, rsv), opcode);
      && And(b0, 0x80) == fin && And(b0, 0x70) == rsv && And(b0, 0x0F) == opcode
  {
    MaskLiterals();
    Pow2Values();
    AndLow(opcode, 4);
    AndHigh(opcode, 7);
    AndSelf(fin);
    var o := Or(fin, rsv);
    AndDistributes(o, opcode, 0x80);
    AndDistributes(fin, rsv, 0x80);
    AndDistributes(o, opcode, 0x70);
    AndDistributes(fin, rsv, 0x70);
    AndDistributes(o, opcode, 0x0F);
    AndDistributes(fin, rsv, 0x0F);
    // rsv keeps only bits 4 to 6
    AndAssociates(rsv, 0x70, 0x80);
    AndAssociates(rsv, 0x70, 0x0F);
    // a 4-bit opcode has none of bits 4 to 6
    AndAssociates(opcode, 0x0F, 0x70);
  }

  /** The first byte `send` writes: `0x80 | opcode`, with bit 7 cleared
      again for a fragment. */
  function SendFirstByte(isFragment: bool, opcode: byte): (b0: byte)
  {
    if isFragment then And(Or(0x80, opcode), 0x7F) else Or(0x80, opcode)
  }

  /** Bit 7 of `send`'s first byte is clear exactly for a fragment, the low
      seven bits are the opcode's, and a 4-bit opcode comes back whole with
      no RSV bit. */
  lemma SendFirstByteFields(isFragment: bool, opcode: byte)
    ensures var b0 := SendFirstByte(isFragment, opcode);
      && And(b0, 0x80) == (if isFragment then 0 else 0x80)
      && And(b0, 0x7F) == And(opcode, 0x7F)
      && (opcode < 16 ==> And(b0, 0x70) == 0 && And(b0, 0x0F) == opcode)
  {
    MaskLiterals();
    Pow2Values();
    var o := Or(0x80, opcode);
    AndAbsorbs(0x80, opcode);
    AndDistributes(0x80, opcode, 0x7F);
    AndDistributes(0x80, opcode, 0x70);
    AndDistributes(0x80, opcode, 0x0F);
    AndAssociates(o, 0x7F, 0x80);
    AndAssociates(o, 0x7F, 0x7F);
    AndAssociates(o, 0x7F, 0x70);
    AndAssociates(o, 0x7F, 0x0F);
    if opcode < 16 {
      AndLow(opcode, 4);
      AndAssociates(opcode, 0x0F, 0x70);
    }
  }

  /** 256 to the power `k`: the number of values `k` bytes can hold. */
  function Pow256(k: nat): (r: nat)
    ensures r >= 1
  {
    if k == 0 then 1 else 256 * Pow256(k - 1)
  }

  lemma Pow256Values()
    ensures Pow256(2) == 0x1_0000
    ensures Pow256(6) == 0x1_0000_0000_0000
    ensures Pow256(8) == 0x1_0000_0000_0000_0000
  {
    assert Pow256(1) == 256;
    assert Pow256(2) == 0x1_0000;
    assert Pow256(3) == 0x100_0000;
    assert Pow256(4) == 0x1_0000_0000;
    assert Pow256(5) == 0x100_0000_0000;
    assert Pow256(6) == 0x1_0000_0000_0000;
    assert Pow256(7) == 0x100_0000_0000_0000;
  }

  /** The unsigned integer whose big-endian bytes are `s`. */
  function BigEndian(s: seq<byte>): (n: nat)
    ensures n < Pow256(|s|)
  {
    if s == [] then 0 else BigEndian(s[..|s| - 1]) * 256 + s[|s| - 1]
  }

  /** The `k` big-endian bytes of `n`; reading them back gives `n`. */
  function ToBigEndian(n: nat, k: nat): (s: seq<byte>)
    requires n < Pow256(k)
    ensures |s| == k && BigEndian(s) == n
  {
    if k == 0 then []
    else
      DivBound(n, Pow256(k - 1));
      var high := ToBigEndian(n / 256, k - 1);
      var low := ToByte(n);
      var s := high + [low];
      assert s[..|s| - 1] == high && s[|s| - 1] == low;
      s
  }

  lemma DivBound(n: nat, p: nat)
    requires n < 256 * p
    ensures n / 256 < p
  {
  }

  /** The first two of the big-endian bytes `s` weigh `Pow256(|s| - 2)` each unit. */
  lemma {:induction false} BigEndianHighBytes(s: seq<byte>)
    requires |s| >= 2
    ensures BigEndian(s) >= Uint16(s) * Pow256(|s| - 2)
  {
    var init := s[..|s| - 1];
    if |s| == 2 {
      assert init[..0] == [];
      assert BigEndian(init) == s[0];
    } else {
      BigEndianHighBytes(init);
      var u, p := Uint16(s), Pow256(|s| - 3);
      assert Uint16(init) == u;
      assert Pow256(|s| - 2) == 256 * p;
      assert u * (256 * p) == (u * p) * 256;
      assert BigEndian(s) >= BigEndian(init) * 256;
    }
  }

  /** Go's `binary.BigEndian.Uint16(b)`: the first two bytes, big-endian. */
  function Uint16(b: seq<byte>): (v: uint16)
    requires |b| >= 2
  {
    b[0] as int * 256 + b[1] as int
  }

  /** Go's `binary.BigEndian.PutUint16(b, v)` into a fresh 2-byte slice:
      `b[0] = byte(v >> 8)`, `b[1] = byte(v)`. */
  function PutUint16(v: uint16): (b: seq<byte>)
  {
    [ToByte(v / 256), ToByte(v)]
  }

  /** The eight-byte big-endian form of `v`, the extended length that
      section 5.2 of RFC 6455 puts after the 127 marker. ws.go does not
      write it (ws.go:265-266 puts a `PutUint16` into the 8-byte slice);
      the corrected encoder of module Corrected does. */
  function PutUint64(v: nat): (b: seq<byte>)
    requires v < 0x1_0000_0000_0000_0000
    ensures |b| == 8 && BigEndian(b) == v
  {
    Pow256Values();
    ToBigEndian(v, 8)
  }

  lemma Uint16PutUint16(v: uint16)
    ensures |PutUint16(v)| == 2 && Uint16(PutUint16(v)) == v
    ensures PutUint16(v) == ToBigEndian(v, 2)
  {
    Pow256Values();
    assert ToBigEndian(v, 2) == ToBigEndian(v / 256, 1) + [ToByte(v)];
    assert ToBigEndian(v / 256, 1) == ToBigEndian(v / 256 / 256, 0) + [ToByte(v / 256)];
  }

  /** `Uint16` is the big-endian value of two bytes. */
  lemma Uint16BigEndian(b: seq<byte>)
    requires |b| == 2
    ensures Uint16(b) == BigEndian(b)
  {
    assert b[..1][..0] == [];
    assert b[..1] == [b[0]];
  }

  /** Go's `[]byte(s)` for a string whose characters are bytes: one byte per character. */
  function StringBytes(s: string): (b: seq<byte>)
  {
    seq(|s|, i requires 0 <= i < |s| => ToByte(s[i] as int))
  }

  /** Go's `string(b)`: one character per byte, with the byte's value. */
  function BytesString(b: seq<byte>): (s: string)
  {
    seq(|b|, i requires 0 <= i < |b| => b[i] as char)
  }

  /** Converting bytes to a string and back loses nothing. */
  lemma BytesStringRoundTrip(b: seq<byte>)
    ensures |BytesString(b)| == |b|
    ensures StringBytes(BytesString(b)) == b
  {
  }
}
