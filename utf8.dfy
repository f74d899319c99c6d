/** Well-formed UTF-8 as defined by the syntax of section 4 of RFC 3629;
    it stands in for Go's `utf8.Valid`, which accepts exactly these
    byte sequences (no overlong forms, no surrogates, nothing above U+10FFFF). */
module Utf8 {
  import opened Bytes

  /** `UTF8-tail = %x80-BF` */
  predicate IsTail(b: byte)
  {
    0x80 <= b <= 0xBF
  }

  /** `c` is exactly one `UTF8-char`: UTF8-1, UTF8-2, UTF8-3 or UTF8-4. */
  predicate IsChar(c: seq<byte>)
  {
    if |c| == 1 then
      c[0] <= 0x7F
    else if |c| == 2 then
      0xC2 <= c[0] <= 0xDF && IsTail(c[1])
    else if |c| == 3 then
      || (c[0] == 0xE0 && 0xA0 <= c[1] <= 0xBF && IsTail(c[2]))
      || ((0xE1 <= c[0] <= 0xEC || 0xEE <= c[0] <= 0xEF) && IsTail(c[1]) && IsTail(c[2]))
      || (c[0] == 0xED && 0x80 <= c[1] <= 0x9F && IsTail(c[2]))
    else if |c| == 4 then
      || (c[0] == 0xF0 && 0x90 <= c[1] <= 0xBF && IsTail(c[2]) && IsTail(c[3]))
      || (0xF1 <= c[0] <= 0xF3 && IsTail(c[1]) && IsTail(c[2]) && IsTail(c[3]))
      || (c[0] == 0xF4 && 0x80 <= c[1] <= 0x8F && IsTail(c[2]) && IsTail(c[3]))
    else
      false
  }

  /** The length of the shortest prefix of `s` that is one character,
      or 0 when `s` does not start with a character. */
  function CharLength(s: seq<byte>): (n: nat)
    ensures n <= 4 && n <= |s|
    ensures n > 0 ==> IsChar(s[..n])
    ensures forall k :: 1 <= k <= |s| && k < n ==> !IsChar(s[..k])
    ensures n == 0 ==> forall k :: 1 <= k <= |s| && k <= 4 ==> !IsChar(s[..k])
  {
    if |s| >= 1 && IsChar(s[..1]) then 1
    else if |s| >= 2 && IsChar(s[..2]) then 2
    else if |s| >= 3 && IsChar(s[..3]) then 3
    else if |s| >= 4 && IsChar(s[..4]) then 4
    else 0
  }

  /** `UTF8-octets = *( UTF8-char )`: `s` splits into whole characters. */
  predicate IsValid(s: seq<byte>)
    decreases |s|
  {
    s == [] || (CharLength(s) > 0 && IsValid(s[CharLength(s)..]))
  }

  /** A character at the front of `a` is the same character at the front of `a + b`. */
  lemma CharLengthPrefix(a: seq<byte>, b: seq<byte>)
    requires CharLength(a) > 0
    ensures CharLength(a + b) == CharLength(a)
  {
    var n := CharLength(a);
    forall k | 1 <= k <= n
      ensures (a + b)[..k] == a[..k]
    {
    }
  }

  /** Two well-formed sequences concatenate to a well-formed sequence. */
  lemma {:induction false} ConcatValid(a: seq<byte>, b: seq<byte>)
    requires IsValid(a) && IsValid(b)
    ensures IsValid(a + b)
  {
    if a != [] {
      var n := CharLength(a);
      var ab := a + b;
      CharLengthPrefix(a, b);
      assert ab[n..] == a[n..] + b;
      ValidStep(ab);
      ConcatValid(a[n..], b);
    } else {
      assert a + b == b;
    }
  }

  /** Behind a well-formed prefix, the rest decides: `a + b` is well formed iff `b` is. */
  lemma {:induction false} ValidAfterValid(a: seq<byte>, b: seq<byte>)
    requires IsValid(a)
    ensures IsValid(a + b) <==> IsValid(b)
  {
    if a != [] {
      var n := CharLength(a);
      var ab := a + b;
      CharLengthPrefix(a, b);
      assert ab[n..] == a[n..] + b;
      ValidStep(ab);
      ValidAfterValid(a[n..], b);
    } else {
      assert a + b == b;
    }
  }

  /** One step of `IsValid` on a non-empty sequence. */
  lemma ValidStep(s: seq<byte>)
    requires s != []
    ensures IsValid(s) <==> CharLength(s) > 0 && IsValid(s[CharLength(s)..])
  {
  }

  /** Every 7-bit ASCII sequence is well formed. */
  lemma {:induction false} AsciiValid(s: seq<byte>)
    requires forall i :: 0 <= i < |s| ==> s[i] < 0x80
    ensures IsValid(s)
  {
    if s != [] {
      assert IsChar(s[..1]);
      AsciiValid(s[1..]);
    }
  }

  /** The octets C0, C1 and F5 to FF never appear in well-formed UTF-8
      (section 1 of RFC 3629). */
  lemma {:induction false} ValidExcludesBytes(s: seq<byte>, i: nat)
    requires IsValid(s) && i < |s|
    ensures s[i] != 0xC0 && s[i] != 0xC1 && s[i] < 0xF5
  {
    var n := CharLength(s);
    if i >= n {
      ValidExcludesBytes(s[n..], i - n);
    } else {
      assert s[..n][i] == s[i];
    }
  }

  /** A lone 0xFF, 0xFE pair is not UTF-8 (its first byte can never appear). */
  lemma InvalidFFFE()
    ensures !IsValid([0xFF, 0xFE])
  {
    if IsValid([0xFF, 0xFE]) {
      ValidExcludesBytes([0xFF, 0xFE], 0);
    }
  }
}
