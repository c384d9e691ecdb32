/** Byte-level vocabulary shared by the transport and the lookup client:
    the unsigned C integer widths, bitwise XOR on bytes, network byte order
    (htons/htonl and their inverses) and the byte copy that memcpy performs. */
module Bytes {

  type byte = x: int | 0 <= x < 0x100
  type uint16 = x: int | 0 <= x < 0x1_0000
  type uint32 = x: int | 0 <= x < 0x1_0000_0000

  /** Bitwise exclusive or of two naturals, one binary digit at a time. */
  function BitXor(a: nat, b: nat): nat
    decreases a + b
  {
    if a == 0 then b
    else if b == 0 then a
    else 2 * BitXor(a / 2, b / 2) + (if a % 2 == b % 2 then 0 else 1)
  }

  /** The lowest bit of `BitXor(a, b)` is the sum of the operands' lowest
      bits modulo 2, and the remaining bits are the XOR of the remaining bits. */
  lemma {:induction false} BitXorDigits(a: nat, b: nat)
    ensures BitXor(a, b) % 2 == (a % 2 + b % 2) % 2
    ensures BitXor(a, b) / 2 == BitXor(a / 2, b / 2)
  {
    if a == 0 {
      assert BitXor(a / 2, b / 2) == b / 2;
    } else if b == 0 {
      assert BitXor(a / 2, b / 2) == a / 2;
    } else {
      var d := if a % 2 == b % 2 then 0 else 1;
      DivMod2(BitXor(a, b), BitXor(a / 2, b / 2), d);
    }
  }

  lemma DivMod2(x: int, q: int, r: int)
    requires 0 <= r < 2 && x == 2 * q + r
    ensures x / 2 == q && x % 2 == r
  {
  }

  lemma DigitsDetermine(x: nat, y: nat)
    requires x % 2 == y % 2 && x / 2 == y / 2
    ensures x == y
  {
  }

  /** 2^k. */
  function Pow2(k: nat): nat
  {
    if k == 0 then 1 else 2 * Pow2(k - 1)
  }

  /** XOR never sets a bit above the operands' highest one. */
  lemma {:induction false} BitXorBound(a: nat, b: nat, k: nat)
    requires a < Pow2(k) && b < Pow2(k)
    ensures BitXor(a, b) < Pow2(k)
  {
    if k == 0 {
      assert a == 0;
    } else if a != 0 && b != 0 {
      BitXorBound(a / 2, b / 2, k - 1);
    }
  }

  lemma {:induction false} BitXorSelf(a: nat)
    ensures BitXor(a, a) == 0
    decreases a
  {
    if a != 0 {
      BitXorSelf(a / 2);
    }
  }

  lemma {:induction false} BitXorZeroMeansEqual(a: nat, b: nat)
    requires BitXor(a, b) == 0
    ensures a == b
    decreases a + b
  {
    if a != 0 && b != 0 {
      BitXorDigits(a, b);
      BitXorZeroMeansEqual(a / 2, b / 2);
      DigitsDetermine(a, b);
    }
  }

  lemma {:induction false} BitXorCommutes(a: nat, b: nat)
    ensures BitXor(a, b) == BitXor(b, a)
    decreases a + b
  {
    if a != 0 && b != 0 {
      BitXorCommutes(a / 2, b / 2);
    }
  }

  lemma {:induction false} BitXorAssociates(a: nat, b: nat, c: nat)
    ensures BitXor(BitXor(a, b), c) == BitXor(a, BitXor(b, c))
    decreases a + b + c
  {
    if a != 0 || b != 0 || c != 0 {
      var l, r := BitXor(BitXor(a, b), c), BitXor(a, BitXor(b, c));
      BitXorDigits(BitXor(a, b), c);
      BitXorDigits(a, b);
      BitXorDigits(a, BitXor(b, c));
      BitXorDigits(b, c);
      BitXorAssociates(a / 2, b / 2, c / 2);
      DigitsDetermine(l, r);
    }
  }

  /** The XOR of two bytes, as the C operator `^` on `uint8_t`. */
  function Xor(a: byte, b: byte): (r: byte)
  {
    assert Pow2(8) == 256;
    BitXorBound(a, b, 8);
    BitXor(a, b)
  }

  lemma XorZero(a: byte)
    ensures Xor(a, 0) == a && Xor(0, a) == a
  {
  }

  lemma XorCommutes(a: byte, b: byte)
    ensures Xor(a, b) == Xor(b, a)
  {
    BitXorCommutes(a, b);
  }

  lemma XorAssociates(a: byte, b: byte, c: byte)
    ensures Xor(Xor(a, b), c) == Xor(a, Xor(b, c))
  {
    BitXorAssociates(a, b, c);
  }

  /** XOR-ing a byte twice undoes it. */
  lemma XorCancels(x: byte, a: byte)
    ensures Xor(Xor(x, a), a) == x
  {
    XorAssociates(x, a, a);
    BitXorSelf(a);
  }

  lemma XorSelf(a: byte)
    ensures Xor(a, a) == 0
  {
    BitXorSelf(a);
  }

  /** The bytes folded into an accumulator may be folded in any order. */
  lemma XorRotate(x: byte, a: byte, b: byte, c: byte)
    ensures Xor(Xor(Xor(x, a), b), c) == Xor(Xor(Xor(x, c), a), b)
  {
    XorAssociates(Xor(x, a), b, c);
    XorAssociates(x, a, Xor(b, c));
    XorAssociates(Xor(x, c), a, b);
    XorAssociates(x, c, Xor(a, b));
    XorCommutes(c, Xor(a, b));
    XorAssociates(a, b, c);
  }

  /** Folding in two different bytes changes an accumulator. */
  lemma XorChangesValue(x: byte, a: byte, b: byte)
    requires a != b
    ensures Xor(Xor(x, a), b) != x
  {
    var d := Xor(a, b);
    XorDistinct(a, b);
    XorAssociates(x, a, b);
    XorCommutes(x, d);
    XorCancels(d, x);
    XorSelf(x);
  }

  /** Two different bytes never XOR to zero. */
  lemma XorDistinct(a: byte, b: byte)
    requires a != b
    ensures Xor(a, b) != 0
  {
    if Xor(a, b) == 0 {
      BitXorZeroMeansEqual(a, b);
    }
  }

  /** The byte that stores `x` modulo 256, as a cast to an 8-bit type does. */
  function LowByte(x: int): byte
  {
    x % 256
  }

  /** A 16-bit value in network byte order: most significant byte first. */
  function Be16(x: uint16): (s: seq<byte>)
    ensures |s| == 2
  {
    [LowByte(x / 256), LowByte(x)]
  }

  /** A 32-bit value in network byte order: most significant byte first. */
  function Be32(x: uint32): (s: seq<byte>)
    ensures |s| == 4
  {
    [LowByte(x / 0x100_0000), LowByte(x / 0x1_0000), LowByte(x / 256), LowByte(x)]
  }

  /** Two received bytes read as a big-endian 16-bit value (ntohs). */
  function FromBe16(s: seq<byte>): uint16
    requires |s| == 2
  {
    s[0] as int * 256 + s[1]
  }

  /** Four received bytes read as a big-endian 32-bit value (ntohl). */
  function FromBe32(s: seq<byte>): uint32
    requires |s| == 4
  {
    ((s[0] as int * 256 + s[1]) * 256 + s[2]) * 256 + s[3]
  }

  lemma DivMod256(x: int, q: int, r: int)
    requires 0 <= r < 256 && x == q * 256 + r
    ensures x / 256 == q && x % 256 == r
  {
  }

  /** Decoding a 16-bit encoding gives back the value. */
  lemma Be16RoundTrip(x: uint16)
    ensures FromBe16(Be16(x)) == x
  {
  }

  /** Encoding a decoded pair of bytes gives back the bytes. */
  lemma FromBe16RoundTrip(s: seq<byte>)
    requires |s| == 2
    ensures Be16(FromBe16(s)) == s
  {
    DivMod256(FromBe16(s), s[0], s[1]);
  }

  /** Decoding a 32-bit encoding gives back the value. */
  lemma Be32RoundTrip(x: uint32)
    ensures FromBe32(Be32(x)) == x
  {
    var q1 := x / 256;
    var q2 := q1 / 256;
    assert x / 0x1_0000 == q2;
    assert x / 0x100_0000 == q2 / 256;
  }

  /** Encoding four decoded bytes gives back the bytes. */
  lemma FromBe32RoundTrip(s: seq<byte>)
    requires |s| == 4
    ensures Be32(FromBe32(s)) == s
  {
    var x := FromBe32(s);
    var q2 := s[0] as int * 256 + s[1];
    var q1 := q2 * 256 + s[2];
    DivMod256(x, q1, s[3]);
    DivMod256(q1, q2, s[2]);
    DivMod256(q2, s[0], s[1]);
    assert x / 0x1_0000 == q2;
    assert x / 0x100_0000 == s[0];
  }

  /** Distinct byte pairs decode to distinct values. */
  lemma FromBe16Injective(s: seq<byte>, t: seq<byte>)
    requires |s| == 2 && |t| == 2 && s != t
    ensures FromBe16(s) != FromBe16(t)
  {
    FromBe16RoundTrip(s);
    FromBe16RoundTrip(t);
  }

  /** Distinct byte quadruples decode to distinct values. */
  lemma FromBe32Injective(s: seq<byte>, t: seq<byte>)
    requires |s| == 4 && |t| == 4 && s != t
    ensures FromBe32(s) != FromBe32(t)
  {
    FromBe32RoundTrip(s);
    FromBe32RoundTrip(t);
  }

  /** `after` is `before` with `front` written over its first bytes. */
  predicate Overlaid(after: seq<byte>, front: seq<byte>, before: seq<byte>)
  {
    |after| == |before| && |front| <= |before| &&
    forall k :: 0 <= k < |after| ==> after[k] == (if k < |front| then front[k] else before[k])
  }

  /** memcpy(dst + off, src, |src|): the bytes of `src` land at `off`,
      every other byte of `dst` keeps its value. */
  method CopyInto(dst: array<byte>, off: nat, src: seq<byte>)
    requires off + |src| <= dst.Length
    modifies dst
    ensures forall k :: 0 <= k < dst.Length ==>
      dst[k] == (if off <= k < off + |src| then src[k - off] else old(dst[k]))
  {
    var i := 0;
    while i < |src|
      invariant 0 <= i <= |src|
      invariant forall k :: 0 <= k < dst.Length ==>
        dst[k] == (if off <= k < off + i then src[k - off] else old(dst[k]))
    {
      dst[off + i] := src[i];
      i := i + 1;
    }
  }
}
