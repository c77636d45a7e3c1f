/** The LB representation of GF(2^128) used by GCM: the coefficient of x^n is the bit of weight
    2^(7 - n % 8) in byte n / 8 (gf128mul.h). */
module LbBlocks {
  import opened Bytes
  import opened Gf128

  /** X_0, .., X_7 of gf_mul_lo.h: the bit that carries x^m inside a byte. */
  function Mask(m: nat): bv8 {
    match m
    case 0 => 0x80
    case 1 => 0x40
    case 2 => 0x20
    case 3 => 0x10
    case 4 => 0x08
    case 5 => 0x04
    case 6 => 0x02
    case 7 => 0x01
    case _ => 0x00
  }

  predicate Bit(b: bv8, m: nat) {
    b & Mask(m) != 0
  }

  function ByteBits(b: bv8): (r: Poly)
    ensures |r| == 8
  {
    seq(8, (m: nat) => Bit(b, m))
  }

  function PolyOf(b: Block): Elem {
    seq(128, (n: nat) => Bit(ByteAt(b, n / 8), n % 8))
  }

  function Weight(c: bool, w: bv8): bv8 {
    if c then w else 0
  }

  /** The byte with the given bits, most significant first. */
  function ByteOf(c0: bool, c1: bool, c2: bool, c3: bool, c4: bool, c5: bool, c6: bool, c7: bool): bv8 {
    Weight(c0, 0x80) | Weight(c1, 0x40) | Weight(c2, 0x20) | Weight(c3, 0x10) |
    Weight(c4, 0x08) | Weight(c5, 0x04) | Weight(c6, 0x02) | Weight(c7, 0x01)
  }

  function ByteFrom(p: Poly, i: nat): bv8 {
    ByteOf(Coef(p, i), Coef(p, i + 1), Coef(p, i + 2), Coef(p, i + 3),
           Coef(p, i + 4), Coef(p, i + 5), Coef(p, i + 6), Coef(p, i + 7))
  }

  function BlockOf(p: Elem): Block {
    seq(16, (k: nat) => ByteFrom(p, 8 * k))
  }

  lemma BitsOfByte(c0: bool, c1: bool, c2: bool, c3: bool, c4: bool, c5: bool, c6: bool, c7: bool)
    ensures var b := ByteOf(c0, c1, c2, c3, c4, c5, c6, c7);
            && Bit(b, 0) == c0 && Bit(b, 1) == c1 && Bit(b, 2) == c2 && Bit(b, 3) == c3
            && Bit(b, 4) == c4 && Bit(b, 5) == c5 && Bit(b, 6) == c6 && Bit(b, 7) == c7
  {
  }

  lemma ByteOfItsBits(b: bv8)
    ensures ByteOf(Bit(b, 0), Bit(b, 1), Bit(b, 2), Bit(b, 3), Bit(b, 4), Bit(b, 5), Bit(b, 6), Bit(b, 7)) == b
  {
  }

  /** The two views of a byte position. */
  lemma PolyOfAt(b: Block, k: nat, m: nat)
    requires k < 16 && m < 8
    ensures Coef(PolyOf(b), 8 * k + m) == Bit(b[k], m)
  {
    hide Bit;
    assert (8 * k + m) / 8 == k && (8 * k + m) % 8 == m;
  }

  lemma BlockOfPolyOf(b: Block)
    ensures BlockOf(PolyOf(b)) == b
  {
    hide ByteOf, Bit, PolyOf;
    forall k: nat | k < 16
      ensures BlockOf(PolyOf(b))[k] == b[k]
    {
      ByteOfItsBits(b[k]);
      forall m: nat | m < 8 {
        PolyOfAt(b, k, m);
      }
    }
  }

  lemma BitOfByteFrom(p: Elem, k: nat, m: nat)
    requires k < 16 && m < 8
    ensures Bit(ByteFrom(p, 8 * k), m) == p[8 * k + m]
  {
    hide ByteOf, Bit;
    var i := 8 * k;
    BitsOfByte(p[i], p[i + 1], p[i + 2], p[i + 3], p[i + 4], p[i + 5], p[i + 6], p[i + 7]);
    assert m in {0, 1, 2, 3, 4, 5, 6, 7};
  }

  lemma PolyOfBlockOf(p: Elem)
    ensures PolyOf(BlockOf(p)) == p
  {
    hide ByteOf, Bit, PolyOf;
    forall n: nat | n < 128
      ensures PolyOf(BlockOf(p))[n] == p[n]
    {
      var k, m := n / 8, n % 8;
      PolyOfAt(BlockOf(p), k, m);
      assert BlockOf(p)[k] == ByteFrom(p, 8 * k);
      BitOfByteFrom(p, k, m);
    }
  }

  lemma MaskIsOneBit(m: nat)
    ensures Mask(m) & (Mask(m) - 1) == 0
  {
  }

  lemma XorUnderMask(a: bv8, b: bv8, k: bv8)
    requires k & (k - 1) == 0
    ensures ((a ^ b) & k != 0) == ((a & k != 0) != (b & k != 0))
  {
  }

  lemma BitXor(a: bv8, b: bv8, m: nat)
    ensures Bit(Xor8(a, b), m) == (Bit(a, m) != Bit(b, m))
  {
    hide Mask;
    MaskIsOneBit(m);
    XorUnderMask(a, b, Mask(m));
  }

  lemma PolyOfXor(a: Block, b: Block)
    ensures PolyOf(Xor(a, b)) == Add(PolyOf(a), PolyOf(b))
  {
    hide Xor8, Bit;
    forall n: nat | n < 128
      ensures PolyOf(Xor(a, b))[n] == Add(PolyOf(a), PolyOf(b))[n]
    {
      BitXor(a[n / 8], b[n / 8], n % 8);
    }
  }

  /* ----- the field on blocks ----- */

  function Times(a: Block, b: Block): Block {
    BlockOf(Mul(PolyOf(a), PolyOf(b)))
  }

  /** The unit of the field: x^0 is the top bit of byte 0. */
  function Unit(): Block {
    BlockOf(ONE)
  }

  function Power(h: Block, n: nat): Block {
    BlockOf(Pow(PolyOf(h), n))
  }

  lemma PolyOfTimes(a: Block, b: Block)
    ensures PolyOf(Times(a, b)) == Mul(PolyOf(a), PolyOf(b))
  {
    hide PolyOf, BlockOf, Mul;
    PolyOfBlockOf(Mul(PolyOf(a), PolyOf(b)));
  }

  lemma TimesComm(a: Block, b: Block)
    ensures Times(a, b) == Times(b, a)
  {
    hide PolyOf, BlockOf, Mul;
    MulComm(PolyOf(a), PolyOf(b));
  }

  lemma TimesAssoc(a: Block, b: Block, c: Block)
    ensures Times(Times(a, b), c) == Times(a, Times(b, c))
  {
    hide PolyOf, BlockOf, Mul;
    PolyOfTimes(a, b);
    PolyOfTimes(b, c);
    MulAssoc(PolyOf(a), PolyOf(b), PolyOf(c));
  }

  lemma TimesDistributes(a: Block, b: Block, c: Block)
    ensures Times(Xor(b, c), a) == Xor(Times(b, a), Times(c, a))
  {
    hide PolyOf, BlockOf, Mul, Xor, Add;
    PolyOfXor(b, c);
    MulDistributes(PolyOf(a), PolyOf(b), PolyOf(c));
    PolyOfTimes(b, a);
    PolyOfTimes(c, a);
    PolyOfXor(Times(b, a), Times(c, a));
    BlockOfPolyOf(Xor(Times(b, a), Times(c, a)));
  }

  lemma TimesZero(a: Block)
    ensures Times(ZeroBytes(16), a) == ZeroBytes(16)
  {
    assert PolyOf(ZeroBytes(16)) == ZERO;
    hide PolyOf, BlockOf, Mul;
    MulZero(PolyOf(a));
    BlockOfPolyOf(ZeroBytes(16));
  }

  lemma PowerZero(a: Block, h: Block)
    ensures Times(a, Power(h, 0)) == a
  {
    hide PolyOf, BlockOf, Mul;
    PolyOfBlockOf(ONE);
    MulOne(PolyOf(a));
    BlockOfPolyOf(a);
  }

  lemma PowerStep(h: Block, n: nat)
    ensures Power(h, n + 1) == Times(h, Power(h, n))
  {
    hide PolyOf, BlockOf, Mul;
    PolyOfBlockOf(Pow(PolyOf(h), n));
  }

  lemma PowerSquare(h: Block, n: nat)
    ensures Power(Times(h, h), n) == Power(h, 2 * n)
  {
    hide PolyOf, BlockOf, Mul;
    PolyOfTimes(h, h);
    PowSquare(PolyOf(h), n);
  }
}
