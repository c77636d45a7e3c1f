/** The multiplications by x, x^4 and x^8 of gf_mul_lo.h on packed words: LB representation,
    32-bit units, little endian. */
module GfMulLo {
  import opened Bytes
  import opened Gf128
  import opened LbBlocks

  function Part(i: bv8, mask: bv8, w: bv16): bv16 {
    if i & mask != 0 then w else 0
  }

  /** gf_uint16_xor, the contents of gf_tab: what the overflow byte i reduces to. */
  function GfTab(i: bv8): bv16 {
    Part(i, 0x80, 0x00e1) ^ Part(i, 0x40, 0x8070) ^ Part(i, 0x20, 0x4038) ^ Part(i, 0x10, 0x201c) ^
    Part(i, 0x08, 0x100e) ^ Part(i, 0x04, 0x0807) ^ Part(i, 0x02, 0x8403) ^ Part(i, 0x01, 0xc201)
  }

  function Lo(w: bv16): bv8 {
    (w & 0xff) as bv8
  }

  function Hi(w: bv16): bv8 {
    ((w >> 8) & 0xff) as bv8
  }

  /* ----- the same on bytes, for any shift s of at most eight places ----- */

  /** A byte moved s places towards higher powers of x, taking in the s highest powers of prev. */
  function Carry(b: bv8, prev: bv8, s: bv8): bv8 {
    if s <= 8 then (b >> s) | (prev << (8 - s)) else 0
  }

  /** What the s highest coefficients reduce to. */
  function Overflow(last: bv8, s: bv8): bv16 {
    if s <= 8 then GfTab(last << (8 - s)) else 0
  }

  function ShiftByte(b: Block, s: bv8, k: nat): bv8 {
    if k == 0 then Xor8(Carry(b[0], 0, s), Lo(Overflow(b[15], s)))
    else if k == 1 then Xor8(Carry(b[1], b[0], s), Hi(Overflow(b[15], s)))
    else Carry(ByteAt(b, k), ByteAt(b, k - 1), s)
  }

  /** The block shifted by s places, reduced. */
  function Shift(b: Block, s: bv8): Block {
    seq(16, (k: nat) => ShiftByte(b, s, k))
  }

  /** One coefficient more falls out: the others move down one place in the overflow byte. */
  lemma NextPlace(last: bv8, s: bv8)
    requires s < 8
    ensures last << (7 - s) == Xor8((last << (8 - s)) >> 1, (last >> s) << 7)
    ensures (last << (8 - s)) & 1 == 0
    ensures (last >> s) << 7 in {0, 0x80}
  {
  }

  /** The table entry of a byte moved down one place is the entry shifted once. */
  lemma TabHalf(j: bv8)
    requires j & 1 == 0
    ensures Lo(GfTab(j >> 1)) == Lo(GfTab(j)) >> 1
    ensures Hi(GfTab(j >> 1)) == Carry(Hi(GfTab(j)), Lo(GfTab(j)), 1)
  {
  }

  lemma TabTop(j: bv8)
    requires j < 0x80
    ensures GfTab(Xor8(j, 0x80)) == Xor16(GfTab(j), GfTab(0x80))
  {
  }

  lemma TabNone(j: bv8, u: bv16)
    ensures GfTab(0) == 0 && Xor8(j, 0) == j && Xor16(u, 0) == u
  {
  }

  lemma TabSplit(j: bv8, t: bv8)
    requires j < 0x80 && t in {0, 0x80}
    ensures GfTab(Xor8(j, t)) == Xor16(GfTab(j), GfTab(t))
  {
    hide GfTab, Xor8, Xor16;
    if t == 0 {
      TabNone(j, GfTab(j));
    } else {
      TabTop(j);
    }
  }

  lemma HalvesXor(u: bv16, v: bv16)
    ensures Lo(Xor16(u, v)) == Xor8(Lo(u), Lo(v)) && Hi(Xor16(u, v)) == Xor8(Hi(u), Hi(v))
  {
  }

  lemma HalfBelow(j: bv8)
    ensures j >> 1 < 0x80
  {
  }

  lemma TabNext(j: bv8, t: bv8)
    requires j & 1 == 0 && t in {0, 0x80}
    ensures Lo(GfTab(Xor8(j >> 1, t))) == Xor8(Lo(GfTab(j)) >> 1, Lo(GfTab(t)))
    ensures Hi(GfTab(Xor8(j >> 1, t))) == Xor8(Carry(Hi(GfTab(j)), Lo(GfTab(j)), 1), Hi(GfTab(t)))
  {
    hide GfTab, Lo, Hi, Carry, Xor8, Xor16;
    TabHalf(j);
    HalfBelow(j);
    TabSplit(j >> 1, t);
    HalvesXor(GfTab(j >> 1), GfTab(t));
  }

  lemma OverflowIs(last: bv8, s: bv8)
    requires s < 8
    ensures Overflow(last, s) == GfTab(last << (8 - s)) && Overflow(last, s + 1) == GfTab(last << (7 - s))
  {
    hide GfTab;
  }

  /** The table entry for one more place is the entry shifted once, plus the newly lost coefficient. */
  lemma OverflowStep(last: bv8, s: bv8)
    requires s < 8
    ensures Lo(Overflow(last, s + 1)) == Xor8(Lo(Overflow(last, s)) >> 1, Lo(GfTab((last >> s) << 7)))
    ensures Hi(Overflow(last, s + 1))
         == Xor8(Carry(Hi(Overflow(last, s)), Lo(Overflow(last, s)), 1), Hi(GfTab((last >> s) << 7)))
  {
    hide *;
    OverflowIs(last, s);
    NextPlace(last, s);
    TabNext(last << (8 - s), (last >> s) << 7);
  }

  lemma NextOverflow(b15: bv8, b14: bv8, s: bv8)
    requires s < 8
    ensures Carry(b15, b14, s) << 7 == (b15 >> s) << 7
  {
  }

  lemma StepByte2(b0: bv8, b1: bv8, b2: bv8, b15: bv8, s: bv8)
    requires s < 8
    ensures Carry(b2, b1, s + 1)
         == Carry(Carry(b2, b1, s), Xor8(Carry(b1, b0, s), Hi(Overflow(b15, s))), 1)
  {
  }

  lemma StepByte(b0: bv8, b1: bv8, b2: bv8, s: bv8)
    requires s < 8
    ensures Carry(b2, b1, s + 1) == Carry(Carry(b2, b1, s), Carry(b1, b0, s), 1)
  {
  }

  /** Byte 0 of two successive shifts. */
  lemma StepByte0(b0: bv8, b14: bv8, b15: bv8, s: bv8)
    requires s < 8
    ensures Xor8(Carry(b0, 0, s + 1), Lo(Overflow(b15, s + 1)))
         == Xor8(Carry(Xor8(Carry(b0, 0, s), Lo(Overflow(b15, s))), 0, 1),
                 Lo(Overflow(Carry(b15, b14, s), 1)))
  {
    hide GfTab, Lo;
    OverflowStep(b15, s);
    NextOverflow(b15, b14, s);
  }

  lemma StepByte1(b0: bv8, b1: bv8, b14: bv8, b15: bv8, s: bv8)
    requires s < 8
    ensures Xor8(Carry(b1, b0, s + 1), Hi(Overflow(b15, s + 1)))
         == Xor8(Carry(Xor8(Carry(b1, b0, s), Hi(Overflow(b15, s))),
                       Xor8(Carry(b0, 0, s), Lo(Overflow(b15, s))), 1),
                 Hi(Overflow(Carry(b15, b14, s), 1)))
  {
    hide GfTab, Lo, Hi, Carry, Xor8, Overflow;
    var p, q, t := Hi(Overflow(b15, s)), Lo(Overflow(b15, s)), Hi(GfTab((b15 >> s) << 7));
    OverflowStep(b15, s);
    LostCoefficient(b15, b14, s);
    StepByte(0, b0, b1, s);
    NoneBelow(s);
    CarryXor(Carry(b1, b0, s), p, Carry(b0, 0, s), q);
    Xor8Laws(Carry(b1, b0, s + 1), Carry(p, q, 1), t);
  }

  lemma LostCoefficient(b15: bv8, b14: bv8, s: bv8)
    requires s < 8
    ensures Overflow(Carry(b15, b14, s), 1) == GfTab((b15 >> s) << 7)
  {
    hide GfTab, Carry;
    NextOverflow(b15, b14, s);
  }

  lemma NoneBelow(s: bv8)
    requires s < 8
    ensures Carry(0, 0, s) == 0
  {
  }

  lemma CarryXor(a: bv8, p: bv8, b: bv8, q: bv8)
    ensures Carry(Xor8(a, p), Xor8(b, q), 1) == Xor8(Carry(a, b, 1), Carry(p, q, 1))
  {
  }

  /** s + 1 places are s places and then one more. */
  lemma ShiftStep(b: Block, s: bv8)
    requires s < 8
    ensures Shift(b, s + 1) == Shift(Shift(b, s), 1)
  {
    hide Carry, Overflow, Lo, Hi, Xor8;
    forall k: nat | k < 16
      ensures Shift(b, s + 1)[k] == Shift(Shift(b, s), 1)[k]
    {
      if k == 0 {
        StepByte0(b[0], b[14], b[15], s);
      } else if k == 1 {
        StepByte1(b[0], b[1], b[14], b[15], s);
      } else if k == 2 {
        StepByte2(b[0], b[1], b[2], b[15], s);
      } else {
        StepByte(b[k - 2], b[k - 1], b[k], s);
      }
    }
  }

  /* ----- one place is multiplication by x ----- */

  lemma CarryBit(b: bv8, prev: bv8, m: nat)
    requires m < 8
    ensures Bit(Carry(b, prev, 1), m) == if m == 0 then Bit(prev, 7) else Bit(b, m - 1)
  {
  }

  lemma OverflowBit(last: bv8, m: nat)
    requires m < 8
    ensures Bit(Lo(Overflow(last, 1)), m) == (Bit(last, 7) && Tap(m))
    ensures Hi(Overflow(last, 1)) == 0
  {
    assert last & 1 == 0 ==> last << 7 == 0;
    assert last & 1 != 0 ==> last << 7 == 0x80;
  }

  lemma ShiftOneBit(b: Block, k: nat, m: nat)
    requires k < 16 && m < 8
    ensures Bit(ShiftByte(b, 1, k), m) == MulXCoef(PolyOf(b), 8 * k + m)
  {
    hide Carry, Overflow, Lo, Hi, Xor8, Bit, PolyOf;
    OverflowBit(b[15], m);
    PolyOfAt(b, 15, 7);
    var prev := if k == 0 then 0 else b[k - 1];
    CarryBit(b[k], prev, m);
    if m > 0 {
      PolyOfAt(b, k, m - 1);
    } else if k > 0 {
      PolyOfAt(b, k - 1, 7);
    } else {
      ZeroBit(7);
    }
    if k == 0 {
      BitXor(Carry(b[0], 0, 1), Lo(Overflow(b[15], 1)), m);
    } else if k == 1 {
      Xor8Laws(Carry(b[1], b[0], 1), 0, 0);
    }
  }

  lemma ZeroBit(m: nat)
    ensures !Bit(0, m)
  {
  }

  lemma ShiftOneIsMulX(b: Block)
    ensures PolyOf(Shift(b, 1)) == MulX(PolyOf(b))
  {
    hide ShiftByte, Bit, PolyOf, MulXCoef;
    forall n: nat | n < 128
      ensures PolyOf(Shift(b, 1))[n] == MulX(PolyOf(b))[n]
    {
      var k, m := n / 8, n % 8;
      PolyOfAt(Shift(b, 1), k, m);
      ShiftOneBit(b, k, m);
    }
  }

  lemma CarryNone(b: bv8, prev: bv8)
    ensures Carry(b, prev, 0) == b
    ensures Lo(Overflow(b, 0)) == 0 && Hi(Overflow(b, 0)) == 0
  {
    assert b << 8 == 0;
    assert GfTab(0) == 0;
  }

  lemma ShiftNone(b: Block)
    ensures Shift(b, 0) == b
    ensures PolyOf(Shift(b, 0)) == XPow(0, PolyOf(b))
  {
    hide PolyOf, Carry, Overflow, Lo, Hi, Xor8;
    forall k: nat | k < 16
      ensures Shift(b, 0)[k] == b[k]
    {
      CarryNone(b[k], if k == 0 then 0 else b[k - 1]);
      CarryNone(b[15], 0);
      Xor8Laws(b[k], 0, 0);
    }
  }

  /** Multiplication by x^n on blocks. */
  function TimesX(n: nat, b: Block): Block {
    BlockOf(XPow(n, PolyOf(b)))
  }

  lemma ShiftMore(b: Block, s: bv8, n: nat)
    requires s < 8
    requires PolyOf(Shift(b, s)) == XPow(n, PolyOf(b))
    ensures PolyOf(Shift(b, s + 1)) == XPow(n + 1, PolyOf(b))
  {
    hide Shift, PolyOf, MulX;
    ShiftStep(b, s);
    ShiftOneIsMulX(Shift(b, s));
  }

  /** Shifting by one, four and eight places multiplies by x, x^4 and x^8. */
  lemma ShiftIsTimesX(b: Block)
    ensures Shift(b, 1) == TimesX(1, b)
    ensures Shift(b, 4) == TimesX(4, b)
    ensures Shift(b, 8) == TimesX(8, b)
  {
    hide Shift, PolyOf, MulX, BlockOf, XPow;
    ShiftNone(b);
    ShiftMore(b, 0, 0);
    ShiftMore(b, 1, 1);
    ShiftMore(b, 2, 2);
    ShiftMore(b, 3, 3);
    ShiftMore(b, 4, 4);
    ShiftMore(b, 5, 5);
    ShiftMore(b, 6, 6);
    ShiftMore(b, 7, 7);
    BlockOfPolyOf(Shift(b, 1));
    BlockOfPolyOf(Shift(b, 4));
    BlockOfPolyOf(Shift(b, 8));
  }

  /* ----- the word forms ----- */

  /** f1_lb: the next value of a unit from itself and the unit below it. */
  function F1(x: bv32, below: bv32): bv32 {
    ((x >> 1) & !0x80808080) | (((x << 15) | (below >> 17)) & 0x80808080)
  }

  /** f4_lb */
  function F4(x: bv32, below: bv32): bv32 {
    ((x >> 4) & !0xf0f0f0f0) | (((x << 12) | (below >> 20)) & 0xf0f0f0f0)
  }

  /** f8_lb */
  function F8(x: bv32, below: bv32): bv32 {
    (x << 8) | (below >> 24)
  }

  /** Unit w is unit x shifted by s places, when `below` is the unit under x. */
  predicate UnitShifted(w: bv32, x: bv32, below: bv32, s: bv8) {
    && B0(w) == Carry(B0(x), B3(below), s)
    && B1(w) == Carry(B1(x), B0(x), s)
    && B2(w) == Carry(B2(x), B1(x), s)
    && B3(w) == Carry(B3(x), B2(x), s)
  }

  lemma F1Shifts(x: bv32, below: bv32)
    ensures UnitShifted(F1(x, below), x, below, 1)
  {
  }

  lemma F4Shifts(x: bv32, below: bv32)
    ensures UnitShifted(F4(x, below), x, below, 4)
  {
  }

  lemma F8Shifts(x: bv32, below: bv32)
    ensures UnitShifted(F8(x, below), x, below, 8)
  {
  }

  /** The table index that each macro takes from unit 3. */
  function Index1(x: bv32): bv8 {
    ((x >> 17) & 0x80808080) as bv8
  }

  function Index4(x: bv32): bv8 {
    ((x >> 20) & 0xf0f0f0f0) as bv8
  }

  function Index8(x: bv32): bv8 {
    (x >> 24) as bv8
  }

  lemma OverflowOfUnit(x: bv32)
    ensures GfTab(Index1(x)) == Overflow(B3(x), 1)
    ensures GfTab(Index4(x)) == Overflow(B3(x), 4)
    ensures GfTab(Index8(x)) == Overflow(B3(x), 8)
  {
    hide GfTab;
    assert Index1(x) == B3(x) << 7;
    assert Index4(x) == B3(x) << 4;
    assert Index8(x) == B3(x) << 0;
  }

  function Wide(t: bv16): bv32 {
    t as bv32
  }

  lemma BytesOfWide(t: bv16)
    ensures B0(Wide(t)) == Lo(t) && B1(Wide(t)) == Hi(t)
    ensures B2(Wide(t)) == 0 && B3(Wide(t)) == 0
  {
  }

  /** Unit n of a buffer. */
  function UnitAt(b: Block, n: nat): bv32
    requires n < 4
  {
    Load(b, 4 * n)
  }

  lemma BytesOfUnit(b: Block, n: nat)
    requires n < 4
    ensures B0(UnitAt(b, n)) == b[4 * n]
    ensures B1(UnitAt(b, n)) == b[4 * n + 1]
    ensures B2(UnitAt(b, n)) == b[4 * n + 2]
    ensures B3(UnitAt(b, n)) == b[4 * n + 3]
  {
    hide Word, B0, B1, B2, B3;
    BytesOfWord(b[4 * n], b[4 * n + 1], b[4 * n + 2], b[4 * n + 3]);
  }

  /** The four bytes of unit n are those of the shifted block. */
  ghost predicate UnitDone(was: Block, now: Block, s: bv8, n: nat)
    requires n < 4
  {
    forall k: nat :: 4 * n <= k < 4 * n + 4 ==> now[k] == ShiftByte(was, s, k)
  }

  lemma HighUnitDone(was: Block, now: Block, s: bv8, n: nat)
    requires 0 < n < 4
    requires UnitShifted(UnitAt(now, n), UnitAt(was, n), UnitAt(was, n - 1), s)
    ensures UnitDone(was, now, s, n)
  {
    hide UnitAt, B0, B1, B2, B3, Carry;
    BytesOfUnit(was, n - 1);
    BytesOfUnit(was, n);
    BytesOfUnit(now, n);
  }

  lemma NoCarryIn()
    ensures B3(0) == 0
  {
  }

  lemma LowUnitDone(was: Block, now: Block, s: bv8, w0: bv32)
    requires UnitShifted(w0, UnitAt(was, 0), 0, s)
    requires UnitAt(now, 0) == Xor32(w0, Wide(Overflow(was[15], s)))
    ensures UnitDone(was, now, s, 0)
  {
    hide UnitAt, B0, B1, B2, B3, Carry, Xor8, Xor32, Overflow, Wide, Lo, Hi;
    NoCarryIn();
    var t := Overflow(was[15], s);
    BytesOfWide(t);
    BytesOfXor(w0, Wide(t));
    Xor8Laws(B2(w0), 0, 0);
    Xor8Laws(B3(w0), 0, 0);
    BytesOfUnit(was, 0);
    BytesOfUnit(now, 0);
  }

  /** Four shifted units with the reduced overflow added to unit 0 are the shifted block. */
  lemma Assemble(was: Block, now: Block, s: bv8, w0: bv32)
    requires UnitShifted(UnitAt(now, 3), UnitAt(was, 3), UnitAt(was, 2), s)
    requires UnitShifted(UnitAt(now, 2), UnitAt(was, 2), UnitAt(was, 1), s)
    requires UnitShifted(UnitAt(now, 1), UnitAt(was, 1), UnitAt(was, 0), s)
    requires UnitShifted(w0, UnitAt(was, 0), 0, s)
    requires UnitAt(now, 0) == Xor32(w0, Wide(Overflow(was[15], s)))
    ensures now == Shift(was, s)
  {
    hide UnitShifted, UnitAt, Xor32, Wide, Overflow, ShiftByte;
    HighUnitDone(was, now, s, 3);
    HighUnitDone(was, now, s, 2);
    HighUnitDone(was, now, s, 1);
    LowUnitDone(was, now, s, w0);
  }

  method StoreUnit(a: array<bv8>, n: nat, w: bv32)
    requires n < 4 && a.Length == 16
    modifies a
    ensures UnitAt(a[..], n) == w
    ensures forall k: nat :: k < 4 && k != n ==> UnitAt(a[..], k) == old(UnitAt(a[..], k))
  {
    hide Word, B0, B1, B2, B3;
    Store(a, 4 * n, w);
    WordOfBytes(w);
  }

  /** gf_mulx1_lb. The two buffers may be the same one: units are written from 3 down to 0. */
  method MulX1(r: array<bv8>, x: array<bv8>)
    requires r.Length == 16 == x.Length
    modifies r
    ensures r[..] == TimesX(1, old(x[..]))
  {
    hide *;
    ghost var was: Block := x[..];
    var tt := GfTab(Index1(UnitAt(x[..], 3)));
    StoreUnit(r, 3, F1(UnitAt(x[..], 3), UnitAt(x[..], 2)));
    StoreUnit(r, 2, F1(UnitAt(x[..], 2), UnitAt(x[..], 1)));
    StoreUnit(r, 1, F1(UnitAt(x[..], 1), UnitAt(x[..], 0)));
    StoreUnit(r, 0, F1(UnitAt(x[..], 0), 0));
    StoreUnit(r, 0, Xor32(UnitAt(r[..], 0), Wide(tt)));
    F1Shifts(UnitAt(was, 3), UnitAt(was, 2));
    F1Shifts(UnitAt(was, 2), UnitAt(was, 1));
    F1Shifts(UnitAt(was, 1), UnitAt(was, 0));
    F1Shifts(UnitAt(was, 0), 0);
    BytesOfUnit(was, 3);
    OverflowOfUnit(UnitAt(was, 3));
    Assemble(was, r[..], 1, F1(UnitAt(was, 0), 0));
    ShiftIsTimesX(was);
  }

  /** gf_mulx4_lb, in place. */
  method MulX4(x: array<bv8>)
    requires x.Length == 16
    modifies x
    ensures x[..] == TimesX(4, old(x[..]))
  {
    hide *;
    ghost var was: Block := x[..];
    var tt := GfTab(Index4(UnitAt(x[..], 3)));
    StoreUnit(x, 3, F4(UnitAt(x[..], 3), UnitAt(x[..], 2)));
    StoreUnit(x, 2, F4(UnitAt(x[..], 2), UnitAt(x[..], 1)));
    StoreUnit(x, 1, F4(UnitAt(x[..], 1), UnitAt(x[..], 0)));
    StoreUnit(x, 0, F4(UnitAt(x[..], 0), 0));
    StoreUnit(x, 0, Xor32(UnitAt(x[..], 0), Wide(tt)));
    F4Shifts(UnitAt(was, 3), UnitAt(was, 2));
    F4Shifts(UnitAt(was, 2), UnitAt(was, 1));
    F4Shifts(UnitAt(was, 1), UnitAt(was, 0));
    F4Shifts(UnitAt(was, 0), 0);
    BytesOfUnit(was, 3);
    OverflowOfUnit(UnitAt(was, 3));
    Assemble(was, x[..], 4, F4(UnitAt(was, 0), 0));
    ShiftIsTimesX(was);
  }

  /** gf_mulx8_lb, in place. */
  method MulX8(x: array<bv8>)
    requires x.Length == 16
    modifies x
    ensures x[..] == TimesX(8, old(x[..]))
  {
    hide *;
    ghost var was: Block := x[..];
    var tt := GfTab(Index8(UnitAt(x[..], 3)));
    StoreUnit(x, 3, F8(UnitAt(x[..], 3), UnitAt(x[..], 2)));
    StoreUnit(x, 2, F8(UnitAt(x[..], 2), UnitAt(x[..], 1)));
    StoreUnit(x, 1, F8(UnitAt(x[..], 1), UnitAt(x[..], 0)));
    StoreUnit(x, 0, F8(UnitAt(x[..], 0), 0));
    StoreUnit(x, 0, Xor32(UnitAt(x[..], 0), Wide(tt)));
    F8Shifts(UnitAt(was, 3), UnitAt(was, 2));
    F8Shifts(UnitAt(was, 2), UnitAt(was, 1));
    F8Shifts(UnitAt(was, 1), UnitAt(was, 0));
    F8Shifts(UnitAt(was, 0), 0);
    BytesOfUnit(was, 3);
    OverflowOfUnit(UnitAt(was, 3));
    Assemble(was, x[..], 8, F8(UnitAt(was, 0), 0));
    ShiftIsTimesX(was);
  }
}
