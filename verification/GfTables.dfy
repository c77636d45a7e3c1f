/** What the lookup tables of gf128mul.c hold, and how a product is put together from them. */
module GfTables {
  import opened Bytes
  import opened Octets
  import opened Gf128
  import opened LbBlocks
  import opened GfMulLo

  /** The w low bits of n, most significant first: the polynomial that the index n stands for. */
  function IndexPoly(n: nat, w: nat): (p: Poly)
    ensures |p| == w
  {
    if w == 0 then [] else IndexPoly(n / 2, w - 1) + [n % 2 == 1]
  }

  function Val(c: bool, w: nat): nat {
    if c then w else 0
  }

  lemma IndexBit(n: nat, c: bool, w: nat)
    ensures IndexPoly(2 * n + Val(c, 1), w + 1) == IndexPoly(n, w) + [c]
  {
  }

  /** g times the polynomial of the index n. */
  function Entry(g: Block, n: nat, w: nat): Block {
    BlockOf(Act(IndexPoly(n, w), PolyOf(g)))
  }

  /** The number of entries of a table over w-bit indices. */
  function Size(w: nat): (r: nat)
    ensures r >= 1
  {
    if w == 0 then 1 else 2 * Size(w - 1)
  }

  lemma {:induction false} SizeGrows(d: nat, e: nat)
    requires d < e
    ensures 2 * Size(d) <= Size(e)
  {
    if d + 1 < e {
      SizeGrows(d, e - 1);
    }
  }

  /* ----- the three ways an entry is computed ----- */

  lemma {:induction false} IndexPolyZero(w: nat, v: Elem)
    ensures Act(IndexPoly(0, w), v) == ZERO
  {
    if w > 0 {
      IndexPolyZero(w - 1, v);
      ActConcat(IndexPoly(0, w - 1), [false], v);
      NoTerm(w - 1, v);
      AddZero(ZERO);
    }
  }

  lemma {:induction false} XPowZero(n: nat)
    ensures XPow(n, ZERO) == ZERO
  {
    if n > 0 {
      XPowZero(n - 1);
      MulXZero();
    }
  }

  /** A last coefficient of zero contributes nothing. */
  lemma NoTerm(n: nat, v: Elem)
    ensures XPow(n, Act([false], v)) == ZERO
  {
    MulXZero();
    AddZero(ZERO);
    assert [false][1..] == [];
    XPowZero(n);
  }

  lemma EntryZero(g: Block, w: nat)
    ensures Entry(g, 0, w) == ZeroBytes(16)
  {
    IndexPolyZero(w, PolyOf(g));
    assert PolyOf(ZeroBytes(16)) == ZERO;
    BlockOfPolyOf(ZeroBytes(16));
  }

  /** The index with only its top bit set is the unit multiplier. */
  lemma {:induction false} IndexPolyTop(w: nat)
    requires w > 0
    ensures Size(w - 1) % 2 == 0 || w == 1
    ensures IndexPoly(Size(w - 1), w) == [true] + Zeros(w - 1)
  {
    if w > 1 {
      IndexPolyTop(w - 1);
      assert Size(w - 1) / 2 == Size(w - 2);
    } else {
      assert IndexPoly(0, 0) == [];
    }
  }

  lemma {:induction false} ActZeros(n: nat, v: Elem)
    ensures Act(Zeros(n), v) == ZERO
  {
    if n > 0 {
      assert Zeros(n)[1..] == Zeros(n - 1);
      ActZeros(n - 1, v);
      MulXZero();
      AddZero(ZERO);
    }
  }

  lemma EntryTop(g: Block, w: nat)
    requires w > 0
    ensures Entry(g, Size(w - 1), w) == g
  {
    hide PolyOf, BlockOf, MulX, Add;
    IndexPolyTop(w);
    var p := [true] + Zeros(w - 1);
    assert p[1..] == Zeros(w - 1);
    ActZeros(w - 1, PolyOf(g));
    MulXZero();
    AddZero(PolyOf(g));
    BlockOfPolyOf(g);
  }

  /** An index that does not use its top bit. */
  lemma {:induction false} IndexPolyWider(n: nat, w: nat)
    requires n < Size(w)
    ensures IndexPoly(n, w + 1) == [false] + IndexPoly(n, w)
  {
    if w == 0 {
      assert IndexPoly(0, 1) == IndexPoly(0, 0) + [false];
    } else {
      IndexPolyWider(n / 2, w - 1);
      var c := n % 2 == 1;
      assert IndexPoly(n, w + 1) == IndexPoly(n / 2, w) + [c];
      assert IndexPoly(n, w) == IndexPoly(n / 2, w - 1) + [c];
    }
  }

  /** One bit lower multiplies by x. */
  lemma EntryHalf(g: Block, e: nat, w: nat)
    requires e + 1 < w
    ensures Entry(g, Size(e), w) == TimesX(1, Entry(g, Size(e + 1), w))
  {
    hide PolyOf, BlockOf, MulX, Add;
    var n, v := Size(e + 1), PolyOf(g);
    var p := IndexPoly(Size(e), w - 1);
    if e + 1 < w - 1 {
      SizeGrows(e, w - 1);
    }
    IndexPolyWider(Size(e), w - 1);
    assert IndexPoly(n, w) == p + [false];
    hide IndexPoly, Size;
    ActConcat(p, [false], v);
    NoTerm(|p|, v);
    AddZero(Act(p, v));
    assert ([false] + p)[1..] == p;
    AddZero(MulX(Act(p, v)));
    PolyOfBlockOf(Act(IndexPoly(n, w), v));
    assert XPow(0, Act(p, v)) == Act(p, v);
  }

  /** Indices without a common bit add as polynomials. */
  lemma {:induction false} IndexPolySum(e: nat, k: nat, w: nat)
    requires k < Size(e)
    ensures IndexPoly(Size(e) + k, w) == PolyAdd(IndexPoly(Size(e), w), IndexPoly(k, w))
  {
    if w > 0 {
      if e == 0 {
        IndexPolyPlusZero(1, w);
      } else {
        var h, c := k / 2, k % 2 == 1;
        assert k == 2 * h + Val(c, 1);
        IndexPolySum(e - 1, h, w - 1);
        IndexPolySumStep(Size(e - 1), h, c, w - 1);
      }
    }
  }

  lemma IndexPolySumStep(j: nat, h: nat, c: bool, w: nat)
    requires IndexPoly(j + h, w) == PolyAdd(IndexPoly(j, w), IndexPoly(h, w))
    ensures IndexPoly(2 * j + (2 * h + Val(c, 1)), w + 1)
         == PolyAdd(IndexPoly(2 * j, w + 1), IndexPoly(2 * h + Val(c, 1), w + 1))
  {
    hide IndexPoly;
    var p, q := IndexPoly(j, w), IndexPoly(h, w);
    IndexBit(j + h, c, w);
    IndexBit(j, false, w);
    IndexBit(h, c, w);
    assert 2 * (j + h) + Val(c, 1) == 2 * j + (2 * h + Val(c, 1));
    assert PolyAdd(p + [false], q + [c]) == PolyAdd(p, q) + [c];
  }

  lemma {:induction false} IndexPolyPlusZero(n: nat, w: nat)
    ensures IndexPoly(n, w) == PolyAdd(IndexPoly(n, w), IndexPoly(0, w))
  {
    if w > 0 {
      IndexPolyPlusZero(n / 2, w - 1);
      var p, q := IndexPoly(n / 2, w - 1), IndexPoly(0, w - 1);
      assert PolyAdd(p + [n % 2 == 1], q + [false]) == PolyAdd(p, q) + [n % 2 == 1];
    }
  }

  lemma EntrySum(g: Block, e: nat, k: nat, w: nat)
    requires k < Size(e)
    ensures Entry(g, Size(e) + k, w) == Xor(Entry(g, Size(e), w), Entry(g, k, w))
  {
    hide PolyOf, BlockOf, Act, Add, Xor, IndexPoly, Size;
    var j, v := Size(e), PolyOf(g);
    IndexPolySum(e, k, w);
    ActPolyAdd(IndexPoly(j, w), IndexPoly(k, w), v);
    PolyOfBlockOf(Act(IndexPoly(j, w), v));
    PolyOfBlockOf(Act(IndexPoly(k, w), v));
    PolyOfXor(Entry(g, j, w), Entry(g, k, w));
    BlockOfPolyOf(Xor(Entry(g, j, w), Entry(g, k, w)));
  }

  /** A table for x^e * g is the table for g multiplied by x^e. */
  lemma EntryTimesX(g: Block, n: nat, w: nat, e: nat)
    ensures Entry(TimesX(e, g), n, w) == TimesX(e, Entry(g, n, w))
  {
    hide PolyOf, BlockOf, Act, IndexPoly, XPow;
    var p, v := IndexPoly(n, w), PolyOf(g);
    PolyOfBlockOf(XPow(e, v));
    PolyOfBlockOf(Act(p, v));
    ActXPow(p, e, v);
  }

  lemma TimesXSum(m: nat, n: nat, b: Block)
    ensures TimesX(m, TimesX(n, b)) == TimesX(m + n, b)
  {
    hide PolyOf, BlockOf, XPow;
    PolyOfBlockOf(XPow(n, PolyOf(b)));
    XPowSum(m, n, PolyOf(b));
  }

  lemma TimesXNone(b: Block)
    ensures TimesX(0, b) == b
  {
    hide PolyOf, BlockOf;
    BlockOfPolyOf(b);
  }

  lemma TimesXXor(n: nat, a: Block, b: Block)
    ensures TimesX(n, Xor(a, b)) == Xor(TimesX(n, a), TimesX(n, b))
  {
    hide PolyOf, BlockOf, XPow, Add, Xor;
    PolyOfXor(a, b);
    XPowAdd(n, PolyOf(a), PolyOf(b));
    PolyOfBlockOf(XPow(n, PolyOf(a)));
    PolyOfBlockOf(XPow(n, PolyOf(b)));
    PolyOfXor(TimesX(n, a), TimesX(n, b));
    BlockOfPolyOf(Xor(TimesX(n, a), TimesX(n, b)));
  }

  /* ----- indices taken from a byte ----- */

  function LowIndex(b: bv8): (r: nat)
    ensures r < 16
  {
    (b & 15) as nat
  }

  function HighIndex(b: bv8): (r: nat)
    ensures r < 16
  {
    (b >> 4) as nat
  }

  lemma ByteValue(b: bv8)
    ensures Value(b) == 16 * HighIndex(b) + LowIndex(b)
  {
  }

  lemma LowNibbleValue(b: bv8)
    ensures LowIndex(b) == Val(Bit(b, 4), 8) + Val(Bit(b, 5), 4) + Val(Bit(b, 6), 2) + Val(Bit(b, 7), 1)
  {
  }

  lemma HighNibbleValue(b: bv8)
    ensures HighIndex(b) == Val(Bit(b, 0), 8) + Val(Bit(b, 1), 4) + Val(Bit(b, 2), 2) + Val(Bit(b, 3), 1)
  {
  }

  lemma NibbleIndex(n: nat, m: nat, w: nat, c0: bool, c1: bool, c2: bool, c3: bool)
    requires n == 16 * m + Val(c0, 8) + Val(c1, 4) + Val(c2, 2) + Val(c3, 1)
    ensures IndexPoly(n, w + 4) == IndexPoly(m, w) + [c0, c1, c2, c3]
  {
    hide IndexPoly;
    var n1 := 2 * m + Val(c0, 1);
    var n2 := 2 * n1 + Val(c1, 1);
    var n3 := 2 * n2 + Val(c2, 1);
    IndexBit(m, c0, w);
    IndexBit(n1, c1, w + 1);
    IndexBit(n2, c2, w + 2);
    IndexBit(n3, c3, w + 3);
  }

  /** A byte and its two nibbles used as table indices. */
  lemma IndexOfHigh(b: bv8)
    ensures IndexPoly(HighIndex(b), 4) == ByteBits(b)[..4]
  {
    hide Bit, Val, HighIndex;
    HighNibbleValue(b);
    NibbleIndex(HighIndex(b), 0, 0, Bit(b, 0), Bit(b, 1), Bit(b, 2), Bit(b, 3));
  }

  lemma IndexOfLow(b: bv8)
    ensures IndexPoly(LowIndex(b), 4) == ByteBits(b)[4..]
  {
    hide Bit, Val, LowIndex;
    LowNibbleValue(b);
    NibbleIndex(LowIndex(b), 0, 0, Bit(b, 4), Bit(b, 5), Bit(b, 6), Bit(b, 7));
  }

  lemma IndexOfByte(b: bv8)
    ensures IndexPoly(Value(b), 8) == ByteBits(b)
  {
    hide Bit, Val, LowIndex, HighIndex, Value, IndexPoly;
    ByteValue(b);
    LowNibbleValue(b);
    IndexOfHigh(b);
    NibbleIndex(Value(b), HighIndex(b), 4, Bit(b, 4), Bit(b, 5), Bit(b, 6), Bit(b, 7));
  }

  /* ----- a product by Horner's rule over the bytes of one factor ----- */

  /** g times the polynomial of one byte. */
  function ByteTimes(b: bv8, g: Block): Block {
    BlockOf(Act(ByteBits(b), PolyOf(g)))
  }

  /** g times the part of a from byte i up, divided by x^(8 * i). */
  function Tail(a: Block, g: Block, i: nat): Block
    requires i <= 16
  {
    BlockOf(Act(PolyOf(a)[8 * i..], PolyOf(g)))
  }

  lemma TailNone(a: Block, g: Block)
    ensures Tail(a, g, 16) == ZeroBytes(16)
  {
    assert PolyOf(a)[128..] == [];
    assert PolyOf(ZeroBytes(16)) == ZERO;
    BlockOfPolyOf(ZeroBytes(16));
  }

  lemma TailAll(a: Block, g: Block)
    ensures Tail(a, g, 0) == Times(a, g)
  {
    assert PolyOf(a)[0..] == PolyOf(a);
  }

  lemma BitsFrom(a: Block, i: nat)
    requires i < 16
    ensures PolyOf(a)[8 * i..] == ByteBits(a[i]) + PolyOf(a)[8 * (i + 1)..]
  {
    hide PolyOf, Bit;
    forall m: nat | m < 8
      ensures PolyOf(a)[8 * i + m] == ByteBits(a[i])[m]
    {
      PolyOfAt(a, i, m);
    }
  }

  lemma TailStep(a: Block, g: Block, i: nat)
    requires i < 16
    ensures Tail(a, g, i) == Xor(ByteTimes(a[i], g), TimesX(8, Tail(a, g, i + 1)))
  {
    hide PolyOf, BlockOf, Act, Add, Xor, XPow;
    var v := PolyOf(g);
    var low, high := ByteBits(a[i]), PolyOf(a)[8 * (i + 1)..];
    BitsFrom(a, i);
    ActConcat(low, high, v);
    PolyOfBlockOf(Act(low, v));
    PolyOfBlockOf(Act(high, v));
    PolyOfBlockOf(XPow(8, Act(high, v)));
    PolyOfXor(ByteTimes(a[i], g), TimesX(8, Tail(a, g, i + 1)));
    BlockOfPolyOf(Xor(ByteTimes(a[i], g), TimesX(8, Tail(a, g, i + 1))));
  }

  /** A byte product from the byte table, and from the nibble table. */
  lemma ByteTimesFromTable(b: bv8, g: Block)
    ensures ByteTimes(b, g) == Entry(g, Value(b), 8)
    ensures ByteTimes(b, g) == Xor(Entry(g, HighIndex(b), 4), TimesX(4, Entry(g, LowIndex(b), 4)))
  {
    hide PolyOf, BlockOf, Act, Add, Xor, XPow, IndexPoly;
    var v := PolyOf(g);
    var low, high := ByteBits(b)[..4], ByteBits(b)[4..];
    IndexOfByte(b);
    IndexOfHigh(b);
    IndexOfLow(b);
    assert ByteBits(b) == low + high;
    ActConcat(low, high, v);
    PolyOfBlockOf(Act(low, v));
    PolyOfBlockOf(Act(high, v));
    PolyOfBlockOf(XPow(4, Act(high, v)));
    var r := Xor(Entry(g, HighIndex(b), 4), TimesX(4, Entry(g, LowIndex(b), 4)));
    PolyOfXor(Entry(g, HighIndex(b), 4), TimesX(4, Entry(g, LowIndex(b), 4)));
    BlockOfPolyOf(r);
  }

  /** g times the first m coefficients of a byte. */
  function PartTimes(b: bv8, m: nat, g: Block): Block
    requires m <= 8
  {
    BlockOf(Act(ByteBits(b)[..m], PolyOf(g)))
  }

  lemma PartTimesEnds(b: bv8, g: Block)
    ensures PartTimes(b, 0, g) == ZeroBytes(16)
    ensures PartTimes(b, 8, g) == ByteTimes(b, g)
  {
    assert ByteBits(b)[..0] == [] && ByteBits(b)[..8] == ByteBits(b);
    assert PolyOf(ZeroBytes(16)) == ZERO;
    BlockOfPolyOf(ZeroBytes(16));
  }

  lemma PartTimesStep(b: bv8, m: nat, g: Block)
    requires m < 8
    ensures PartTimes(b, m + 1, g) ==
            if Bit(b, m) then Xor(PartTimes(b, m, g), TimesX(m, g)) else PartTimes(b, m, g)
  {
    hide PolyOf, BlockOf, Add, Xor, MulX, Bit;
    var v, p := PolyOf(g), ByteBits(b)[..m];
    assert ByteBits(b)[..m + 1] == p + [Bit(b, m)];
    ActConcat(p, [Bit(b, m)], v);
    if Bit(b, m) {
      assert [true][1..] == [];
      MulXZero();
      AddZero(v);
      assert Act([true], v) == v;
      PolyOfBlockOf(Act(p, v));
      PolyOfBlockOf(XPow(m, v));
      PolyOfXor(PartTimes(b, m, g), TimesX(m, g));
      BlockOfPolyOf(Xor(PartTimes(b, m, g), TimesX(m, g)));
    } else {
      NoTerm(m, v);
      AddZero(Act(p, v));
    }
  }
}
