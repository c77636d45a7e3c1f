/** The idempotents of the ring: an element that is its own square is 0 or 1.

    The 128 equations e = e^2 are linear in the coefficients of e. Most of them express, one after the
    other, every coefficient but the first as a sum of ten chosen ones; ten of the rest force those ten
    to vanish. A sum of chosen coefficients is written as a bit mask. */
module GfIdempotent {
  import opened Bytes
  import opened Gf128
  import opened GfSquare

  predicate Odd16(m: bv16) {
    m & 1 != 0
  }

  function Half(m: bv16): bv16 {
    m >> 1
  }

  /** The sum of the coefficients in c that m selects. */
  predicate Dot(c: seq<bool>, m: bv16) {
    c != [] && ((c[0] && Odd16(m)) != Dot(c[1..], Half(m)))
  }

  lemma OddXor(a: bv16, b: bv16)
    ensures Odd16(Xor16(a, b)) == (Odd16(a) != Odd16(b))
  {
  }

  lemma HalfXor(a: bv16, b: bv16)
    ensures Half(Xor16(a, b)) == Xor16(Half(a), Half(b))
  {
  }

  lemma {:induction false} DotXor(c: seq<bool>, a: bv16, b: bv16)
    ensures Dot(c, Xor16(a, b)) == (Dot(c, a) != Dot(c, b))
  {
    hide Odd16, Half, Xor16;
    if c != [] {
      OddXor(a, b);
      HalfXor(a, b);
      DotXor(c[1..], Half(a), Half(b));
    }
  }

  lemma {:induction false} DotNone(c: seq<bool>)
    ensures !Dot(c, 0)
  {
    if c != [] {
      DotNone(c[1..]);
    }
  }

  function UnitMask(k: nat): bv16
    requires k < 10
  {
    [1 as bv16, 2, 4, 8, 16, 32, 64, 128, 256, 512][k]
  }

  lemma UnitHalf(k: nat)
    requires 0 < k < 10
    ensures !Odd16(UnitMask(k)) && Half(UnitMask(k)) == UnitMask(k - 1)
  {
    assert k in {1, 2, 3, 4, 5, 6, 7, 8, 9};
  }

  lemma {:induction false} DotUnit(c: seq<bool>, k: nat)
    requires k < |c| && k < 10
    ensures Dot(c, UnitMask(k)) == c[k]
  {
    if k == 0 {
      DotNone(c[1..]);
    } else {
      UnitHalf(k);
      DotUnit(c[1..], k - 1);
    }
  }

  /** The chosen coefficients. */
  function Chosen(e: Elem): seq<bool> {
    [e[51], e[60], e[83], e[91], e[92], e[105], e[107], e[108], e[123], e[127]]
  }

  /* ----- one equation gives one more coefficient ----- */

  predicate Fixed(e: Elem) {
    forall j: nat :: j < 128 ==> e[j] == SquareCoef(e, j)
  }

  lemma Odd(e: Elem, i: nat)
    requires Fixed(e) && 67 <= i < 128
    ensures e[2 * i - 127] == (e[i] != e[i - 3])
  {
    hide SquareCoef;
    OddCoef(e, i);
  }

  lemma Even(e: Elem, t: nat)
    requires Fixed(e) && 7 <= t < 64
    ensures e[2 * t] == (e[t] != (e[64 + t] != e[63 + t]))
  {
    hide SquareCoef;
    EvenCoef(e, t);
  }

  lemma Two(c: seq<bool>, x: bool, y: bool, a: bv16, b: bv16)
    requires x == Dot(c, a) && y == Dot(c, b)
    ensures (x != y) == Dot(c, Xor16(a, b))
  {
    hide Dot, Xor16;
    DotXor(c, a, b);
  }

  lemma Three(c: seq<bool>, x: bool, y: bool, z: bool, a: bv16, b: bv16, d: bv16)
    requires x == Dot(c, a) && y == Dot(c, b) && z == Dot(c, d)
    ensures ((x != y) != z) == Dot(c, Xor16(Xor16(a, b), d))
  {
    hide Dot, Xor16;
    DotXor(c, a, b);
    DotXor(c, Xor16(a, b), d);
  }

  /** Coefficient i is the sum of the chosen ones that m selects. */
  predicate Known(e: Elem, i: nat, m: bv16) {
    i < 128 && e[i] == Dot(Chosen(e), m)
  }

  lemma OddOut(e: Elem, i: nat, a: bv16, b: bv16)
    requires Fixed(e) && 67 <= i < 128 && Known(e, i, a) && Known(e, i - 3, b)
    ensures Known(e, 2 * i - 127, Xor16(a, b))
  {
    hide Dot, Fixed, Chosen, Xor16;
    Odd(e, i);
    Two(Chosen(e), e[i], e[i - 3], a, b);
  }

  lemma OddUp(e: Elem, i: nat, a: bv16, b: bv16)
    requires Fixed(e) && 67 <= i < 128 && Known(e, 2 * i - 127, a) && Known(e, i - 3, b)
    ensures Known(e, i, Xor16(a, b))
  {
    hide Dot, Fixed, Chosen, Xor16;
    Odd(e, i);
    Two(Chosen(e), e[2 * i - 127], e[i - 3], a, b);
  }

  lemma OddDown(e: Elem, i: nat, a: bv16, b: bv16)
    requires Fixed(e) && 67 <= i < 128 && Known(e, 2 * i - 127, a) && Known(e, i, b)
    ensures Known(e, i - 3, Xor16(a, b))
  {
    hide Dot, Fixed, Chosen, Xor16;
    Odd(e, i);
    Two(Chosen(e), e[2 * i - 127], e[i], a, b);
  }

  lemma EvenOut(e: Elem, t: nat, a: bv16, b: bv16, d: bv16)
    requires Fixed(e) && 7 <= t < 64 && Known(e, t, a) && Known(e, 64 + t, b) && Known(e, 63 + t, d)
    ensures Known(e, 2 * t, Xor16(Xor16(a, b), d))
  {
    hide Dot, Fixed, Chosen, Xor16;
    Even(e, t);
    Three(Chosen(e), e[t], e[64 + t], e[63 + t], a, b, d);
  }

  lemma EvenIn(e: Elem, t: nat, a: bv16, b: bv16, d: bv16)
    requires Fixed(e) && 7 <= t < 64 && Known(e, 2 * t, a) && Known(e, 64 + t, b) && Known(e, 63 + t, d)
    ensures Known(e, t, Xor16(Xor16(a, b), d))
  {
    hide Dot, Fixed, Chosen, Xor16;
    Even(e, t);
    Three(Chosen(e), e[2 * t], e[64 + t], e[63 + t], a, b, d);
  }

  lemma EvenUp(e: Elem, t: nat, a: bv16, b: bv16, d: bv16)
    requires Fixed(e) && 7 <= t < 64 && Known(e, 2 * t, a) && Known(e, t, b) && Known(e, 63 + t, d)
    ensures Known(e, 64 + t, Xor16(Xor16(a, b), d))
  {
    hide Dot, Fixed, Chosen, Xor16;
    Even(e, t);
    Three(Chosen(e), e[2 * t], e[t], e[63 + t], a, b, d);
  }

  lemma EvenDown(e: Elem, t: nat, a: bv16, b: bv16, d: bv16)
    requires Fixed(e) && 7 <= t < 64 && Known(e, 2 * t, a) && Known(e, t, b) && Known(e, 64 + t, d)
    ensures Known(e, 63 + t, Xor16(Xor16(a, b), d))
  {
    hide Dot, Fixed, Chosen, Xor16;
    Even(e, t);
    Three(Chosen(e), e[2 * t], e[t], e[64 + t], a, b, d);
  }

  /* ----- the first equations, which have further terms ----- */

  predicate Equal(e: Elem, i: nat, j: nat) {
    i < 128 && j < 128 && e[i] == e[j]
  }

  predicate SumOfTwo(e: Elem, i: nat, j: nat, k: nat) {
    i < 128 && j < 128 && k < 128 && e[i] == (e[j] != e[k])
  }

  predicate SumOfThree(e: Elem, i: nat, j: nat, k: nat, l: nat) {
    i < 128 && j < 128 && k < 128 && l < 128 && e[i] == ((e[j] != e[k]) != e[l])
  }

  predicate SumOfFour(e: Elem, i: nat, j: nat, k: nat, l: nat, n: nat) {
    i < 128 && j < 128 && k < 128 && l < 128 && n < 128 && e[i] == (((e[j] != e[k]) != e[l]) != e[n])
  }

  lemma FirstRows(e: Elem)
    requires Fixed(e)
    ensures Equal(e, 64, 127) && Equal(e, 1, 125) && Equal(e, 2, 65)
    ensures SumOfThree(e, 3, 65, 126, 125) && SumOfTwo(e, 4, 66, 126) && SumOfThree(e, 5, 66, 127, 126)
  {
    hide SquareCoef;
    FirstOdd(e);
    FirstEven(e);
  }

  lemma NextRows(e: Elem)
    requires Fixed(e)
    ensures SumOfFour(e, 6, 3, 67, 66, 127) && SumOfFour(e, 8, 4, 68, 67, 125)
    ensures SumOfFour(e, 10, 5, 69, 68, 126) && SumOfFour(e, 12, 6, 70, 69, 127)
  {
    hide SquareCoef;
    NextEven(e);
    LastEven(e);
  }

  lemma Same(e: Elem, i: nat, j: nat, a: bv16)
    requires Equal(e, i, j) && Known(e, j, a)
    ensures Known(e, i, a)
  {
  }

  lemma AddTwo(e: Elem, i: nat, j: nat, k: nat, a: bv16, b: bv16)
    requires Known(e, j, a) && Known(e, k, b) && SumOfTwo(e, i, j, k)
    ensures Known(e, i, Xor16(a, b))
  {
    hide Dot, Chosen, Xor16;
    Two(Chosen(e), e[j], e[k], a, b);
  }

  lemma AddThree(e: Elem, i: nat, j: nat, k: nat, l: nat, a: bv16, b: bv16, d: bv16)
    requires Known(e, j, a) && Known(e, k, b) && Known(e, l, d) && SumOfThree(e, i, j, k, l)
    ensures Known(e, i, Xor16(Xor16(a, b), d))
  {
    hide Dot, Chosen, Xor16;
    Three(Chosen(e), e[j], e[k], e[l], a, b, d);
  }

  lemma AddFour(e: Elem, i: nat, j: nat, k: nat, l: nat, n: nat, a: bv16, b: bv16, d: bv16, f: bv16)
    requires Known(e, j, a) && Known(e, k, b) && Known(e, l, d) && Known(e, n, f) && SumOfFour(e, i, j, k, l, n)
    ensures Known(e, i, Xor16(Xor16(Xor16(a, b), d), f))
  {
    hide Dot, Chosen, Xor16;
    Three(Chosen(e), e[j], e[k], e[l], a, b, d);
    Two(Chosen(e), (e[j] != e[k]) != e[l], e[n], Xor16(Xor16(a, b), d), f);
  }

  lemma ChosenKnown(e: Elem)
    ensures ChosenOnes(e)
  {
    hide Dot;
    DotUnit(Chosen(e), 0);
    DotUnit(Chosen(e), 1);
    DotUnit(Chosen(e), 2);
    DotUnit(Chosen(e), 3);
    DotUnit(Chosen(e), 4);
    DotUnit(Chosen(e), 5);
    DotUnit(Chosen(e), 6);
    DotUnit(Chosen(e), 7);
    DotUnit(Chosen(e), 8);
    DotUnit(Chosen(e), 9);
  }

  /** Equation 121 names coefficient 121 on both sides. */
  lemma Absent(e: Elem)
    requires Fixed(e)
    ensures Known(e, 124, 0)
  {
    hide Fixed;
    Odd(e, 124);
    DotNone(Chosen(e));
  }

  /** Equation 126 names coefficient 126 on both sides. */
  lemma Level(e: Elem, a: bv16)
    requires Fixed(e) && Known(e, 127, a)
    ensures Known(e, 63, a)
  {
    hide Fixed, Dot;
    Even(e, 63);
  }

  /* ----- all coefficients, in the order in which the equations give them ----- */

  predicate ChosenOnes(e: Elem) {
    && Known(e, 51, 0x001) && Known(e, 60, 0x002) && Known(e, 83, 0x004) && Known(e, 91, 0x008)
    && Known(e, 92, 0x010) && Known(e, 105, 0x020) && Known(e, 107, 0x040) && Known(e, 108, 0x080)
    && Known(e, 123, 0x100) && Known(e, 127, 0x200)
  }

  predicate FirstCoefs(e: Elem) {
    && Known(e, 1, 0x2b2) && Known(e, 23, 0x2fe) && Known(e, 26, 0x2cf) && Known(e, 27, 0x0c8)
    && Known(e, 29, 0x230) && Known(e, 30, 0x048) && Known(e, 31, 0x218) && Known(e, 41, 0x3ba)
    && Known(e, 42, 0x1ff) && Known(e, 43, 0x2ab) && Known(e, 44, 0x05f) && Known(e, 45, 0x0a5)
    && Known(e, 46, 0x350) && Known(e, 47, 0x29a) && Known(e, 52, 0x008) && Known(e, 53, 0x368)
    && Known(e, 54, 0x2a7) && Known(e, 55, 0x097) && Known(e, 57, 0x0b0) && Known(e, 58, 0x362)
    && Known(e, 59, 0x325) && Known(e, 61, 0x100) && Known(e, 62, 0x100) && Known(e, 63, 0x200)
    && Known(e, 64, 0x200) && Known(e, 74, 0x35c) && Known(e, 77, 0x394) && Known(e, 81, 0x02f)
    && Known(e, 84, 0x395) && Known(e, 86, 0x0a1) && Known(e, 87, 0x10f) && Known(e, 88, 0x09f)
    && Known(e, 89, 0x0a0) && Known(e, 90, 0x267) && Known(e, 93, 0x142) && Known(e, 94, 0x108)
    && Known(e, 95, 0x210) && Known(e, 99, 0x3b0) && Known(e, 101, 0x160) && Known(e, 102, 0x024)
    && Known(e, 104, 0x14f) && Known(e, 106, 0x24a) && Known(e, 109, 0x242) && Known(e, 110, 0x102)
    && Known(e, 111, 0x290) && Known(e, 113, 0x2b2) && Known(e, 114, 0x3f0) && Known(e, 115, 0x3d5)
    && Known(e, 116, 0x292) && Known(e, 117, 0x3b0) && Known(e, 118, 0x197) && Known(e, 119, 0x002)
    && Known(e, 120, 0x102) && Known(e, 121, 0x242) && Known(e, 122, 0x3b2) && Known(e, 124, 0x000)
    && Known(e, 125, 0x2b2) && Known(e, 126, 0x3b2)
  }

  predicate SecondCoefs(e: Elem) {
    && Known(e, 2, 0x3ba) && Known(e, 3, 0x2ba) && Known(e, 4, 0x31e) && Known(e, 5, 0x11e)
    && Known(e, 6, 0x2bd) && Known(e, 7, 0x0ab) && Known(e, 8, 0x041) && Known(e, 9, 0x0fc)
    && Known(e, 10, 0x048) && Known(e, 11, 0x10e) && Known(e, 12, 0x1d0) && Known(e, 13, 0x264)
    && Known(e, 14, 0x12c) && Known(e, 15, 0x18d) && Known(e, 16, 0x139) && Known(e, 17, 0x18e)
    && Known(e, 18, 0x2bd) && Known(e, 19, 0x0aa) && Known(e, 20, 0x21c) && Known(e, 21, 0x214)
    && Known(e, 22, 0x080) && Known(e, 24, 0x019) && Known(e, 25, 0x0b3) && Known(e, 28, 0x0f9)
    && Known(e, 32, 0x2e8) && Known(e, 33, 0x1f7) && Known(e, 34, 0x357) && Known(e, 35, 0x0cd)
    && Known(e, 36, 0x252) && Known(e, 37, 0x3f2) && Known(e, 38, 0x27b) && Known(e, 39, 0x2f2)
    && Known(e, 40, 0x18d) && Known(e, 48, 0x189) && Known(e, 49, 0x0e1) && Known(e, 50, 0x08c)
    && Known(e, 56, 0x0e1) && Known(e, 65, 0x3ba) && Known(e, 66, 0x0ac) && Known(e, 67, 0x2ab)
    && Known(e, 68, 0x346) && Known(e, 69, 0x1a2) && Known(e, 70, 0x0cf) && Known(e, 71, 0x148)
    && Known(e, 72, 0x02c) && Known(e, 73, 0x26d) && Known(e, 75, 0x2d2) && Known(e, 76, 0x33f)
    && Known(e, 78, 0x0e2) && Known(e, 79, 0x127) && Known(e, 80, 0x2f6) && Known(e, 82, 0x2d5)
    && Known(e, 85, 0x07e) && Known(e, 96, 0x2f8) && Known(e, 97, 0x3a3) && Known(e, 98, 0x3b2)
    && Known(e, 100, 0x1ce) && Known(e, 103, 0x234) && Known(e, 112, 0x1e1)
  }

  lemma FirstGroup(e: Elem)
    requires Fixed(e) && ChosenOnes(e)
    ensures FirstCoefs(e)
  {
    hide Dot, Fixed, Chosen, Known, Equal, SumOfTwo, SumOfThree, SumOfFour;
    FirstRows(e);
    NextRows(e);
    Same(e, 64, 127, 0x200);
    OddDown(e, 105, 0x004, 0x020);
    OddOut(e, 108, 0x080, 0x020);
    Absent(e);
    Level(e, 0x200);
    OddDown(e, 89, 0x001, 0x0a0);
    OddOut(e, 92, 0x010, 0x0a0);
    OddUp(e, 95, 0x200, 0x010);
    OddUp(e, 111, 0x210, 0x080);
    EvenOut(e, 60, 0x002, 0x000, 0x100);
    OddOut(e, 86, 0x0a1, 0x004);
    OddOut(e, 123, 0x100, 0x102);
    OddDown(e, 119, 0x290, 0x002);
    OddDown(e, 116, 0x020, 0x292);
    OddDown(e, 120, 0x2b2, 0x102);
    OddUp(e, 122, 0x3b0, 0x002);
    OddUp(e, 125, 0x100, 0x3b2);
    OddUp(e, 126, 0x2b2, 0x100);
    Same(e, 1, 125, 0x2b2);
    OddDown(e, 117, 0x040, 0x3b0);
    EvenUp(e, 57, 0x3f0, 0x0b0, 0x102);
    EvenIn(e, 58, 0x292, 0x3b2, 0x242);
    EvenIn(e, 61, 0x3b2, 0x2b2, 0x000);
    EvenIn(e, 62, 0x000, 0x3b2, 0x2b2);
    OddUp(e, 94, 0x100, 0x008);
    EvenIn(e, 31, 0x100, 0x210, 0x108);
    OddOut(e, 114, 0x3f0, 0x290);
    EvenUp(e, 51, 0x024, 0x001, 0x3f0);
    OddDown(e, 121, 0x3d5, 0x242);
    EvenIn(e, 59, 0x197, 0x100, 0x3b2);
    EvenIn(e, 54, 0x080, 0x197, 0x3b0);
    OddOut(e, 118, 0x197, 0x3d5);
    EvenOut(e, 45, 0x0a5, 0x242, 0x080);
    OddDown(e, 109, 0x008, 0x242);
    EvenIn(e, 53, 0x24a, 0x3b0, 0x292);
    OddDown(e, 90, 0x368, 0x267);
    EvenIn(e, 27, 0x2a7, 0x008, 0x267);
    OddUp(e, 93, 0x325, 0x267);
    EvenIn(e, 30, 0x002, 0x108, 0x142);
    EvenIn(e, 43, 0x0a1, 0x040, 0x24a);
    OddDown(e, 107, 0x10f, 0x040);
    OddUp(e, 110, 0x142, 0x040);
    EvenIn(e, 47, 0x108, 0x290, 0x102);
    OddOut(e, 113, 0x2b2, 0x102);
    EvenIn(e, 52, 0x14f, 0x292, 0x3d5);
    EvenIn(e, 55, 0x102, 0x002, 0x197);
    OddDown(e, 87, 0x29a, 0x10f);
    EvenIn(e, 26, 0x008, 0x267, 0x0a0);
    OddDown(e, 91, 0x097, 0x008);
    EvenIn(e, 29, 0x362, 0x142, 0x010);
    OddOut(e, 102, 0x024, 0x3b0);
    OddOut(e, 104, 0x14f, 0x160);
    EvenIn(e, 42, 0x395, 0x24a, 0x020);
    EvenIn(e, 44, 0x09f, 0x080, 0x040);
    EvenIn(e, 46, 0x010, 0x102, 0x242);
    OddDown(e, 77, 0x0c8, 0x394);
    OddOut(e, 84, 0x395, 0x02f);
    EvenIn(e, 23, 0x350, 0x10f, 0x0a1);
  }

  lemma SecondGroup(e: Elem)
    requires Fixed(e) && ChosenOnes(e) && FirstCoefs(e)
    ensures SecondCoefs(e)
  {
    hide Dot, Fixed, Chosen, Known, Equal, SumOfTwo, SumOfThree, SumOfFour;
    FirstRows(e);
    NextRows(e);
    EvenOut(e, 41, 0x3ba, 0x020, 0x14f);
    OddUp(e, 85, 0x2ab, 0x2d5);
    EvenIn(e, 22, 0x05f, 0x0a1, 0x07e);
    OddOut(e, 88, 0x09f, 0x07e);
    OddDown(e, 106, 0x07e, 0x24a);
    OddDown(e, 115, 0x234, 0x3d5);
    EvenIn(e, 56, 0x1e1, 0x102, 0x002);
    EvenIn(e, 21, 0x1ff, 0x07e, 0x395);
    EvenIn(e, 28, 0x0e1, 0x010, 0x008);
    OddOut(e, 112, 0x1e1, 0x242);
    EvenOut(e, 49, 0x0e1, 0x2b2, 0x1e1);
    OddDown(e, 74, 0x214, 0x35c);
    OddOut(e, 97, 0x3a3, 0x108);
    OddOut(e, 98, 0x3b2, 0x210);
    OddDown(e, 99, 0x148, 0x3b0);
    OddOut(e, 101, 0x160, 0x3b2);
    EvenIn(e, 48, 0x2f8, 0x1e1, 0x290);
    OddOut(e, 67, 0x2ab, 0x200);
    EvenIn(e, 11, 0x080, 0x2d2, 0x35c);
    OddDown(e, 75, 0x2fe, 0x2d2);
    OddUp(e, 78, 0x230, 0x2d2);
    OddOut(e, 81, 0x02f, 0x0e2);
    EvenIn(e, 24, 0x189, 0x09f, 0x10f);
    EvenIn(e, 32, 0x200, 0x2f8, 0x210);
    OddOut(e, 96, 0x2f8, 0x142);
    EvenOut(e, 35, 0x0cd, 0x3b0, 0x3b2);
    EvenIn(e, 39, 0x0e2, 0x234, 0x024);
    Same(e, 2, 65, 0x3ba);
    AddThree(e, 3, 65, 126, 125, 0x3ba, 0x3b2, 0x2b2);
    OddDown(e, 69, 0x10e, 0x1a2);
    OddOut(e, 70, 0x0cf, 0x2ab);
    EvenOut(e, 7, 0x0ab, 0x148, 0x0cf);
    OddOut(e, 72, 0x02c, 0x1a2);
    EvenDown(e, 13, 0x2cf, 0x264, 0x394);
    OddUp(e, 79, 0x218, 0x33f);
    OddOut(e, 82, 0x2d5, 0x127);
    OddDown(e, 83, 0x2f2, 0x004);
    EvenIn(e, 33, 0x0ac, 0x3a3, 0x2f8);
    EvenDown(e, 37, 0x35c, 0x3f2, 0x160);
    EvenIn(e, 38, 0x33f, 0x024, 0x160);
    EvenIn(e, 40, 0x2f6, 0x14f, 0x234);
    EvenIn(e, 50, 0x1ce, 0x3f0, 0x2b2);
    AddTwo(e, 4, 66, 126, 0x0ac, 0x3b2);
    AddThree(e, 5, 66, 127, 126, 0x0ac, 0x200, 0x3b2);
    AddFour(e, 6, 3, 67, 66, 127, 0x2ba, 0x2ab, 0x0ac, 0x200);
    AddFour(e, 12, 6, 70, 69, 127, 0x2bd, 0x0cf, 0x1a2, 0x200);
    EvenIn(e, 15, 0x048, 0x127, 0x0e2);
    EvenIn(e, 16, 0x2e8, 0x2f6, 0x127);
    EvenOut(e, 17, 0x18e, 0x02f, 0x2f6);
    EvenIn(e, 19, 0x27b, 0x004, 0x2d5);
    EvenIn(e, 20, 0x18d, 0x395, 0x004);
    EvenIn(e, 25, 0x08c, 0x0a0, 0x09f);
    EvenOut(e, 34, 0x357, 0x3b2, 0x3a3);
    EvenIn(e, 36, 0x02c, 0x1ce, 0x3b0);
    OddOut(e, 100, 0x1ce, 0x3a3);
    AddFour(e, 8, 4, 68, 67, 125, 0x31e, 0x346, 0x2ab, 0x2b2);
    OddOut(e, 68, 0x346, 0x3ba);
    AddFour(e, 10, 5, 69, 68, 126, 0x11e, 0x1a2, 0x346, 0x3b2);
    EvenOut(e, 9, 0x0fc, 0x26d, 0x02c);
  }

  /** Every coefficient but the first is a sum of chosen ones. */
  predicate Expressed(e: Elem) {
    ChosenOnes(e) && FirstCoefs(e) && SecondCoefs(e)
  }

  lemma Express(e: Elem)
    requires Fixed(e)
    ensures Expressed(e)
  {
    hide Fixed, Known;
    ChosenKnown(e);
    FirstGroup(e);
    SecondGroup(e);
  }

  /* ----- the spare equations ----- */

  lemma Clash(e: Elem, i: nat, m: bv16, n: bv16)
    requires Known(e, i, m) && Known(e, i, n)
    ensures !Dot(Chosen(e), Xor16(m, n))
  {
    hide Dot, Chosen, Xor16;
    DotXor(Chosen(e), m, n);
  }

  /** Ten sums of chosen coefficients that vanish. */
  predicate Vanish(c: seq<bool>) {
    && !Dot(c, 0x383) && !Dot(c, 0x01c) && !Dot(c, 0x208) && !Dot(c, 0x365) && !Dot(c, 0x024)
    && !Dot(c, 0x1e1) && !Dot(c, 0x2a3) && !Dot(c, 0x095) && !Dot(c, 0x215) && !Dot(c, 0x2dd)
  }

  lemma SpareRows(e: Elem)
    requires Fixed(e) && Expressed(e)
    ensures Vanish(Chosen(e))
  {
    hide Dot, Fixed, Chosen, Known;
    OddOut(e, 71, 0x148, 0x346);
    Clash(e, 15, 0x20e, 0x18d);
    EvenOut(e, 8, 0x041, 0x02c, 0x148);
    Clash(e, 16, 0x125, 0x139);
    OddOut(e, 73, 0x26d, 0x0cf);
    Clash(e, 19, 0x2a2, 0x0aa);
    EvenOut(e, 10, 0x048, 0x35c, 0x26d);
    Clash(e, 20, 0x179, 0x21c);
    EvenOut(e, 12, 0x1d0, 0x33f, 0x2d2);
    Clash(e, 24, 0x03d, 0x019);
    OddOut(e, 76, 0x33f, 0x26d);
    Clash(e, 25, 0x152, 0x0b3);
    EvenOut(e, 14, 0x12c, 0x0e2, 0x394);
    Clash(e, 28, 0x25a, 0x0f9);
    OddOut(e, 80, 0x2f6, 0x394);
    Clash(e, 33, 0x162, 0x1f7);
    EvenOut(e, 18, 0x2bd, 0x2d5, 0x02f);
    Clash(e, 36, 0x047, 0x252);
    OddOut(e, 103, 0x234, 0x1ce);
    Clash(e, 79, 0x3fa, 0x127);
  }

  lemma BothVanish(c: seq<bool>, a: bv16, b: bv16)
    requires !Dot(c, a) && !Dot(c, b)
    ensures !Dot(c, Xor16(a, b))
  {
    hide Dot, Xor16;
    DotXor(c, a, b);
  }

  /** The ten sums are independent. */
  lemma UnitsVanish(c: seq<bool>)
    requires Vanish(c)
    ensures !Dot(c, 0x001) && !Dot(c, 0x002) && !Dot(c, 0x004) && !Dot(c, 0x008) && !Dot(c, 0x010)
    ensures !Dot(c, 0x020) && !Dot(c, 0x040) && !Dot(c, 0x080) && !Dot(c, 0x100) && !Dot(c, 0x200)
  {
    hide Dot;
    BothVanish(c, 0x208, 0x383);
    BothVanish(c, 0x365, 0x383);
    BothVanish(c, 0x2a3, 0x383);
    BothVanish(c, 0x215, 0x383);
    BothVanish(c, 0x2dd, 0x383);
    BothVanish(c, 0x383, 0x18b);
    BothVanish(c, 0x1e1, 0x18b);
    BothVanish(c, 0x120, 0x18b);
    BothVanish(c, 0x196, 0x18b);
    BothVanish(c, 0x15e, 0x18b);
    BothVanish(c, 0x18b, 0x0e6);
    BothVanish(c, 0x0ab, 0x0e6);
    BothVanish(c, 0x095, 0x0e6);
    BothVanish(c, 0x0d5, 0x0e6);
    BothVanish(c, 0x16d, 0x06a);
    BothVanish(c, 0x0e6, 0x06a);
    BothVanish(c, 0x04d, 0x06a);
    BothVanish(c, 0x073, 0x06a);
    BothVanish(c, 0x06a, 0x024);
    BothVanish(c, 0x027, 0x024);
    BothVanish(c, 0x033, 0x024);
    BothVanish(c, 0x019, 0x01c);
    BothVanish(c, 0x01d, 0x01c);
    BothVanish(c, 0x017, 0x01c);
    BothVanish(c, 0x208, 0x00b);
    BothVanish(c, 0x01c, 0x00b);
    BothVanish(c, 0x08c, 0x00b);
    BothVanish(c, 0x04e, 0x00b);
    BothVanish(c, 0x017, 0x005);
    BothVanish(c, 0x107, 0x005);
    BothVanish(c, 0x087, 0x005);
    BothVanish(c, 0x024, 0x005);
    BothVanish(c, 0x045, 0x005);
    BothVanish(c, 0x203, 0x003);
    BothVanish(c, 0x012, 0x003);
    BothVanish(c, 0x102, 0x003);
    BothVanish(c, 0x082, 0x003);
    BothVanish(c, 0x00b, 0x003);
    BothVanish(c, 0x011, 0x001);
    BothVanish(c, 0x101, 0x001);
    BothVanish(c, 0x081, 0x001);
    BothVanish(c, 0x021, 0x001);
    BothVanish(c, 0x003, 0x001);
    BothVanish(c, 0x005, 0x001);
  }

  lemma ChosenVanish(e: Elem)
    requires Fixed(e)
    ensures Expressed(e) && forall k :: 0 <= k < |Chosen(e)| ==> !Chosen(e)[k]
  {
    hide Dot, Fixed, Chosen, Expressed;
    Express(e);
    SpareRows(e);
    var c := Chosen(e);
    UnitsVanish(c);
    ChosenLength(e);
    forall k | 0 <= k < 10
      ensures !c[k]
    {
      DotUnit(c, k);
      assert k in {0, 1, 2, 3, 4, 5, 6, 7, 8, 9};
    }
  }

  lemma ChosenLength(e: Elem)
    ensures |Chosen(e)| == 10
  {
  }

  lemma {:induction false} DotOfNone(c: seq<bool>, m: bv16)
    requires forall k :: 0 <= k < |c| ==> !c[k]
    ensures !Dot(c, m)
  {
    if c != [] {
      DotOfNone(c[1..], Half(m));
    }
  }

  lemma KnownVanish(e: Elem)
    requires forall k :: 0 <= k < |Chosen(e)| ==> !Chosen(e)[k]
    ensures forall i: nat, m: bv16 :: Known(e, i, m) ==> i < 128 && !e[i]
  {
    hide Chosen;
    forall i: nat, m: bv16 | Known(e, i, m)
      ensures i < 128 && !e[i]
    {
      DotOfNone(Chosen(e), m);
    }
  }

  lemma AllVanish(e: Elem, i: nat)
    requires Fixed(e) && 1 <= i < 128
    ensures !e[i]
  {
    hide Dot, Fixed, Chosen, Known;
    ChosenVanish(e);
    KnownVanish(e);
    if i < 32 {
      assert i in {1, 2, 3, 4, 5, 6, 7, 8, 9, 10, 11, 12, 13, 14, 15,
                   16, 17, 18, 19, 20, 21, 22, 23, 24, 25, 26, 27, 28, 29, 30, 31};
    } else if i < 64 {
      assert i in {32, 33, 34, 35, 36, 37, 38, 39, 40, 41, 42, 43, 44, 45, 46, 47,
                   48, 49, 50, 51, 52, 53, 54, 55, 56, 57, 58, 59, 60, 61, 62, 63};
    } else if i < 96 {
      assert i in {64, 65, 66, 67, 68, 69, 70, 71, 72, 73, 74, 75, 76, 77, 78, 79,
                   80, 81, 82, 83, 84, 85, 86, 87, 88, 89, 90, 91, 92, 93, 94, 95};
    } else {
      assert i in {96, 97, 98, 99, 100, 101, 102, 103, 104, 105, 106, 107, 108, 109, 110, 111,
                   112, 113, 114, 115, 116, 117, 118, 119, 120, 121, 122, 123, 124, 125, 126, 127};
    }
  }

  /** An element that is its own square is 0 or 1. */
  lemma Idempotent(e: Elem)
    requires Mul(e, e) == e
    ensures e == ZERO || e == ONE
  {
    hide Mul, SquareCoef, Fixed;
    assert Fixed(e) by {
      IsFixed(e);
    }
    forall i: nat | 1 <= i < 128
      ensures !e[i]
    {
      AllVanish(e, i);
    }
  }

  lemma IsFixed(e: Elem)
    requires Mul(e, e) == e
    ensures Fixed(e)
  {
    hide Mul, SquareCoef;
    forall j: nat | j < 128
      ensures e[j] == SquareCoef(e, j)
    {
      SquareAt(e, j);
    }
  }
}
