/** One column of the AES state as a 32-bit word: row r is byte r, the least significant first
    (aesopt.h, little-endian form), and the words that the lookup tables of aestab.c hold. */
module AesWords {
  import opened Bytes
  import opened AesField

  /* ----- multiplications by constants ----- */

  function Mul2(b: bv8): bv8 {
    XTime(b)
  }

  function Mul4(b: bv8): bv8 {
    XTime(XTime(b))
  }

  function Mul8(b: bv8): bv8 {
    XTime(XTime(XTime(b)))
  }

  function Mul3(b: bv8): bv8 {
    Xor8(Mul2(b), b)
  }

  function Mul9(b: bv8): bv8 {
    Xor8(Mul8(b), b)
  }

  function MulB(b: bv8): bv8 {
    X3(Mul8(b), Mul2(b), b)
  }

  function MulD(b: bv8): bv8 {
    X3(Mul8(b), Mul4(b), b)
  }

  function MulE(b: bv8): bv8 {
    X3(Mul8(b), Mul4(b), Mul2(b))
  }

  function X3(a: bv8, b: bv8, c: bv8): bv8 {
    Xor8(Xor8(a, b), c)
  }

  /** The names say which field element multiplies. */
  lemma Mul23Names(b: bv8)
    ensures Mul2(b) == GMul(0x02, b) && Mul3(b) == GMul(0x03, b)
  {
  }

  lemma Mul9BNames(b: bv8)
    ensures Mul9(b) == GMul(0x09, b) && MulB(b) == GMul(0x0b, b)
  {
  }

  lemma MulDENames(b: bv8)
    ensures MulD(b) == GMul(0x0d, b) && MulE(b) == GMul(0x0e, b)
  {
  }

  function X4(a: bv8, b: bv8, c: bv8, d: bv8): bv8 {
    Xor8(Xor8(a, b), Xor8(c, d))
  }

  /** Row 0 of MixColumns; the other rows are the same on the rotated column. */
  function MixByte(a: bv8, b: bv8, c: bv8, d: bv8): bv8 {
    X4(Mul2(a), Mul3(b), c, d)
  }

  function InvMixByte(a: bv8, b: bv8, c: bv8, d: bv8): bv8 {
    X4(MulE(a), MulB(b), MulD(c), Mul9(d))
  }

  function MixBytes(a: bv8, b: bv8, c: bv8, d: bv8): bv32 {
    Word(MixByte(a, b, c, d), MixByte(b, c, d, a), MixByte(c, d, a, b), MixByte(d, a, b, c))
  }

  function InvMixBytes(a: bv8, b: bv8, c: bv8, d: bv8): bv32 {
    Word(InvMixByte(a, b, c, d), InvMixByte(b, c, d, a), InvMixByte(c, d, a, b), InvMixByte(d, a, b, c))
  }

  /** MixColumns on one column (section 5.1.3 of FIPS 197). */
  function MixWord(w: bv32): bv32 {
    MixBytes(B0(w), B1(w), B2(w), B3(w))
  }

  /** InvMixColumns on one column (section 5.3.3 of FIPS 197). */
  function InvMixWord(w: bv32): bv32 {
    InvMixBytes(B0(w), B1(w), B2(w), B3(w))
  }

  /* ----- linearity ----- */

  function Doubled(a: bv8): bv8 {
    a << 1
  }

  function Reduction(a: bv8): bv8 {
    if a >= 0x80 then 0x1b else 0
  }

  lemma XTimeParts(a: bv8)
    ensures XTime(a) == Xor8(Doubled(a), Reduction(a))
  {
  }

  lemma DoubledLinear(a: bv8, b: bv8)
    ensures Doubled(Xor8(a, b)) == Xor8(Doubled(a), Doubled(b))
  {
  }

  lemma ReductionLinear(a: bv8, b: bv8)
    ensures Reduction(Xor8(a, b)) == Xor8(Reduction(a), Reduction(b))
  {
  }

  lemma XorSwap(a: bv8, b: bv8, c: bv8, d: bv8)
    ensures Xor8(Xor8(a, b), Xor8(c, d)) == Xor8(Xor8(a, c), Xor8(b, d))
  {
    hide Xor8;
    Xor8Laws(a, b, Xor8(c, d));
    Xor8Laws(b, c, d);
    Xor8Laws(c, b, d);
    Xor8Laws(a, c, Xor8(b, d));
  }

  lemma XTimeLinear(a: bv8, b: bv8)
    ensures XTime(Xor8(a, b)) == Xor8(XTime(a), XTime(b))
  {
    hide *;
    XTimeParts(a);
    XTimeParts(b);
    XTimeParts(Xor8(a, b));
    DoubledLinear(a, b);
    ReductionLinear(a, b);
    XorSwap(Doubled(a), Doubled(b), Reduction(a), Reduction(b));
  }

  lemma Mul248Linear(a: bv8, b: bv8)
    ensures Mul2(Xor8(a, b)) == Xor8(Mul2(a), Mul2(b))
    ensures Mul4(Xor8(a, b)) == Xor8(Mul4(a), Mul4(b))
    ensures Mul8(Xor8(a, b)) == Xor8(Mul8(a), Mul8(b))
  {
    hide XTime, Xor8;
    XTimeLinear(a, b);
    XTimeLinear(XTime(a), XTime(b));
    XTimeLinear(XTime(XTime(a)), XTime(XTime(b)));
  }

  lemma X3Swap(a: bv8, b: bv8, c: bv8, d: bv8, e: bv8, f: bv8)
    ensures X3(Xor8(a, b), Xor8(c, d), Xor8(e, f)) == Xor8(X3(a, c, e), X3(b, d, f))
  {
    hide Xor8;
    XorSwap(a, b, c, d);
    XorSwap(Xor8(a, c), Xor8(b, d), e, f);
  }

  lemma MulLinear(a: bv8, b: bv8)
    ensures Mul3(Xor8(a, b)) == Xor8(Mul3(a), Mul3(b))
    ensures Mul9(Xor8(a, b)) == Xor8(Mul9(a), Mul9(b))
    ensures MulB(Xor8(a, b)) == Xor8(MulB(a), MulB(b))
    ensures MulD(Xor8(a, b)) == Xor8(MulD(a), MulD(b))
    ensures MulE(Xor8(a, b)) == Xor8(MulE(a), MulE(b))
  {
    hide Xor8, X3, Mul2, Mul4, Mul8;
    Mul248Linear(a, b);
    XorSwap(Mul2(a), Mul2(b), a, b);
    XorSwap(Mul8(a), Mul8(b), a, b);
    X3Swap(Mul8(a), Mul8(b), Mul2(a), Mul2(b), a, b);
    X3Swap(Mul8(a), Mul8(b), Mul4(a), Mul4(b), a, b);
    X3Swap(Mul8(a), Mul8(b), Mul4(a), Mul4(b), Mul2(a), Mul2(b));
  }

  lemma MulLinear4(a: bv8, b: bv8, c: bv8, d: bv8)
    ensures MulE(X4(a, b, c, d)) == X4(MulE(a), MulE(b), MulE(c), MulE(d))
    ensures MulB(X4(a, b, c, d)) == X4(MulB(a), MulB(b), MulB(c), MulB(d))
    ensures MulD(X4(a, b, c, d)) == X4(MulD(a), MulD(b), MulD(c), MulD(d))
    ensures Mul9(X4(a, b, c, d)) == X4(Mul9(a), Mul9(b), Mul9(c), Mul9(d))
  {
    hide Xor8, MulE, MulB, MulD, Mul9;
    MulLinear(a, b);
    MulLinear(c, d);
    MulLinear(Xor8(a, b), Xor8(c, d));
  }

  /** The product of the two matrices, entry by entry. */
  lemma MatrixProduct(b: bv8)
    ensures X4(MulE(Mul2(b)), MulB(b), MulD(b), Mul9(Mul3(b))) == b
    ensures X4(MulE(Mul3(b)), MulB(Mul2(b)), MulD(b), Mul9(b)) == 0
  {
  }

  lemma MatrixProductRest(b: bv8)
    ensures X4(MulE(b), MulB(Mul3(b)), MulD(Mul2(b)), Mul9(b)) == 0
    ensures X4(MulE(b), MulB(b), MulD(Mul3(b)), Mul9(Mul2(b))) == 0
  {
  }

  /** Sixteen terms summed by rows are the same sum by columns. */
  lemma Transpose(a0: bv8, a1: bv8, a2: bv8, a3: bv8, b0: bv8, b1: bv8, b2: bv8, b3: bv8,
                  c0: bv8, c1: bv8, c2: bv8, c3: bv8, d0: bv8, d1: bv8, d2: bv8, d3: bv8)
    ensures X4(X4(a0, a1, a2, a3), X4(b0, b1, b2, b3), X4(c0, c1, c2, c3), X4(d0, d1, d2, d3))
         == X4(X4(a0, b0, c0, d0), X4(a1, b1, c1, d1), X4(a2, b2, c2, d2), X4(a3, b3, c3, d3))
  {
    hide Xor8;
    XorSwap(Xor8(a0, a1), Xor8(a2, a3), Xor8(b0, b1), Xor8(b2, b3));
    XorSwap(a0, a1, b0, b1);
    XorSwap(a2, a3, b2, b3);
    XorSwap(Xor8(c0, c1), Xor8(c2, c3), Xor8(d0, d1), Xor8(d2, d3));
    XorSwap(c0, c1, d0, d1);
    XorSwap(c2, c3, d2, d3);
    XorSwap(Xor8(Xor8(a0, b0), Xor8(a1, b1)), Xor8(Xor8(a2, b2), Xor8(a3, b3)),
            Xor8(Xor8(c0, d0), Xor8(c1, d1)), Xor8(Xor8(c2, d2), Xor8(c3, d3)));
    XorSwap(Xor8(a0, b0), Xor8(a1, b1), Xor8(c0, d0), Xor8(c1, d1));
    XorSwap(Xor8(a2, b2), Xor8(a3, b3), Xor8(c2, d2), Xor8(c3, d3));
  }

  lemma InvMixMixByte(a: bv8, b: bv8, c: bv8, d: bv8)
    ensures InvMixByte(MixByte(a, b, c, d), MixByte(b, c, d, a), MixByte(c, d, a, b), MixByte(d, a, b, c)) == a
  {
    hide X4, MulE, MulB, MulD, Mul9, Mul2, Mul3;
    MulLinear4(Mul2(a), Mul3(b), c, d);
    MulLinear4(Mul2(b), Mul3(c), d, a);
    MulLinear4(Mul2(c), Mul3(d), a, b);
    MulLinear4(Mul2(d), Mul3(a), b, c);
    Rotate(MulB(Mul2(b)), MulB(Mul3(c)), MulB(d), MulB(a));
    Rotate(MulD(Mul2(c)), MulD(Mul3(d)), MulD(a), MulD(b));
    Rotate(MulD(b), MulD(Mul2(c)), MulD(Mul3(d)), MulD(a));
    Rotate(Mul9(Mul3(a)), Mul9(b), Mul9(c), Mul9(Mul2(d)));
    Transpose(MulE(Mul2(a)), MulE(Mul3(b)), MulE(c), MulE(d),
              MulB(a), MulB(Mul2(b)), MulB(Mul3(c)), MulB(d),
              MulD(a), MulD(b), MulD(Mul2(c)), MulD(Mul3(d)),
              Mul9(Mul3(a)), Mul9(b), Mul9(c), Mul9(Mul2(d)));
    MatrixProduct(a);
    MatrixProduct(b);
    MatrixProductRest(c);
    MatrixProductRest(d);
    ZeroTerms(a);
  }

  lemma Rotate(a: bv8, b: bv8, c: bv8, d: bv8)
    ensures X4(a, b, c, d) == X4(d, a, b, c)
  {
    hide Xor8;
    Xor8Laws(a, b, Xor8(c, d));
    Xor8Laws(c, d, 0);
    Xor8Laws(d, c, Xor8(a, b));
    Xor8Laws(c, Xor8(a, b), 0);
    Xor8Laws(Xor8(a, b), c, 0);
    Xor8Laws(Xor8(c, d), Xor8(a, b), 0);
    Xor8Laws(a, b, c);
    Xor8Laws(d, a, Xor8(b, c));
  }

  /** InvMixColumns undoes MixColumns. */
  lemma InvMixMix(w: bv32)
    ensures InvMixWord(MixWord(w)) == w
  {
    hide MixByte, InvMixByte, Word, B0, B1, B2, B3;
    var a, b, c, d := B0(w), B1(w), B2(w), B3(w);
    BytesOfWord(MixByte(a, b, c, d), MixByte(b, c, d, a), MixByte(c, d, a, b), MixByte(d, a, b, c));
    InvMixMixByte(a, b, c, d);
    InvMixMixByte(b, c, d, a);
    InvMixMixByte(c, d, a, b);
    InvMixMixByte(d, a, b, c);
    WordOfBytes(w);
  }

  lemma InvMixByteLinear(a: bv8, b: bv8, c: bv8, d: bv8, p: bv8, q: bv8, r: bv8, s: bv8)
    ensures InvMixByte(Xor8(a, p), Xor8(b, q), Xor8(c, r), Xor8(d, s))
         == Xor8(InvMixByte(a, b, c, d), InvMixByte(p, q, r, s))
  {
    hide Xor8, MulE, MulB, MulD, Mul9;
    MulLinear(a, p);
    MulLinear(b, q);
    MulLinear(c, r);
    MulLinear(d, s);
    XorSwap(MulE(a), MulE(p), MulB(b), MulB(q));
    XorSwap(MulD(c), MulD(r), Mul9(d), Mul9(s));
    XorSwap(Xor8(MulE(a), MulB(b)), Xor8(MulE(p), MulB(q)), Xor8(MulD(c), Mul9(d)), Xor8(MulD(r), Mul9(s)));
  }

  /** InvMixColumns distributes over the addition of a round key. */
  lemma InvMixLinear(v: bv32, w: bv32)
    ensures InvMixWord(Xor32(v, w)) == Xor32(InvMixWord(v), InvMixWord(w))
  {
    hide Xor8, Xor32, Word, B0, B1, B2, B3, InvMixByte;
    BytesOfXor(v, w);
    var a, b, c, d := B0(v), B1(v), B2(v), B3(v);
    var p, q, r, s := B0(w), B1(w), B2(w), B3(w);
    InvMixByteLinear(a, b, c, d, p, q, r, s);
    InvMixByteLinear(b, c, d, a, q, r, s, p);
    InvMixByteLinear(c, d, a, b, r, s, p, q);
    InvMixByteLinear(d, a, b, c, s, p, q, r);
    BytesOfWord(InvMixByte(a, b, c, d), InvMixByte(b, c, d, a), InvMixByte(c, d, a, b), InvMixByte(d, a, b, c));
    BytesOfWord(InvMixByte(p, q, r, s), InvMixByte(q, r, s, p), InvMixByte(r, s, p, q), InvMixByte(s, p, q, r));
    BytesOfXor(InvMixWord(v), InvMixWord(w));
    WordOfBytes(Xor32(InvMixWord(v), InvMixWord(w)));
  }

  /* ----- table entries: f2 .. fe, u*, v*, w* of aestab.c, in 32-bit arithmetic ----- */

  function F2(x: bv32): bv32 {
    (x << 1) ^ (((x >> 7) & 1) * 0x11b)
  }

  function F4(x: bv32): bv32 {
    (x << 2) ^ (((x >> 6) & 1) * 0x11b) ^ (((x >> 6) & 2) * 0x11b)
  }

  function F8(x: bv32): bv32 {
    (x << 3) ^ (((x >> 5) & 1) * 0x11b) ^ (((x >> 5) & 2) * 0x11b) ^ (((x >> 5) & 4) * 0x11b)
  }

  /** bytes2word on values that are expected to be bytes. */
  function Pack(b0: bv32, b1: bv32, b2: bv32, b3: bv32): bv32 {
    (b3 << 24) | (b2 << 16) | (b1 << 8) | b0
  }

  function U0(b: bv8): bv32 {
    var p := b as bv32;
    Pack(F2(p), p, p, F2(p) ^ p)
  }

  function U1(b: bv8): bv32 {
    var p := b as bv32;
    Pack(F2(p) ^ p, F2(p), p, p)
  }

  function U2(b: bv8): bv32 {
    var p := b as bv32;
    Pack(p, F2(p) ^ p, F2(p), p)
  }

  function U3(b: bv8): bv32 {
    var p := b as bv32;
    Pack(p, p, F2(p) ^ p, F2(p))
  }

  function V0(b: bv8): bv32 {
    var p := b as bv32;
    var f2, f4, f8 := F2(p), F4(p), F8(p);
    Pack(f8 ^ f4 ^ f2, f8 ^ p, f8 ^ f4 ^ p, f8 ^ f2 ^ p)
  }

  function V1(b: bv8): bv32 {
    var p := b as bv32;
    var f2, f4, f8 := F2(p), F4(p), F8(p);
    Pack(f8 ^ f2 ^ p, f8 ^ f4 ^ f2, f8 ^ p, f8 ^ f4 ^ p)
  }

  function V2(b: bv8): bv32 {
    var p := b as bv32;
    var f2, f4, f8 := F2(p), F4(p), F8(p);
    Pack(f8 ^ f4 ^ p, f8 ^ f2 ^ p, f8 ^ f4 ^ f2, f8 ^ p)
  }

  function V3(b: bv8): bv32 {
    var p := b as bv32;
    var f2, f4, f8 := F2(p), F4(p), F8(p);
    Pack(f8 ^ p, f8 ^ f4 ^ p, f8 ^ f2 ^ p, f8 ^ f4 ^ f2)
  }

  lemma U0Bytes(b: bv8)
    ensures B0(U0(b)) == Mul2(b) && B1(U0(b)) == b && B2(U0(b)) == b && B3(U0(b)) == Mul3(b)
  {
  }

  lemma U1Bytes(b: bv8)
    ensures B0(U1(b)) == Mul3(b) && B1(U1(b)) == Mul2(b) && B2(U1(b)) == b && B3(U1(b)) == b
  {
  }

  lemma U2Bytes(b: bv8)
    ensures B0(U2(b)) == b && B1(U2(b)) == Mul3(b) && B2(U2(b)) == Mul2(b) && B3(U2(b)) == b
  {
  }

  lemma U3Bytes(b: bv8)
    ensures B0(U3(b)) == b && B1(U3(b)) == b && B2(U3(b)) == Mul3(b) && B3(U3(b)) == Mul2(b)
  {
  }

  lemma V0Bytes(b: bv8)
    ensures B0(V0(b)) == MulE(b) && B1(V0(b)) == Mul9(b) && B2(V0(b)) == MulD(b) && B3(V0(b)) == MulB(b)
  {
  }

  lemma V1Bytes(b: bv8)
    ensures B0(V1(b)) == MulB(b) && B1(V1(b)) == MulE(b) && B2(V1(b)) == Mul9(b) && B3(V1(b)) == MulD(b)
  {
  }

  lemma V2Bytes(b: bv8)
    ensures B0(V2(b)) == MulD(b) && B1(V2(b)) == MulB(b) && B2(V2(b)) == MulE(b) && B3(V2(b)) == Mul9(b)
  {
  }

  lemma V3Bytes(b: bv8)
    ensures B0(V3(b)) == Mul9(b) && B1(V3(b)) == MulD(b) && B2(V3(b)) == MulB(b) && B3(V3(b)) == MulE(b)
  {
  }

  /** four_tables of aesopt.h: the sum of one entry from each table. */
  function Four(a: bv32, b: bv32, c: bv32, d: bv32): bv32 {
    Xor32(Xor32(Xor32(a, b), c), d)
  }

  lemma FourBytes(a: bv32, b: bv32, c: bv32, d: bv32)
    ensures B0(Four(a, b, c, d)) == X4(B0(a), B0(b), B0(c), B0(d))
    ensures B1(Four(a, b, c, d)) == X4(B1(a), B1(b), B1(c), B1(d))
    ensures B2(Four(a, b, c, d)) == X4(B2(a), B2(b), B2(c), B2(d))
    ensures B3(Four(a, b, c, d)) == X4(B3(a), B3(b), B3(c), B3(d))
  {
    hide Xor8, Xor32, B0, B1, B2, B3;
    BytesOfXor(a, b);
    BytesOfXor(Xor32(a, b), c);
    BytesOfXor(Xor32(Xor32(a, b), c), d);
    Xor8Laws(Xor8(B0(a), B0(b)), B0(c), B0(d));
    Xor8Laws(Xor8(B1(a), B1(b)), B1(c), B1(d));
    Xor8Laws(Xor8(B2(a), B2(b)), B2(c), B2(d));
    Xor8Laws(Xor8(B3(a), B3(b)), B3(c), B3(d));
  }

  /** The tables t_fn add up to MixColumns of the looked-up bytes. */
  lemma TablesOfMix(a: bv8, b: bv8, c: bv8, d: bv8)
    ensures Four(U0(a), U1(b), U2(c), U3(d)) == MixBytes(a, b, c, d)
  {
    hide X4, Word, B0, B1, B2, B3, Mul2, Mul3, Four, U0, U1, U2, U3;
    FourBytes(U0(a), U1(b), U2(c), U3(d));
    WordOfBytes(Four(U0(a), U1(b), U2(c), U3(d)));
    U0Bytes(a);
    U1Bytes(b);
    U2Bytes(c);
    U3Bytes(d);
    Rotate(Mul2(b), Mul3(c), d, a);
    Rotate(Mul2(c), Mul3(d), a, b);
    Rotate(b, Mul2(c), Mul3(d), a);
    Rotate(Mul3(a), b, c, Mul2(d));
  }

  /** The tables t_in add up to InvMixColumns of the looked-up bytes. */
  lemma TablesOfInvMix(a: bv8, b: bv8, c: bv8, d: bv8)
    ensures Four(V0(a), V1(b), V2(c), V3(d)) == InvMixBytes(a, b, c, d)
  {
    hide X4, Word, B0, B1, B2, B3, MulE, MulB, MulD, Mul9, Four, V0, V1, V2, V3;
    FourBytes(V0(a), V1(b), V2(c), V3(d));
    WordOfBytes(Four(V0(a), V1(b), V2(c), V3(d)));
    V0Bytes(a);
    V1Bytes(b);
    V2Bytes(c);
    V3Bytes(d);
    Rotate(MulE(b), MulB(c), MulD(d), Mul9(a));
    Rotate(MulE(c), MulB(d), MulD(a), Mul9(b));
    Rotate(Mul9(b), MulE(c), MulB(d), MulD(a));
    Rotate(MulB(a), MulD(b), Mul9(c), MulE(d));
  }

  /** The tables t_fl and t_il, whose entries hold a single byte, just assemble a word. */
  lemma TablesOfBytes(a: bv8, b: bv8, c: bv8, d: bv8)
    ensures Four(Word(a, 0, 0, 0), Word(0, b, 0, 0), Word(0, 0, c, 0), Word(0, 0, 0, d)) == Word(a, b, c, d)
  {
    hide Word, B0, B1, B2, B3, Xor8, Four;
    var p, q, r, s := Word(a, 0, 0, 0), Word(0, b, 0, 0), Word(0, 0, c, 0), Word(0, 0, 0, d);
    BytesOfWord(a, 0, 0, 0);
    BytesOfWord(0, b, 0, 0);
    BytesOfWord(0, 0, c, 0);
    BytesOfWord(0, 0, 0, d);
    FourBytes(p, q, r, s);
    WordOfBytes(Four(p, q, r, s));
    ZeroTerms(a);
    ZeroTerms(b);
    ZeroTerms(c);
    ZeroTerms(d);
  }

  lemma ZeroTerms(a: bv8)
    ensures X4(a, 0, 0, 0) == a && X4(0, a, 0, 0) == a && X4(0, 0, a, 0) == a && X4(0, 0, 0, a) == a
  {
  }
}
