/** The field multipliers of gf128mul.c: the slow one and the four table-driven ones. A table is
    one array of 16-byte entries; t[i][j] of a two-dimensional table is entry i * rowSize + j. */
module Gf128Mul {
  import opened Bytes
  import opened Octets
  import opened LbBlocks
  import opened GfMulLo
  import opened GfTables

  /** gf_mulx1 from one table entry to another. */
  method MulX1Entry(b: Block) returns (r: Block)
    ensures r == TimesX(1, b)
  {
    var buf := new bv8[16](i requires 0 <= i < 16 => b[i]);
    assert buf[..] == b;
    MulX1(buf, buf);
    r := buf[..];
  }

  /** gf_mulx8 on a table entry. */
  method MulX8Entry(b: Block) returns (r: Block)
    ensures r == TimesX(8, b)
  {
    var buf := new bv8[16](i requires 0 <= i < 16 => b[i]);
    assert buf[..] == b;
    MulX8(buf);
    r := buf[..];
  }

  method Clear(a: array<bv8>)
    requires a.Length == 16
    modifies a
    ensures a[..] == ZeroBytes(16)
  {
    forall i | 0 <= i < 16 {
      a[i] := 0;
    }
  }

  method Copy(a: array<bv8>, b: Block)
    requires a.Length == 16
    modifies a
    ensures a[..] == b
  {
    forall i | 0 <= i < 16 {
      a[i] := b[i];
    }
  }

  /* ----- the slow multiplier ----- */

  /** One of the eight tests `if(ch & X_m) a ^= p[m]`. */
  method AddPower(a: array<bv8>, p: seq<Block>, ch: bv8, m: nat, ghost g: Block, ghost was: Block)
    requires a.Length == 16 && m < 8 && |p| == 8
    requires p[m] == TimesX(m, g)
    requires a[..] == Xor(was, PartTimes(ch, m, g))
    modifies a
    ensures a[..] == Xor(was, PartTimes(ch, m + 1, g))
  {
    hide Xor, PartTimes, TimesX;
    PartTimesStep(ch, m, g);
    if Bit(ch, m) {
      XorAssoc(was, PartTimes(ch, m, g), p[m]);
      XorBlockAligned(a, p[m]);
    }
  }

  /** The eight tests on one byte add the product of that byte. */
  method AddPowers(a: array<bv8>, p: seq<Block>, ch: bv8, ghost g: Block)
    requires a.Length == 16 && |p| == 8
    requires forall m: nat :: m < 8 ==> p[m] == TimesX(m, g)
    modifies a
    ensures a[..] == Xor(old(a[..]), ByteTimes(ch, g))
  {
    hide Xor, PartTimes, TimesX, ByteTimes;
    ghost var was: Block := a[..];
    PartTimesEnds(ch, g);
    XorZero(was);
    AddPower(a, p, ch, 0, g, was);
    AddPower(a, p, ch, 1, g, was);
    AddPower(a, p, ch, 2, g, was);
    AddPower(a, p, ch, 3, g, was);
    AddPower(a, p, ch, 4, g, was);
    AddPower(a, p, ch, 5, g, was);
    AddPower(a, p, ch, 6, g, was);
    AddPower(a, p, ch, 7, g, was);
  }

  /** gf_mulTMD: a becomes a * b, also when both are the same buffer. */
  method MulTMD(a: array<bv8>, b: array<bv8>)
    requires a.Length == 16 == b.Length
    modifies a
    ensures a[..] == Times(old(a[..]), old(b[..]))
  {
    hide Xor, TimesX, ByteTimes, Tail, Times;
    ghost var g: Block := a[..];
    var p: seq<Block> := [a[..]];
    TimesXNone(g);
    var n := 0;
    while n < 7
      invariant n <= 7 && |p| == n + 1
      invariant a[..] == g && b[..] == old(b[..])
      invariant forall m: nat :: m <= n ==> p[m] == TimesX(m, g)
    {
      var next := MulX1Entry(p[n]);
      TimesXSum(1, n, g);
      p := p + [next];
      n := n + 1;
    }
    var q: Block := if a == b then p[0] else b[..];
    assert q == old(b[..]);
    Clear(a);
    TailNone(q, g);
    var i := 15;
    TimesXZero(8);
    XorZero(ByteTimes(q[15], g));
    while true
      invariant 0 <= i < 16
      invariant a[..] == TimesX(8, Tail(q, g, i + 1))
      decreases i
    {
      AddPowers(a, p, q[i], g);
      TailStep(q, g, i);
      XorComm(ByteTimes(q[i], g), TimesX(8, Tail(q, g, i + 1)));
      if i == 0 {
        break;
      }
      i := i - 1;
      MulX8(a);
    }
    TailAll(q, g);
    TimesComm(q, g);
  }

  lemma TimesXZero(n: nat)
    ensures TimesX(n, ZeroBytes(16)) == ZeroBytes(16)
  {
    hide TimesX, Xor;
    var z: Block := ZeroBytes(16);
    XorZero(z);
    TimesXXor(n, z, z);
    XorSelf(TimesX(n, z));
  }

  lemma XorSelf(a: Block)
    ensures Xor(a, a) == ZeroBytes(16)
  {
  }

  /* ----- building a table ----- */

  /** Entries base .. base + Size(w) - 1 hold g times every w-bit index. */
  ghost predicate Row(t: seq<Block>, base: nat, g: Block, w: nat) {
    base + Size(w) <= |t| && forall n: nat :: n < Size(w) ==> t[base + n] == Entry(g, n, w)
  }

  /** The same for index zero and the indices with one bit set. */
  ghost predicate RowSeeds(t: seq<Block>, base: nat, g: Block, w: nat) {
    && base + Size(w) <= |t|
    && t[base] == Entry(g, 0, w)
    && forall d: nat :: d < w ==> Seeded(t, base, g, w, d)
  }

  ghost predicate Seeded(t: seq<Block>, base: nat, g: Block, w: nat, d: nat) {
    base + Size(d) < |t| && t[base + Size(d)] == Entry(g, Size(d), w)
  }

  /** Entries outside the row that starts at base are as they were. */
  ghost predicate OtherRowsKept(was: seq<Block>, now: seq<Block>, base: nat, w: nat) {
    |was| == |now| && forall k: nat :: k < |was| && !(base <= k < base + Size(w)) ==> now[k] == was[k]
  }

  lemma SizeValues()
    ensures Size(4) == 16 && Size(8) == 256
  {
    assert Size(2) == 4;
    assert Size(4) == 16;
    assert Size(6) == 64;
  }

  /** memset(t[0]), the generator at the top bit, and one multiplication by x per lower bit. */
  method Seed(t: array<Block>, base: nat, g: Block, w: nat)
    requires w > 1 && base + Size(w) <= t.Length
    modifies t
    ensures RowSeeds(t[..], base, g, w)
    ensures OtherRowsKept(old(t[..]), t[..], base, w)
  {
    hide Entry, TimesX;
    EntryZero(g, w);
    EntryTop(g, w);
    t[base] := ZeroBytes(16);
    t[base + Size(w - 1)] := g;
    var j := Size(w - 1) / 2;
    ghost var e := w - 2;
    while j >= 1
      invariant -1 <= e < w - 1
      invariant j == if e < 0 then 0 else Size(e)
      invariant t[base] == Entry(g, 0, w)
      invariant forall d: nat :: e < d < w ==> Seeded(t[..], base, g, w, d)
      invariant OtherRowsKept(old(t[..]), t[..], base, w)
    {
      SeedNext(t, base, w, j, g, e);
      j := j / 2;
      e := e - 1;
    }
  }

  /** t[j] = x * t[j + j] */
  method SeedNext(t: array<Block>, base: nat, w: nat, j: nat, ghost g: Block, ghost e: nat)
    requires e + 1 < w && j == Size(e) && base + Size(w) <= t.Length
    requires t[base] == Entry(g, 0, w)
    requires forall d: nat :: e < d < w ==> Seeded(t[..], base, g, w, d)
    modifies t
    ensures t[base] == Entry(g, 0, w)
    ensures forall d: nat :: e <= d < w ==> Seeded(t[..], base, g, w, d)
    ensures OtherRowsKept(old(t[..]), t[..], base, w)
  {
    hide Entry, TimesX, Seeded, OtherRowsKept;
    ghost var was := t[..];
    SeedIndex(was, base, g, w, e);
    var x := MulX1Entry(t[base + 2 * j]);
    t[base + j] := x;
    SeedStep(was, t[..], base, g, w, e, x);
    assert t[..] == was[base + j := x];
    assert t[base] == was[base];
  }

  lemma SeedIndex(t: seq<Block>, base: nat, g: Block, w: nat, e: nat)
    requires e + 1 < w && base + Size(w) <= |t| && Seeded(t, base, g, w, e + 1)
    ensures base + 2 * Size(e) < |t| && t[base + 2 * Size(e)] == Entry(g, Size(e + 1), w)
  {
  }

  lemma SeedStep(was: seq<Block>, now: seq<Block>, base: nat, g: Block, w: nat, e: nat, x: Block)
    requires e + 1 < w && base + Size(w) <= |was| && base + Size(e) < |was|
    requires forall d: nat :: e < d < w ==> Seeded(was, base, g, w, d)
    requires x == TimesX(1, Entry(g, Size(e + 1), w)) && now == was[base + Size(e) := x]
    ensures forall d: nat :: e <= d < w ==> Seeded(now, base, g, w, d)
    ensures OtherRowsKept(was, now, base, w)
  {
    hide Entry, TimesX, Size;
    EntryHalf(g, e, w);
    SizeGrows(e, w);
    forall d: nat | e <= d < w
      ensures Seeded(now, base, g, w, d)
    {
      if e < d {
        SizeGrows(e, d);
        assert Seeded(was, base, g, w, d);
      }
    }
  }

  /** The double loop t[j + k] = t[j] ^ t[k] that fills the remaining entries. */
  method Combine(t: array<Block>, base: nat, w: nat, ghost g: Block)
    requires w > 0 && RowSeeds(t[..], base, g, w)
    modifies t
    ensures Row(t[..], base, g, w)
    ensures OtherRowsKept(old(t[..]), t[..], base, w)
  {
    hide Entry, Xor;
    var size, j := Size(w), 2;
    ghost var e := 1;
    assert Seeded(t[..], base, g, w, 0);
    while j < size
      invariant 1 <= e <= w && j == Size(e) <= size && base + size <= t.Length
      invariant forall n: nat :: n < j ==> t[base + n] == Entry(g, n, w)
      invariant forall d: nat :: e <= d < w ==> Seeded(t[..], base, g, w, d)
      invariant OtherRowsKept(old(t[..]), t[..], base, w)
    {
      SizeGrows(e, w);
      CombineRow(t, base, w, j, g, e);
      j := j + j;
      e := e + 1;
    }
  }

  /** One run of the inner loop. */
  method CombineRow(t: array<Block>, base: nat, w: nat, j: nat, ghost g: Block, ghost e: nat)
    requires e < w && j == Size(e) && 2 * j <= Size(w) && base + Size(w) <= t.Length
    requires forall n: nat :: n < j ==> t[base + n] == Entry(g, n, w)
    requires forall d: nat :: e <= d < w ==> Seeded(t[..], base, g, w, d)
    modifies t
    ensures forall n: nat :: n < 2 * j ==> t[base + n] == Entry(g, n, w)
    ensures forall d: nat :: e < d < w ==> Seeded(t[..], base, g, w, d)
    ensures OtherRowsKept(old(t[..]), t[..], base, w)
  {
    hide Entry, Xor, Size;
    ghost var was := t[..];
    assert Seeded(t[..], base, g, w, e);
    var k := 1;
    while k < j
      invariant 1 <= k <= j
      invariant forall n: nat :: n < j + k ==> t[base + n] == Entry(g, n, w)
      invariant forall n: nat :: n < t.Length && !(base + j <= n < base + 2 * j) ==> t[n] == was[n]
    {
      EntrySum(g, e, k, w);
      t[base + j + k] := Xor(t[base + j], t[base + k]);
      k := k + 1;
    }
    forall d: nat | e < d < w
      ensures Seeded(t[..], base, g, w, d)
    {
      SizeGrows(e, d);
      assert Seeded(was, base, g, w, d);
    }
  }

  /* ----- 4k: one table of 256 entries ----- */

  /** init_4k_table */
  method Init4k(g: Block, t: array<Block>)
    requires t.Length == 256
    modifies t
    ensures Row(t[..], 0, g, 8)
  {
    SizeValues();
    Seed(t, 0, g, 8);
    Combine(t, 0, 8, g);
  }

  /** gf_mul_4k: a becomes a * g, by Horner's rule over the bytes of a. */
  method Mul4k(a: array<bv8>, t: seq<Block>, ghost g: Block)
    requires a.Length == 16 && |t| == 256
    requires Row(t, 0, g, 8)
    modifies a
    ensures a[..] == Times(old(a[..]), g)
  {
    SizeValues();
    hide Xor, TimesX, ByteTimes, Tail, Times, Entry, Value, Size;
    var r := new bv8[16];
    var ap: Block := a[..];
    Clear(r);
    TailNone(ap, g);
    var i := 15;
    while i >= 0
      invariant -1 <= i < 16
      invariant r[..] == Tail(ap, g, i + 1)
    {
      MulX8(r);
      XorBlockAligned(r, t[Value(ap[i])]);
      ByteTimesFromTable(ap[i], g);
      TailStep(ap, g, i);
      XorComm(ByteTimes(ap[i], g), TimesX(8, Tail(ap, g, i + 1)));
      i := i - 1;
    }
    Copy(a, r[..]);
    TailAll(ap, g);
  }

  /* ----- 256 bytes: one table of 16 entries ----- */

  /** init_256_table */
  method Init256(g: Block, t: array<Block>)
    requires t.Length == 16
    modifies t
    ensures Row(t[..], 0, g, 4)
  {
    SizeValues();
    Seed(t, 0, g, 4);
    Combine(t, 0, 4, g);
  }

  /** gf_mul_256: the same over nibbles, the low one of a byte first. */
  method Mul256(a: array<bv8>, t: seq<Block>, ghost g: Block)
    requires a.Length == 16 && |t| == 16
    requires Row(t, 0, g, 4)
    modifies a
    ensures a[..] == Times(old(a[..]), g)
  {
    SizeValues();
    hide Xor, TimesX, ByteTimes, Tail, Times, Entry, LowIndex, HighIndex, Size;
    var r := new bv8[16];
    var ap: Block := a[..];
    Clear(r);
    TailNone(ap, g);
    var i := 15;
    while i >= 0
      invariant -1 <= i < 16
      invariant r[..] == Tail(ap, g, i + 1)
    {
      MulX4(r);
      XorBlockAligned(r, t[LowIndex(ap[i])]);
      MulX4(r);
      XorBlockAligned(r, t[HighIndex(ap[i])]);
      NibbleSteps(ap, g, i);
      i := i - 1;
    }
    Copy(a, r[..]);
    TailAll(ap, g);
  }

  lemma NibbleSteps(a: Block, g: Block, i: nat)
    requires i < 16
    ensures var lo, hi := Entry(g, LowIndex(a[i]), 4), Entry(g, HighIndex(a[i]), 4);
            Tail(a, g, i) == Xor(TimesX(4, Xor(TimesX(4, Tail(a, g, i + 1)), lo)), hi)
  {
    hide *;
    var rest := Tail(a, g, i + 1);
    var lo, hi := Entry(g, LowIndex(a[i]), 4), Entry(g, HighIndex(a[i]), 4);
    TailStep(a, g, i);
    ByteTimesFromTable(a[i], g);
    TimesXXor(4, TimesX(4, rest), lo);
    TimesXSum(4, 4, rest);
    XorComm(Xor(hi, TimesX(4, lo)), TimesX(8, rest));
    XorComm(hi, TimesX(4, lo));
    XorAssoc(TimesX(8, rest), TimesX(4, lo), hi);
  }

  /* ----- 64k and 8k: one table for every byte or nibble position ----- */

  /** The starting values of a row are those of a lower row times x^8. */
  method NextSeeds(t: array<Block>, from: nat, base: nat, w: nat, ghost g: Block)
    requires w > 0 && from + Size(w) <= base && base + Size(w) <= t.Length
    requires Row(t[..], from, g, w)
    modifies t
    ensures RowSeeds(t[..], base, TimesX(8, g), w)
    ensures OtherRowsKept(old(t[..]), t[..], base, w)
  {
    hide Entry, TimesX;
    EntryZero(TimesX(8, g), w);
    t[base] := ZeroBytes(16);
    var j := Size(w - 1);
    ghost var e := w - 1;
    while j > 0
      invariant -1 <= e < w
      invariant j == if e < 0 then 0 else Size(e)
      invariant t[base] == Entry(TimesX(8, g), 0, w)
      invariant forall d: nat :: e < d < w ==> Seeded(t[..], base, TimesX(8, g), w, d)
      invariant Row(t[..], from, g, w)
      invariant OtherRowsKept(old(t[..]), t[..], base, w)
    {
      NextSeed(t, from, base, w, j, g, e);
      j := j / 2;
      e := e - 1;
    }
  }

  method NextSeed(t: array<Block>, from: nat, base: nat, w: nat, j: nat, ghost g: Block, ghost e: nat)
    requires e < w && j == Size(e) && from + Size(w) <= base && base + Size(w) <= t.Length
    requires Row(t[..], from, g, w)
    requires t[base] == Entry(TimesX(8, g), 0, w)
    requires forall d: nat :: e < d < w ==> Seeded(t[..], base, TimesX(8, g), w, d)
    modifies t
    ensures Row(t[..], from, g, w)
    ensures t[base] == Entry(TimesX(8, g), 0, w)
    ensures forall d: nat :: e <= d < w ==> Seeded(t[..], base, TimesX(8, g), w, d)
    ensures OtherRowsKept(old(t[..]), t[..], base, w)
  {
    hide Entry, TimesX, Size;
    ghost var was, h := t[..], TimesX(8, g);
    SizeGrows(e, w);
    EntryTimesX(g, j, w, 8);
    var x := MulX8Entry(t[from + j]);
    t[base + j] := x;
    NextSeedStep(was, t[..], base, h, w, e, x);
    assert t[..] == was[base + j := x];
  }

  lemma NextSeedStep(was: seq<Block>, now: seq<Block>, base: nat, h: Block, w: nat, e: nat, x: Block)
    requires e < w && base + Size(w) <= |was| && base + Size(e) < |was|
    requires forall d: nat :: e < d < w ==> Seeded(was, base, h, w, d)
    requires x == Entry(h, Size(e), w) && now == was[base + Size(e) := x]
    ensures forall d: nat :: e <= d < w ==> Seeded(now, base, h, w, d)
    ensures OtherRowsKept(was, now, base, w)
  {
    hide Entry, Size;
    SizeGrows(e, w);
    forall d: nat | e <= d < w
      ensures Seeded(now, base, h, w, d)
    {
      if e < d {
        SizeGrows(e, d);
        assert Seeded(was, base, h, w, d);
      }
    }
  }

  /** A row keeps its contents when another one is written. */
  lemma RowKept(was: seq<Block>, now: seq<Block>, base: nat, other: nat, g: Block, w: nat)
    requires Row(was, other, g, w) && OtherRowsKept(was, now, base, w)
    requires other + Size(w) <= base || base + Size(w) <= other
    ensures Row(now, other, g, w)
  {
    hide Entry, Size;
  }

  /** Table i of the 64k layout is for g * x^(8 * i). */
  ghost predicate Rows64k(t: seq<Block>, g: Block, n: nat) {
    forall i: nat :: i < n ==> Row(t, 256 * i, TimesX(8 * i, g), 8)
  }

  /** init_64k_table */
  method Init64k(g: Block, t: array<Block>)
    requires t.Length == 16 * 256
    modifies t
    ensures Rows64k(t[..], g, 16)
  {
    SizeValues();
    hide TimesX, Row, RowSeeds, OtherRowsKept, Size;
    Seed(t, 0, g, 8);
    TimesXNone(g);
    var i := 0;
    while true
      invariant 0 <= i < 16
      invariant RowSeeds(t[..], 256 * i, TimesX(8 * i, g), 8)
      invariant Rows64k(t[..], g, i)
      decreases 16 - i
    {
      ghost var was := t[..];
      Combine(t, 256 * i, 8, TimesX(8 * i, g));
      forall k: nat | k < i
        ensures Row(t[..], 256 * k, TimesX(8 * k, g), 8)
      {
        RowKept(was, t[..], 256 * i, 256 * k, TimesX(8 * k, g), 8);
      }
      i := i + 1;
      if i == 16 {
        return;
      }
      was := t[..];
      assert Row(was, 256 * (i - 1), TimesX(8 * (i - 1), g), 8);
      TimesXSum(8, 8 * (i - 1), g);
      NextSeeds(t, 256 * (i - 1), 256 * i, 8, TimesX(8 * (i - 1), g));
      forall k: nat | k < i
        ensures Row(t[..], 256 * k, TimesX(8 * k, g), 8)
      {
        RowKept(was, t[..], 256 * i, 256 * k, TimesX(8 * k, g), 8);
      }
    }
  }

  /** One byte position of a position-wise sum. */
  lemma SumStep(a: Block, g: Block, i: nat)
    requires i < 16
    ensures TimesX(8 * i, Tail(a, g, i))
         == Xor(TimesX(8 * (i + 1), Tail(a, g, i + 1)), TimesX(8 * i, ByteTimes(a[i], g)))
  {
    hide *;
    var rest := Tail(a, g, i + 1);
    TailStep(a, g, i);
    TimesXXor(8 * i, ByteTimes(a[i], g), TimesX(8, rest));
    TimesXSum(8 * i, 8, rest);
    XorComm(TimesX(8 * i, ByteTimes(a[i], g)), TimesX(8 * (i + 1), rest));
  }

  /** gf_mul_64k: one entry per byte, no shifts. */
  method Mul64k(a: array<bv8>, t: seq<Block>, ghost g: Block)
    requires a.Length == 16 && |t| == 16 * 256
    requires Rows64k(t, g, 16)
    modifies a
    ensures a[..] == Times(old(a[..]), g)
  {
    SizeValues();
    hide Xor, TimesX, ByteTimes, Tail, Times, Entry, Value, Size;
    var r := new bv8[16];
    var ap: Block := a[..];
    Clear(r);
    TailNone(ap, g);
    TimesXZero(128);
    var i := 15;
    while i >= 0
      invariant -1 <= i < 16
      invariant r[..] == TimesX(8 * (i + 1), Tail(ap, g, i + 1))
    {
      assert Row(t, 256 * i, TimesX(8 * i, g), 8);
      XorBlockAligned(r, t[256 * i + Value(ap[i])]);
      ByteTimesFromTable(ap[i], g);
      EntryTimesX(g, Value(ap[i]), 8, 8 * i);
      SumStep(ap, g, i);
      i := i - 1;
    }
    Copy(a, r[..]);
    TimesXNone(Tail(ap, g, 0));
    TailAll(ap, g);
  }

  /** The generator of row i of the 8k layout: odd rows serve high nibbles. */
  function Base8k(g: Block, i: nat): Block {
    if i % 2 == 1 then TimesX(8 * (i / 2), g) else TimesX(8 * (i / 2) + 4, g)
  }

  ghost predicate Rows8k(t: seq<Block>, g: Block, n: nat) {
    forall i: nat :: i < n ==> Row(t, 16 * i, Base8k(g, i), 4)
  }

  lemma Base8kNext(g: Block, i: nat)
    ensures Base8k(g, i + 2) == TimesX(8, Base8k(g, i))
  {
    hide TimesX;
    TimesXSum(8, 8 * (i / 2), g);
    TimesXSum(8, 8 * (i / 2) + 4, g);
  }

  lemma SmallSizes()
    ensures Size(0) == 1 && Size(1) == 2 && Size(2) == 4 && Size(3) == 8
  {
  }

  /** The last starting value of row 1 times x is the generator of row 0. */
  lemma LastSeed(g: Block)
    ensures TimesX(1, Entry(g, 1, 4)) == TimesX(4, g)
  {
    hide Entry, TimesX, Size;
    SmallSizes();
    EntryTop(g, 4);
    EntryHalf(g, 2, 4);
    EntryHalf(g, 1, 4);
    EntryHalf(g, 0, 4);
    TimesXSum(1, 1, g);
    TimesXSum(1, 2, g);
    TimesXSum(1, 3, g);
  }

  lemma LowestSeed(t: seq<Block>, base: nat, g: Block, w: nat)
    requires w > 0 && RowSeeds(t, base, g, w)
    ensures base + 1 < |t| && t[base + 1] == Entry(g, 1, w)
  {
    hide Entry;
    assert Seeded(t, base, g, w, 0);
  }

  /** The starting values of rows 1 and 0. */
  method Seed8k(g: Block, t: array<Block>)
    requires t.Length == 32 * 16
    modifies t
    ensures RowSeeds(t[..], 0, Base8k(g, 0), 4)
    ensures RowSeeds(t[..], 16, Base8k(g, 1), 4)
  {
    SizeValues();
    hide TimesX, OtherRowsKept, Size, Entry, RowSeeds;
    Seed(t, 16, g, 4);
    LowestSeed(t[..], 16, g, 4);
    var h := MulX1Entry(t[17]);
    LastSeed(g);
    TimesXNone(g);
    ghost var was := t[..];
    Seed(t, 0, h, 4);
    SeedsKept(was, t[..], 0, 16, g, 4);
  }

  /** init_8k_table */
  method Init8k(g: Block, t: array<Block>)
    requires t.Length == 32 * 16
    modifies t
    ensures Rows8k(t[..], g, 32)
  {
    SizeValues();
    hide TimesX, Row, RowSeeds, OtherRowsKept, Size, Base8k;
    ghost var was;
    Seed8k(g, t);
    var i := 0;
    while true
      invariant 0 <= i < 32
      invariant RowSeeds(t[..], 16 * i, Base8k(g, i), 4)
      invariant i == 0 ==> RowSeeds(t[..], 16, Base8k(g, 1), 4)
      invariant Rows8k(t[..], g, i)
      decreases 32 - i
    {
      was := t[..];
      Combine(t, 16 * i, 4, Base8k(g, i));
      Rows8kKept(was, t[..], g, i, 16 * i);
      if i == 0 {
        SeedsKept(was, t[..], 0, 16, Base8k(g, 1), 4);
      }
      i := i + 1;
      if i == 32 {
        return;
      }
      if i > 1 {
        was := t[..];
        assert Row(was, 16 * (i - 2), Base8k(g, i - 2), 4);
        Base8kNext(g, i - 2);
        NextSeeds(t, 16 * (i - 2), 16 * i, 4, Base8k(g, i - 2));
        Rows8kKept(was, t[..], g, i, 16 * i);
      }
    }
  }

  lemma Rows8kKept(was: seq<Block>, now: seq<Block>, g: Block, n: nat, base: nat)
    requires Rows8k(was, g, n) && OtherRowsKept(was, now, base, 4) && 16 * n <= base
    ensures Rows8k(now, g, n)
  {
    SizeValues();
    hide Row, OtherRowsKept, Size, Base8k;
    forall k: nat | k < n
      ensures Row(now, 16 * k, Base8k(g, k), 4)
    {
      RowKept(was, now, base, 16 * k, Base8k(g, k), 4);
    }
  }

  lemma SeedsKept(was: seq<Block>, now: seq<Block>, base: nat, other: nat, g: Block, w: nat)
    requires RowSeeds(was, other, g, w) && OtherRowsKept(was, now, base, w)
    requires base + Size(w) <= other
    ensures RowSeeds(now, other, g, w)
  {
    hide Entry, Size;
    forall d: nat | d < w
      ensures Seeded(now, other, g, w, d)
    {
      assert Seeded(was, other, g, w, d);
    }
  }

  /** gf_mul_8k: one entry per nibble, no shifts. */
  method Mul8k(a: array<bv8>, t: seq<Block>, ghost g: Block)
    requires a.Length == 16 && |t| == 32 * 16
    requires Rows8k(t, g, 32)
    modifies a
    ensures a[..] == Times(old(a[..]), g)
  {
    SizeValues();
    hide Xor, TimesX, ByteTimes, Tail, Times, Entry, LowIndex, HighIndex, Size;
    var r := new bv8[16];
    var ap: Block := a[..];
    Clear(r);
    TailNone(ap, g);
    TimesXZero(128);
    var i := 15;
    while i >= 0
      invariant -1 <= i < 16
      invariant r[..] == TimesX(8 * (i + 1), Tail(ap, g, i + 1))
    {
      assert Row(t, 16 * (2 * i), Base8k(g, 2 * i), 4);
      assert Row(t, 16 * (2 * i + 1), Base8k(g, 2 * i + 1), 4);
      XorBlockAligned(r, t[16 * (2 * i) + LowIndex(ap[i])]);
      XorBlockAligned(r, t[16 * (2 * i + 1) + HighIndex(ap[i])]);
      NibblePair(ap, g, i);
      i := i - 1;
    }
    Copy(a, r[..]);
    TimesXNone(Tail(ap, g, 0));
    TailAll(ap, g);
  }

  lemma Base8kOf(g: Block, i: nat)
    ensures Base8k(g, 2 * i) == TimesX(8 * i + 4, g) && Base8k(g, 2 * i + 1) == TimesX(8 * i, g)
  {
    hide TimesX;
  }

  lemma NibblePair(a: Block, g: Block, i: nat)
    requires i < 16
    ensures var lo := Entry(Base8k(g, 2 * i), LowIndex(a[i]), 4);
            var hi := Entry(Base8k(g, 2 * i + 1), HighIndex(a[i]), 4);
            TimesX(8 * i, Tail(a, g, i)) == Xor(Xor(TimesX(8 * (i + 1), Tail(a, g, i + 1)), lo), hi)
  {
    hide *;
    Base8kOf(g, i);
    var rest := TimesX(8 * (i + 1), Tail(a, g, i + 1));
    var lo, hi := Entry(g, LowIndex(a[i]), 4), Entry(g, HighIndex(a[i]), 4);
    SumStep(a, g, i);
    ByteTimesFromTable(a[i], g);
    TimesXXor(8 * i, hi, TimesX(4, lo));
    TimesXSum(8 * i, 4, lo);
    EntryTimesX(g, LowIndex(a[i]), 4, 8 * i + 4);
    EntryTimesX(g, HighIndex(a[i]), 4, 8 * i);
    XorComm(TimesX(8 * i, hi), TimesX(8 * i + 4, lo));
    XorAssoc(rest, TimesX(8 * i + 4, lo), TimesX(8 * i, hi));
  }
}
