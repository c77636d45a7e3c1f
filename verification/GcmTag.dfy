/** The arithmetic of gcm_compute_tag and of the long form of gcm_init_message. */
module GcmTag {
  import opened Bytes
  import opened Octets
  import opened LbBlocks
  import opened Gf128
  import opened Gf128Mul
  import opened GfField
  import opened GfTables
  import opened GcmSpec
  import opened GcmHash
  import opened GcmAuth

  /* ----- multiplication by a power of the hash key ----- */

  /** One turn of square-and-multiply, on the exponent ln = 2 * m + bit. */
  lemma PowerTurn(a: Block, t: Block, ln: nat)
    ensures var a' := if ln % 2 == 1 then Times(a, t) else a;
            Times(a, Power(t, ln)) == Times(a', Power(Times(t, t), ln / 2))
  {
    hide Times, Power;
    var m := ln / 2;
    PowerSquare(t, m);
    if ln % 2 == 1 {
      PowerStep(t, 2 * m);
      TimesAssoc(a, t, Power(t, 2 * m));
    }
  }

  /** a becomes a * h^ln by repeated squaring. */
  method MulPower(a: array<bv8>, h: Block, exponent: nat)
    requires a.Length == 16 && exponent > 0
    modifies a
    ensures a[..] == Times(old(a[..]), Power(h, exponent))
  {
    hide Times, Power;
    var ln := exponent;
    var tbuf := new bv8[16](i requires 0 <= i < 16 => h[i]);
    assert tbuf[..] == h;
    ghost var goal := Times(a[..], Power(h, exponent));
    while true
      invariant ln > 0
      invariant Times(a[..], Power(tbuf[..], ln)) == goal
      decreases ln
    {
      PowerTurn(a[..], tbuf[..], ln);
      if ln % 2 == 1 {
        MulTMD(a, tbuf);
      }
      ln := ln / 2;
      if ln == 0 {
        break;
      }
      MulTMD(tbuf, tbuf);
    }
    PowerZero(a[..], Times(tbuf[..], tbuf[..]));
  }

  /* ----- lengths ----- */

  /** tm has been shifted down k bytes from n. */
  ghost predicate ShiftedBytes(n: nat, tm: nat, k: nat) {
    forall j: nat :: NatByte(n, k + j) == NatByte(tm, j)
  }

  lemma ShiftedNext(n: nat, tm: nat, k: nat)
    requires ShiftedBytes(n, tm, k)
    ensures NatByte(n, k) == (tm % 256) as bv8
    ensures ShiftedBytes(n, tm / 256, k + 1)
  {
    assert NatByte(n, k + 0) == NatByte(tm, 0);
    forall j: nat
      ensures NatByte(n, k + 1 + j) == NatByte(tm / 256, j)
    {
      assert NatByte(n, k + (j + 1)) == NatByte(tm, j + 1);
    }
  }

  lemma ShiftedNone(n: nat)
    ensures ShiftedBytes(n, n, 0)
  {
  }

  /** The loop that adds the text hash and the two bit lengths to the header hash. */
  method AddLengths(hdr: array<bv8>, txt: array<bv8>, hdrCnt: nat, txtCnt: nat, ghost a: seq<bv8>, ghost c: seq<bv8>)
    requires hdr.Length == 16 == txt.Length && hdr != txt
    requires hdrCnt == |a| && txtCnt == |c|
    modifies hdr
    ensures hdr[..] == Xor(old(hdr[..]), Xor(txt[..], LenBlock(a, c)))
  {
    hide Xor8, NatByte, ShiftedBytes, LenBlock;
    ghost var was, len := hdr[..], LenBlock(a, c);
    var i, tm: nat := 16, txtCnt * 8;
    ShiftedNone(8 * |c|);
    ShiftedNone(8 * |a|);
    while i > 0
      invariant 0 <= i <= 16
      invariant i > 8 ==> ShiftedBytes(8 * |c|, tm, 16 - i)
      invariant i <= 8 ==> ShiftedBytes(8 * |a|, tm, 8 - i)
      invariant forall k :: i <= k < 16 ==> hdr[k] == Xor8(was[k], Xor8(txt[k], len[k]))
      invariant forall k :: 0 <= k < i ==> hdr[k] == was[k]
    {
      if i > 8 {
        ShiftedNext(8 * |c|, tm, 16 - i);
        TextLengthByte(a, c, 16 - i);
      } else {
        ShiftedNext(8 * |a|, tm, 8 - i);
        HeaderLengthByte(a, c, 8 - i);
      }
      i := i - 1;
      hdr[i] := Xor8(hdr[i], Xor8(txt[i], Octet(tm)));
      tm := if i == 8 then hdrCnt * 8 else tm / 256;
    }
  }

  lemma TextLengthByte(a: seq<bv8>, c: seq<bv8>, k: nat)
    requires k < 8
    ensures LenBlock(a, c)[15 - k] == NatByte(8 * |c|, k)
  {
    hide NatByte;
    assert k in {0, 1, 2, 3, 4, 5, 6, 7};
  }

  lemma HeaderLengthByte(a: seq<bv8>, c: seq<bv8>, k: nat)
    requires k < 8
    ensures LenBlock(a, c)[7 - k] == NatByte(8 * |a|, k)
  {
    hide NatByte;
    assert k in {0, 1, 2, 3, 4, 5, 6, 7};
  }

  /* ----- joining the two hashes ----- */

  /** The header hash carried past the text blocks, the text hash and the lengths, times h, is
      the hash of the whole string of section 7.1. */
  lemma JoinHashes(h: Block, a: seq<bv8>, c: seq<bv8>)
    ensures var x := Times(Ghash(h, Pad(a)), Power(h, (|c| + 15) / 16));
            Times(Xor(x, Xor(Ghash(h, Pad(c)), LenBlock(a, c))), h) == Ghash(h, TagString(a, c))
  {
    hide Times, Power, Xor;
    var pa, pc, s := Pad(a), Pad(c), TagString(a, c);
    assert s[..|s| - 16] == pa + pc && s[|s| - 16..] == LenBlock(a, c);
    GhashConcat(h, pa, pc);
    assert |pc| / 16 == (|c| + 15) / 16;
    XorAssoc(Times(Ghash(h, pa), Power(h, (|c| + 15) / 16)), Ghash(h, pc), LenBlock(a, c));
  }

  /** Nothing to carry across when there is no header. */
  lemma NoHeader(h: Block, n: nat)
    ensures Times(Ghash(h, Pad([])), Power(h, n)) == Ghash(h, Pad([]))
  {
    hide Times, Power;
    assert Pad([]) == [];
    TimesZero(Power(h, n));
  }

  lemma NoText(h: Block, x: Block)
    ensures Times(x, Power(h, 0)) == x
  {
    PowerZero(x, h);
  }

  /** The number of text blocks as the code counts them, in 32 bits. */
  function CodeBlocks(n: nat): nat {
    (n + 15) % COUNT_LIMIT / 16
  }

  /** The hash that the code ends with. */
  function CodeHash(h: Block, a: seq<bv8>, c: seq<bv8>): Block {
    Times(Xor(Times(Ghash(h, Pad(a)), Power(h, CodeBlocks(|c|))), Xor(Ghash(h, Pad(c)), LenBlock(a, c))), h)
  }

  function CodeTag(e: Block -> Block, h: Block, j0: Block, a: seq<bv8>, c: seq<bv8>): Block {
    Xor(CodeHash(h, a, c), e(j0))
  }

  /** The code's hash is the standard's without a header, and with one up to 2^32 - 16 text bytes. */
  lemma CodeHashIsGhash(h: Block, a: seq<bv8>, c: seq<bv8>)
    requires a == [] || |c| <= CALL_LIMIT
    ensures CodeHash(h, a, c) == Ghash(h, TagString(a, c))
  {
    hide Times, Power, Xor, Ghash, Pad, TagString, LenBlock;
    JoinHashes(h, a, c);
    if a == [] {
      NoHeader(h, CodeBlocks(|c|));
      NoHeader(h, (|c| + 15) / 16);
    }
  }

  /* ----- the block count beyond 2^32 - 16 text bytes ----- */

  lemma PolyOfZero()
    ensures PolyOf(ZeroBytes(16)) == ZERO
  {
  }

  /** A product of blocks is zero if and only if a factor is. */
  lemma TimesNone(a: Block, b: Block)
    ensures Times(a, b) == ZeroBytes(16) <==> a == ZeroBytes(16) || b == ZeroBytes(16)
  {
    hide Times, PolyOf, BlockOf, Mul;
    PolyOfTimes(a, b);
    PolyOfZero();
    ProductZero(PolyOf(a), PolyOf(b));
    BlockOfPolyOf(a);
    BlockOfPolyOf(b);
    BlockOfPolyOf(Times(a, b));
    BlockOfPolyOf(ZeroBytes(16));
  }

  lemma {:induction false} PowerNone(h: Block, n: nat)
    requires n > 0
    ensures Power(h, n) == ZeroBytes(16) <==> h == ZeroBytes(16)
  {
    hide Times, Power;
    if n == 1 {
      PowerOne(h);
    } else {
      PowerNone(h, n - 1);
      PowerStep(h, n - 1);
      TimesNone(h, Power(h, n - 1));
    }
  }

  lemma XorNone(a: Block, b: Block)
    ensures Xor(a, b) == ZeroBytes(16) <==> a == b
  {
    hide Xor;
    XorSelf(a);
    if Xor(a, b) == ZeroBytes(16) {
      XorAssoc(a, a, b);
      XorZero(a);
      XorZero(b);
    }
  }

  /** g + a and g + b have the same product with h only if a is b or h is zero. */
  lemma SameProduct(g: Block, a: Block, b: Block, h: Block)
    ensures Times(Xor(g, a), h) == Times(Xor(g, b), h) <==> a == b || h == ZeroBytes(16)
  {
    hide Xor, Times;
    TimesDistributes(h, Xor(g, a), Xor(g, b));
    XorNone(Times(Xor(g, a), h), Times(Xor(g, b), h));
    XorShared(g, a, b);
    XorNone(a, b);
    TimesNone(Xor(a, b), h);
  }

  lemma XorShared(g: Block, a: Block, b: Block)
    ensures Xor(Xor(g, a), Xor(g, b)) == Xor(a, b)
  {
    hide Xor;
    XorComm(g, a);
    XorAssoc(a, g, Xor(g, b));
    XorAssoc(g, g, b);
    XorSelf(g);
    XorZero(b);
  }

  lemma UnitTimes(a: Block)
    ensures Times(a, Unit()) == a && Times(Unit(), a) == a
  {
    hide Times;
    PowerZero(a, a);
    TimesComm(a, Unit());
  }

  /** (h + 1)^2 is h^2 + 1. */
  lemma SquareOfSum(h: Block)
    ensures Times(Xor(h, Unit()), Xor(h, Unit())) == Xor(Times(h, h), Unit())
  {
    hide Times, Xor, Unit;
    var s := Xor(h, Unit());
    TimesDistributes(s, h, Unit());
    UnitTimes(s);
    TimesComm(h, s);
    TimesDistributes(h, h, Unit());
    UnitTimes(h);
    XorAssoc(Times(h, h), h, Xor(h, Unit()));
    XorAssoc(h, h, Unit());
    XorSelf(h);
    XorZero(Unit());
  }

  /** (h + 1)^(2^k) is h^(2^k) + 1. */
  lemma {:induction false} PowerOfSum(h: Block, k: nat)
    ensures Power(Xor(h, Unit()), Size(k)) == Xor(Power(h, Size(k)), Unit())
    decreases k
  {
    hide Times, Xor, Unit, Power;
    if k == 0 {
      PowerOne(h);
      PowerOne(Xor(h, Unit()));
    } else {
      SquareOfSum(h);
      PowerSquare(Xor(h, Unit()), Size(k - 1));
      PowerSquare(h, Size(k - 1));
      PowerOfSum(Times(h, h), k - 1);
    }
  }

  lemma PowerOne(h: Block)
    ensures Power(h, 1) == h
  {
    hide Times, Power;
    PowerStep(h, 0);
    PowerZero(h, h);
  }

  /** Past 2^32 - 16 text bytes the block count has wrapped to zero, and the hash is right if and only if
      the hash key is 0 or 1 or the header hashes to zero. */
  lemma WrappedCountExact(h: Block, a: seq<bv8>, c: seq<bv8>)
    requires CALL_LIMIT < |c| < COUNT_LIMIT
    ensures CodeHash(h, a, c) == Ghash(h, TagString(a, c)) <==>
            h == ZeroBytes(16) || h == Unit() || Ghash(h, Pad(a)) == ZeroBytes(16)
  {
    hide Times, Power, Xor, Ghash, Pad, TagString, LenBlock, Unit;
    var x, n, rest := Ghash(h, Pad(a)), 0x1000_0000, Xor(Ghash(h, Pad(c)), LenBlock(a, c));
    assert CodeBlocks(|c|) == 0 && (|c| + 15) / 16 == n;
    JoinHashes(h, a, c);
    NoText(h, x);
    XorComm(rest, x);
    XorComm(rest, Times(x, Power(h, n)));
    SameProduct(rest, x, Times(x, Power(h, n)), h);
    UnchangedByPower(x, h);
  }

  /** x h^(2^28) is x only if x is zero or h is one: the difference is x (h + 1)^(2^28). */
  lemma UnchangedByPower(x: Block, h: Block)
    ensures x == Times(x, Power(h, 0x1000_0000)) <==> x == ZeroBytes(16) || h == Unit()
  {
    hide Times, Power, Xor, Unit;
    var p := Power(h, 0x1000_0000);
    Size28();
    PowerOfSum(h, 28);
    XorNone(x, Times(x, p));
    SumFactors(x, p);
    TimesNone(x, Xor(p, Unit()));
    PowerNone(Xor(h, Unit()), 0x1000_0000);
    XorNone(h, Unit());
  }

  /** The exact condition on all text totals below 2^32. */
  lemma CodeHashExact(h: Block, a: seq<bv8>, c: seq<bv8>)
    requires |c| < COUNT_LIMIT
    ensures CodeHash(h, a, c) == Ghash(h, TagString(a, c)) <==>
            |c| <= CALL_LIMIT || h == ZeroBytes(16) || h == Unit() || Ghash(h, Pad(a)) == ZeroBytes(16)
  {
    hide CodeHash, Ghash, TagString, Unit;
    if |c| <= CALL_LIMIT {
      CodeHashIsGhash(h, a, c);
    } else {
      WrappedCountExact(h, a, c);
    }
  }

  lemma CodeTagExact(e: Block -> Block, h: Block, j0: Block, a: seq<bv8>, c: seq<bv8>)
    requires |c| < COUNT_LIMIT
    ensures CodeTag(e, h, j0, a, c) == Tag(e, h, j0, a, c) <==>
            |c| <= CALL_LIMIT || h == ZeroBytes(16) || h == Unit() || Ghash(h, Pad(a)) == ZeroBytes(16)
  {
    hide CodeHash, Ghash, TagString, Xor, Unit;
    CodeHashExact(h, a, c);
    var p, q := CodeHash(h, a, c), Ghash(h, TagString(a, c));
    XorComm(p, e(j0));
    XorComm(q, e(j0));
    XorShared(e(j0), p, q);
    XorNone(Xor(e(j0), p), Xor(e(j0), q));
    XorNone(p, q);
  }

  /** Under every hash key but 0 and 1, a header of one block that is not zero gets a wrong tag there. */
  lemma OneBlockHeaderFails(e: Block -> Block, h: Block, j0: Block, a: Block, c: seq<bv8>)
    requires CALL_LIMIT < |c| < COUNT_LIMIT
    requires h != ZeroBytes(16) && h != Unit() && a != ZeroBytes(16)
    ensures CodeTag(e, h, j0, a, c) != Tag(e, h, j0, a, c)
  {
    hide CodeTag, Tag, Times, Unit, Xor;
    OneBlockHash(h, a);
    TimesNone(a, h);
    CodeTagExact(e, h, j0, a, c);
  }

  lemma OneBlockHash(h: Block, a: Block)
    ensures Ghash(h, Pad(a)) == Times(a, h)
  {
    hide Times, Xor;
    assert Pad(a) == a && a[..0] == [] && a[0..] == a;
    assert Ghash(h, []) == ZeroBytes(16);
    XorZero(a);
  }

  lemma Size28()
    ensures Size(28) == 0x1000_0000
  {
    assert Size(8) == 256 by { assert Size(4) == 16; }
    assert Size(16) == 0x1_0000 by { assert Size(12) == 0x1000; }
    assert Size(24) == 0x100_0000 by { assert Size(20) == 0x10_0000; }
  }

  /** x + x p is x (p + 1). */
  lemma SumFactors(x: Block, p: Block)
    ensures Xor(x, Times(x, p)) == Times(x, Xor(p, Unit()))
  {
    hide Times, Xor, Unit;
    TimesDistributes(x, p, Unit());
    TimesComm(x, Xor(p, Unit()));
    TimesComm(p, x);
    UnitTimes(x);
    XorComm(x, Times(x, p));
  }

  /* ----- the initial counter block ----- */

  /** J0 as the code computes it: the bit length goes through a 32-bit variable. */
  function CodeJ0(h: Block, iv: seq<bv8>): Block {
    if |iv| == 12 then iv + [0, 0, 0, 1] else Ghash(h, IvString(iv, 8 * |iv| % 0x1_0000_0000))
  }

  /** The bytes of a number below 2^32 that lie above its 32 bits. */
  lemma HighBytesZero(n: nat)
    requires n < 0x1_0000_0000
    ensures NatByte(n, 4) == 0 && NatByte(n, 5) == 0 && NatByte(n, 6) == 0 && NatByte(n, 7) == 0
  {
    assert n / 256 / 256 / 256 / 256 == 0;
    forall j: nat
      ensures NatByte(n, 4 + j) == NatByte(n / 256 / 256 / 256 / 256, j)
    {
      assert NatByte(n, 4 + j) == NatByte(n / 256, 3 + j);
      assert NatByte(n / 256, 3 + j) == NatByte(n / 256 / 256, 2 + j);
      assert NatByte(n / 256 / 256, 2 + j) == NatByte(n / 256 / 256 / 256, 1 + j);
    }
    ZeroBytesOfZero(0);
    ZeroBytesOfZero(1);
    ZeroBytesOfZero(2);
    ZeroBytesOfZero(3);
    assert NatByte(n, 4 + 0) == 0 && NatByte(n, 4 + 1) == 0 && NatByte(n, 4 + 2) == 0 && NatByte(n, 4 + 3) == 0;
  }

  lemma {:induction false} ZeroBytesOfZero(j: nat)
    ensures NatByte(0, j) == 0
  {
    if j > 0 {
      ZeroBytesOfZero(j - 1);
    }
  }

  /** The last block hashed for a long initialisation vector. */
  function IvLenBlock(bits: nat): Block {
    ZeroBytes(8) + Be64(bits)
  }

  /** The length that is hashed is the standard's exactly for vectors below 2^29 bytes. */
  lemma IvLengthExact(iv: seq<bv8>)
    requires |iv| < 0x1_0000_0000
    ensures IvString(iv, 8 * |iv| % 0x1_0000_0000) == IvString(iv, 8 * |iv|) <==> |iv| < 0x2000_0000
  {
    hide NatByte, Pad;
    var n := 8 * |iv|;
    var m := n % 0x1_0000_0000;
    if n >= 0x1_0000_0000 {
      HighBytesZero(m);
      FifthByte(n);
      LengthByteOf(iv, m);
      LengthByteOf(iv, n);
      assert IvString(iv, m) != IvString(iv, n);
    } else {
      assert m == n;
    }
  }

  lemma LengthByteOf(iv: seq<bv8>, n: nat)
    ensures IvString(iv, n)[|Pad(iv)| + 11] == NatByte(n, 4)
  {
    hide NatByte, Pad;
  }

  /** A length of 2^32 bits or more, up to 2^35, shows in byte 4. */
  lemma FifthByte(n: nat)
    requires 0x1_0000_0000 <= n < 0x8_0000_0000
    ensures 0 < NatByte(n, 4) < 8
  {
    var m := n / 256 / 256 / 256 / 256;
    assert 1 <= m < 8;
    assert NatByte(n, 4) == NatByte(n / 256, 3);
    assert NatByte(n / 256, 3) == NatByte(n / 256 / 256, 2);
    assert NatByte(n / 256 / 256, 2) == NatByte(n / 256 / 256 / 256, 1);
    assert NatByte(n / 256 / 256 / 256, 1) == NatByte(m, 0);
    SmallNonzero(m);
  }

  lemma SmallNonzero(m: nat)
    requires 1 <= m < 8
    ensures 0 < (m % 256) as bv8 < 8
  {
    assert m in {1, 2, 3, 4, 5, 6, 7};
  }

  lemma ShortIvExact(h: Block, iv: seq<bv8>)
    requires |iv| < 0x2000_0000
    ensures CodeJ0(h, iv) == J0(h, iv)
  {
    hide IvString, Ghash;
    assert 8 * |iv| % 0x1_0000_0000 == 8 * |iv|;
  }

  /** The first counter block is the standard's if and only if the vector is below 2^29 bytes or the
      hash key is zero. */
  lemma CodeJ0Exact(h: Block, iv: seq<bv8>)
    requires |iv| < 0x1_0000_0000
    ensures CodeJ0(h, iv) == J0(h, iv) <==> |iv| < 0x2000_0000 || h == ZeroBytes(16)
  {
    hide Ghash, IvString, Xor, Times, Pad, IvLenBlock;
    if |iv| < 0x2000_0000 {
      ShortIvExact(h, iv);
    } else {
      var m, n := 8 * |iv| % 0x1_0000_0000, 8 * |iv|;
      var g := Ghash(h, Pad(iv));
      IvHash(h, iv, m);
      IvHash(h, iv, n);
      IvLengthExact(iv);
      IvParts(iv, m);
      IvParts(iv, n);
      SameProduct(g, IvLenBlock(m), IvLenBlock(n), h);
    }
  }

  lemma IvParts(iv: seq<bv8>, bits: nat)
    ensures IvString(iv, bits) == Pad(iv) + IvLenBlock(bits)
  {
    hide Pad, Be64;
  }

  lemma IvHash(h: Block, iv: seq<bv8>, bits: nat)
    ensures Ghash(h, IvString(iv, bits)) == Times(Xor(Ghash(h, Pad(iv)), IvLenBlock(bits)), h)
  {
    hide Times, Xor, Pad, IvLenBlock;
    IvParts(iv, bits);
    var s := IvString(iv, bits);
    assert s[..|s| - 16] == Pad(iv) && s[|s| - 16..] == IvLenBlock(bits);
  }

  /** The loop that adds the bit length, from the last byte until nothing is left of it. */
  method AddIvLength(ctr: array<bv8>, bits: nat)
    requires ctr.Length == 16 && bits < 0x1_0000_0000
    modifies ctr
    ensures ctr[..] == Xor(old(ctr[..]), IvLenBlock(bits))
  {
    hide Xor8, NatByte;
    ghost var was, len := ctr[..], IvLenBlock(bits);
    var i, n: nat := 15, bits;
    ShiftedNone(bits);
    HighBytesZero(bits);
    while n != 0
      invariant 11 <= i <= 15 && ShiftedBytes(bits, n, 15 - i)
      invariant i == 11 ==> n == 0
      invariant n < Limit(i)
      invariant forall k :: i < k < 16 ==> ctr[k] == Xor8(was[k], len[k])
      invariant forall k :: 0 <= k <= i ==> ctr[k] == was[k]
      decreases n
    {
      ShiftedNext(bits, n, 15 - i);
      IvLenByte(bits, 15 - i);
      ctr[i] := Xor8(ctr[i], Octet(n));
      i, n := i - 1, n / 256;
    }
    forall k | 0 <= k <= i
      ensures ctr[k] == Xor8(was[k], len[k])
    {
      IvLenRest(bits, 15 - i, k);
      Xor8Laws(was[k], 0, 0);
    }
  }

  /** Bound on what is left of the length before byte i is written. */
  function Limit(i: int): nat {
    if i >= 15 then 0x1_0000_0000 else if i == 14 then 0x100_0000 else if i == 13 then 0x1_0000
    else if i == 12 then 0x100 else 1
  }

  lemma IvLenByte(bits: nat, k: nat)
    requires k < 8
    ensures IvLenBlock(bits)[15 - k] == NatByte(bits, k)
  {
    hide NatByte;
    assert k in {0, 1, 2, 3, 4, 5, 6, 7};
  }

  lemma IvLenRest(bits: nat, done: nat, k: nat)
    requires done <= 4 && k <= 15 - done && ShiftedBytes(bits, 0, done)
    ensures IvLenBlock(bits)[k] == 0
  {
    hide NatByte;
    if k >= 8 {
      IvLenByte(bits, 15 - k);
      assert NatByte(bits, done + (15 - k - done)) == NatByte(0, 15 - k - done);
      ZeroBytesOfZero(15 - k - done);
    }
  }

  /** The long form of gcm_init_message. */
  method HashIv(ctr: array<bv8>, table: seq<Block>, iv: seq<bv8>, ghost h: Block)
    requires ctr.Length == 16 && |table| == 256 && Row(table, 0, h, 8)
    requires ctr[..] == ZeroBytes(16) && |iv| != 12 && |iv| < 0x1_0000_0000
    modifies ctr
    ensures ctr[..] == CodeJ0(h, iv)
  {
    hide Row, Times, Xor, Holds;
    HashIvBlocks(ctr, table, iv, h);
    var bits := 8 * |iv| % 0x1_0000_0000;
    AddIvLength(ctr, bits);
    MulHH(ctr, table, h);
    IvHash(h, iv, bits);
  }

  /** The counter block set up by gcm_init_message. */
  method FirstCounter(ctr: array<bv8>, table: seq<Block>, iv: seq<bv8>, ghost h: Block)
    requires ctr.Length == 16 && |table| == 256 && Row(table, 0, h, 8)
    requires |iv| < 0x1_0000_0000
    modifies ctr
    ensures ctr[..] == CodeJ0(h, iv)
  {
    hide Row, Ghash;
    Clear(ctr);
    if |iv| == 12 {
      Copy(ctr, iv + [0, 0, 0, 1]);
    } else {
      HashIv(ctr, table, iv, h);
    }
  }

  method HashIvBlocks(ctr: array<bv8>, table: seq<Block>, iv: seq<bv8>, ghost h: Block)
    requires ctr.Length == 16 && |table| == 256 && Row(table, 0, h, 8)
    requires ctr[..] == ZeroBytes(16)
    modifies ctr
    ensures ctr[..] == Ghash(h, Pad(iv))
  {
    hide Row, Times, Xor, Holds, Ghash;
    HoldsNone(h);
    var at: nat, nPos: nat := 0, |iv|;
    assert iv[..0] == [];
    while nPos >= 16
      invariant at + nPos == |iv| && at % 16 == 0
      invariant Holds(h, ctr[..], iv[..at], [])
    {
      HoldsBlock(h, ctr[..], iv[..at], iv[at..at + 16]);
      XorBlockAligned(ctr, iv[at..at + 16]);
      nPos := nPos - 16;
      Multiply(ctr, table, h, iv[..at], iv[at..at + 16]);
      assert iv[..at + 16] == iv[..at] + iv[at..at + 16];
      at := at + 16;
    }
    if nPos != 0 {
      ghost var full := iv[..at];
      var k: nat := 0;
      assert iv[at..at] == [];
      while nPos > 0
        invariant at + k + nPos == |iv| < at + 16
        invariant Holds(h, ctr[..], full, iv[at..at + k])
      {
        AbsorbByte(ctr, k, iv[at + k], h, full, iv[at..at + k]);
        assert iv[at..at + k + 1] == iv[at..at + k] + [iv[at + k]];
        k, nPos := k + 1, nPos - 1;
      }
      assert full + iv[at..at + k] == iv;
      HoldsIsAcc(h, ctr[..], full, iv[at..at + k]);
      AccIsGhash(h, iv);
      MulHH(ctr, table, h);
    } else {
      assert iv[..at] == iv && Pad(iv) == iv;
      HoldsWhole(h, ctr[..], iv);
    }
  }

  lemma HoldsNone(h: Block)
    ensures Holds(h, ZeroBytes(16), [], [])
  {
    hide Xor;
    PadBlockNone();
    XorZero(ZeroBytes(16));
  }

  lemma HoldsWhole(h: Block, acc: Block, full: seq<bv8>)
    requires Holds(h, acc, full, [])
    ensures acc == Ghash(h, full)
  {
    hide Xor, Ghash;
    PadBlockNone();
    XorZero(Ghash(h, full));
  }

  /* ----- the hash part of gcm_compute_tag ----- */

  /** The header accumulator becomes the code's hash of header and text. */
  method FinishHash(hdrGhv: array<bv8>, txtGhv: array<bv8>, ghashH: array<bv8>, table: seq<Block>,
                    hdrCnt: nat, txtCnt: nat, ghost h: Block, ghost a: seq<bv8>, ghost c: seq<bv8>)
    requires hdrGhv.Length == 16 == txtGhv.Length && ghashH.Length == 16 && |table| == 256
    requires hdrGhv != txtGhv && hdrGhv != ghashH && txtGhv != ghashH
    requires ghashH[..] == h && Row(table, 0, h, 8)
    requires hdrCnt == |a| && txtCnt == |c|
    requires hdrGhv[..] == Acc(h, a) && txtGhv[..] == Acc(h, c)
    modifies hdrGhv, txtGhv
    ensures hdrGhv[..] == CodeHash(h, a, c)
  {
    hide Row, Acc, Times, Xor, Power, Ghash, TagString, LenBlock, Pad;
    AccIsGhash(h, a);
    AccIsGhash(h, c);
    MulHH(hdrGhv, table, h);
    MulHH(txtGhv, table, h);
    if hdrCnt != 0 {
      var ln := (txtCnt + 15) % COUNT_LIMIT / 16;
      if ln != 0 {
        MulPower(hdrGhv, ghashH[..], ln);
      } else {
        NoText(h, hdrGhv[..]);
      }
    } else {
      assert a == [];
      NoHeader(h, CodeBlocks(txtCnt));
    }
    AddLengths(hdrGhv, txtGhv, hdrCnt, txtCnt, a, c);
    MulHH(hdrGhv, table, h);
  }

  /** Restoring the saved last word of the counter block rebuilds the first one. */
  lemma RestoreJ0(j0: Block, ctr: Block, now: Block)
    requires ctr[..12] == j0[..12] && now[..12] == ctr[..12]
    requires WordBytes(Load(j0, 12)) == now[12..]
    ensures now == j0
  {
    hide Word, B0, B1, B2, B3, Load;
    BytesOfLoad(j0, 12);
    assert j0[12..] == j0[12..16];
    assert j0 == j0[..12] + j0[12..] && now == now[..12] + now[12..];
  }
}
