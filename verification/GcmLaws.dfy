/** The functions that GcmSpec is made of, in bytes and numbers: what each of them is, apart from how it
    is computed. */
module GcmLaws {
  import opened Bytes
  import opened Octets
  import opened LbBlocks
  import opened GcmSpec
  import opened GcmCrypt
  import opened GcmTag

  const M64: nat := 0x1_0000_0000_0000_0000

  /* ----- counters ----- */

  /** The number in the last four bytes of a block. */
  function Count(b: Block): nat {
    BeValue(b[12..])
  }

  lemma CountOf(b: Block)
    ensures Count(b) == Value(b[12]) * 0x100_0000 + Value(b[13]) * 0x1_0000 + Value(b[14]) * 0x100 + Value(b[15])
    ensures Count(b) < M32
  {
    hide Value;
    BeOfFour(b[12], b[13], b[14], b[15]);
    assert b[12..] == [b[12], b[13], b[14], b[15]];
  }

  lemma LastByte(b: bv8)
    ensures b == 0xff <==> Value(b) == 255
  {
    if Value(b) == 255 {
      OctetOfValue(b);
      assert Octet(255) == 0xff;
    }
  }

  lemma BumpValue(carry: bool, b: bv8)
    ensures Value(Bump(carry, b)) ==
            if !carry then Value(b) else if Value(b) == 255 then 0 else Value(b) + 1
  {
    hide Value, Successor;
    LastByte(b);
    SuccessorZero(b);
    ZeroValue();
    if b != 0xff {
      SuccessorValue(b);
    }
  }

  lemma Carries(a: nat, b: nat, c: nat, d: nat)
    requires a < 256 && b < 256 && c < 256 && d < 256
    ensures var n := a * 0x100_0000 + b * 0x1_0000 + c * 0x100 + d;
            var c' := if d == 255 then if c == 255 then 0 else c + 1 else c;
            var b' := if d == 255 && c == 255 then if b == 255 then 0 else b + 1 else b;
            var a' := if d == 255 && c == 255 && b == 255 then if a == 255 then 0 else a + 1 else a;
            var d' := if d == 255 then 0 else d + 1;
            a' * 0x100_0000 + b' * 0x1_0000 + c' * 0x100 + d' == (n + 1) % M32
  {
  }

  lemma Inc32Count(b: Block)
    ensures Inc32(b)[..12] == b[..12] && Count(Inc32(b)) == (Count(b) + 1) % M32
  {
    hide *;
    Inc32Bytes(b);
    var r := Inc32(b);
    CountOf(b);
    CountOf(r);
    LastByte(b[15]);
    LastByte(b[14]);
    LastByte(b[13]);
    BumpValue(true, b[15]);
    BumpIs(b[15]);
    BumpValue(b[15] == 0xff, b[14]);
    BumpValue(b[15] == 0xff && b[14] == 0xff, b[13]);
    BumpValue(b[15] == 0xff && b[14] == 0xff && b[13] == 0xff, b[12]);
    Carries(Value(b[12]), Value(b[13]), Value(b[14]), Value(b[15]));
  }

  lemma BumpIs(b: bv8)
    ensures Bump(true, b) == Successor(b)
  {
  }

  lemma IncNStep(b: Block, n: nat)
    ensures IncN(b, 0) == b && IncN(b, n + 1) == Inc32(IncN(b, n))
  {
    hide Inc32;
  }

  /** Counter block n: the first twelve bytes stay, the last four count up modulo 2^32. */
  lemma {:induction false} CounterValue(b: Block, n: nat)
    ensures IncN(b, n)[..12] == b[..12] && Count(IncN(b, n)) == (Count(b) + n) % M32
    ensures n == 0 ==> IncN(b, n) == b
  {
    hide IncN, Inc32, Count;
    if n == 0 {
      CountOf(b);
      IncNStep(b, 0);
      SmallModulo(Count(b));
    } else {
      CounterValue(b, n - 1);
      IncNStep(b, n - 1);
      Inc32Count(IncN(b, n - 1));
      NextModulo(Count(b), n);
    }
  }

  lemma SmallModulo(c: nat)
    requires c < M32
    ensures (c + 0) % M32 == c
  {
  }

  lemma NextModulo(c: nat, n: nat)
    requires n > 0
    ensures ((c + (n - 1)) % M32 + 1) % M32 == (c + n) % M32
  {
  }

  lemma SameBlock(b: Block, c: Block)
    requires b[..12] == c[..12] && Count(b) == Count(c)
    ensures b == c
  {
    BeInjective(b[12..], c[12..]);
    assert b == b[..12] + b[12..] && c == c[..12] + c[12..];
  }

  lemma SameModulo(c: nat, m: nat, n: nat)
    ensures (c + m) % M32 == (c + n) % M32 <==> m % M32 == n % M32
  {
    var p, q := (c + m) / M32, (c + n) / M32;
    if m % M32 == n % M32 {
      assert (c + m) - (c + n) == M32 * (m / M32 - n / M32);
    }
    if (c + m) % M32 == (c + n) % M32 {
      assert m - n == M32 * (p - q);
    }
  }

  /** No counter block comes back before 2^32 others. */
  lemma CountersDistinct(b: Block, m: nat, n: nat)
    ensures IncN(b, m) == IncN(b, n) <==> m % M32 == n % M32
  {
    hide IncN, Count;
    CounterValue(b, m);
    CounterValue(b, n);
    SameModulo(Count(b), m, n);
    if m % M32 == n % M32 {
      SameBlock(IncN(b, m), IncN(b, n));
    }
  }

  /* ----- the key stream ----- */

  /** Byte i of a piece of text is XORed with one byte of the encrypted counter block that keeps the
      first twelve bytes of J0 and counts, from the one after J0 on, the blocks before it. */
  lemma GctrAt(e: Block -> Block, j0: Block, text: seq<bv8>, from: nat, i: nat, c: Block)
    requires i < |text|
    requires c[..12] == j0[..12] && Count(c) == (Count(j0) + 1 + (from + i) / 16) % M32
    ensures Gctr(e, j0, text, from)[i] == Xor8(text[i], e(c)[(from + i) % 16])
  {
    hide IncN, Count, Xor8;
    var n := 1 + (from + i) / 16;
    CounterValue(j0, n);
    SameBlock(IncN(j0, n), c);
    assert Gctr(e, j0, text, from)[i] == Xor8(text[i], KeyByte(e, j0, from + i));
  }

  /** The block that masks the tag is none of the first 2^32 - 1 that encrypt the text. */
  lemma MaskApart(j0: Block, j: nat)
    requires j / 16 + 1 < M32
    ensures IncN(j0, 1 + j / 16) != j0
  {
    hide IncN;
    CountersDistinct(j0, 1 + j / 16, 0);
    CounterValue(j0, 0);
  }

  /* ----- lengths ----- */

  /** The k lowest bytes of n, most significant first. */
  function BeBytes(n: nat, k: nat): (r: seq<bv8>)
    ensures |r| == k
  {
    if k == 0 then [] else BeBytes(n / 256, k - 1) + [Octet(n)]
  }

  /** 256 to the power k. */
  function Range(k: nat): (r: nat)
    ensures r > 0
  {
    if k == 0 then 1 else 256 * Range(k - 1)
  }

  lemma DropDigit(n: nat, r: nat)
    requires r > 0
    ensures 256 * (n / 256 % r) + n % 256 == n % (256 * r)
  {
    var q, d := n / 256, n % 256;
    var m := q % r;
    var t := 256 * m + d;
    assert q == r * (q / r) + m;
    assert n == (256 * r) * (q / r) + t by {
      assert 256 * (r * (q / r)) == (256 * r) * (q / r);
    }
    assert t < 256 * r;
    Remainder(n, 256 * r, q / r, t);
  }

  lemma Multiples(m: nat, p: nat, q: nat)
    requires p < q
    ensures m * q >= m * p + m
  {
    assert m * q == m * (p + 1) + m * (q - p - 1);
  }

  lemma Remainder(n: nat, m: nat, q: nat, t: nat)
    requires n == m * q + t && t < m
    ensures n % m == t
  {
    var p := n / m;
    assert n == m * p + n % m;
    if p < q {
      Multiples(m, p, q);
    } else if q < p {
      Multiples(m, q, p);
    }
  }

  lemma {:induction false} BeBytesValue(n: nat, k: nat)
    ensures BeValue(BeBytes(n, k)) == n % Range(k)
  {
    hide Octet, Value, BeValue;
    if k == 0 {
      assert BeValue([]) == 0 by { Nothing(); }
    } else {
      BeBytesValue(n / 256, k - 1);
      BeAppend(BeBytes(n / 256, k - 1), Octet(n));
      ValueOfOctet(n);
      DropDigit(n, Range(k - 1));
    }
  }

  lemma Nothing()
    ensures BeValue([]) == 0
  {
  }

  lemma {:induction false} BeBytesAt(n: nat, k: nat, i: nat)
    requires i < k
    ensures BeBytes(n, k)[k - 1 - i] == NatByte(n, i)
  {
    if i > 0 {
      BeBytesAt(n / 256, k - 1, i - 1);
    }
  }

  lemma Be64IsBytes(n: nat)
    ensures Be64(n) == BeBytes(n, 8)
  {
    hide BeBytes, NatByte;
    BeBytesAt(n, 8, 0);
    BeBytesAt(n, 8, 1);
    BeBytesAt(n, 8, 2);
    BeBytesAt(n, 8, 3);
    BeBytesAt(n, 8, 4);
    BeBytesAt(n, 8, 5);
    BeBytesAt(n, 8, 6);
    BeBytesAt(n, 8, 7);
  }

  lemma Range8()
    ensures Range(8) == M64
  {
    assert Range(2) == 0x1_0000;
    assert Range(4) == 256 * (256 * Range(2));
    assert Range(6) == 256 * (256 * Range(4));
  }

  lemma Be64Value(n: nat)
    ensures BeValue(Be64(n)) == n % M64
  {
    hide BeBytes, Range, Be64, BeValue;
    Be64IsBytes(n);
    BeBytesValue(n, 8);
    Range8();
  }

  /* ----- the strings that are hashed ----- */

  /** The bytes of t from byte `at` on are s and then zeros, up to byte `end`. */
  predicate Padded(t: seq<bv8>, at: nat, s: seq<bv8>, end: nat) {
    && at + |s| <= end <= |t| && t[at..at + |s|] == s
    && forall i :: at + |s| <= i < end ==> t[i] == 0
  }

  function RoundUp(n: nat): nat {
    (n + 15) / 16 * 16
  }

  lemma PadLayout(s: seq<bv8>)
    ensures |Pad(s)| == RoundUp(|s|) && Padded(Pad(s), 0, s, |Pad(s)|)
  {
  }

  lemma PaddedUnique(t: seq<bv8>, u: seq<bv8>, at: nat, s: seq<bv8>, end: nat)
    requires Padded(t, at, s, end) && Padded(u, at, s, end)
    ensures t[at..end] == u[at..end]
  {
    forall i | at <= i < end
      ensures t[i] == u[i]
    {
      if i < at + |s| {
        assert t[i] == t[at..at + |s|][i - at];
        assert u[i] == u[at..at + |s|][i - at];
      }
    }
  }

  /** The string of section 7.1 of NIST SP 800-38D: header and ciphertext, each filled up with zeros to
      whole blocks, then their lengths in bits, eight bytes each, most significant byte first. */
  predicate IsTagString(t: seq<bv8>, a: seq<bv8>, c: seq<bv8>) {
    var m, n := RoundUp(|a|), RoundUp(|a|) + RoundUp(|c|);
    && |t| == n + 16
    && Padded(t, 0, a, m) && Padded(t, m, c, n)
    && BeValue(t[n..n + 8]) == 8 * |a| % M64
    && BeValue(t[n + 8..]) == 8 * |c| % M64
  }

  lemma TagStringIs(a: seq<bv8>, c: seq<bv8>, t: seq<bv8>)
    ensures t == TagString(a, c) <==> IsTagString(t, a, c)
  {
    hide Pad, Be64, BeValue, RoundUp, Padded;
    TagStringLayout(a, c);
    if IsTagString(t, a, c) {
      var u := TagString(a, c);
      var m, n := RoundUp(|a|), RoundUp(|a|) + RoundUp(|c|);
      PaddedUnique(t, u, 0, a, m);
      PaddedUnique(t, u, m, c, n);
      BeInjective(t[n..n + 8], u[n..n + 8]);
      BeInjective(t[n + 8..], u[n + 8..]);
      assert t == t[0..m] + t[m..n] + t[n..n + 8] + t[n + 8..];
      assert u == u[0..m] + u[m..n] + u[n..n + 8] + u[n + 8..];
    }
  }

  lemma TagStringLayout(a: seq<bv8>, c: seq<bv8>)
    ensures IsTagString(TagString(a, c), a, c)
  {
    hide Be64, BeValue, RoundUp, Pad;
    var t := TagString(a, c);
    var m, n := RoundUp(|a|), RoundUp(|a|) + RoundUp(|c|);
    PadLayout(a);
    PadLayout(c);
    Be64Value(8 * |a|);
    Be64Value(8 * |c|);
    assert t[0..m] == Pad(a) && t[m..n] == Pad(c);
    PlacedAt(t, 0, Pad(a), a);
    PlacedAt(t, m, Pad(c), c);
    assert t[n..n + 8] == Be64(8 * |a|) && t[n + 8..] == Be64(8 * |c|);
  }

  lemma PlacedAt(t: seq<bv8>, at: nat, p: seq<bv8>, s: seq<bv8>)
    requires at + |p| <= |t| && t[at..at + |p|] == p && Padded(p, 0, s, |p|)
    ensures Padded(t, at, s, at + |p|)
  {
    forall i | at <= i < at + |p|
      ensures t[i] == p[i - at]
    {
      assert t[i] == t[at..at + |p|][i - at];
    }
    assert t[at..at + |s|] == p[0..|s|];
  }

  /** The string hashed for an initialisation vector: its bytes filled up to whole blocks, eight zeros
      and the length. */
  predicate IsIvString(t: seq<bv8>, iv: seq<bv8>, bits: nat) {
    var m := RoundUp(|iv|);
    |t| == m + 16 && Padded(t, 0, iv, m + 8) && BeValue(t[m + 8..]) == bits % M64
  }

  lemma IvStringIs(iv: seq<bv8>, bits: nat, t: seq<bv8>)
    ensures t == IvString(iv, bits) <==> IsIvString(t, iv, bits)
  {
    hide Pad, Be64, BeValue, RoundUp, Padded;
    IvStringLayout(iv, bits);
    if IsIvString(t, iv, bits) {
      var u, m := IvString(iv, bits), RoundUp(|iv|);
      PaddedUnique(t, u, 0, iv, m + 8);
      BeInjective(t[m + 8..], u[m + 8..]);
      assert t == t[0..m + 8] + t[m + 8..] && u == u[0..m + 8] + u[m + 8..];
    }
  }

  lemma IvStringLayout(iv: seq<bv8>, bits: nat)
    ensures IsIvString(IvString(iv, bits), iv, bits)
  {
    hide Be64, BeValue, RoundUp, Pad;
    var t, m := IvString(iv, bits), RoundUp(|iv|);
    PadLayout(iv);
    Be64Value(bits);
    assert t[0..m] == Pad(iv) && t[m..m + 8] == ZeroBytes(8);
    PlacedAt(t, 0, Pad(iv), iv);
    forall i | m <= i < m + 8
      ensures t[i] == 0
    {
      assert t[i] == t[m..m + 8][i - m];
    }
    assert t[m + 8..] == Be64(bits);
  }

  /** A vector of twelve bytes is followed by the number one. */
  lemma J0OfTwelve(h: Block, iv: seq<bv8>)
    requires |iv| == 12
    ensures J0(h, iv)[..12] == iv && Count(J0(h, iv)) == 1
    ensures CodeJ0(h, iv) == J0(h, iv)
  {
    hide Value;
    var b := J0(h, iv);
    CountOf(b);
    ZeroValue();
    OneValue();
  }

  /** Any other vector is hashed together with its length in bits. */
  lemma J0OfOthers(h: Block, iv: seq<bv8>, t: seq<bv8>)
    requires |iv| != 12 && IsIvString(t, iv, 8 * |iv|)
    ensures |t| % 16 == 0 && J0(h, iv) == Ghash(h, t)
  {
    hide Ghash, IvString, IsIvString;
    IvStringIs(iv, 8 * |iv|, t);
  }

  lemma OneValue()
    ensures Value(1) == 1
  {
  }

  /* ----- the tag ----- */

  lemma {:induction false} GhashZeroKey(x: seq<bv8>)
    requires |x| % 16 == 0
    ensures Ghash(ZeroBytes(16), x) == ZeroBytes(16)
  {
    hide Times, Xor;
    if x != [] {
      var n := |x| - 16;
      var y: Block := Xor(Ghash(ZeroBytes(16), x[..n]), x[n..]);
      TimesComm(y, ZeroBytes(16));
      TimesZero(y);
    }
  }

  /** Under the hash key zero the tag is the mask E(J0) itself. */
  lemma TagUnderZeroKey(e: Block -> Block, j0: Block, a: seq<bv8>, c: seq<bv8>)
    ensures Tag(e, ZeroBytes(16), j0, a, c) == e(j0)
    ensures CodeTag(e, ZeroBytes(16), j0, a, c) == e(j0)
  {
    hide Times, Xor, Ghash, TagString, Power, Pad, LenBlock;
    GhashZeroKey(TagString(a, c));
    XorZero(e(j0));
    var y := Xor(Times(Ghash(ZeroBytes(16), Pad(a)), Power(ZeroBytes(16), CodeBlocks(|c|))),
                 Xor(Ghash(ZeroBytes(16), Pad(c)), LenBlock(a, c)));
    TimesComm(y, ZeroBytes(16));
    TimesZero(y);
  }

  lemma MasksShow(g: Block, x: Block, y: Block)
    ensures Xor(Xor(g, x), Xor(g, y)) == Xor(x, y)
  {
    hide Xor8;
    forall i: nat | i < 16
      ensures Xor(Xor(g, x), Xor(g, y))[i] == Xor(x, y)[i]
    {
      Masks8(g[i], x[i], y[i]);
    }
  }

  lemma Masks8(g: bv8, x: bv8, y: bv8)
    ensures Xor8(Xor8(g, x), Xor8(g, y)) == Xor8(x, y)
  {
  }

  /** Two tags over the same data differ by what their masks differ by. */
  lemma TagMasks(e: Block -> Block, h: Block, j0: Block, j1: Block, a: seq<bv8>, c: seq<bv8>)
    ensures Xor(Tag(e, h, j0, a, c), Tag(e, h, j1, a, c)) == Xor(e(j0), e(j1))
    ensures Xor(CodeTag(e, h, j0, a, c), CodeTag(e, h, j1, a, c)) == Xor(e(j0), e(j1))
  {
    hide Xor, Ghash, TagString, CodeHash;
    MasksShow(Ghash(h, TagString(a, c)), e(j0), e(j1));
    MasksShow(CodeHash(h, a, c), e(j0), e(j1));
  }

  /** Taking the mask E(J0) off the tag leaves the hash of header, ciphertext and lengths. */
  lemma TagIs(e: Block -> Block, h: Block, j0: Block, a: seq<bv8>, c: seq<bv8>, t: seq<bv8>)
    requires IsTagString(t, a, c)
    ensures |t| % 16 == 0 && Xor(Tag(e, h, j0, a, c), e(j0)) == Ghash(h, t)
  {
    hide Xor, Ghash, TagString, IsTagString;
    TagStringIs(a, c, t);
    XorSame(Ghash(h, TagString(a, c)), e(j0));
  }

  /* ----- sealing and opening ----- */

  /** A ciphertext and a tag are accepted exactly when they are the sealing of some text. */
  lemma AcceptedIffSealed(e: Block -> Block, j0: Block, a: seq<bv8>, c: seq<bv8>, tag: seq<bv8>)
    requires |tag| <= 16
    ensures TagMatches(e, j0, a, c, tag) <==> exists p :: SealFrom(e, j0, a, p, |tag|) == Sealed(c, tag)
    ensures TagMatches(e, j0, a, c, tag) ==> SealFrom(e, j0, a, Gctr(e, j0, c, 0), |tag|) == Sealed(c, tag)
  {
    hide Gctr, Tag;
    GctrInvolution(e, j0, c, 0);
    var q := Gctr(e, j0, c, 0);
    if TagMatches(e, j0, a, c, tag) {
      assert SealFrom(e, j0, a, q, |tag|) == Sealed(c, tag);
    }
  }

  /** Sealing: the hash key is E(0), what is hashed is the ciphertext, and the tag is the beginning of
      the masked hash. */
  lemma SealedTag(e: Block -> Block, j0: Block, a: seq<bv8>, p: seq<bv8>, n: nat, t: seq<bv8>)
    requires n <= 16 && IsTagString(t, a, SealFrom(e, j0, a, p, n).text)
    ensures |t| % 16 == 0 && SealFrom(e, j0, a, p, n).tag == Xor(Ghash(e(ZeroBytes(16)), t), e(j0))[..n]
  {
    hide Xor, Ghash, TagString, IsTagString, Gctr;
    TagStringIs(a, SealFrom(e, j0, a, p, n).text, t);
  }

  lemma SealedText(e: Block -> Block, j0: Block, a: seq<bv8>, p: seq<bv8>, n: nat, i: nat, c: Block)
    requires n <= 16 && i < |p|
    requires c[..12] == j0[..12] && Count(c) == (Count(j0) + 1 + i / 16) % M32
    ensures |SealFrom(e, j0, a, p, n).text| == |p|
    ensures SealFrom(e, j0, a, p, n).text[i] == Xor8(p[i], e(c)[i % 16])
  {
    hide Gctr, Tag, Count, Xor8;
    GctrAt(e, j0, p, 0, i, c);
  }
}
