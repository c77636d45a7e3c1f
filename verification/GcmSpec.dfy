/** Galois/Counter Mode as NIST SP 800-38D defines it, for an arbitrary block cipher E. */
module GcmSpec {
  import opened Bytes
  import opened LbBlocks

  /* ----- GHASH (section 6.4) ----- */

  /** Block k of a byte string, padded with zeros when the string ends inside it. */
  function PadBlock(p: seq<bv8>): Block {
    seq(16, (i: nat) => ByteAt(p, i))
  }

  function PadLen(n: nat): (r: nat)
    ensures r < 16 && (n + r) % 16 == 0
  {
    (16 - n % 16) % 16
  }

  /** The string extended with zeros to a whole number of blocks. */
  function Pad(s: seq<bv8>): (r: seq<bv8>)
    ensures |r| % 16 == 0
  {
    s + ZeroBytes(PadLen(|s|))
  }

  function Ghash(h: Block, x: seq<bv8>): Block
    requires |x| % 16 == 0
  {
    if x == [] then ZeroBytes(16)
    else
      var n := |x| - 16;
      Times(Xor(Ghash(h, x[..n]), x[n..]), h)
  }

  /** The hash of a concatenation: the first part is carried across by a power of h. */
  lemma {:induction false} GhashConcat(h: Block, x: seq<bv8>, y: seq<bv8>)
    requires |x| % 16 == 0 && |y| % 16 == 0
    ensures Ghash(h, x + y) == Xor(Times(Ghash(h, x), Power(h, |y| / 16)), Ghash(h, y))
    decreases |y|
  {
    hide Times, Power, Xor;
    if y == [] {
      assert x + y == x;
      PowerZero(Ghash(h, x), h);
      XorZero(Ghash(h, x));
    } else {
      var n := |y| - 16;
      var y', b: Block := y[..n], y[n..];
      assert (x + y)[..|x + y| - 16] == x + y' && (x + y)[|x + y| - 16..] == b;
      GhashConcat(h, x, y');
      var gx, gy, p := Ghash(h, x), Ghash(h, y'), Power(h, n / 16);
      XorAssoc(Times(gx, p), gy, b);
      TimesDistributes(h, Times(gx, p), Xor(gy, b));
      TimesAssoc(gx, p, h);
      TimesComm(p, h);
      PowerStep(h, n / 16);
      assert |y| / 16 == n / 16 + 1;
    }
  }

  /* ----- lengths and counters ----- */

  /** Byte i, from the least significant one, of n. */
  function NatByte(n: nat, i: nat): bv8
    decreases i
  {
    if i == 0 then (n % 256) as bv8 else NatByte(n / 256, i - 1)
  }

  /** [n]_64: eight bytes, most significant first. */
  function Be64(n: nat): (r: seq<bv8>)
    ensures |r| == 8
  {
    [NatByte(n, 7), NatByte(n, 6), NatByte(n, 5), NatByte(n, 4),
     NatByte(n, 3), NatByte(n, 2), NatByte(n, 1), NatByte(n, 0)]
  }

  /** The last four bytes of a block as a number, most significant first. */
  function Counter(b: Block): bv32 {
    Word(b[15], b[14], b[13], b[12])
  }

  function WithCounter(b: Block, c: bv32): Block {
    b[..12] + [B3(c), B2(c), B1(c), B0(c)]
  }

  /** inc_32 (section 6.2) */
  function Inc32(b: Block): Block {
    WithCounter(b, Counter(b) + 1)
  }

  function IncN(b: Block, n: nat): (r: Block)
    ensures r[..12] == b[..12]
  {
    if n == 0 then b else Inc32(IncN(b, n - 1))
  }

  /* ----- GCTR (section 6.5) as used by GCM: the first text block uses inc_32(J0) ----- */

  function KeyByte(e: Block -> Block, j0: Block, j: nat): bv8 {
    ByteAt(e(IncN(j0, 1 + j / 16)), j % 16)
  }

  /** text, whose first byte is byte `from` of the message, XORed with the key stream. */
  function Gctr(e: Block -> Block, j0: Block, text: seq<bv8>, from: nat): (r: seq<bv8>)
    ensures |r| == |text|
  {
    seq(|text|, (i: nat) => Xor8(ByteAt(text, i), KeyByte(e, j0, from + i)))
  }

  lemma GctrInvolution(e: Block -> Block, j0: Block, text: seq<bv8>, from: nat)
    ensures Gctr(e, j0, Gctr(e, j0, text, from), from) == text
  {
    hide Xor8, KeyByte;
    var c := Gctr(e, j0, text, from);
    forall i: nat | i < |text|
      ensures Gctr(e, j0, c, from)[i] == text[i]
    {
      Xor8Laws(text[i], KeyByte(e, j0, from + i), 0);
    }
  }

  lemma GctrConcat(e: Block -> Block, j0: Block, s: seq<bv8>, t: seq<bv8>, from: nat)
    ensures Gctr(e, j0, s + t, from) == Gctr(e, j0, s, from) + Gctr(e, j0, t, from + |s|)
  {
    hide Xor8, KeyByte;
  }

  /* ----- the mode (sections 7.1 and 7.2) ----- */

  /** The string hashed for an initialisation vector that is not 96 bits long. */
  function IvString(iv: seq<bv8>, bits: nat): (r: seq<bv8>)
    ensures |r| % 16 == 0
  {
    WholeBlocks(|Pad(iv)|, 16);
    Pad(iv) + ZeroBytes(8) + Be64(bits)
  }

  function J0(h: Block, iv: seq<bv8>): Block {
    if |iv| == 12 then iv + [0, 0, 0, 1] else Ghash(h, IvString(iv, 8 * |iv|))
  }

  lemma WholeBlocks(m: nat, n: nat)
    requires m % 16 == 0 && n % 16 == 0
    ensures (m + n) % 16 == 0
  {
  }

  function LenBlock(a: seq<bv8>, c: seq<bv8>): Block {
    Be64(8 * |a|) + Be64(8 * |c|)
  }

  function TagString(a: seq<bv8>, c: seq<bv8>): (r: seq<bv8>)
    ensures |r| % 16 == 0
  {
    WholeBlocks(|Pad(a)|, |Pad(c)|);
    WholeBlocks(|Pad(a)| + |Pad(c)|, 16);
    Pad(a) + Pad(c) + LenBlock(a, c)
  }

  function Tag(e: Block -> Block, h: Block, j0: Block, a: seq<bv8>, c: seq<bv8>): Block {
    Xor(Ghash(h, TagString(a, c)), e(j0))
  }

  datatype Sealed = Sealed(text: seq<bv8>, tag: seq<bv8>)

  /** GCM-AE from a given first counter block; E(0) is the hash key. */
  function SealFrom(e: Block -> Block, j0: Block, a: seq<bv8>, p: seq<bv8>, t: nat): Sealed
    requires t <= 16
  {
    var c := Gctr(e, j0, p, 0);
    Sealed(c, Tag(e, e(ZeroBytes(16)), j0, a, c)[..t])
  }

  /** GCM-AE */
  function Seal(e: Block -> Block, iv: seq<bv8>, a: seq<bv8>, p: seq<bv8>, t: nat): Sealed
    requires t <= 16
  {
    SealFrom(e, J0(e(ZeroBytes(16)), iv), a, p, t)
  }

  /** The test of GCM-AD. */
  predicate TagMatches(e: Block -> Block, j0: Block, a: seq<bv8>, c: seq<bv8>, tag: seq<bv8>)
    requires |tag| <= 16
  {
    tag == Tag(e, e(ZeroBytes(16)), j0, a, c)[..|tag|]
  }

  /** What was sealed is accepted and decrypts to the text it came from. */
  lemma OpenSeal(e: Block -> Block, j0: Block, a: seq<bv8>, p: seq<bv8>, t: nat)
    requires t <= 16
    ensures var s := SealFrom(e, j0, a, p, t);
            TagMatches(e, j0, a, s.text, s.tag) && Gctr(e, j0, s.text, 0) == p
  {
    hide Gctr, Tag;
    GctrInvolution(e, j0, p, 0);
  }
}
