/** The deferred form of GHASH kept by gcm.c: the last block, complete or not, has been XORed into
    the accumulator but not yet multiplied by the hash key. */
module GcmHash {
  import opened Bytes
  import opened LbBlocks
  import opened GcmSpec

  /** Bytes of s that lie in its last block. */
  function LastLen(n: nat): (r: nat)
    ensures r <= n && r <= 16 && (n - r) % 16 == 0 && (n > 0 ==> r > 0)
  {
    if n == 0 then 0 else (n - 1) % 16 + 1
  }

  /** The accumulator after the bytes s. */
  function Acc(h: Block, s: seq<bv8>): Block {
    var k := |s| - LastLen(|s|);
    Xor(Ghash(h, s[..k]), PadBlock(s[k..]))
  }

  /** The accumulator with `full` blocks multiplied in and the bytes p of one more block added. */
  ghost predicate Holds(h: Block, acc: Block, full: seq<bv8>, p: seq<bv8>) {
    |full| % 16 == 0 && |p| <= 16 && acc == Xor(Ghash(h, full), PadBlock(p))
  }

  lemma PadBlockNone()
    ensures PadBlock([]) == ZeroBytes(16)
  {
  }

  lemma PadBlockWhole(b: Block)
    ensures PadBlock(b) == b
  {
  }

  lemma AccNone(h: Block)
    ensures Acc(h, []) == ZeroBytes(16)
  {
    hide Xor;
    PadBlockNone();
    XorZero(ZeroBytes(16));
  }

  /** A decomposition with a non-empty last block, or of the empty string, is the accumulator. */
  lemma HoldsIsAcc(h: Block, acc: Block, full: seq<bv8>, p: seq<bv8>)
    requires Holds(h, acc, full, p) && (p == [] ==> full == [])
    ensures acc == Acc(h, full + p)
  {
    hide Xor, Ghash, PadBlock;
    var s := full + p;
    SameLast(|full|, |p|);
    assert s[..|full|] == full && s[|full|..] == p;
  }

  lemma SameLast(full: nat, p: nat)
    requires full % 16 == 0 && p <= 16 && (p == 0 ==> full == 0)
    ensures LastLen(full + p) == p
  {
  }

  lemma AccHolds(h: Block, s: seq<bv8>)
    ensures var k := |s| - LastLen(|s|); Holds(h, Acc(h, s), s[..k], s[k..]) && s[..k] + s[k..] == s
  {
    hide Xor, Ghash, PadBlock;
  }

  lemma HoldsByte(h: Block, acc: Block, full: seq<bv8>, p: seq<bv8>, c: bv8)
    requires Holds(h, acc, full, p) && |p| < 16
    ensures Holds(h, acc[|p| := Xor8(acc[|p|], c)], full, p + [c])
  {
    hide Xor8, Ghash;
    var g, n := Ghash(h, full), |p|;
    var now: Block := acc[n := Xor8(acc[n], c)];
    forall i: nat | i < 16
      ensures now[i] == Xor(g, PadBlock(p + [c]))[i]
    {
      if i == n {
        Xor8Laws(g[n], 0, 0);
      }
    }
  }

  lemma HoldsTimes(h: Block, acc: Block, full: seq<bv8>, p: seq<bv8>)
    requires Holds(h, acc, full, p) && |p| == 16
    ensures Holds(h, Times(acc, h), full + p, [])
  {
    hide Xor, Times, PadBlock;
    var s := full + p;
    assert s[..|s| - 16] == full && s[|s| - 16..] == p;
    PadBlockNone();
    PadBlockWhole(p);
    XorZero(Times(acc, h));
  }

  lemma HoldsBlock(h: Block, acc: Block, full: seq<bv8>, b: Block)
    requires Holds(h, acc, full, [])
    ensures Holds(h, Xor(acc, b), full, b)
  {
    hide Xor, Ghash, PadBlock;
    PadBlockNone();
    PadBlockWhole(b);
    XorZero(Ghash(h, full));
  }

  /** One last multiplication completes the hash of the padded string. */
  lemma AccIsGhash(h: Block, s: seq<bv8>)
    ensures Times(Acc(h, s), h) == Ghash(h, Pad(s))
  {
    hide Times, Xor;
    if s == [] {
      AccNone(h);
      TimesZero(h);
      assert Pad(s) == [];
    } else {
      var k, r := |s| - LastLen(|s|), Pad(s);
      PadLastLen(|s|);
      assert |r| == k + 16;
      assert r[..k] == s[..k];
      assert r[k..] == PadBlock(s[k..]);
    }
  }

  lemma PadLastLen(n: nat)
    requires n > 0
    ensures LastLen(n) + PadLen(n) == 16
  {
  }
}
