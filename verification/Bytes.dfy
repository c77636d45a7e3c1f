/** Byte buffers and their view as little-endian 32-bit units (UNIT_PTR and UI8_PTR in mode_hdr.h). */
module Bytes {

  /** The contents of a 16-byte buffer. */
  type Block = b: seq<bv8> | |b| == 16 witness ZeroBytes(16)

  function ZeroBytes(n: nat): (r: seq<bv8>)
    ensures |r| == n
    ensures forall i :: 0 <= i < n ==> r[i] == 0
  {
    seq(n, (i: nat) => 0)
  }

  /** Byte i of s, zero past its end. */
  function ByteAt(s: seq<bv8>, i: nat): bv8 {
    if i < |s| then s[i] else 0
  }

  function Xor8(a: bv8, b: bv8): bv8 {
    a ^ b
  }

  function Xor16(a: bv16, b: bv16): bv16 {
    a ^ b
  }

  function Xor(a: Block, b: Block): Block {
    seq(16, (i: nat) => Xor8(ByteAt(a, i), ByteAt(b, i)))
  }

  lemma Xor8Laws(a: bv8, b: bv8, c: bv8)
    ensures Xor8(a, b) == Xor8(b, a)
    ensures Xor8(Xor8(a, b), c) == Xor8(a, Xor8(b, c))
    ensures Xor8(a, 0) == a
    ensures Xor8(Xor8(a, b), b) == a
  {
  }

  lemma XorComm(a: Block, b: Block)
    ensures Xor(a, b) == Xor(b, a)
  {
    hide Xor8;
    forall i: nat | i < 16
      ensures Xor(a, b)[i] == Xor(b, a)[i]
    {
      Xor8Laws(a[i], b[i], 0);
    }
  }

  lemma XorAssoc(a: Block, b: Block, c: Block)
    ensures Xor(Xor(a, b), c) == Xor(a, Xor(b, c))
  {
    hide Xor8;
    forall i: nat | i < 16
      ensures Xor(Xor(a, b), c)[i] == Xor(a, Xor(b, c))[i]
    {
      Xor8Laws(a[i], b[i], c[i]);
    }
  }

  lemma XorZero(a: Block)
    ensures Xor(a, ZeroBytes(16)) == a
    ensures Xor(ZeroBytes(16), a) == a
  {
    hide Xor8;
    forall i: nat | i < 16
      ensures Xor(a, ZeroBytes(16))[i] == a[i]
    {
      Xor8Laws(a[i], 0, 0);
    }
    XorComm(a, ZeroBytes(16));
  }

  lemma XorSame(s: Block, k: Block)
    ensures Xor(Xor(s, k), k) == s
  {
    hide Xor8;
    forall i: nat | i < 16
      ensures Xor(Xor(s, k), k)[i] == s[i]
    {
      Xor8Laws(s[i], k[i], 0);
    }
  }

  /* ----- 32-bit units ----- */

  /** bytes2word: b0 is the least significant byte. */
  function Word(b0: bv8, b1: bv8, b2: bv8, b3: bv8): bv32 {
    (b3 as bv32 << 24) | (b2 as bv32 << 16) | (b1 as bv32 << 8) | b0 as bv32
  }

  function B0(w: bv32): bv8 {
    (w & 0xff) as bv8
  }

  function B1(w: bv32): bv8 {
    ((w >> 8) & 0xff) as bv8
  }

  function B2(w: bv32): bv8 {
    ((w >> 16) & 0xff) as bv8
  }

  function B3(w: bv32): bv8 {
    ((w >> 24) & 0xff) as bv8
  }

  function WordBytes(w: bv32): (r: seq<bv8>)
    ensures |r| == 4
  {
    [B0(w), B1(w), B2(w), B3(w)]
  }

  lemma BytesOfWord(b0: bv8, b1: bv8, b2: bv8, b3: bv8)
    ensures B0(Word(b0, b1, b2, b3)) == b0
    ensures B1(Word(b0, b1, b2, b3)) == b1
    ensures B2(Word(b0, b1, b2, b3)) == b2
    ensures B3(Word(b0, b1, b2, b3)) == b3
  {
  }

  lemma WordOfBytes(w: bv32)
    ensures Word(B0(w), B1(w), B2(w), B3(w)) == w
  {
  }

  function Xor32(v: bv32, w: bv32): bv32 {
    v ^ w
  }

  lemma XorB0(v: bv32, w: bv32)
    ensures B0(Xor32(v, w)) == Xor8(B0(v), B0(w))
  {
  }

  lemma XorB1(v: bv32, w: bv32)
    ensures B1(Xor32(v, w)) == Xor8(B1(v), B1(w))
  {
  }

  lemma XorB2(v: bv32, w: bv32)
    ensures B2(Xor32(v, w)) == Xor8(B2(v), B2(w))
  {
  }

  lemma XorB3(v: bv32, w: bv32)
    ensures B3(Xor32(v, w)) == Xor8(B3(v), B3(w))
  {
  }

  lemma BytesOfXor(v: bv32, w: bv32)
    ensures B0(Xor32(v, w)) == Xor8(B0(v), B0(w))
    ensures B1(Xor32(v, w)) == Xor8(B1(v), B1(w))
    ensures B2(Xor32(v, w)) == Xor8(B2(v), B2(w))
    ensures B3(Xor32(v, w)) == Xor8(B3(v), B3(w))
  {
    hide *;
    XorB0(v, w);
    XorB1(v, w);
    XorB2(v, w);
    XorB3(v, w);
  }

  /** The unit at byte offset i of a buffer. */
  function Load(s: seq<bv8>, i: nat): bv32
    requires i + 4 <= |s|
  {
    Word(s[i], s[i + 1], s[i + 2], s[i + 3])
  }

  lemma BytesOfLoad(s: seq<bv8>, i: nat)
    requires i + 4 <= |s|
    ensures WordBytes(Load(s, i)) == s[i..i + 4]
  {
    BytesOfWord(s[i], s[i + 1], s[i + 2], s[i + 3]);
  }

  /** Writes one unit. */
  method Store(a: array<bv8>, i: nat, w: bv32)
    requires i + 4 <= a.Length
    modifies a
    ensures a[i] == B0(w) && a[i + 1] == B1(w) && a[i + 2] == B2(w) && a[i + 3] == B3(w)
    ensures forall k :: 0 <= k < a.Length && !(i <= k < i + 4) ==> a[k] == old(a[k])
  {
    a[i], a[i + 1], a[i + 2], a[i + 3] := B0(w), B1(w), B2(w), B3(w);
  }

  /** One unit step *UNIT_PTR(a + i) ^= *UNIT_PTR(b + j): the same as four byte steps. */
  method XorUnit(a: array<bv8>, i: nat, b: seq<bv8>, j: nat)
    requires i + 4 <= a.Length && j + 4 <= |b|
    modifies a
    ensures forall k :: i <= k < i + 4 ==> a[k] == Xor8(old(a[k]), b[j + k - i])
    ensures forall k :: 0 <= k < a.Length && !(i <= k < i + 4) ==> a[k] == old(a[k])
  {
    hide Word, B0, B1, B2, B3, Xor8, Xor32;
    var v, w := Word(a[i], a[i + 1], a[i + 2], a[i + 3]), Load(b, j);
    BytesOfXor(v, w);
    BytesOfWord(a[i], a[i + 1], a[i + 2], a[i + 3]);
    BytesOfWord(b[j], b[j + 1], b[j + 2], b[j + 3]);
    Store(a, i, Xor32(v, w));
  }

  /** xor_block_aligned: a ^= b by four unit steps. */
  method XorBlockAligned(a: array<bv8>, b: Block)
    requires a.Length == 16
    modifies a
    ensures a[..] == Xor(old(a[..]), b)
  {
    hide Xor8;
    XorUnit(a, 0, b, 0);
    XorUnit(a, 4, b, 4);
    XorUnit(a, 8, b, 8);
    XorUnit(a, 12, b, 12);
  }
}
