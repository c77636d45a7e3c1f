/** aes_encrypt and aes_decrypt (aescrypt.c) over the contexts that aeskey.c fills. */
module AesCrypt {
  import opened Bytes
  import opened AesWords
  import opened AesSpec
  import opened AesRounds
  import opened AesKey

  /* ----- the equivalent inverse cipher, section 5.3.5 of FIPS 197 ----- */

  function EqInvRounds(d: Schedule, s: Block, r: nat): Block
    requires r <= 9
  {
    if r == 0 then Xor(s, RoundKey(d, 0))
    else Xor(InvMixColumns(InvSubBytes(InvShiftRows(EqInvRounds(d, s, r - 1)))), RoundKey(d, r))
  }

  function EqInvLastRound(d: Schedule, s: Block): Block {
    Xor(InvSubBytes(InvShiftRows(s)), RoundKey(d, 10))
  }

  function EqInvCipher(d: Schedule, s: Block): Block {
    EqInvLastRound(d, EqInvRounds(d, s, 9))
  }

  /** Words 4 * r .. 4 * r + 4. */
  function KeyColumns(w: Schedule, r: nat): State
    requires r <= 10
  {
    [w[4 * r], w[4 * r + 1], w[4 * r + 2], w[4 * r + 3]]
  }

  lemma RoundKeyColumns(w: Schedule, r: nat)
    requires r <= 10
    ensures RoundKey(w, r) == BlockOfColumns(KeyColumns(w, r))
  {
    hide WordBytes;
  }

  lemma EquivalentAt(w: Schedule, r: nat, j: nat)
    requires r <= 10 && j < 4
    ensures Equivalent(w)[4 * r + j] == if r in {0, 10} then w[4 * (10 - r) + j] else InvMixWord(w[4 * (10 - r) + j])
  {
    hide InvMixWord, DecWord;
    assert V(10 - r, j) == 4 * r + j;
    DecWordAt(w, 10 - r, j);
  }

  lemma EquivalentColumns(w: Schedule, r: nat)
    requires r <= 10
    ensures r in {0, 10} ==> KeyColumns(Equivalent(w), r) == KeyColumns(w, 10 - r)
    ensures r !in {0, 10} ==>
      var k := KeyColumns(w, 10 - r);
      KeyColumns(Equivalent(w), r) == [InvMixWord(k[0]), InvMixWord(k[1]), InvMixWord(k[2]), InvMixWord(k[3])]
  {
    hide InvMixWord, Equivalent;
    EquivalentAt(w, r, 0);
    EquivalentAt(w, r, 1);
    EquivalentAt(w, r, 2);
    EquivalentAt(w, r, 3);
  }

  lemma {:induction false} EqInvRoundsAgree(w: Schedule, s: Block, r: nat)
    requires r <= 9
    ensures EqInvRounds(Equivalent(w), s, r) == InvRounds(w, s, r)
  {
    hide Xor, RoundKey, InvMixColumns, InvSubBytes, InvShiftRows, BlockOfColumns;
    hide Equivalent, KeyColumns, InvMixWord, Columns;
    RoundKeyColumns(Equivalent(w), r);
    RoundKeyColumns(w, 10 - r);
    EquivalentColumns(w, r);
    if r > 0 {
      EqInvRoundsAgree(w, s, r - 1);
      var t := InvSubBytes(InvShiftRows(InvRounds(w, s, r - 1)));
      BlockOfColumnsOf(t);
      InvMixColumnsOfSum(Columns(t), KeyColumns(w, 10 - r));
    }
  }

  /** With the transformed keys the reordered rounds are the inverse cipher. */
  lemma EqInvCipherIsInvCipher(w: Schedule, s: Block)
    ensures EqInvCipher(Equivalent(w), s) == InvCipher(w, s)
  {
    hide Xor, RoundKey, InvSubBytes, InvShiftRows, BlockOfColumns, Equivalent, KeyColumns, EqInvRounds, InvRounds;
    EqInvRoundsAgree(w, s, 9);
    RoundKeyColumns(Equivalent(w), 10);
    RoundKeyColumns(w, 0);
    EquivalentColumns(w, 10);
  }

  /** The two schedules of one key make decryption the inverse of encryption. */
  lemma DecryptUndoesEncrypt(key: Block, s: Block)
    ensures EqInvCipher(Equivalent(Expand(key)), Cipher(Expand(key), s)) == s
  {
    hide *;
    EqInvCipherIsInvCipher(Expand(key), Cipher(Expand(key), s));
    InvCipherCipher(Expand(key), s);
  }

  /* ----- rounds on the local arrays b0 and b1 ----- */

  method FwdRnd(y: array<bv32>, x: array<bv32>, w: Schedule, r: nat, ghost s: Block)
    requires y != x && y.Length == 4 && x.Length == 4 && r <= 10
    requires BlockOfColumns(x[..]) == s
    modifies y
    ensures BlockOfColumns(y[..]) == Xor(MixColumns(ShiftRows(SubBytes(s))), RoundKey(w, r))
  {
    hide Fwd, Xor, MixColumns, ShiftRows, SubBytes, RoundKey, BlockOfColumns;
    RoundKeyColumns(w, r);
    FwdRound(x[..], KeyColumns(w, r));
    y[0] := Fwd(w[4 * r], x[0], x[1], x[2], x[3]);
    y[1] := Fwd(w[4 * r + 1], x[1], x[2], x[3], x[0]);
    y[2] := Fwd(w[4 * r + 2], x[2], x[3], x[0], x[1]);
    y[3] := Fwd(w[4 * r + 3], x[3], x[0], x[1], x[2]);
    assert y[..] == FwdState(x[..], KeyColumns(w, r));
  }

  method FwdLastRnd(y: array<bv32>, x: array<bv32>, w: Schedule, r: nat, ghost s: Block)
    requires y != x && y.Length == 4 && x.Length == 4 && r <= 10
    requires BlockOfColumns(x[..]) == s
    modifies y
    ensures BlockOfColumns(y[..]) == Xor(ShiftRows(SubBytes(s)), RoundKey(w, r))
  {
    hide FwdLast, Xor, ShiftRows, SubBytes, RoundKey, BlockOfColumns;
    RoundKeyColumns(w, r);
    FwdLastRound(x[..], KeyColumns(w, r));
    y[0] := FwdLast(w[4 * r], x[0], x[1], x[2], x[3]);
    y[1] := FwdLast(w[4 * r + 1], x[1], x[2], x[3], x[0]);
    y[2] := FwdLast(w[4 * r + 2], x[2], x[3], x[0], x[1]);
    y[3] := FwdLast(w[4 * r + 3], x[3], x[0], x[1], x[2]);
    assert y[..] == FwdLastState(x[..], KeyColumns(w, r));
  }

  method InvRnd(y: array<bv32>, x: array<bv32>, d: Schedule, r: nat, ghost s: Block)
    requires y != x && y.Length == 4 && x.Length == 4 && r <= 10
    requires BlockOfColumns(x[..]) == s
    modifies y
    ensures BlockOfColumns(y[..]) == Xor(InvMixColumns(InvSubBytes(InvShiftRows(s))), RoundKey(d, r))
  {
    hide Inv, Xor, InvMixColumns, InvShiftRows, InvSubBytes, RoundKey, BlockOfColumns;
    RoundKeyColumns(d, r);
    InvRoundWords(x[..], KeyColumns(d, r));
    y[0] := Inv(d[4 * r], x[0], x[3], x[2], x[1]);
    y[1] := Inv(d[4 * r + 1], x[1], x[0], x[3], x[2]);
    y[2] := Inv(d[4 * r + 2], x[2], x[1], x[0], x[3]);
    y[3] := Inv(d[4 * r + 3], x[3], x[2], x[1], x[0]);
    assert y[..] == InvState(x[..], KeyColumns(d, r));
  }

  method InvLastRnd(y: array<bv32>, x: array<bv32>, d: Schedule, r: nat, ghost s: Block)
    requires y != x && y.Length == 4 && x.Length == 4 && r <= 10
    requires BlockOfColumns(x[..]) == s
    modifies y
    ensures BlockOfColumns(y[..]) == Xor(InvSubBytes(InvShiftRows(s)), RoundKey(d, r))
  {
    hide InvLast, Xor, InvShiftRows, InvSubBytes, RoundKey, BlockOfColumns;
    RoundKeyColumns(d, r);
    InvLastRoundWords(x[..], KeyColumns(d, r));
    y[0] := InvLast(d[4 * r], x[0], x[3], x[2], x[1]);
    y[1] := InvLast(d[4 * r + 1], x[1], x[0], x[3], x[2]);
    y[2] := InvLast(d[4 * r + 2], x[2], x[1], x[0], x[3]);
    y[3] := InvLast(d[4 * r + 3], x[3], x[2], x[1], x[0]);
    assert y[..] == InvLastState(x[..], KeyColumns(d, r));
  }

  /** state_in: the block with the first round key of the schedule added. */
  method StateIn(y: array<bv32>, s: Block, w: Schedule)
    requires y.Length == 4
    modifies y
    ensures BlockOfColumns(y[..]) == Xor(s, RoundKey(w, 0))
  {
    hide Xor32, Xor, Load, BlockOfColumns, RoundKey;
    RoundKeyColumns(w, 0);
    BlockOfColumnsOf(s);
    XorOfColumns(Columns(s), KeyColumns(w, 0));
    XorComm(s, RoundKey(w, 0));
    y[0] := Xor32(Load(s, 0), w[0]);
    y[1] := Xor32(Load(s, 4), w[1]);
    y[2] := Xor32(Load(s, 8), w[2]);
    y[3] := Xor32(Load(s, 12), w[3]);
    assert y[..] == [Xor32(Load(s, 0), w[0]), Xor32(Load(s, 4), w[1]),
                     Xor32(Load(s, 8), w[2]), Xor32(Load(s, 12), w[3])];
  }

  method WordOut(out: array<bv8>, c: nat, w: bv32)
    requires out.Length == 16 && c < 4
    modifies out
    ensures out[..4 * c + 4] == old(out[..4 * c]) + WordBytes(w)
  {
    hide B0, B1, B2, B3;
    Store(out, 4 * c, w);
    assert out[..4 * c + 4] == out[..4 * c] + [out[4 * c], out[4 * c + 1], out[4 * c + 2], out[4 * c + 3]];
    assert out[..4 * c] == old(out[..4 * c]);
  }

  /** state_out */
  method StateOut(out: array<bv8>, x: seq<bv32>)
    requires out.Length == 16 && |x| == 4
    modifies out
    ensures out[..] == BlockOfColumns(x)
  {
    hide WordBytes;
    WordOut(out, 0, x[0]);
    WordOut(out, 1, x[1]);
    WordOut(out, 2, x[2]);
    WordOut(out, 3, x[3]);
    assert out[..] == out[..16];
  }

  method EncryptRounds(s: Block, w: Schedule) returns (b0: array<bv32>)
    ensures fresh(b0) && b0.Length == 4
    ensures BlockOfColumns(b0[..]) == Cipher(w, s)
  {
    hide Xor, MixColumns, ShiftRows, SubBytes, RoundKey, BlockOfColumns;
    b0 := new bv32[4];
    var b1 := new bv32[4];
    StateIn(b0, s, w);
    FwdRnd(b1, b0, w, 1, Rounds(w, s, 0));
    FwdRnd(b0, b1, w, 2, Rounds(w, s, 1));
    FwdRnd(b1, b0, w, 3, Rounds(w, s, 2));
    FwdRnd(b0, b1, w, 4, Rounds(w, s, 3));
    FwdRnd(b1, b0, w, 5, Rounds(w, s, 4));
    FwdRnd(b0, b1, w, 6, Rounds(w, s, 5));
    FwdRnd(b1, b0, w, 7, Rounds(w, s, 6));
    FwdRnd(b0, b1, w, 8, Rounds(w, s, 7));
    FwdRnd(b1, b0, w, 9, Rounds(w, s, 8));
    FwdLastRnd(b0, b1, w, 10, Rounds(w, s, 9));
  }

  method DecryptRounds(s: Block, d: Schedule) returns (b0: array<bv32>)
    ensures fresh(b0) && b0.Length == 4
    ensures BlockOfColumns(b0[..]) == EqInvCipher(d, s)
  {
    hide Xor, InvMixColumns, InvShiftRows, InvSubBytes, RoundKey, BlockOfColumns;
    b0 := new bv32[4];
    var b1 := new bv32[4];
    StateIn(b0, s, d);
    InvRnd(b1, b0, d, 1, EqInvRounds(d, s, 0));
    InvRnd(b0, b1, d, 2, EqInvRounds(d, s, 1));
    InvRnd(b1, b0, d, 3, EqInvRounds(d, s, 2));
    InvRnd(b0, b1, d, 4, EqInvRounds(d, s, 3));
    InvRnd(b1, b0, d, 5, EqInvRounds(d, s, 4));
    InvRnd(b0, b1, d, 6, EqInvRounds(d, s, 5));
    InvRnd(b1, b0, d, 7, EqInvRounds(d, s, 6));
    InvRnd(b0, b1, d, 8, EqInvRounds(d, s, 7));
    InvRnd(b1, b0, d, 9, EqInvRounds(d, s, 8));
    InvLastRnd(b0, b1, d, 10, EqInvRounds(d, s, 9));
  }

  /* ----- contexts ----- */

  const AES_128_ROUNDS: bv8 := 160

  /** aes_encrypt_ctx and aes_decrypt_ctx: a schedule and inf.b[0], ten rounds times sixteen. */
  class AesCtx {
    const ks: array<bv32>
    var inf: bv8

    constructor ()
      ensures ks.Length == 44 && fresh(ks) && inf == 0
    {
      ks := new bv32[44];
      inf := 0;
    }

    method EncryptKey(key: Block)
      requires ks.Length == 44
      modifies this, ks
      ensures ks[..] == Expand(key) && inf == AES_128_ROUNDS
    {
      hide Expand;
      EncryptKey128(key, ks);
      inf := AES_128_ROUNDS;
    }

    method DecryptKey(key: Block)
      requires ks.Length == 44
      modifies this, ks
      ensures ks[..] == Equivalent(Expand(key)) && inf == AES_128_ROUNDS
    {
      hide Expand, Equivalent;
      DecryptKey128(key, ks);
      inf := AES_128_ROUNDS;
    }

    /** aes_encrypt; inp and out may be one buffer. No context holds 192 or 224: no function builds one. */
    method Encrypt(inp: array<bv8>, out: array<bv8>) returns (r: int)
      requires ks.Length == 44 && inp.Length == 16 && out.Length == 16
      requires inf !in {192, 224}
      modifies out
      ensures r == if old(inf) == AES_128_ROUNDS then 0 else -1
      ensures r == 0 ==> out[..] == Cipher(old(ks[..]), old(inp[..]))
      ensures r != 0 ==> out[..] == old(out[..])
    {
      hide Cipher;
      if inf != 160 && inf != 192 && inf != 224 {
        return -1;
      }
      var b0 := EncryptRounds(inp[..], ks[..]);
      StateOut(out, b0[..]);
      r := 0;
    }

    /** aes_decrypt. */
    method Decrypt(inp: array<bv8>, out: array<bv8>) returns (r: int)
      requires ks.Length == 44 && inp.Length == 16 && out.Length == 16
      requires inf !in {192, 224}
      modifies out
      ensures r == if old(inf) == AES_128_ROUNDS then 0 else -1
      ensures r == 0 ==> out[..] == EqInvCipher(old(ks[..]), old(inp[..]))
      ensures r != 0 ==> out[..] == old(out[..])
    {
      hide EqInvCipher;
      if inf != 160 && inf != 192 && inf != 224 {
        return -1;
      }
      var b0 := DecryptRounds(inp[..], ks[..]);
      StateOut(out, b0[..]);
      r := 0;
    }
  }

  /** Two contexts keyed alike, whatever they held before: decrypting what was encrypted in place
      restores the block. */
  method EncryptThenDecrypt(enc: AesCtx, dec: AesCtx, key: Block, buf: array<bv8>) returns (sent: int, got: int)
    requires enc.ks.Length == 44 && dec.ks.Length == 44 && buf.Length == 16
    modifies enc, enc.ks, dec, dec.ks, buf
    ensures sent == 0 && got == 0 && buf[..] == old(buf[..])
  {
    hide Cipher, EqInvCipher, Expand, Equivalent;
    ghost var s := buf[..];
    enc.EncryptKey(key);
    sent := enc.Encrypt(buf, buf);
    dec.DecryptKey(key);
    got := dec.Decrypt(buf, buf);
    DecryptUndoesEncrypt(key, s);
  }
}
