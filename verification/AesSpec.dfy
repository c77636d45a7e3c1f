/** The cipher of FIPS 197 on bytes: byte 4 * c + r of a block is row r of column c of the state.
    A key schedule is a sequence of 44 words, the bytes of a word being its column from the top. */
module AesSpec {
  import opened Bytes
  import opened AesField
  import opened AesWords

  type Schedule = w: seq<bv32> | |w| == 44 witness seq(44, (i: nat) => 0 as bv32)

  function SubBytes(s: Block): Block {
    seq(16, (i: nat) => SBox(ByteAt(s, i)))
  }

  function InvSubBytes(s: Block): Block {
    seq(16, (i: nat) => InvSBox(ByteAt(s, i)))
  }

  /** Row i % 4 moves left by its own number. */
  function ShiftRows(s: Block): Block {
    [s[0], s[5], s[10], s[15], s[4], s[9], s[14], s[3], s[8], s[13], s[2], s[7], s[12], s[1], s[6], s[11]]
  }

  lemma ShiftRowsAt(s: Block, r: nat, c: nat)
    requires r < 4 && c < 4
    ensures ShiftRows(s)[4 * c + r] == s[4 * ((c + r) % 4) + r]
  {
  }

  function InvShiftRows(s: Block): Block {
    [s[0], s[13], s[10], s[7], s[4], s[1], s[14], s[11], s[8], s[5], s[2], s[15], s[12], s[9], s[6], s[3]]
  }

  /** One column times the matrix of section 5.1.3 of FIPS 197. */
  function MixColumn(a: bv8, b: bv8, c: bv8, d: bv8): (r: seq<bv8>)
    ensures |r| == 4
  {
    [X4(GMul(0x02, a), GMul(0x03, b), c, d),
     X4(a, GMul(0x02, b), GMul(0x03, c), d),
     X4(a, b, GMul(0x02, c), GMul(0x03, d)),
     X4(GMul(0x03, a), b, c, GMul(0x02, d))]
  }

  function FourColumns(a: seq<bv8>, b: seq<bv8>, c: seq<bv8>, d: seq<bv8>): Block
    requires |a| == 4 && |b| == 4 && |c| == 4 && |d| == 4
  {
    a + b + c + d
  }

  function MixColumns(s: Block): Block {
    FourColumns(MixColumn(s[0], s[1], s[2], s[3]), MixColumn(s[4], s[5], s[6], s[7]),
                MixColumn(s[8], s[9], s[10], s[11]), MixColumn(s[12], s[13], s[14], s[15]))
  }

  /** One column times the matrix of section 5.3.3 of FIPS 197. */
  function InvMixColumn(a: bv8, b: bv8, c: bv8, d: bv8): (r: seq<bv8>)
    ensures |r| == 4
  {
    [X4(GMul(0x0e, a), GMul(0x0b, b), GMul(0x0d, c), GMul(0x09, d)),
     X4(GMul(0x09, a), GMul(0x0e, b), GMul(0x0b, c), GMul(0x0d, d)),
     X4(GMul(0x0d, a), GMul(0x09, b), GMul(0x0e, c), GMul(0x0b, d)),
     X4(GMul(0x0b, a), GMul(0x0d, b), GMul(0x09, c), GMul(0x0e, d))]
  }

  function InvMixColumns(s: Block): Block {
    FourColumns(InvMixColumn(s[0], s[1], s[2], s[3]), InvMixColumn(s[4], s[5], s[6], s[7]),
                InvMixColumn(s[8], s[9], s[10], s[11]), InvMixColumn(s[12], s[13], s[14], s[15]))
  }

  /** Round key r of a schedule. */
  function RoundKey(w: Schedule, r: nat): Block
    requires r <= 10
  {
    WordBytes(w[4 * r]) + WordBytes(w[4 * r + 1]) + WordBytes(w[4 * r + 2]) + WordBytes(w[4 * r + 3])
  }

  /** The state after r full rounds. */
  function Rounds(w: Schedule, s: Block, r: nat): Block
    requires r <= 9
  {
    if r == 0 then Xor(s, RoundKey(w, 0))
    else Xor(MixColumns(ShiftRows(SubBytes(Rounds(w, s, r - 1)))), RoundKey(w, r))
  }

  /** Section 5.1 of FIPS 197. */
  function Cipher(w: Schedule, s: Block): Block {
    Xor(ShiftRows(SubBytes(Rounds(w, s, 9))), RoundKey(w, 10))
  }

  /** The state of the inverse cipher after r full rounds. */
  function InvRounds(w: Schedule, s: Block, r: nat): Block
    requires r <= 9
  {
    if r == 0 then Xor(s, RoundKey(w, 10))
    else InvMixColumns(Xor(InvSubBytes(InvShiftRows(InvRounds(w, s, r - 1))), RoundKey(w, 10 - r)))
  }

  function InvLastRound(w: Schedule, s: Block): Block {
    Xor(InvSubBytes(InvShiftRows(s)), RoundKey(w, 0))
  }

  /** Section 5.3 of FIPS 197. */
  function InvCipher(w: Schedule, s: Block): Block {
    InvLastRound(w, InvRounds(w, s, 9))
  }

  /* ----- the inverse of each layer ----- */

  lemma InvSubSub(s: Block)
    ensures InvSubBytes(SubBytes(s)) == s
  {
    hide SBox, InvSBox;
    forall i: nat | i < 16
      ensures InvSubBytes(SubBytes(s))[i] == s[i]
    {
      InvSBoxSBox(s[i]);
    }
  }

  lemma InvShiftShift(s: Block)
    ensures InvShiftRows(ShiftRows(s)) == s
  {
  }

  lemma MixColumnWord(a: bv8, b: bv8, c: bv8, d: bv8)
    ensures MixColumn(a, b, c, d) == WordBytes(MixBytes(a, b, c, d))
  {
    hide GMul, Mul2, Mul3, X4, Word, B0, B1, B2, B3;
    BytesOfWord(MixByte(a, b, c, d), MixByte(b, c, d, a), MixByte(c, d, a, b), MixByte(d, a, b, c));
    Mul23Names(a);
    Mul23Names(b);
    Mul23Names(c);
    Mul23Names(d);
    Rotate(Mul2(b), Mul3(c), d, a);
    Rotate(Mul2(c), Mul3(d), a, b);
    Rotate(b, Mul2(c), Mul3(d), a);
    Rotate(Mul3(a), b, c, Mul2(d));
  }

  lemma InvMixColumnWord(a: bv8, b: bv8, c: bv8, d: bv8)
    ensures InvMixColumn(a, b, c, d) == WordBytes(InvMixBytes(a, b, c, d))
  {
    hide GMul, MulE, MulB, MulD, Mul9, X4, Word, B0, B1, B2, B3;
    BytesOfWord(InvMixByte(a, b, c, d), InvMixByte(b, c, d, a), InvMixByte(c, d, a, b), InvMixByte(d, a, b, c));
    InvNames(a);
    InvNames(b);
    InvNames(c);
    InvNames(d);
    Rotate(MulE(b), MulB(c), MulD(d), Mul9(a));
    Rotate(MulE(c), MulB(d), MulD(a), Mul9(b));
    Rotate(Mul9(b), MulE(c), MulB(d), MulD(a));
    Rotate(MulB(a), MulD(b), Mul9(c), MulE(d));
  }

  lemma InvNames(b: bv8)
    ensures Mul9(b) == GMul(0x09, b) && MulB(b) == GMul(0x0b, b)
    ensures MulD(b) == GMul(0x0d, b) && MulE(b) == GMul(0x0e, b)
  {
    hide *;
    Mul9BNames(b);
    MulDENames(b);
  }

  /** A block as four words. */
  function Columns(s: Block): (w: seq<bv32>)
    ensures |w| == 4
  {
    [Load(s, 0), Load(s, 4), Load(s, 8), Load(s, 12)]
  }

  function BlockOfColumns(w: seq<bv32>): Block
    requires |w| == 4
  {
    WordBytes(w[0]) + WordBytes(w[1]) + WordBytes(w[2]) + WordBytes(w[3])
  }

  lemma ColumnsOfBlock(w: seq<bv32>)
    requires |w| == 4
    ensures Columns(BlockOfColumns(w)) == w
  {
    hide Word, B0, B1, B2, B3;
    WordOfBytes(w[0]);
    WordOfBytes(w[1]);
    WordOfBytes(w[2]);
    WordOfBytes(w[3]);
  }

  lemma BlockOfColumnsOf(s: Block)
    ensures BlockOfColumns(Columns(s)) == s
  {
    hide Word, B0, B1, B2, B3;
    BytesOfWord(s[0], s[1], s[2], s[3]);
    BytesOfWord(s[4], s[5], s[6], s[7]);
    BytesOfWord(s[8], s[9], s[10], s[11]);
    BytesOfWord(s[12], s[13], s[14], s[15]);
  }

  lemma ColumnsOfMix(s: Block)
    ensures MixColumns(s) ==
            BlockOfColumns([MixWord(Load(s, 0)), MixWord(Load(s, 4)), MixWord(Load(s, 8)), MixWord(Load(s, 12))])
  {
    hide MixColumn, MixBytes, Word, B0, B1, B2, B3;
    BytesOfWord(s[0], s[1], s[2], s[3]);
    BytesOfWord(s[4], s[5], s[6], s[7]);
    BytesOfWord(s[8], s[9], s[10], s[11]);
    BytesOfWord(s[12], s[13], s[14], s[15]);
    MixColumnWord(s[0], s[1], s[2], s[3]);
    MixColumnWord(s[4], s[5], s[6], s[7]);
    MixColumnWord(s[8], s[9], s[10], s[11]);
    MixColumnWord(s[12], s[13], s[14], s[15]);
  }

  lemma ColumnsOfInvMix(s: Block)
    ensures InvMixColumns(s) ==
            BlockOfColumns([InvMixWord(Load(s, 0)), InvMixWord(Load(s, 4)),
                            InvMixWord(Load(s, 8)), InvMixWord(Load(s, 12))])
  {
    hide InvMixColumn, InvMixBytes, Word, B0, B1, B2, B3;
    BytesOfWord(s[0], s[1], s[2], s[3]);
    BytesOfWord(s[4], s[5], s[6], s[7]);
    BytesOfWord(s[8], s[9], s[10], s[11]);
    BytesOfWord(s[12], s[13], s[14], s[15]);
    InvMixColumnWord(s[0], s[1], s[2], s[3]);
    InvMixColumnWord(s[4], s[5], s[6], s[7]);
    InvMixColumnWord(s[8], s[9], s[10], s[11]);
    InvMixColumnWord(s[12], s[13], s[14], s[15]);
  }

  lemma InvMixMixColumns(s: Block)
    ensures InvMixColumns(MixColumns(s)) == s
  {
    hide MixColumns, InvMixColumns, MixWord, InvMixWord, Load, BlockOfColumns;
    var w := [MixWord(Load(s, 0)), MixWord(Load(s, 4)), MixWord(Load(s, 8)), MixWord(Load(s, 12))];
    ColumnsOfMix(s);
    ColumnsOfBlock(w);
    ColumnsOfInvMix(BlockOfColumns(w));
    InvMixMix(Load(s, 0));
    InvMixMix(Load(s, 4));
    InvMixMix(Load(s, 8));
    InvMixMix(Load(s, 12));
    BlockOfColumnsOf(s);
  }

  /** After r inverse rounds the state is that of round 9 - r before its final layers. */
  lemma {:induction false} InvRoundsOfCipher(w: Schedule, s: Block, r: nat)
    requires r <= 9
    ensures InvRounds(w, Cipher(w, s), r) == ShiftRows(SubBytes(Rounds(w, s, 9 - r)))
  {
    hide SubBytes, InvSubBytes, ShiftRows, InvShiftRows, MixColumns, InvMixColumns, Xor, RoundKey;
    if r == 0 {
      XorSame(ShiftRows(SubBytes(Rounds(w, s, 9))), RoundKey(w, 10));
    } else {
      InvRoundsOfCipher(w, s, r - 1);
      var e := Rounds(w, s, 10 - r);
      InvShiftShift(SubBytes(e));
      InvSubSub(e);
      var m := ShiftRows(SubBytes(Rounds(w, s, 9 - r)));
      XorSame(MixColumns(m), RoundKey(w, 10 - r));
      InvMixMixColumns(m);
    }
  }

  /** Decryption undoes encryption under every key schedule. */
  lemma InvCipherCipher(w: Schedule, s: Block)
    ensures InvCipher(w, Cipher(w, s)) == s
  {
    hide SubBytes, InvSubBytes, ShiftRows, InvShiftRows, Xor, RoundKey, Cipher;
    InvRoundsOfCipher(w, s, 9);
    InvShiftShift(SubBytes(Rounds(w, s, 0)));
    InvSubSub(Rounds(w, s, 0));
    XorSame(s, RoundKey(w, 0));
  }
}
