/** The table rounds of aescrypt.c against the layers of FIPS 197. */
module AesRounds {
  import opened Bytes
  import opened AesField
  import opened AesWords
  import opened AesSpec

  type State = x: seq<bv32> | |x| == 4 witness [0, 0, 0, 0]

  /* ----- one output column: the macros fwd_rnd, fwd_lrnd, inv_rnd and inv_lrnd ----- */

  function Fwd(k: bv32, p: bv32, q: bv32, r: bv32, s: bv32): bv32 {
    Xor32(k, Four(U0(SBox(B0(p))), U1(SBox(B1(q))), U2(SBox(B2(r))), U3(SBox(B3(s)))))
  }

  function FwdLast(k: bv32, p: bv32, q: bv32, r: bv32, s: bv32): bv32 {
    Xor32(k, Four(Word(SBox(B0(p)), 0, 0, 0), Word(0, SBox(B1(q)), 0, 0),
                  Word(0, 0, SBox(B2(r)), 0), Word(0, 0, 0, SBox(B3(s)))))
  }

  function Inv(k: bv32, p: bv32, q: bv32, r: bv32, s: bv32): bv32 {
    Xor32(k, Four(V0(InvSBox(B0(p))), V1(InvSBox(B1(q))), V2(InvSBox(B2(r))), V3(InvSBox(B3(s)))))
  }

  function InvLast(k: bv32, p: bv32, q: bv32, r: bv32, s: bv32): bv32 {
    Xor32(k, Four(Word(InvSBox(B0(p)), 0, 0, 0), Word(0, InvSBox(B1(q)), 0, 0),
                  Word(0, 0, InvSBox(B2(r)), 0), Word(0, 0, 0, InvSBox(B3(s)))))
  }

  /* ----- blocks of words ----- */

  lemma ColumnByte(x: State, c: nat, r: nat)
    requires c < 4 && r < 4
    ensures BlockOfColumns(x)[4 * c + r] == WordBytes(x[c])[r]
  {
    hide WordBytes;
  }

  lemma InvSubBytesAll(s: Block)
    ensures InvSubBytes(s) ==
            [InvSBox(s[0]), InvSBox(s[1]), InvSBox(s[2]), InvSBox(s[3]),
             InvSBox(s[4]), InvSBox(s[5]), InvSBox(s[6]), InvSBox(s[7]),
             InvSBox(s[8]), InvSBox(s[9]), InvSBox(s[10]), InvSBox(s[11]),
             InvSBox(s[12]), InvSBox(s[13]), InvSBox(s[14]), InvSBox(s[15])]
  {
    hide InvSBox;
  }

  lemma InvShiftedBytes(x: State)
    ensures InvShiftRows(BlockOfColumns(x)) ==
            [B0(x[0]), B1(x[3]), B2(x[2]), B3(x[1]),
             B0(x[1]), B1(x[0]), B2(x[3]), B3(x[2]),
             B0(x[2]), B1(x[1]), B2(x[0]), B3(x[3]),
             B0(x[3]), B1(x[2]), B2(x[1]), B3(x[0])]
  {
    hide B0, B1, B2, B3;
  }

  lemma XorOfColumns(k: State, m: State)
    ensures BlockOfColumns([Xor32(k[0], m[0]), Xor32(k[1], m[1]), Xor32(k[2], m[2]), Xor32(k[3], m[3])])
         == Xor(BlockOfColumns(m), BlockOfColumns(k))
  {
    hide Xor8, Xor32, B0, B1, B2, B3, BlockOfColumns;
    var sum := [Xor32(k[0], m[0]), Xor32(k[1], m[1]), Xor32(k[2], m[2]), Xor32(k[3], m[3])];
    forall i: nat | i < 16
      ensures BlockOfColumns(sum)[i] == Xor(BlockOfColumns(m), BlockOfColumns(k))[i]
    {
      XorOfColumnsAt(k, m, sum, i);
    }
  }

  lemma XorOfColumnsAt(k: State, m: State, sum: State, i: nat)
    requires forall c :: 0 <= c < 4 ==> sum[c] == Xor32(k[c], m[c])
    requires i < 16
    ensures BlockOfColumns(sum)[i] == Xor(BlockOfColumns(m), BlockOfColumns(k))[i]
  {
    hide Xor8, Xor32, B0, B1, B2, B3, BlockOfColumns;
    var c, r := i / 4, i % 4;
    ColumnByte(sum, c, r);
    ColumnByte(k, c, r);
    ColumnByte(m, c, r);
    BytesOfXor(k[c], m[c]);
    Xor8Laws(WordBytes(k[c])[r], WordBytes(m[c])[r], 0);
  }

  /** Column c of the shifted state takes its rows from columns c, c + 1, c + 2 and c + 3. */
  lemma ShiftedColumns(x: State)
    ensures ShiftRows(SubBytes(BlockOfColumns(x))) ==
            [SBox(B0(x[0])), SBox(B1(x[1])), SBox(B2(x[2])), SBox(B3(x[3])),
             SBox(B0(x[1])), SBox(B1(x[2])), SBox(B2(x[3])), SBox(B3(x[0])),
             SBox(B0(x[2])), SBox(B1(x[3])), SBox(B2(x[0])), SBox(B3(x[1])),
             SBox(B0(x[3])), SBox(B1(x[0])), SBox(B2(x[1])), SBox(B3(x[2]))]
  {
    hide SBox, B0, B1, B2, B3;
  }

  lemma InvShiftedColumns(x: State)
    ensures InvSubBytes(InvShiftRows(BlockOfColumns(x))) ==
            [InvSBox(B0(x[0])), InvSBox(B1(x[3])), InvSBox(B2(x[2])), InvSBox(B3(x[1])),
             InvSBox(B0(x[1])), InvSBox(B1(x[0])), InvSBox(B2(x[3])), InvSBox(B3(x[2])),
             InvSBox(B0(x[2])), InvSBox(B1(x[1])), InvSBox(B2(x[0])), InvSBox(B3(x[3])),
             InvSBox(B0(x[3])), InvSBox(B1(x[2])), InvSBox(B2(x[1])), InvSBox(B3(x[0]))]
  {
    hide InvSBox, B0, B1, B2, B3, BlockOfColumns, InvSubBytes, InvShiftRows;
    InvShiftedBytes(x);
    InvSubBytesAll(InvShiftRows(BlockOfColumns(x)));
  }

  /** A block of sixteen bytes mixed column by column is the block of the mixed words. */
  lemma MixOfBytes(t: Block)
    ensures MixColumns(t) == BlockOfColumns([MixBytes(t[0], t[1], t[2], t[3]), MixBytes(t[4], t[5], t[6], t[7]),
                                             MixBytes(t[8], t[9], t[10], t[11]), MixBytes(t[12], t[13], t[14], t[15])])
  {
    hide MixColumn, MixBytes, B0, B1, B2, B3;
    MixColumnWord(t[0], t[1], t[2], t[3]);
    MixColumnWord(t[4], t[5], t[6], t[7]);
    MixColumnWord(t[8], t[9], t[10], t[11]);
    MixColumnWord(t[12], t[13], t[14], t[15]);
  }

  lemma InvMixOfBytes(t: Block)
    ensures InvMixColumns(t) ==
            BlockOfColumns([InvMixBytes(t[0], t[1], t[2], t[3]), InvMixBytes(t[4], t[5], t[6], t[7]),
                            InvMixBytes(t[8], t[9], t[10], t[11]), InvMixBytes(t[12], t[13], t[14], t[15])])
  {
    hide InvMixColumn, InvMixBytes, B0, B1, B2, B3;
    InvMixColumnWord(t[0], t[1], t[2], t[3]);
    InvMixColumnWord(t[4], t[5], t[6], t[7]);
    InvMixColumnWord(t[8], t[9], t[10], t[11]);
    InvMixColumnWord(t[12], t[13], t[14], t[15]);
  }

  lemma WordsOfBytes(t: Block)
    ensures t == BlockOfColumns([Word(t[0], t[1], t[2], t[3]), Word(t[4], t[5], t[6], t[7]),
                                 Word(t[8], t[9], t[10], t[11]), Word(t[12], t[13], t[14], t[15])])
  {
    hide BlockOfColumns, Word;
    BlockOfColumnsOf(t);
  }

  /* ----- whole rounds ----- */

  lemma FwdIsMix(k: bv32, p: bv32, q: bv32, r: bv32, s: bv32)
    ensures Fwd(k, p, q, r, s) == Xor32(k, MixBytes(SBox(B0(p)), SBox(B1(q)), SBox(B2(r)), SBox(B3(s))))
    ensures FwdLast(k, p, q, r, s) == Xor32(k, Word(SBox(B0(p)), SBox(B1(q)), SBox(B2(r)), SBox(B3(s))))
  {
    hide Four, U0, U1, U2, U3, SBox, B0, B1, B2, B3, Word, MixBytes, Xor32;
    TablesOfMix(SBox(B0(p)), SBox(B1(q)), SBox(B2(r)), SBox(B3(s)));
    TablesOfBytes(SBox(B0(p)), SBox(B1(q)), SBox(B2(r)), SBox(B3(s)));
  }

  lemma InvIsInvMix(k: bv32, p: bv32, q: bv32, r: bv32, s: bv32)
    ensures Inv(k, p, q, r, s) == Xor32(k, InvMixBytes(InvSBox(B0(p)), InvSBox(B1(q)), InvSBox(B2(r)), InvSBox(B3(s))))
    ensures InvLast(k, p, q, r, s) == Xor32(k, Word(InvSBox(B0(p)), InvSBox(B1(q)), InvSBox(B2(r)), InvSBox(B3(s))))
  {
    hide Four, V0, V1, V2, V3, InvSBox, B0, B1, B2, B3, Word, InvMixBytes, Xor32;
    TablesOfInvMix(InvSBox(B0(p)), InvSBox(B1(q)), InvSBox(B2(r)), InvSBox(B3(s)));
    TablesOfBytes(InvSBox(B0(p)), InvSBox(B1(q)), InvSBox(B2(r)), InvSBox(B3(s)));
  }

  function FwdState(x: State, k: State): State {
    [Fwd(k[0], x[0], x[1], x[2], x[3]), Fwd(k[1], x[1], x[2], x[3], x[0]),
     Fwd(k[2], x[2], x[3], x[0], x[1]), Fwd(k[3], x[3], x[0], x[1], x[2])]
  }

  function FwdLastState(x: State, k: State): State {
    [FwdLast(k[0], x[0], x[1], x[2], x[3]), FwdLast(k[1], x[1], x[2], x[3], x[0]),
     FwdLast(k[2], x[2], x[3], x[0], x[1]), FwdLast(k[3], x[3], x[0], x[1], x[2])]
  }

  function InvState(x: State, k: State): State {
    [Inv(k[0], x[0], x[3], x[2], x[1]), Inv(k[1], x[1], x[0], x[3], x[2]),
     Inv(k[2], x[2], x[1], x[0], x[3]), Inv(k[3], x[3], x[2], x[1], x[0])]
  }

  function InvLastState(x: State, k: State): State {
    [InvLast(k[0], x[0], x[3], x[2], x[1]), InvLast(k[1], x[1], x[0], x[3], x[2]),
     InvLast(k[2], x[2], x[1], x[0], x[3]), InvLast(k[3], x[3], x[2], x[1], x[0])]
  }

  /** One round by tables is SubBytes, ShiftRows, MixColumns and AddRoundKey. */
  lemma FwdRound(x: State, k: State)
    ensures BlockOfColumns(FwdState(x, k)) ==
            Xor(MixColumns(ShiftRows(SubBytes(BlockOfColumns(x)))), BlockOfColumns(k))
  {
    hide Fwd, Xor32, Xor, MixColumns, ShiftRows, SubBytes, BlockOfColumns, MixBytes, SBox, B0, B1, B2, B3;
    FwdIsMix(k[0], x[0], x[1], x[2], x[3]);
    FwdIsMix(k[1], x[1], x[2], x[3], x[0]);
    FwdIsMix(k[2], x[2], x[3], x[0], x[1]);
    FwdIsMix(k[3], x[3], x[0], x[1], x[2]);
    ShiftedColumns(x);
    var t := ShiftRows(SubBytes(BlockOfColumns(x)));
    MixOfBytes(t);
    XorOfColumns(k, [MixBytes(t[0], t[1], t[2], t[3]), MixBytes(t[4], t[5], t[6], t[7]),
                     MixBytes(t[8], t[9], t[10], t[11]), MixBytes(t[12], t[13], t[14], t[15])]);
  }

  lemma FwdLastRound(x: State, k: State)
    ensures BlockOfColumns(FwdLastState(x, k)) ==
            Xor(ShiftRows(SubBytes(BlockOfColumns(x))), BlockOfColumns(k))
  {
    hide FwdLast, Xor32, Xor, ShiftRows, SubBytes, BlockOfColumns, Word, SBox, B0, B1, B2, B3;
    FwdIsMix(k[0], x[0], x[1], x[2], x[3]);
    FwdIsMix(k[1], x[1], x[2], x[3], x[0]);
    FwdIsMix(k[2], x[2], x[3], x[0], x[1]);
    FwdIsMix(k[3], x[3], x[0], x[1], x[2]);
    ShiftedColumns(x);
    var t := ShiftRows(SubBytes(BlockOfColumns(x)));
    WordsOfBytes(t);
    XorOfColumns(k, [Word(t[0], t[1], t[2], t[3]), Word(t[4], t[5], t[6], t[7]),
                     Word(t[8], t[9], t[10], t[11]), Word(t[12], t[13], t[14], t[15])]);
  }

  lemma InvLastRoundWords(x: State, k: State)
    ensures BlockOfColumns(InvLastState(x, k)) ==
            Xor(InvSubBytes(InvShiftRows(BlockOfColumns(x))), BlockOfColumns(k))
  {
    hide InvLast, Xor32, Xor, InvShiftRows, InvSubBytes, BlockOfColumns, Word, InvSBox, B0, B1, B2, B3;
    InvIsInvMix(k[0], x[0], x[3], x[2], x[1]);
    InvIsInvMix(k[1], x[1], x[0], x[3], x[2]);
    InvIsInvMix(k[2], x[2], x[1], x[0], x[3]);
    InvIsInvMix(k[3], x[3], x[2], x[1], x[0]);
    InvShiftedColumns(x);
    var t := InvSubBytes(InvShiftRows(BlockOfColumns(x)));
    WordsOfBytes(t);
    XorOfColumns(k, [Word(t[0], t[1], t[2], t[3]), Word(t[4], t[5], t[6], t[7]),
                     Word(t[8], t[9], t[10], t[11]), Word(t[12], t[13], t[14], t[15])]);
  }

  /** The inverse round by tables adds its key after the mixing. */
  lemma InvRoundWords(x: State, k: State)
    ensures BlockOfColumns(InvState(x, k)) ==
            Xor(InvMixColumns(InvSubBytes(InvShiftRows(BlockOfColumns(x)))), BlockOfColumns(k))
  {
    hide Inv, Xor32, Xor, InvMixColumns, InvShiftRows, InvSubBytes, BlockOfColumns;
    hide InvMixBytes, InvSBox, B0, B1, B2, B3;
    InvIsInvMix(k[0], x[0], x[3], x[2], x[1]);
    InvIsInvMix(k[1], x[1], x[0], x[3], x[2]);
    InvIsInvMix(k[2], x[2], x[1], x[0], x[3]);
    InvIsInvMix(k[3], x[3], x[2], x[1], x[0]);
    InvShiftedColumns(x);
    var t := InvSubBytes(InvShiftRows(BlockOfColumns(x)));
    InvMixOfBytes(t);
    XorOfColumns(k, [InvMixBytes(t[0], t[1], t[2], t[3]), InvMixBytes(t[4], t[5], t[6], t[7]),
                     InvMixBytes(t[8], t[9], t[10], t[11]), InvMixBytes(t[12], t[13], t[14], t[15])]);
  }

  /** InvMixColumns moves across the addition of a round key, which it transforms. */
  lemma InvMixColumnsOfSum(m: State, k: State)
    ensures InvMixColumns(Xor(BlockOfColumns(m), BlockOfColumns(k)))
         == Xor(InvMixColumns(BlockOfColumns(m)),
                BlockOfColumns([InvMixWord(k[0]), InvMixWord(k[1]), InvMixWord(k[2]), InvMixWord(k[3])]))
  {
    hide Xor, Xor32, InvMixColumns, BlockOfColumns, InvMixWord, Load;
    var sum := [Xor32(k[0], m[0]), Xor32(k[1], m[1]), Xor32(k[2], m[2]), Xor32(k[3], m[3])];
    XorOfColumns(k, m);
    ColumnsOfBlock(sum);
    ColumnsOfInvMix(BlockOfColumns(sum));
    ColumnsOfBlock(m);
    ColumnsOfInvMix(BlockOfColumns(m));
    InvMixLinear(k[0], m[0]);
    InvMixLinear(k[1], m[1]);
    InvMixLinear(k[2], m[2]);
    InvMixLinear(k[3], m[3]);
    XorOfColumns([InvMixWord(k[0]), InvMixWord(k[1]), InvMixWord(k[2]), InvMixWord(k[3])],
                 [InvMixWord(m[0]), InvMixWord(m[1]), InvMixWord(m[2]), InvMixWord(m[3])]);
  }
}
