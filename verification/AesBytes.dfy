/** Key expansion and cipher written out on bytes: byte r of a column is row r of the state, and every
    row and column number is taken modulo 4. */
module AesBytes {
  import opened Bytes
  import opened AesField
  import opened AesWords
  import opened AesSpec
  import opened AesKey

  /** Byte r of a word. */
  function Row(w: bv32, r: nat): bv8
    requires r < 4
  {
    WordBytes(w)[r]
  }

  lemma RowOfXor(v: bv32, w: bv32, r: nat)
    requires r < 4
    ensures Row(Xor32(v, w), r) == Xor8(Row(v, r), Row(w, r))
  {
    hide Xor32, Xor8, B0, B1, B2, B3;
    BytesOfXor(v, w);
  }

  lemma RowOfWord(a: bv8, b: bv8, c: bv8, d: bv8, r: nat)
    requires r < 4
    ensures Row(Word(a, b, c, d), r) == [a, b, c, d][r]
  {
    hide B0, B1, B2, B3, Word;
    BytesOfWord(a, b, c, d);
  }

  /** The round constants of section 5.2 of FIPS 197. */
  function RoundConstant(i: nat): bv8
    requires i < 10
  {
    [0x01 as bv8, 0x02, 0x04, 0x08, 0x10, 0x20, 0x40, 0x80, 0x1b, 0x36][i]
  }

  lemma LsBoxRow(x: bv32, r: nat)
    requires r < 4
    ensures Row(LsBox(x), r) == SBox(Row(x, (r + 1) % 4))
  {
    hide Four, SBox, B0, B1, B2, B3, Word;
    var a, b, c, d := SBox(B1(x)), SBox(B2(x)), SBox(B3(x)), SBox(B0(x));
    TablesOfBytes(a, b, c, d);
    RowOfWord(a, b, c, d, r);
    assert r in {0, 1, 2, 3};
  }

  lemma RcRow(i: nat, r: nat)
    requires i < 10 && r < 4
    ensures Row(Rc(i), r) == if r == 0 then RoundConstant(i) else 0
  {
    hide Word, WordBytes;
    RowOfWord(RoundConstant(i), 0, 0, 0, r);
  }

  /** The first word of each round key. */
  lemma FirstWordBytes(key: Block, i: nat, r: nat)
    requires i < 10 && r < 4
    ensures Row(KeyWord(key, 4 * i + 4), r) ==
            Xor8(Row(KeyWord(key, 4 * i), r),
                 Xor8(SBox(Row(KeyWord(key, 4 * i + 3), (r + 1) % 4)), if r == 0 then RoundConstant(i) else 0))
  {
    hide KeyWord, Row, Xor32, Xor8, LsBox, Rc, SBox;
    KeyWordFirst(key, i);
    RowOfXor(KeyWord(key, 4 * i), Xor32(LsBox(KeyWord(key, 4 * i + 3)), Rc(i)), r);
    RowOfXor(LsBox(KeyWord(key, 4 * i + 3)), Rc(i), r);
    LsBoxRow(KeyWord(key, 4 * i + 3), r);
    RcRow(i, r);
  }

  lemma NextWordBytes(key: Block, n: nat, r: nat)
    requires 4 <= n < 44 && n % 4 != 0 && r < 4
    ensures Row(KeyWord(key, n), r) == Xor8(Row(KeyWord(key, n - 4), r), Row(KeyWord(key, n - 1), r))
  {
    hide KeyWord, Row, Xor32, Xor8;
    var i, j := n / 4 - 1, n % 4;
    assert n == 4 * i + 4 + j;
    KeyWordNext(key, i, j);
    RowOfXor(KeyWord(key, n - 4), KeyWord(key, n - 1), r);
  }

  lemma KeyItself(key: Block, n: nat, r: nat)
    requires n < 4 && r < 4
    ensures Row(KeyWord(key, n), r) == key[4 * n + r]
  {
    hide Word, WordBytes;
    RowOfWord(key[4 * n], key[4 * n + 1], key[4 * n + 2], key[4 * n + 3], r);
  }

  /** Section 5.2 of FIPS 197 on bytes: the key itself; then each byte is the one four columns before it,
      XORed with the one a column before it, which at the start of a round key is taken from the next row
      and substituted, and has the round constant added in row 0. */
  lemma KeyBytes(key: Block, n: nat, r: nat)
    requires n < 44 && r < 4
    ensures Row(Expand(key)[n], r) ==
            if n < 4 then key[4 * n + r]
            else if n % 4 == 0 then
              Xor8(Row(Expand(key)[n - 4], r),
                   Xor8(SBox(Row(Expand(key)[n - 1], (r + 1) % 4)), if r == 0 then RoundConstant(n / 4 - 1) else 0))
            else Xor8(Row(Expand(key)[n - 4], r), Row(Expand(key)[n - 1], r))
  {
    hide KeyWord, Row, Xor8, Expand, SBox, RoundConstant;
    ExpandAt(key, n);
    if n < 4 {
      KeyItself(key, n, r);
    } else {
      ExpandAt(key, n - 4);
      ExpandAt(key, n - 1);
      if n % 4 == 0 {
        assert n == 4 * (n / 4 - 1) + 4;
        FirstWordBytes(key, n / 4 - 1, r);
      } else {
        NextWordBytes(key, n, r);
      }
    }
  }

  /* ----- the cipher ----- */

  /** Byte of row r and column c. */
  function At(s: Block, r: nat, c: nat): bv8 {
    s[4 * (c % 4) + r % 4]
  }

  lemma XorAt(s: Block, k: Block, r: nat, c: nat)
    ensures At(Xor(s, k), r, c) == Xor8(At(s, r, c), At(k, r, c))
  {
    hide Xor8;
  }

  lemma RoundKeyAt(w: Schedule, n: nat, r: nat, c: nat)
    requires n <= 10 && r < 4 && c < 4
    ensures At(RoundKey(w, n), r, c) == Row(w[4 * n + c], r)
  {
    hide WordBytes;
    assert c in {0, 1, 2, 3};
  }

  lemma SubAt(s: Block, r: nat, c: nat)
    ensures At(SubBytes(s), r, c) == SBox(At(s, r, c))
  {
    hide SBox;
  }

  lemma SumModulo(c: nat, r: nat)
    ensures (c % 4 + r % 4) % 4 == (c + r) % 4
  {
  }

  lemma AtModulo(s: Block, r: nat, c: nat)
    ensures At(s, r, c) == s[4 * (c % 4) + r % 4]
  {
  }

  lemma ShiftAt(s: Block, r: nat, c: nat)
    ensures At(ShiftRows(s), r, c) == At(s, r, c + r)
  {
    hide ShiftRows, At;
    ShiftRowsAt(s, r % 4, c % 4);
    SumModulo(c, r);
    AtModulo(ShiftRows(s), r, c);
    AtModulo(s, r, c + r);
  }

  lemma SubShiftAt(s: Block, r: nat, c: nat)
    ensures At(ShiftRows(SubBytes(s)), r, c) == SBox(At(s, r, c + r))
  {
    hide *;
    ShiftAt(SubBytes(s), r, c);
    SubAt(s, r, c + r);
  }

  /** Column k of a block. */
  function Column(s: Block, k: nat): (r: seq<bv8>)
    requires k < 4
    ensures |r| == 4
  {
    [s[4 * k], s[4 * k + 1], s[4 * k + 2], s[4 * k + 3]]
  }

  lemma MixColumnsColumn(s: Block, k: nat)
    requires k < 4
    ensures Column(MixColumns(s), k) == MixColumn(s[4 * k], s[4 * k + 1], s[4 * k + 2], s[4 * k + 3])
  {
    hide MixColumn;
    assert k in {0, 1, 2, 3};
  }

  lemma AtColumn(s: Block, r: nat, c: nat)
    ensures At(s, r, c) == Column(s, c % 4)[r % 4]
  {
  }

  lemma MixAt(s: Block, r: nat, c: nat)
    ensures At(MixColumns(s), r, c) ==
            X4(GMul(0x02, At(s, r, c)), GMul(0x03, At(s, r + 1, c)), At(s, r + 2, c), At(s, r + 3, c))
  {
    hide GMul, X4, MixColumn, MixColumns, At;
    var k := c % 4;
    MixColumnsColumn(s, k);
    MixColumnAt(s[4 * k], s[4 * k + 1], s[4 * k + 2], s[4 * k + 3], r);
    AtColumn(MixColumns(s), r, c);
    AtColumn(s, r, c);
    AtColumn(s, r + 1, c);
    AtColumn(s, r + 2, c);
    AtColumn(s, r + 3, c);
  }

  lemma MixColumnAt(a: bv8, b: bv8, c: bv8, d: bv8, r: nat)
    ensures MixColumn(a, b, c, d)[r % 4] ==
            X4(GMul(0x02, [a, b, c, d][r % 4]), GMul(0x03, [a, b, c, d][(r + 1) % 4]),
               [a, b, c, d][(r + 2) % 4], [a, b, c, d][(r + 3) % 4])
  {
    hide GMul, X4;
    Rotate(GMul(0x02, b), GMul(0x03, c), d, a);
    Rotate(GMul(0x02, c), GMul(0x03, d), a, b);
    Rotate(b, GMul(0x02, c), GMul(0x03, d), a);
    Rotate(GMul(0x03, a), b, c, GMul(0x02, d));
    assert r % 4 in {0, 1, 2, 3};
  }

  lemma FullRoundAt(w: Schedule, s: Block, n: nat, r: nat, c: nat)
    requires 1 <= n <= 9 && r < 4 && c < 4
    ensures var p := Rounds(w, s, n - 1);
            At(Rounds(w, s, n), r, c) ==
            Xor8(X4(GMul(0x02, SBox(At(p, r, c + r))), GMul(0x03, SBox(At(p, r + 1, c + r + 1))),
                    SBox(At(p, r + 2, c + r + 2)), SBox(At(p, r + 3, c + r + 3))),
                 Row(w[4 * n + c], r))
  {
    hide At, SBox, GMul, X4, Xor8, Xor, MixColumns, SubBytes, ShiftRows, RoundKey, Row;
    var p := Rounds(w, s, n - 1);
    var t := ShiftRows(SubBytes(p));
    XorAt(MixColumns(t), RoundKey(w, n), r, c);
    RoundKeyAt(w, n, r, c);
    MixAt(t, r, c);
    SubShiftAt(p, r, c);
    SubShiftAt(p, r + 1, c);
    SubShiftAt(p, r + 2, c);
    SubShiftAt(p, r + 3, c);
  }

  /** Section 5.1 of FIPS 197 on bytes: the first round key; nine rounds, each of which mixes with the
      factors 2, 3, 1 and 1 the substituted bytes of the diagonal that starts at the byte and adds the
      round key; and a last round that does not mix. */
  lemma CipherBytes(w: Schedule, s: Block, n: nat, r: nat, c: nat)
    requires n <= 9 && r < 4 && c < 4
    ensures At(Rounds(w, s, 0), r, c) == Xor8(At(s, r, c), Row(w[c], r))
    ensures n > 0 ==>
            var p := Rounds(w, s, n - 1);
            At(Rounds(w, s, n), r, c) ==
            Xor8(X4(GMul(0x02, SBox(At(p, r, c + r))), GMul(0x03, SBox(At(p, r + 1, c + r + 1))),
                    SBox(At(p, r + 2, c + r + 2)), SBox(At(p, r + 3, c + r + 3))),
                 Row(w[4 * n + c], r))
    ensures At(Cipher(w, s), r, c) == Xor8(SBox(At(Rounds(w, s, 9), r, c + r)), Row(w[40 + c], r))
  {
    hide At, SBox, GMul, X4, Xor8, Xor, MixColumns, SubBytes, ShiftRows, RoundKey, Row;
    XorAt(s, RoundKey(w, 0), r, c);
    RoundKeyAt(w, 0, r, c);
    if n > 0 {
      FullRoundAt(w, s, n, r, c);
    }
    var p := Rounds(w, s, 9);
    XorAt(ShiftRows(SubBytes(p)), RoundKey(w, 10), r, c);
    RoundKeyAt(w, 10, r, c);
    SubShiftAt(p, r, c);
  }
}
