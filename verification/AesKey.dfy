/** The 128-bit key schedules of aeskey.c. */
module AesKey {
  import opened Bytes
  import opened AesField
  import opened AesWords
  import opened AesSpec

  /* ----- key expansion, section 5.2 of FIPS 197 ----- */

  function RotWord(w: bv32): bv32 {
    Word(B1(w), B2(w), B3(w), B0(w))
  }

  function SubWord(w: bv32): bv32 {
    Word(SBox(B0(w)), SBox(B1(w)), SBox(B2(w)), SBox(B3(w)))
  }

  /** The power i of x. */
  function XToThe(i: nat): bv8 {
    if i == 0 then 1 else XTime(XToThe(i - 1))
  }

  function KeyWord(key: Block, n: nat): bv32
    requires n < 44
  {
    if n < 4 then Load(key, 4 * n)
    else if n % 4 == 0 then
      Xor32(KeyWord(key, n - 4), Xor32(SubWord(RotWord(KeyWord(key, n - 1))), Word(XToThe(n / 4 - 1), 0, 0, 0)))
    else Xor32(KeyWord(key, n - 4), KeyWord(key, n - 1))
  }

  function Expand(key: Block): Schedule {
    seq(44, (n: nat) => if n < 44 then KeyWord(key, n) else 0)
  }

  /* ----- the macros of the source ----- */

  /** ls_box(x, 3): four_tables over t_fl with the bytes rotated by one. */
  function LsBox(x: bv32): bv32 {
    Four(Word(SBox(B1(x)), 0, 0, 0), Word(0, SBox(B2(x)), 0, 0),
         Word(0, 0, SBox(B3(x)), 0), Word(0, 0, 0, SBox(B0(x))))
  }

  /** rc_data of aestab.c. */
  function Rc(i: nat): bv32
    requires i < 10
  {
    Word([0x01 as bv8, 0x02, 0x04, 0x08, 0x10, 0x20, 0x40, 0x80, 0x1b, 0x36][i], 0, 0, 0)
  }

  /** inv_mcol: four_tables over t_im. */
  function InvMcol(x: bv32): bv32 {
    Four(V0(B0(x)), V1(B1(x)), V2(B2(x)), V3(B3(x)))
  }

  lemma InvMcolIsInvMix(x: bv32)
    ensures InvMcol(x) == InvMixWord(x)
  {
    hide Four, V0, V1, V2, V3, B0, B1, B2, B3, InvMixBytes;
    TablesOfInvMix(B0(x), B1(x), B2(x), B3(x));
  }

  lemma LsBoxIsSubRot(x: bv32)
    ensures LsBox(x) == SubWord(RotWord(x))
  {
    hide Four, SBox, B0, B1, B2, B3, Word;
    BytesOfWord(B1(x), B2(x), B3(x), B0(x));
    TablesOfBytes(SBox(B1(x)), SBox(B2(x)), SBox(B3(x)), SBox(B0(x)));
  }

  lemma RcIsPower(i: nat)
    requires i < 10
    ensures Rc(i) == Word(XToThe(i), 0, 0, 0)
  {
    assert XToThe(4) == 0x10 by { assert XToThe(2) == 4; }
    assert XToThe(6) == 0x40;
    assert XToThe(8) == 0x1b;
    assert i in {0, 1, 2, 3, 4, 5, 6, 7, 8, 9};
  }

  /** Words 4 * i + 4 .. 4 * i + 8 follow from the four before them. */
  predicate Step(w: Schedule, i: nat)
    requires i < 10
  {
    && w[4 * i + 4] == Xor32(w[4 * i], Xor32(LsBox(w[4 * i + 3]), Rc(i)))
    && w[4 * i + 5] == Xor32(w[4 * i + 1], w[4 * i + 4])
    && w[4 * i + 6] == Xor32(w[4 * i + 2], w[4 * i + 5])
    && w[4 * i + 7] == Xor32(w[4 * i + 3], w[4 * i + 6])
  }

  lemma KeyWordFirst(key: Block, i: nat)
    requires i < 10
    ensures KeyWord(key, 4 * i + 4) == Xor32(KeyWord(key, 4 * i), Xor32(LsBox(KeyWord(key, 4 * i + 3)), Rc(i)))
  {
    hide Xor32, SubWord, RotWord, LsBox, Rc, Word, XToThe, Load;
    var n := 4 * i + 4;
    RcIsPower(i);
    LsBoxIsSubRot(KeyWord(key, n - 1));
    assert n % 4 == 0 && n / 4 - 1 == i;
  }

  lemma KeyWordNext(key: Block, i: nat, j: nat)
    requires i < 10 && 1 <= j < 4
    ensures KeyWord(key, 4 * i + 4 + j) == Xor32(KeyWord(key, 4 * i + j), KeyWord(key, 4 * i + 3 + j))
  {
    hide Xor32, SubWord, RotWord, Word, XToThe, Load;
    assert (4 * i + 4 + j) % 4 == j;
  }

  lemma ExpandAt(key: Block, n: nat)
    requires n < 44
    ensures Expand(key)[n] == KeyWord(key, n)
  {
    hide KeyWord;
  }

  lemma ExpandFirst(key: Block, i: nat)
    requires i < 10
    ensures Expand(key)[4 * i + 4] == Xor32(Expand(key)[4 * i], Xor32(LsBox(Expand(key)[4 * i + 3]), Rc(i)))
  {
    hide Xor32, KeyWord, LsBox, Rc, Expand;
    KeyWordFirst(key, i);
    ExpandAt(key, 4 * i);
    ExpandAt(key, 4 * i + 3);
    ExpandAt(key, 4 * i + 4);
  }

  lemma ExpandNext(key: Block, i: nat, j: nat)
    requires i < 10 && 1 <= j < 4
    ensures Expand(key)[4 * i + 4 + j] == Xor32(Expand(key)[4 * i + j], Expand(key)[4 * i + 3 + j])
  {
    hide Xor32, KeyWord, Expand;
    KeyWordNext(key, i, j);
    ExpandAt(key, 4 * i + j);
    ExpandAt(key, 4 * i + 3 + j);
    ExpandAt(key, 4 * i + 4 + j);
  }

  lemma ExpandStep(key: Block, i: nat)
    requires i < 10
    ensures Step(Expand(key), i)
  {
    hide Xor32, LsBox, Rc, Expand;
    ExpandFirst(key, i);
    ExpandNext(key, i, 1);
    ExpandNext(key, i, 2);
    ExpandNext(key, i, 3);
  }

  lemma ExpandStart(key: Block)
    ensures Expand(key)[0] == Load(key, 0) && Expand(key)[1] == Load(key, 4)
    ensures Expand(key)[2] == Load(key, 8) && Expand(key)[3] == Load(key, 12)
  {
    hide Load;
  }

  /* ----- the encryption schedule: ke4 and aes_encrypt_key128 ----- */

  /** The first n words of the buffer are those of w. */
  ghost predicate Filled(ks: array<bv32>, w: Schedule, n: nat)
    requires ks.Length == 44 && n <= 44
    reads ks
  {
    forall m :: 0 <= m < n ==> ks[m] == w[m]
  }

  /** The working registers hold words 4 * i .. 4 * i + 4. */
  ghost predicate Loaded(ss: array<bv32>, w: Schedule, i: nat)
    requires ss.Length >= 4 && i <= 10
    reads ss
  {
    ss[0] == w[4 * i] && ss[1] == w[4 * i + 1] && ss[2] == w[4 * i + 2] && ss[3] == w[4 * i + 3]
  }

  /** The register part of ke4 and k4e. */
  method NextWords(ss: array<bv32>, i: nat, ghost w: Schedule)
    requires ss.Length == 4 && i < 10 && Step(w, i) && Loaded(ss, w, i)
    modifies ss
    ensures Loaded(ss, w, i + 1)
  {
    hide Xor32, LsBox, Rc;
    ss[0] := Xor32(ss[0], Xor32(LsBox(ss[3]), Rc(i)));
    ss[1] := Xor32(ss[1], ss[0]);
    ss[2] := Xor32(ss[2], ss[1]);
    ss[3] := Xor32(ss[3], ss[2]);
  }

  /** ke4: four more words. */
  method Ke4(ks: array<bv32>, ss: array<bv32>, i: nat, ghost w: Schedule)
    requires ks.Length == 44 && ss.Length == 4 && ks != ss && i < 10
    requires Step(w, i) && Filled(ks, w, 4 * i + 4) && Loaded(ss, w, i)
    modifies ks, ss
    ensures Filled(ks, w, 4 * i + 8) && Loaded(ss, w, i + 1)
  {
    hide Step;
    NextWords(ss, i, w);
    ks[4 * i + 4], ks[4 * i + 5], ks[4 * i + 6], ks[4 * i + 7] := ss[0], ss[1], ss[2], ss[3];
  }

  lemma ExpandSteps(key: Block)
    ensures forall i: nat :: i < 10 ==> Step(Expand(key), i)
  {
    hide *;
    forall i: nat | i < 10
      ensures Step(Expand(key), i)
    {
      ExpandStep(key, i);
    }
  }

  method KeyIn(key: Block, ks: array<bv32>, ss: array<bv32>)
    requires ks.Length == 44 && ss.Length == 4 && ks != ss
    modifies ks, ss
    ensures Filled(ks, Expand(key), 4) && Loaded(ss, Expand(key), 0)
  {
    hide Expand, Load;
    ExpandStart(key);
    ss[0], ss[1], ss[2], ss[3] := Load(key, 0), Load(key, 4), Load(key, 8), Load(key, 12);
    ks[0], ks[1], ks[2], ks[3] := ss[0], ss[1], ss[2], ss[3];
  }

  lemma FilledWhole(ks: array<bv32>, w: Schedule)
    requires ks.Length == 44 && Filled(ks, w, 44)
    ensures ks[..] == w
  {
  }

  /** aes_encrypt_key128: the words of the key expansion, in order. */
  method EncryptKey128(key: Block, ks: array<bv32>)
    requires ks.Length == 44
    modifies ks
    ensures ks[..] == Expand(key)
  {
    hide Step, Load, Expand, Filled, Loaded;
    ghost var w := Expand(key);
    ExpandSteps(key);
    var ss := new bv32[4];
    KeyIn(key, ks, ss);
    Ke4(ks, ss, 0, w);
    Ke4(ks, ss, 1, w);
    Ke4(ks, ss, 2, w);
    Ke4(ks, ss, 3, w);
    Ke4(ks, ss, 4, w);
    Ke4(ks, ss, 5, w);
    Ke4(ks, ss, 6, w);
    Ke4(ks, ss, 7, w);
    Ke4(ks, ss, 8, w);
    Ke4(ks, ss, 9, w);
    FilledWhole(ks, w);
  }

  /* ----- the decryption schedule ----- */

  /** The word at position p when the round keys are stored last first (the macro v). */
  function RevWord(w: Schedule, p: nat): bv32
    requires p < 44
  {
    w[4 * (10 - p / 4) + p % 4]
  }

  /** The same through InvMixColumns, except in the first and the last round key:
      section 5.3.5 of FIPS 197. */
  function DecWord(w: Schedule, p: nat): bv32
    requires p < 44
  {
    if 4 <= p < 40 then InvMixWord(RevWord(w, p)) else RevWord(w, p)
  }

  function Equivalent(w: Schedule): Schedule {
    seq(44, (p: nat) => if p < 44 then DecWord(w, p) else 0)
  }

  /** v(40, 4 * i + j). */
  function V(i: nat, j: nat): (p: nat)
    requires i <= 10 && j < 4
    ensures p < 44 && p / 4 == 10 - i && p % 4 == j
  {
    40 - 4 * i + j
  }

  lemma RevWordAt(w: Schedule, i: nat, j: nat)
    requires i <= 10 && j < 4
    ensures RevWord(w, V(i, j)) == w[4 * i + j]
  {
  }

  lemma DecWordAt(w: Schedule, i: nat, j: nat)
    requires i <= 10 && j < 4
    ensures DecWord(w, V(i, j)) == if 1 <= i < 10 then InvMixWord(w[4 * i + j]) else w[4 * i + j]
  {
    hide InvMixWord;
  }

  /** Round keys 0 .. i of w are in place, from the end of the buffer down. */
  ghost predicate DecFilled(ks: array<bv32>, w: Schedule, i: nat)
    requires ks.Length == 44 && i <= 10
    reads ks
  {
    forall p :: 40 - 4 * i <= p < 44 ==> ks[p] == DecWord(w, p)
  }

  lemma Xor32Laws(a: bv32, b: bv32, c: bv32)
    ensures Xor32(a, b) == Xor32(b, a)
    ensures Xor32(Xor32(a, b), c) == Xor32(a, Xor32(b, c))
    ensures Xor32(Xor32(a, b), b) == a
  {
    hide *;
    BytesOfXor(a, b);
    BytesOfXor(b, a);
    BytesOfXor(b, c);
    BytesOfXor(Xor32(a, b), b);
    BytesOfXor(Xor32(a, b), c);
    BytesOfXor(a, Xor32(b, c));
    Xor8Laws(B0(a), B0(b), B0(c));
    Xor8Laws(B1(a), B1(b), B1(c));
    Xor8Laws(B2(a), B2(b), B2(c));
    Xor8Laws(B3(a), B3(b), B3(c));
    WordOfBytes(a);
    WordOfBytes(Xor32(a, b));
    WordOfBytes(Xor32(b, a));
    WordOfBytes(Xor32(Xor32(a, b), b));
    WordOfBytes(Xor32(Xor32(a, b), c));
    WordOfBytes(Xor32(a, Xor32(b, c)));
  }

  /** What the decryption registers hold before step i, (a, b, c, d) being words 4 * i .. 4 * i + 4. */
  ghost predicate Rolling(ss: array<bv32>, w: Schedule, i: nat)
    requires ss.Length == 4 && i <= 10
    reads ss
  {
    var a, b, c, d := w[4 * i], w[4 * i + 1], w[4 * i + 2], w[4 * i + 3];
    && ss[i % 4] == Xor32(Xor32(Xor32(a, b), c), d)
    && ss[(i + 1) % 4] == Xor32(b, d)
    && ss[(i + 2) % 4] == Xor32(c, d)
    && ss[(i + 3) % 4] == d
  }

  /** The next four words in terms of the registers. */
  lemma NextRegisters(a: bv32, b: bv32, c: bv32, d: bv32, t: bv32, a1: bv32, b1: bv32, c1: bv32, d1: bv32)
    requires a1 == Xor32(a, t) && b1 == Xor32(b, a1) && c1 == Xor32(c, b1) && d1 == Xor32(d, c1)
    ensures Xor32(Xor32(Xor32(Xor32(a, b), c), d), t) == d1
    ensures Xor32(Xor32(Xor32(a1, b1), c1), d1) == Xor32(b, d)
    ensures Xor32(b1, d1) == Xor32(c, d)
    ensures Xor32(c1, d1) == d
  {
    hide Xor32;
    Xor32Laws(d, c1, 0);
    Xor32Laws(d1, c1, 0);
    Xor32Laws(c, b1, d);
    Xor32Laws(b1, c, d);
    Xor32Laws(b, a1, 0);
    Xor32Laws(b1, a1, 0);
    Xor32Laws(b, c1, d1);
    calc {
      Xor32(b1, d1);
      { Xor32Laws(d, c, b1); }
      Xor32(b1, Xor32(Xor32(d, c), b1));
      { Xor32Laws(Xor32(d, c), b1, 0); Xor32Laws(b1, Xor32(Xor32(d, c), b1), 0); }
      Xor32(d, c);
      { Xor32Laws(c, d, 0); }
      Xor32(c, d);
    }
    calc {
      d1;
      { Xor32Laws(b, a, t); }
      Xor32(d, Xor32(c, Xor32(Xor32(b, a), t)));
      { Xor32Laws(c, Xor32(b, a), t); Xor32Laws(c, Xor32(a, b), 0); Xor32Laws(a, b, 0); }
      Xor32(d, Xor32(Xor32(Xor32(a, b), c), t));
      { Xor32Laws(d, Xor32(Xor32(a, b), c), t); Xor32Laws(d, Xor32(Xor32(a, b), c), 0); }
      Xor32(Xor32(Xor32(Xor32(a, b), c), d), t);
    }
  }

  /** The registers roll from step i to step i + 1 by a single addition. */
  lemma RollingNext(w: Schedule, i: nat, t: bv32)
    requires i < 10 && Step(w, i) && t == Xor32(LsBox(w[4 * i + 3]), Rc(i))
    ensures Xor32(Xor32(Xor32(Xor32(w[4 * i], w[4 * i + 1]), w[4 * i + 2]), w[4 * i + 3]), t) == w[4 * i + 7]
    ensures Xor32(Xor32(Xor32(w[4 * i + 4], w[4 * i + 5]), w[4 * i + 6]), w[4 * i + 7])
         == Xor32(w[4 * i + 1], w[4 * i + 3])
    ensures Xor32(w[4 * i + 5], w[4 * i + 7]) == Xor32(w[4 * i + 2], w[4 * i + 3])
    ensures Xor32(w[4 * i + 6], w[4 * i + 7]) == w[4 * i + 3]
  {
    hide Xor32, LsBox, Rc;
    NextRegisters(w[4 * i], w[4 * i + 1], w[4 * i + 2], w[4 * i + 3], t,
                  w[4 * i + 4], w[4 * i + 5], w[4 * i + 6], w[4 * i + 7]);
  }

  /** The register part of kdf4, kd4 and kdl4; t is what the source keeps in ss[4]. */
  method Roll(ss: array<bv32>, i: nat, ghost w: Schedule) returns (t: bv32)
    requires ss.Length == 4 && i < 10 && Step(w, i) && Rolling(ss, w, i)
    modifies ss
    ensures Rolling(ss, w, i + 1)
    ensures t == Xor32(LsBox(w[4 * i + 3]), Rc(i))
  {
    hide Xor32, LsBox, Rc, Step;
    t := Xor32(LsBox(ss[(i + 3) % 4]), Rc(i));
    RollingNext(w, i, t);
    ss[i % 4] := Xor32(ss[i % 4], t);
  }

  lemma InvMixStep(w: Schedule, i: nat, t: bv32)
    requires 1 <= i < 9 && Step(w, i) && t == Xor32(LsBox(w[4 * i + 3]), Rc(i))
    ensures InvMixWord(w[4 * i + 4]) == Xor32(InvMcol(t), InvMixWord(w[4 * i]))
    ensures InvMixWord(w[4 * i + 5]) == Xor32(InvMixWord(w[4 * i + 4]), InvMixWord(w[4 * i + 1]))
    ensures InvMixWord(w[4 * i + 6]) == Xor32(InvMixWord(w[4 * i + 5]), InvMixWord(w[4 * i + 2]))
    ensures InvMixWord(w[4 * i + 7]) == Xor32(InvMixWord(w[4 * i + 6]), InvMixWord(w[4 * i + 3]))
  {
    hide Xor32, LsBox, Rc, InvMcol, InvMixWord;
    InvMcolIsInvMix(t);
    Xor32Laws(w[4 * i], t, 0);
    Xor32Laws(w[4 * i + 1], w[4 * i + 4], 0);
    Xor32Laws(w[4 * i + 2], w[4 * i + 5], 0);
    Xor32Laws(w[4 * i + 3], w[4 * i + 6], 0);
    InvMixLinear(t, w[4 * i]);
    InvMixLinear(w[4 * i + 4], w[4 * i + 1]);
    InvMixLinear(w[4 * i + 5], w[4 * i + 2]);
    InvMixLinear(w[4 * i + 6], w[4 * i + 3]);
  }

  lemma DecWords(w: Schedule, i: nat)
    requires 1 <= i < 10
    ensures DecWord(w, V(i, 0)) == InvMixWord(w[4 * i])
    ensures DecWord(w, V(i, 1)) == InvMixWord(w[4 * i + 1])
    ensures DecWord(w, V(i, 2)) == InvMixWord(w[4 * i + 2])
    ensures DecWord(w, V(i, 3)) == InvMixWord(w[4 * i + 3])
  {
    hide InvMixWord, DecWord, V;
    DecWordAt(w, i, 0);
    DecWordAt(w, i, 1);
    DecWordAt(w, i, 2);
    DecWordAt(w, i, 3);
  }

  /** The four stores of kd4, each adding a word of the previous round key. */
  method Chain(ks: array<bv32>, t: bv32, i: nat) returns (last: bv32)
    requires ks.Length == 44 && i < 10
    modifies ks
    ensures ks[V(i + 1, 0)] == Xor32(t, old(ks[V(i, 0)]))
    ensures ks[V(i + 1, 1)] == Xor32(ks[V(i + 1, 0)], old(ks[V(i, 1)]))
    ensures ks[V(i + 1, 2)] == Xor32(ks[V(i + 1, 1)], old(ks[V(i, 2)]))
    ensures last == ks[V(i + 1, 3)] == Xor32(ks[V(i + 1, 2)], old(ks[V(i, 3)]))
    ensures forall p :: 40 - 4 * i <= p < 44 ==> ks[p] == old(ks[p])
  {
    hide Xor32;
    last := Xor32(t, ks[V(i, 0)]);
    ks[V(i + 1, 0)] := last;
    last := Xor32(last, ks[V(i, 1)]);
    ks[V(i + 1, 1)] := last;
    last := Xor32(last, ks[V(i, 2)]);
    ks[V(i + 1, 2)] := last;
    last := Xor32(last, ks[V(i, 3)]);
    ks[V(i + 1, 3)] := last;
  }

  /** kd4: the next round key from the transformed previous one, with a single InvMixColumns. */
  method Kd4(ks: array<bv32>, ss: array<bv32>, i: nat, ghost w: Schedule)
    requires ks.Length == 44 && ss.Length == 4 && ks != ss && 1 <= i < 9
    requires Step(w, i) && DecFilled(ks, w, i) && Rolling(ss, w, i)
    modifies ks, ss
    ensures DecFilled(ks, w, i + 1) && Rolling(ss, w, i + 1)
  {
    hide Xor32, LsBox, Rc, InvMcol, InvMixWord, Step, DecWord, Rolling;
    var t := Roll(ss, i, w);
    InvMixStep(w, i, t);
    DecWords(w, i);
    DecWords(w, i + 1);
    t := Chain(ks, InvMcol(t), i);
  }

  lemma FirstRegisters(a: bv32, b: bv32, c: bv32, d: bv32)
    ensures Xor32(Xor32(Xor32(a, c), b), d) == Xor32(Xor32(Xor32(a, b), c), d)
  {
    hide Xor32;
    Xor32Laws(a, c, b);
    Xor32Laws(a, b, c);
    Xor32Laws(b, c, 0);
  }

  lemma LastRegisters(a: bv32, b: bv32, c: bv32, d: bv32)
    ensures Xor32(Xor32(c, d), d) == c
    ensures Xor32(d, Xor32(b, d)) == b
    ensures Xor32(Xor32(c, Xor32(Xor32(Xor32(a, b), c), d)), Xor32(b, d)) == a
  {
    hide Xor32;
    Xor32Laws(c, d, 0);
    Xor32Laws(b, d, 0);
    Xor32Laws(d, Xor32(b, d), 0);
    calc {
      Xor32(c, Xor32(Xor32(Xor32(a, b), c), d));
      { Xor32Laws(c, Xor32(Xor32(a, b), c), d); Xor32Laws(c, Xor32(Xor32(a, b), c), 0); Xor32Laws(Xor32(a, b), c, 0); }
      Xor32(Xor32(a, b), d);
      { Xor32Laws(a, b, d); }
      Xor32(a, Xor32(b, d));
    }
    Xor32Laws(a, Xor32(b, d), 0);
  }

  /** kdf4: the registers are set up and the first computed round key is transformed word by word. */
  method Kdf4(ks: array<bv32>, ss: array<bv32>, ghost w: Schedule)
    requires ks.Length == 44 && ss.Length == 4 && ks != ss
    requires Step(w, 0) && DecFilled(ks, w, 0) && Loaded(ss, w, 0)
    modifies ks, ss
    ensures DecFilled(ks, w, 1) && Rolling(ss, w, 1)
  {
    hide Xor32, LsBox, Rc, InvMcol, InvMixWord, DecWord;
    FirstRegisters(w[0], w[1], w[2], w[3]);
    ss[0] := Xor32(Xor32(Xor32(ss[0], ss[2]), ss[1]), ss[3]);
    ss[1] := Xor32(ss[1], ss[3]);
    ss[2] := Xor32(ss[2], ss[3]);
    var t := Roll(ss, 0, w);
    StoreFirst(ks, t, w);
  }

  method StoreFirst(ks: array<bv32>, t: bv32, ghost w: Schedule)
    requires ks.Length == 44 && Step(w, 0) && DecFilled(ks, w, 0)
    requires t == Xor32(LsBox(w[3]), Rc(0))
    modifies ks
    ensures DecFilled(ks, w, 1)
  {
    hide Xor32, LsBox, Rc, InvMcol, InvMixWord, DecWord;
    var x := t;
    DecWordAt(w, 0, 0);
    DecWordAt(w, 0, 1);
    DecWordAt(w, 0, 2);
    DecWordAt(w, 0, 3);
    DecWords(w, 1);
    InvMcolIsInvMix(w[4]);
    InvMcolIsInvMix(w[5]);
    InvMcolIsInvMix(w[6]);
    InvMcolIsInvMix(w[7]);
    Xor32Laws(x, w[0], 0);
    x := Xor32(x, ks[V(0, 0)]);
    ks[V(1, 0)] := InvMcol(x);
    Xor32Laws(x, w[1], 0);
    x := Xor32(x, ks[V(0, 1)]);
    ks[V(1, 1)] := InvMcol(x);
    Xor32Laws(x, w[2], 0);
    x := Xor32(x, ks[V(0, 2)]);
    ks[V(1, 2)] := InvMcol(x);
    Xor32Laws(x, w[3], 0);
    x := Xor32(x, ks[V(0, 3)]);
    ks[V(1, 3)] := InvMcol(x);
  }

  /** kdl4: the last round key read off the registers. */
  method Kdl4(ks: array<bv32>, ss: array<bv32>, ghost w: Schedule)
    requires ks.Length == 44 && ss.Length == 4 && ks != ss
    requires Step(w, 9) && DecFilled(ks, w, 9) && Rolling(ss, w, 9)
    modifies ks, ss
    ensures DecFilled(ks, w, 10)
  {
    hide Xor32, LsBox, Rc, InvMixWord, Step, DecWord;
    var t := Roll(ss, 9, w);
    LastRegisters(w[40], w[41], w[42], w[43]);
    DecWordAt(w, 10, 0);
    DecWordAt(w, 10, 1);
    DecWordAt(w, 10, 2);
    DecWordAt(w, 10, 3);
    ss[0] := Xor32(ss[0], ss[1]);
    ks[V(10, 0)] := Xor32(Xor32(ss[0], ss[2]), ss[3]);
    ks[V(10, 1)] := Xor32(ss[1], ss[3]);
    ks[V(10, 2)] := ss[0];
    ks[V(10, 3)] := ss[1];
  }

  method DecKeyIn(key: Block, ks: array<bv32>, ss: array<bv32>)
    requires ks.Length == 44 && ss.Length == 4 && ks != ss
    modifies ks, ss
    ensures DecFilled(ks, Expand(key), 0) && Loaded(ss, Expand(key), 0)
  {
    hide Expand, Load, DecWord;
    ExpandStart(key);
    DecWordAt(Expand(key), 0, 0);
    DecWordAt(Expand(key), 0, 1);
    DecWordAt(Expand(key), 0, 2);
    DecWordAt(Expand(key), 0, 3);
    ss[0], ss[1], ss[2], ss[3] := Load(key, 0), Load(key, 4), Load(key, 8), Load(key, 12);
    ks[V(0, 0)], ks[V(0, 1)], ks[V(0, 2)], ks[V(0, 3)] := ss[0], ss[1], ss[2], ss[3];
  }

  lemma DecFilledWhole(ks: array<bv32>, w: Schedule)
    requires ks.Length == 44 && DecFilled(ks, w, 10)
    ensures ks[..] == Equivalent(w)
  {
    hide DecWord;
  }

  /** aes_decrypt_key128: the schedule of the equivalent inverse cipher, in the order of its use. */
  method DecryptKey128(key: Block, ks: array<bv32>)
    requires ks.Length == 44
    modifies ks
    ensures ks[..] == Equivalent(Expand(key))
  {
    hide Step, Expand, Equivalent, DecFilled, Loaded, Rolling;
    ghost var w := Expand(key);
    ExpandSteps(key);
    var ss := new bv32[4];
    DecKeyIn(key, ks, ss);
    Kdf4(ks, ss, w);
    Kd4(ks, ss, 1, w);
    Kd4(ks, ss, 2, w);
    Kd4(ks, ss, 3, w);
    Kd4(ks, ss, 4, w);
    Kd4(ks, ss, 5, w);
    Kd4(ks, ss, 6, w);
    Kd4(ks, ss, 7, w);
    Kd4(ks, ss, 8, w);
    Kdl4(ks, ss, w);
    DecFilledWhole(ks, w);
  }

  /* ----- the plain form kept for builds without unrolling ----- */

  /** Round keys 0 .. i of w are in place, from the end of the buffer down, untransformed. */
  ghost predicate Reversed(ks: array<bv32>, w: Schedule, i: nat)
    requires ks.Length == 44 && i <= 10
    reads ks
  {
    forall p :: 40 - 4 * i <= p < 44 ==> ks[p] == RevWord(w, p)
  }

  /** k4e: four more words, stored last first. */
  method K4e(ks: array<bv32>, ss: array<bv32>, i: nat, ghost w: Schedule)
    requires ks.Length == 44 && ss.Length == 4 && ks != ss && i < 10
    requires Step(w, i) && Reversed(ks, w, i) && Loaded(ss, w, i)
    modifies ks, ss
    ensures Reversed(ks, w, i + 1) && Loaded(ss, w, i + 1)
  {
    hide Step, RevWord;
    NextWords(ss, i, w);
    RevWordAt(w, i + 1, 0);
    RevWordAt(w, i + 1, 1);
    RevWordAt(w, i + 1, 2);
    RevWordAt(w, i + 1, 3);
    ks[V(i + 1, 0)], ks[V(i + 1, 1)], ks[V(i + 1, 2)], ks[V(i + 1, 3)] := ss[0], ss[1], ss[2], ss[3];
  }

  method MixKeys(ks: array<bv32>, ghost w: Schedule)
    requires ks.Length == 44 && Reversed(ks, w, 10)
    modifies ks
    ensures ks[..] == Equivalent(w)
  {
    hide InvMcol, InvMixWord, RevWord;
    for i := 4 to 40
      invariant forall p :: 0 <= p < 44 ==> ks[p] == if 4 <= p < i then InvMixWord(RevWord(w, p)) else RevWord(w, p)
    {
      InvMcolIsInvMix(ks[i]);
      ks[i] := InvMcol(ks[i]);
    }
  }

  /** The plain loop, followed by InvMixColumns in place, builds the same schedule as the shortcut. */
  method DecryptKey128Plain(key: Block, ks: array<bv32>)
    requires ks.Length == 44
    modifies ks
    ensures ks[..] == Equivalent(Expand(key))
  {
    hide Step, Expand, Equivalent, DecFilled, Loaded, Reversed;
    ghost var w := Expand(key);
    ExpandSteps(key);
    var ss := new bv32[4];
    DecKeyIn(key, ks, ss);
    FirstKeyReversed(ks, w);
    for i := 0 to 10
      invariant Reversed(ks, w, i) && Loaded(ss, w, i)
    {
      K4e(ks, ss, i, w);
    }
    MixKeys(ks, w);
  }

  lemma FirstKeyReversed(ks: array<bv32>, w: Schedule)
    requires ks.Length == 44 && DecFilled(ks, w, 0)
    ensures Reversed(ks, w, 0)
  {
    hide InvMixWord, RevWord;
  }
}
