/** Arithmetic in GF(2^8) modulo x^8 + x^4 + x^3 + x + 1 and the substitution boxes of AES. */
module AesField {

  function Entry(row: bv128, lo: bv8): bv8 {
    var half := if lo & 8 == 0 then row >> 64 else row;
    var quarter := if lo & 4 == 0 then half >> 32 else half;
    var pair := if lo & 2 == 0 then quarter >> 16 else quarter;
    ((if lo & 1 == 0 then pair >> 8 else pair) & 0xff) as bv8
  }

  /** sb_data: sixteen entries per row, the first one in the top byte. */
  function SBoxRow(h: bv8): bv128 {
    if h == 0x0 then 0x637c777bf26b6fc53001672bfed7ab76
    else if h == 0x1 then 0xca82c97dfa5947f0add4a2af9ca472c0
    else if h == 0x2 then 0xb7fd9326363ff7cc34a5e5f171d83115
    else if h == 0x3 then 0x04c723c31896059a071280e2eb27b275
    else if h == 0x4 then 0x09832c1a1b6e5aa0523bd6b329e32f84
    else if h == 0x5 then 0x53d100ed20fcb15b6acbbe394a4c58cf
    else if h == 0x6 then 0xd0efaafb434d338545f9027f503c9fa8
    else if h == 0x7 then 0x51a3408f929d38f5bcb6da2110fff3d2
    else if h == 0x8 then 0xcd0c13ec5f974417c4a77e3d645d1973
    else if h == 0x9 then 0x60814fdc222a908846eeb814de5e0bdb
    else if h == 0xa then 0xe0323a0a4906245cc2d3ac629195e479
    else if h == 0xb then 0xe7c8376d8dd54ea96c56f4ea657aae08
    else if h == 0xc then 0xba78252e1ca6b4c6e8dd741f4bbd8b8a
    else if h == 0xd then 0x703eb5664803f60e613557b986c11d9e
    else if h == 0xe then 0xe1f8981169d98e949b1e87e9ce5528df
    else 0x8ca1890dbfe6426841992d0fb054bb16
  }

  /** isb_data */
  function InvSBoxRow(h: bv8): bv128 {
    if h == 0x0 then 0x52096ad53036a538bf40a39e81f3d7fb
    else if h == 0x1 then 0x7ce339829b2fff87348e4344c4dee9cb
    else if h == 0x2 then 0x547b9432a6c2233dee4c950b42fac34e
    else if h == 0x3 then 0x082ea16628d924b2765ba2496d8bd125
    else if h == 0x4 then 0x72f8f66486689816d4a45ccc5d65b692
    else if h == 0x5 then 0x6c704850fdedb9da5e154657a78d9d84
    else if h == 0x6 then 0x90d8ab008cbcd30af7e45805b8b34506
    else if h == 0x7 then 0xd02c1e8fca3f0f02c1afbd0301138a6b
    else if h == 0x8 then 0x3a9111414f67dcea97f2cfcef0b4e673
    else if h == 0x9 then 0x96ac7422e7ad3585e2f937e81c75df6e
    else if h == 0xa then 0x47f11a711d29c5896fb7620eaa18be1b
    else if h == 0xb then 0xfc563e4bc6d279209adbc0fe78cd5af4
    else if h == 0xc then 0x1fdda8338807c731b11210592780ec5f
    else if h == 0xd then 0x60517fa919b54a0d2de57a9f93c99cef
    else if h == 0xe then 0xa0e03b4dae2af5b0c8ebbb3c83539961
    else 0x172b047eba77d626e169146355210c7d
  }

  function SBox(b: bv8): bv8 {
    Entry(SBoxRow(b >> 4), b & 0xf)
  }

  function InvSBox(b: bv8): bv8 {
    Entry(InvSBoxRow(b >> 4), b & 0xf)
  }

  /** Multiplication by x. */
  function XTime(b: bv8): bv8 {
    (b << 1) ^ (if b & 0x80 != 0 then 0x1b else 0)
  }

  function Term(c: bv8, k: bv8, p: bv8): bv8 {
    if c & k != 0 then p else 0
  }

  /** The product of two field elements. */
  function GMul(a: bv8, b: bv8): bv8 {
    var b2 := XTime(b);
    var b4 := XTime(b2);
    var b8 := XTime(b4);
    var b16 := XTime(b8);
    var b32 := XTime(b16);
    var b64 := XTime(b32);
    var b128 := XTime(b64);
    Term(a, 0x01, b) ^ Term(a, 0x02, b2) ^ Term(a, 0x04, b4) ^ Term(a, 0x08, b8) ^
    Term(a, 0x10, b16) ^ Term(a, 0x20, b32) ^ Term(a, 0x40, b64) ^ Term(a, 0x80, b128)
  }

  function Rot(b: bv8, n: bv8): bv8
    requires n <= 8
  {
    (b << n) | (b >> (8 - n))
  }

  /** The affine transformation of section 5.1.1 of FIPS 197. */
  function Affine(b: bv8): bv8 {
    b ^ Rot(b, 1) ^ Rot(b, 2) ^ Rot(b, 3) ^ Rot(b, 4) ^ 0x63
  }

  function InvAffine(b: bv8): bv8 {
    Rot(b, 1) ^ Rot(b, 3) ^ Rot(b, 6) ^ 0x05
  }

  lemma AffineInverse(b: bv8)
    ensures Affine(InvAffine(b)) == b
  {
  }

  /** The two tables undo each other. */
  lemma InvSBoxSBox(b: bv8)
    ensures InvSBox(SBox(b)) == b
  {
  }

  lemma SBoxInvSBox(b: bv8)
    ensures SBox(InvSBox(b)) == b
  {
  }

  lemma InverseOfQuarter0(b: bv8)
    requires b >> 6 == 0
    ensures GMul(InvAffine(SBox(b)), b) == if b == 0 then 0 else 1
  {
  }

  lemma InverseOfQuarter1(b: bv8)
    requires b >> 6 == 1
    ensures GMul(InvAffine(SBox(b)), b) == if b == 0 then 0 else 1
  {
  }

  lemma InverseOfQuarter2(b: bv8)
    requires b >> 6 == 2
    ensures GMul(InvAffine(SBox(b)), b) == if b == 0 then 0 else 1
  {
  }

  lemma InverseOfQuarter3(b: bv8)
    requires b >> 6 == 3
    ensures GMul(InvAffine(SBox(b)), b) == if b == 0 then 0 else 1
  {
  }

  /** Every entry of the table is the affine transform of the multiplicative inverse (of zero, for zero). */
  lemma SBoxIsAffineOfInverse(b: bv8)
    ensures var x := InvAffine(SBox(b));
            SBox(b) == Affine(x) && GMul(x, b) == if b == 0 then 0 else 1
  {
    AffineInverse(SBox(b));
    hide *;
    if b >> 6 == 0 {
      InverseOfQuarter0(b);
    } else if b >> 6 == 1 {
      InverseOfQuarter1(b);
    } else if b >> 6 == 2 {
      InverseOfQuarter2(b);
    } else {
      assert b >> 6 == 3;
      InverseOfQuarter3(b);
    }
  }
}
