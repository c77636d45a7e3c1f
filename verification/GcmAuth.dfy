/** The common code of gcm_auth_header and gcm_auth_data: bytes are XORed into a hash accumulator
    one by one, by units or by blocks, and the accumulator is multiplied by the hash key whenever
    a further block starts. */
module GcmAuth {
  import opened Bytes
  import opened LbBlocks
  import opened Gf128Mul
  import opened GcmHash

  /** One more than the largest uint_32t: the counts of a context stay below it. */
  const COUNT_LIMIT: nat := 0x1_0000_0000

  /** A single call stays below this length: the loops compare cnt + 16 with it in 32 bits. */
  const CALL_LIMIT: nat := COUNT_LIMIT - 16

  /** UI8_PTR(ghv)[b_pos++] ^= c */
  method AbsorbByte(ghv: array<bv8>, pos: nat, c: bv8, ghost h: Block, ghost full: seq<bv8>, ghost p: seq<bv8>)
    requires ghv.Length == 16 && pos == |p| < 16 && Holds(h, ghv[..], full, p)
    modifies ghv
    ensures Holds(h, ghv[..], full, p + [c])
  {
    hide Holds, Xor8;
    HoldsByte(h, ghv[..], full, p, c);
    ghost var was := ghv[..];
    ghv[pos] := Xor8(ghv[pos], c);
    assert ghv[..] == was[pos := Xor8(was[pos], c)];
  }

  /** *UNIT_PTR(ghv + b_pos) ^= *UNIT_PTR(data + cnt) */
  method AbsorbUnit(ghv: array<bv8>, pos: nat, data: seq<bv8>, cnt: nat,
                    ghost h: Block, ghost full: seq<bv8>, ghost p: seq<bv8>)
    requires ghv.Length == 16 && pos == |p| <= 12 && cnt + 4 <= |data|
    requires Holds(h, ghv[..], full, p)
    modifies ghv
    ensures Holds(h, ghv[..], full, p + data[cnt..cnt + 4])
  {
    hide Holds, Xor8;
    ghost var g0: Block := ghv[..];
    ghost var g1: Block := g0[pos := Xor8(g0[pos], data[cnt])];
    ghost var g2: Block := g1[pos + 1 := Xor8(g1[pos + 1], data[cnt + 1])];
    ghost var g3: Block := g2[pos + 2 := Xor8(g2[pos + 2], data[cnt + 2])];
    ghost var g4: Block := g3[pos + 3 := Xor8(g3[pos + 3], data[cnt + 3])];
    HoldsByte(h, g0, full, p, data[cnt]);
    HoldsByte(h, g1, full, p + [data[cnt]], data[cnt + 1]);
    HoldsByte(h, g2, full, p + [data[cnt]] + [data[cnt + 1]], data[cnt + 2]);
    HoldsByte(h, g3, full, p + [data[cnt]] + [data[cnt + 1]] + [data[cnt + 2]], data[cnt + 3]);
    assert p + [data[cnt]] + [data[cnt + 1]] + [data[cnt + 2]] + [data[cnt + 3]] == p + data[cnt..cnt + 4];
    XorUnit(ghv, pos, data, cnt);
    assert ghv[..] == g4;
  }

  /** gf_mul_hh: multiplication by the hash key through the 4k table. */
  method MulHH(ghv: array<bv8>, table: seq<Block>, ghost h: Block)
    requires ghv.Length == 16 && |table| == 256 && Row(table, 0, h, 8)
    modifies ghv
    ensures ghv[..] == Times(old(ghv[..]), h)
  {
    Mul4k(ghv, table, h);
  }

  method Multiply(ghv: array<bv8>, table: seq<Block>, ghost h: Block, ghost full: seq<bv8>, ghost p: seq<bv8>)
    requires ghv.Length == 16 && |table| == 256 && Row(table, 0, h, 8)
    requires |p| == 16 && Holds(h, ghv[..], full, p)
    modifies ghv
    ensures Holds(h, ghv[..], full + p, [])
  {
    hide Holds, Times, Row;
    HoldsTimes(h, ghv[..], full, p);
    MulHH(ghv, table, h);
  }

  /** The loops over whole blocks: multiply, then XOR a block. */
  method AbsorbBlocks(ghv: array<bv8>, table: seq<Block>, data: seq<bv8>, start: nat,
                      ghost h: Block, ghost s: seq<bv8>, ghost full0: seq<bv8>, ghost p0: seq<bv8>)
    returns (cnt: nat, ghost full: seq<bv8>, ghost p: seq<bv8>)
    requires ghv.Length == 16 && |table| == 256 && Row(table, 0, h, 8)
    requires start <= |data| && (start + 16 <= |data| ==> |p0| == 16)
    requires Holds(h, ghv[..], full0, p0) && full0 + p0 == s + data[..start]
    modifies ghv
    ensures start <= cnt <= |data| < cnt + 16
    ensures Holds(h, ghv[..], full, p) && full + p == s + data[..cnt] && |p| == |p0|
    ensures cnt > start ==> |p| == 16
  {
    hide Holds, Times, Row, Xor;
    cnt, full, p := start, full0, p0;
    while cnt + 16 <= |data|
      invariant start <= cnt <= |data|
      invariant cnt + 16 <= |data| ==> |p| == 16
      invariant |p| == |p0| && (cnt > start ==> |p| == 16)
      invariant Holds(h, ghv[..], full, p) && full + p == s + data[..cnt]
    {
      Multiply(ghv, table, h, full, p);
      full := full + p;
      p := data[cnt..cnt + 16];
      HoldsBlock(h, ghv[..], full, p);
      XorBlockAligned(ghv, data[cnt..cnt + 16]);
      assert data[..cnt + 16] == data[..cnt] + p;
      cnt := cnt + 16;
    }
  }

  lemma Extend(full: seq<bv8>, p: seq<bv8>, s: seq<bv8>, data: seq<bv8>, i: nat, j: nat)
    requires i <= j <= |data| && full + p == s + data[..i]
    ensures full + (p + data[i..j]) == s + data[..j]
    ensures i + 1 == j ==> data[i..j] == [data[i]]
  {
    assert full + (p + data[i..j]) == (full + p) + data[i..j];
    assert data[..j] == data[..i] + data[i..j];
  }

  /** Single bytes up to a unit boundary. */
  method FillToUnit(ghv: array<bv8>, data: seq<bv8>, pos0: nat,
                    ghost h: Block, ghost s: seq<bv8>, ghost full: seq<bv8>, ghost p0: seq<bv8>)
    returns (cnt: nat, pos: nat, ghost p: seq<bv8>)
    requires ghv.Length == 16 && pos0 == |p0| < 16
    requires Holds(h, ghv[..], full, p0) && full + p0 == s
    modifies ghv
    ensures cnt <= |data| && pos0 + cnt == pos == |p| <= 16 && (cnt < |data| ==> pos % 4 == 0)
    ensures Holds(h, ghv[..], full, p) && full + p == s + data[..cnt]
  {
    hide Holds;
    cnt, pos, p := 0, pos0, p0;
    while cnt < |data| && pos % 4 != 0
      invariant cnt <= |data| && pos0 + cnt == pos == |p| <= 16 && (pos < 16 || pos % 4 == 0)
      invariant Holds(h, ghv[..], full, p) && full + p == s + data[..cnt]
    {
      AbsorbByte(ghv, pos, data[cnt], h, full, p);
      Extend(full, p, s, data, cnt, cnt + 1);
      p := p + [data[cnt]];
      pos, cnt := pos + 1, cnt + 1;
    }
  }

  /** The first loops when data and accumulator agree in alignment: bytes up to a unit boundary, then units. */
  method FillByUnits(ghv: array<bv8>, data: seq<bv8>, pos0: nat,
                     ghost h: Block, ghost s: seq<bv8>, ghost full: seq<bv8>, ghost p0: seq<bv8>)
    returns (cnt: nat, pos: nat, ghost p: seq<bv8>)
    requires ghv.Length == 16 && pos0 == |p0| < 16
    requires Holds(h, ghv[..], full, p0) && full + p0 == s
    modifies ghv
    ensures cnt <= |data| && pos0 + cnt == pos == |p| <= 16 && (cnt + 16 <= |data| ==> pos == 16)
    ensures Holds(h, ghv[..], full, p) && full + p == s + data[..cnt]
  {
    hide Holds;
    cnt, pos, p := FillToUnit(ghv, data, pos0, h, s, full, p0);
    while cnt + 4 <= |data| && pos <= 12
      invariant cnt <= |data| && pos0 + cnt == pos == |p| <= 16 && (cnt < |data| ==> pos % 4 == 0)
      invariant Holds(h, ghv[..], full, p) && full + p == s + data[..cnt]
    {
      AbsorbUnit(ghv, pos, data, cnt, h, full, p);
      Extend(full, p, s, data, cnt, cnt + 4);
      p := p + data[cnt..cnt + 4];
      pos, cnt := pos + 4, cnt + 4;
    }
  }

  /** The first loop when they do not. */
  method FillByBytes(ghv: array<bv8>, data: seq<bv8>, pos0: nat,
                     ghost h: Block, ghost s: seq<bv8>, ghost full: seq<bv8>, ghost p0: seq<bv8>)
    returns (cnt: nat, pos: nat, ghost p: seq<bv8>)
    requires ghv.Length == 16 && pos0 == |p0| < 16
    requires Holds(h, ghv[..], full, p0) && full + p0 == s
    modifies ghv
    ensures cnt <= |data| && pos0 + cnt == pos == |p| <= 16 && (cnt < |data| ==> pos == 16)
    ensures Holds(h, ghv[..], full, p) && full + p == s + data[..cnt]
  {
    hide Holds;
    cnt, pos, p := 0, pos0, p0;
    while cnt < |data| && pos < 16
      invariant cnt <= |data| && pos0 + cnt == pos == |p| <= 16
      invariant Holds(h, ghv[..], full, p) && full + p == s + data[..cnt]
    {
      AbsorbByte(ghv, pos, data[cnt], h, full, p);
      Extend(full, p, s, data, cnt, cnt + 1);
      p := p + [data[cnt]];
      pos, cnt := pos + 1, cnt + 1;
    }
  }

  /** The last loop: single bytes, starting a further block where needed. */
  method AbsorbRest(ghv: array<bv8>, table: seq<Block>, data: seq<bv8>, start: nat, pos0: nat,
                    ghost h: Block, ghost s: seq<bv8>, ghost full0: seq<bv8>, ghost p0: seq<bv8>)
    requires ghv.Length == 16 && |table| == 256 && Row(table, 0, h, 8)
    requires start <= |data| && pos0 == |p0| <= 16 && data != []
    requires start == |data| ==> pos0 > 0
    requires Holds(h, ghv[..], full0, p0) && full0 + p0 == s + data[..start]
    modifies ghv
    ensures ghv[..] == Acc(h, s + data)
  {
    hide Holds, Row, Acc;
    var cnt, pos := start, pos0;
    ghost var full, p := full0, p0;
    while cnt < |data|
      invariant cnt <= |data| && pos == |p| <= 16
      invariant cnt == |data| ==> pos > 0
      invariant Holds(h, ghv[..], full, p) && full + p == s + data[..cnt]
    {
      if pos == 16 {
        Multiply(ghv, table, h, full, p);
        assert full + p + [] == full + p;
        full, p, pos := full + p, [], 0;
      }
      AbsorbByte(ghv, pos, data[cnt], h, full, p);
      Extend(full, p, s, data, cnt, cnt + 1);
      p := p + [data[cnt]];
      pos, cnt := pos + 1, cnt + 1;
    }
    assert data[..cnt] == data;
    HoldsIsAcc(h, ghv[..], full, p);
  }

  /** gcm_auth_header and gcm_auth_data: whatever was absorbed before, and whichever way the
      alignment test goes, the accumulator ends as that of all the bytes. */
  method Absorb(ghv: array<bv8>, table: seq<Block>, count: nat, data: seq<bv8>, aligned: bool,
                ghost h: Block, ghost s: seq<bv8>)
    requires ghv.Length == 16 && |table| == 256 && Row(table, 0, h, 8)
    requires count == |s| && ghv[..] == Acc(h, s)
    requires |data| < CALL_LIMIT && count + |data| < COUNT_LIMIT
    modifies ghv
    ensures ghv[..] == Acc(h, s + data)
  {
    hide Holds, Row, Acc;
    if |data| == 0 {
      assert s + data == s;
      return;
    }
    var cnt, pos := 0, count % 16;
    ghost var k := |s| - LastLen(|s|);
    ghost var full, p := s[..k], s[k..];
    AccHolds(h, s);
    if count != 0 && pos == 0 {
      Multiply(ghv, table, h, full, p);
      assert full + p + [] == full + p;
      full, p := full + p, [];
    }
    if aligned {
      cnt, pos, p := FillByUnits(ghv, data, pos, h, s, full, p);
    } else {
      cnt, pos, p := FillByBytes(ghv, data, pos, h, s, full, p);
    }
    cnt, full, p := AbsorbBlocks(ghv, table, data, cnt, h, s, full, p);
    AbsorbRest(ghv, table, data, cnt, pos, h, s, full, p);
  }
}
