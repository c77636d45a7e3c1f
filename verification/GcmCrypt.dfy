/** The counter and gcm_crypt_data: text is XORed in place with the encrypted counter blocks. */
module GcmCrypt {
  import opened Bytes
  import opened Octets
  import opened GcmSpec
  import opened GcmAuth

  /* ----- inc_ctr ----- */

  lemma SuccessorZero(c: bv8)
    ensures Successor(c) == 0 <==> c == 0xff
  {
  }

  /** c or its successor, on a carry. */
  function Bump(carry: bool, c: bv8): bv8 {
    if carry then Successor(c) else c
  }

  /** Addition of one, byte by byte. */
  lemma AddOneLow(c: bv32)
    ensures B0(c + 1) == Successor(B0(c))
    ensures B1(c + 1) == Bump(B0(c) == 0xff, B1(c))
  {
  }

  lemma AddOneHigh(c: bv32)
    ensures B2(c + 1) == Bump(B0(c) == 0xff && B1(c) == 0xff, B2(c))
    ensures B3(c + 1) == Bump(B0(c) == 0xff && B1(c) == 0xff && B2(c) == 0xff, B3(c))
  {
  }

  lemma Inc32Bytes(b: Block)
    ensures Inc32(b) == b[..12] +
                        [Bump(b[15] == 0xff && b[14] == 0xff && b[13] == 0xff, b[12]),
                         Bump(b[15] == 0xff && b[14] == 0xff, b[13]),
                         Bump(b[15] == 0xff, b[14]),
                         Successor(b[15])]
  {
    hide Word, B0, B1, B2, B3, Bump, Successor;
    AddOneLow(Counter(b));
    AddOneHigh(Counter(b));
    BytesOfWord(b[15], b[14], b[13], b[12]);
  }

  /** inc_ctr: bytes 15 down to 12 are incremented until one does not wrap. */
  method IncCtr(a: array<bv8>)
    requires a.Length == 16
    modifies a
    ensures a[..] == Inc32(old(a[..]))
  {
    hide Successor, Inc32;
    ghost var was: Block := a[..];
    var i := 16;
    while i > 12
      invariant 12 <= i <= 16
      invariant forall k :: 0 <= k < i ==> a[k] == was[k]
      invariant forall k :: i <= k < 16 ==> a[k] == 0 && was[k] == 0xff
    {
      i := i - 1;
      SuccessorZero(a[i]);
      a[i] := Successor(a[i]);
      if a[i] != 0 {
        break;
      }
    }
    SuccessorZero(was[i]);
    Stopped(was, a[..], i);
  }

  lemma Stopped(was: Block, now: Block, i: nat)
    requires 12 <= i < 16
    requires forall k :: 0 <= k < i ==> now[k] == was[k]
    requires forall k :: i < k < 16 ==> now[k] == 0 && was[k] == 0xff
    requires now[i] == Successor(was[i]) && (i > 12 ==> was[i] != 0xff)
    ensures now == Inc32(was)
  {
    hide Inc32, Successor;
    Inc32Bytes(was);
    SuccessorZero(0xff);
  }

  /* ----- the position in the key stream ----- */

  /** After n bytes: between blocks pos is 0 or 16, inside one the encrypted counter is at hand. */
  ghost predicate StreamAt(e: Block -> Block, j0: Block, ctr: Block, enc: Block, n: nat, pos: nat) {
    if pos == 0 || pos == 16 then n % 16 == 0 && ctr == IncN(j0, n / 16)
    else pos == n % 16 && ctr == IncN(j0, n / 16 + 1) && enc == e(ctr)
  }

  /** Bytes off .. off + cnt of the buffer have been XORed with the key stream from byte `from` on. */
  ghost predicate Done(e: Block -> Block, j0: Block, was: seq<bv8>, now: seq<bv8>, off: nat, cnt: nat, from: nat) {
    && |was| == |now| && off + cnt <= |was|
    && (forall i: nat :: off <= i < off + cnt ==> now[i] == Xor8(was[i], KeyByte(e, j0, from + i - off)))
    && (forall i: nat :: i < |was| && !(off <= i < off + cnt) ==> now[i] == was[i])
  }

  lemma DoneIsGctr(e: Block -> Block, j0: Block, was: seq<bv8>, now: seq<bv8>, off: nat, cnt: nat, from: nat)
    requires Done(e, j0, was, now, off, cnt, from)
    ensures now == was[..off] + Gctr(e, j0, was[off..off + cnt], from) + was[off + cnt..]
  {
    hide Xor8, KeyByte;
    var r := was[..off] + Gctr(e, j0, was[off..off + cnt], from) + was[off + cnt..];
    forall i: nat | i < |now|
      ensures now[i] == r[i]
    {
      if off <= i < off + cnt {
        assert r[i] == Gctr(e, j0, was[off..off + cnt], from)[i - off];
        assert from + (i - off) == from + i - off;
      }
    }
  }

  lemma KeyByteAt(e: Block -> Block, j0: Block, n: nat, pos: nat, k: nat)
    requires n % 16 == pos && pos + k < 16
    ensures KeyByte(e, j0, n + k) == e(IncN(j0, n / 16 + 1))[pos + k]
  {
    assert (n + k) / 16 == n / 16 && (n + k) % 16 == pos + k;
  }

  /** One more run of bytes, all from the block at hand. */
  lemma DoneMore(e: Block -> Block, j0: Block, was: seq<bv8>, mid: seq<bv8>, now: seq<bv8>,
                 off: nat, cnt: nat, from: nat, enc: Block, m: nat, pos: nat)
    requires Done(e, j0, was, mid, off, cnt, from) && off + cnt + m <= |was| && |now| == |was|
    requires (from + cnt) % 16 == pos && pos + m <= 16
    requires enc == e(IncN(j0, (from + cnt) / 16 + 1))
    requires forall i: nat :: off + cnt <= i < off + cnt + m ==> now[i] == Xor8(mid[i], enc[pos + i - off - cnt])
    requires forall i: nat :: i < |was| && !(off + cnt <= i < off + cnt + m) ==> now[i] == mid[i]
    ensures Done(e, j0, was, now, off, cnt + m, from)
  {
    hide Xor8, KeyByte, IncN;
    forall i: nat | off <= i < off + cnt + m
      ensures now[i] == Xor8(was[i], KeyByte(e, j0, from + i - off))
    {
      if i >= off + cnt {
        KeyByteAt(e, j0, from + cnt, pos, i - off - cnt);
        assert from + cnt + (i - off - cnt) == from + i - off;
      }
    }
  }

  /** Steps of the stream. */
  lemma StreamMore(e: Block -> Block, j0: Block, ctr: Block, enc: Block, n: nat, pos: nat, m: nat)
    requires ctr == IncN(j0, n / 16 + 1) && enc == e(ctr) && pos == n % 16 && 0 < m && pos + m <= 16
    ensures StreamAt(e, j0, ctr, enc, n + m, pos + m)
  {
    if pos + m == 16 {
      assert (n + m) / 16 == n / 16 + 1;
    } else {
      assert (n + m) / 16 == n / 16 && (n + m) % 16 == pos + m;
    }
  }

  lemma StreamInside(e: Block -> Block, j0: Block, ctr: Block, enc: Block, n: nat, pos: nat)
    requires StreamAt(e, j0, ctr, enc, n, pos) && 0 < pos < 16
    ensures ctr == IncN(j0, n / 16 + 1) && enc == e(ctr) && pos == n % 16
  {
  }

  /** inc_ctr followed by the block cipher. */
  method NextBlock(e: Block -> Block, ctrVal: array<bv8>, encCtr: array<bv8>, ghost j0: Block, ghost n: nat)
    requires ctrVal.Length == 16 == encCtr.Length && ctrVal != encCtr
    requires ctrVal[..] == IncN(j0, n)
    modifies ctrVal, encCtr
    ensures ctrVal[..] == IncN(j0, n + 1) && encCtr[..] == e(ctrVal[..])
  {
    hide Inc32;
    IncCtr(ctrVal);
    var c := e(ctrVal[..]);
    forall i | 0 <= i < 16 {
      encCtr[i] := c[i];
    }
  }

  /** data[cnt++] ^= enc_ctr[b_pos++] */
  method CryptByte(e: Block -> Block, enc: Block, data: array<bv8>, off: nat, cnt: nat, pos: nat,
                   ghost j0: Block, ghost from: nat, ghost was: seq<bv8>)
    requires off + cnt < data.Length && pos < 16 && (from + cnt) % 16 == pos
    requires enc == e(IncN(j0, (from + cnt) / 16 + 1))
    requires Done(e, j0, was, data[..], off, cnt, from)
    modifies data
    ensures Done(e, j0, was, data[..], off, cnt + 1, from)
  {
    hide Xor8, KeyByte, IncN, Done;
    ghost var mid := data[..];
    data[off + cnt] := Xor8(data[off + cnt], enc[pos]);
    DoneLength(e, j0, was, mid, off, cnt, from);
    DoneMore(e, j0, was, mid, data[..], off, cnt, from, enc, 1, pos);
  }

  lemma DoneLength(e: Block -> Block, j0: Block, was: seq<bv8>, now: seq<bv8>, off: nat, cnt: nat, from: nat)
    requires Done(e, j0, was, now, off, cnt, from)
    ensures |was| == |now| && off + cnt <= |was|
  {
  }

  /** *UNIT_PTR(data + cnt) ^= *UNIT_PTR(enc_ctr + b_pos) */
  method CryptUnit(e: Block -> Block, enc: Block, data: array<bv8>, off: nat, cnt: nat, pos: nat,
                   ghost j0: Block, ghost from: nat, ghost was: seq<bv8>)
    requires off + cnt + 4 <= data.Length && pos <= 12 && (from + cnt) % 16 == pos
    requires enc == e(IncN(j0, (from + cnt) / 16 + 1))
    requires Done(e, j0, was, data[..], off, cnt, from)
    modifies data
    ensures Done(e, j0, was, data[..], off, cnt + 4, from)
  {
    hide Xor8, KeyByte, IncN, Done;
    ghost var mid := data[..];
    XorUnit(data, off + cnt, enc, pos);
    DoneLength(e, j0, was, mid, off, cnt, from);
    DoneMore(e, j0, was, mid, data[..], off, cnt, from, enc, 4, pos);
  }

  /** xor_block(data + cnt, data + cnt, enc_ctr), by units */
  method CryptBlock(e: Block -> Block, enc: Block, data: array<bv8>, off: nat, cnt: nat,
                    ghost j0: Block, ghost from: nat, ghost was: seq<bv8>)
    requires off + cnt + 16 <= data.Length && (from + cnt) % 16 == 0
    requires enc == e(IncN(j0, (from + cnt) / 16 + 1))
    requires Done(e, j0, was, data[..], off, cnt, from)
    modifies data
    ensures Done(e, j0, was, data[..], off, cnt + 16, from)
  {
    hide Done, KeyByte, IncN;
    ghost var n := from + cnt;
    assert (n + 4) / 16 == n / 16 && (n + 4) % 16 == 4;
    assert (n + 8) / 16 == n / 16 && (n + 8) % 16 == 8;
    assert (n + 12) / 16 == n / 16 && (n + 12) % 16 == 12;
    CryptUnit(e, enc, data, off, cnt, 0, j0, from, was);
    CryptUnit(e, enc, data, off, cnt + 4, 4, j0, from, was);
    CryptUnit(e, enc, data, off, cnt + 8, 8, j0, from, was);
    CryptUnit(e, enc, data, off, cnt + 12, 12, j0, from, was);
  }

  /** The three buffers are different ones and long enough. */
  ghost predicate Buffers(ctrVal: array<bv8>, encCtr: array<bv8>, data: array<bv8>, off: nat, len: nat) {
    && ctrVal.Length == 16 == encCtr.Length && off + len <= data.Length
    && ctrVal != encCtr && data != ctrVal && data != encCtr
  }

  /** The rest of a block begun by an earlier call, when alignments agree. */
  method FinishByUnits(e: Block -> Block, ctrVal: array<bv8>, encCtr: array<bv8>, data: array<bv8>, off: nat,
                       len: nat, pos0: nat, ghost j0: Block, ghost from: nat)
    returns (cnt: nat, pos: nat)
    requires Buffers(ctrVal, encCtr, data, off, len) && 0 < pos0 < 16
    requires StreamAt(e, j0, ctrVal[..], encCtr[..], from, pos0)
    modifies data
    ensures cnt <= len && 0 < pos <= 16 && (cnt + 16 <= len ==> pos == 16)
    ensures StreamAt(e, j0, ctrVal[..], encCtr[..], from + cnt, pos)
    ensures Done(e, j0, old(data[..]), data[..], off, cnt, from)
  {
    hide Done, IncN, StreamAt;
    cnt, pos := 0, pos0;
    DoneNone(e, j0, data[..], off, from);
    while cnt < len && pos % 4 != 0
      invariant cnt <= len && 0 < pos <= 16
      invariant StreamAt(e, j0, ctrVal[..], encCtr[..], from + cnt, pos)
      invariant Done(e, j0, old(data[..]), data[..], off, cnt, from)
    {
      StreamInside(e, j0, ctrVal[..], encCtr[..], from + cnt, pos);
      StreamMore(e, j0, ctrVal[..], encCtr[..], from + cnt, pos, 1);
      CryptByte(e, encCtr[..], data, off, cnt, pos, j0, from, old(data[..]));
      cnt, pos := cnt + 1, pos + 1;
    }
    while cnt + 4 <= len && pos <= 12
      invariant cnt <= len && 0 < pos <= 16 && (cnt < len ==> pos % 4 == 0)
      invariant StreamAt(e, j0, ctrVal[..], encCtr[..], from + cnt, pos)
      invariant Done(e, j0, old(data[..]), data[..], off, cnt, from)
    {
      StreamInside(e, j0, ctrVal[..], encCtr[..], from + cnt, pos);
      StreamMore(e, j0, ctrVal[..], encCtr[..], from + cnt, pos, 4);
      CryptUnit(e, encCtr[..], data, off, cnt, pos, j0, from, old(data[..]));
      cnt, pos := cnt + 4, pos + 4;
    }
  }

  /** The same by bytes, when they do not. */
  method FinishByBytes(e: Block -> Block, ctrVal: array<bv8>, encCtr: array<bv8>, data: array<bv8>, off: nat,
                       len: nat, pos0: nat, ghost j0: Block, ghost from: nat)
    returns (cnt: nat, pos: nat)
    requires Buffers(ctrVal, encCtr, data, off, len) && 0 < pos0 < 16
    requires StreamAt(e, j0, ctrVal[..], encCtr[..], from, pos0)
    modifies data
    ensures cnt <= len && 0 < pos <= 16 && (cnt < len ==> pos == 16)
    ensures StreamAt(e, j0, ctrVal[..], encCtr[..], from + cnt, pos)
    ensures Done(e, j0, old(data[..]), data[..], off, cnt, from)
  {
    hide Done, IncN, StreamAt;
    cnt, pos := 0, pos0;
    DoneNone(e, j0, data[..], off, from);
    while cnt < len && pos < 16
      invariant cnt <= len && 0 < pos <= 16
      invariant StreamAt(e, j0, ctrVal[..], encCtr[..], from + cnt, pos)
      invariant Done(e, j0, old(data[..]), data[..], off, cnt, from)
    {
      StreamInside(e, j0, ctrVal[..], encCtr[..], from + cnt, pos);
      StreamMore(e, j0, ctrVal[..], encCtr[..], from + cnt, pos, 1);
      CryptByte(e, encCtr[..], data, off, cnt, pos, j0, from, old(data[..]));
      cnt, pos := cnt + 1, pos + 1;
    }
  }

  lemma DoneNone(e: Block -> Block, j0: Block, data: seq<bv8>, off: nat, from: nat)
    requires off <= |data|
    ensures Done(e, j0, data, data, off, 0, from)
  {
  }

  /** The loops over whole blocks. */
  method CryptBlocks(e: Block -> Block, ctrVal: array<bv8>, encCtr: array<bv8>, data: array<bv8>, off: nat,
                     len: nat, start: nat, pos: nat, ghost j0: Block, ghost from: nat, ghost was: seq<bv8>)
    returns (cnt: nat)
    requires Buffers(ctrVal, encCtr, data, off, len) && start <= len
    requires start + 16 <= len ==> pos == 0 || pos == 16
    requires StreamAt(e, j0, ctrVal[..], encCtr[..], from + start, pos)
    requires Done(e, j0, was, data[..], off, start, from)
    modifies ctrVal, encCtr, data
    ensures start <= cnt <= len < cnt + 16
    ensures StreamAt(e, j0, ctrVal[..], encCtr[..], from + cnt, pos)
    ensures Done(e, j0, was, data[..], off, cnt, from)
  {
    hide Done, IncN;
    cnt := start;
    while cnt + 16 <= len
      invariant start <= cnt <= len
      invariant cnt + 16 <= len ==> pos == 0 || pos == 16
      invariant StreamAt(e, j0, ctrVal[..], encCtr[..], from + cnt, pos)
      invariant Done(e, j0, was, data[..], off, cnt, from)
    {
      ghost var n := from + cnt;
      NextBlock(e, ctrVal, encCtr, j0, n / 16);
      CryptBlock(e, encCtr[..], data, off, cnt, j0, from, was);
      assert (n + 16) / 16 == n / 16 + 1 && (n + 16) % 16 == 0;
      cnt := cnt + 16;
    }
  }

  /** The last loop: single bytes, starting a further block where needed. */
  method CryptRest(e: Block -> Block, ctrVal: array<bv8>, encCtr: array<bv8>, data: array<bv8>, off: nat,
                   len: nat, start: nat, pos0: nat, ghost j0: Block, ghost from: nat, ghost was: seq<bv8>)
    requires Buffers(ctrVal, encCtr, data, off, len) && start <= len && pos0 <= 16
    requires StreamAt(e, j0, ctrVal[..], encCtr[..], from + start, pos0)
    requires Done(e, j0, was, data[..], off, start, from)
    modifies ctrVal, encCtr, data
    ensures StreamAt(e, j0, ctrVal[..], encCtr[..], from + len, (from + len) % 16)
    ensures Done(e, j0, was, data[..], off, len, from)
  {
    hide Done, IncN;
    var cnt, pos := start, pos0;
    while cnt < len
      invariant start <= cnt <= len && pos <= 16
      invariant StreamAt(e, j0, ctrVal[..], encCtr[..], from + cnt, pos)
      invariant Done(e, j0, was, data[..], off, cnt, from)
    {
      if pos == 16 || pos == 0 {
        NextBlock(e, ctrVal, encCtr, j0, (from + cnt) / 16);
        pos := 0;
      }
      StreamMore(e, j0, ctrVal[..], encCtr[..], from + cnt, pos, 1);
      CryptByte(e, encCtr[..], data, off, cnt, pos, j0, from, was);
      cnt, pos := cnt + 1, pos + 1;
    }
  }

  /** gcm_crypt_data: however the text is split into calls, and whichever way the alignment test
      goes, byte j of the text meets byte j of the key stream. */
  method Crypt(e: Block -> Block, ctrVal: array<bv8>, encCtr: array<bv8>, count: nat, data: array<bv8>, off: nat,
               len: nat, aligned: bool, ghost j0: Block)
    requires Buffers(ctrVal, encCtr, data, off, len) && len < CALL_LIMIT && count + len < COUNT_LIMIT
    requires StreamAt(e, j0, ctrVal[..], encCtr[..], count, count % 16)
    modifies ctrVal, encCtr, data
    ensures StreamAt(e, j0, ctrVal[..], encCtr[..], count + len, (count + len) % 16)
    ensures data[..] == old(data[..])[..off]
                        + Gctr(e, j0, old(data[..])[off..off + len], count)
                        + old(data[..])[off + len..]
  {
    hide Done, IncN, StreamAt, Gctr;
    ghost var was := data[..];
    DoneNone(e, j0, was, off, count);
    if len == 0 {
      DoneIsGctr(e, j0, was, data[..], off, 0, count);
      return;
    }
    var cnt, pos := 0, count % 16;
    if aligned {
      if pos != 0 {
        cnt, pos := FinishByUnits(e, ctrVal, encCtr, data, off, len, pos, j0, count);
      }
    } else {
      if pos != 0 {
        cnt, pos := FinishByBytes(e, ctrVal, encCtr, data, off, len, pos, j0, count);
      }
    }
    cnt := CryptBlocks(e, ctrVal, encCtr, data, off, len, cnt, pos, j0, count, was);
    CryptRest(e, ctrVal, encCtr, data, off, len, cnt, pos, j0, count, was);
    DoneIsGctr(e, j0, was, data[..], off, len, count);
  }
}
