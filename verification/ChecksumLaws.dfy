/** What the Internet checksum is for: exactness, verification, byte order, exchange of fields. */
module ChecksumLaws {
  import opened Octets
  import opened Checksum

  /** The longest buffer whose words cannot overflow 32 bits: 65537 words. */
  const SAFE_LENGTH: nat := 131074

  lemma {:induction false} SumBound(words: seq<nat>)
    requires forall k :: 0 <= k < |words| ==> words[k] <= ONES
    ensures Sum(words) <= ONES * |words|
  {
    if words != [] {
      SumBound(words[1..]);
    }
  }

  lemma SafeSum(h: Host, data: seq<bv8>)
    requires |data| <= SAFE_LENGTH
    ensures WordSum(h, data) < M32
  {
    SumBound(Words(h, data));
  }

  /** Word k of a buffer: two bytes, the first of them the more significant one on a big-endian host and
      the less significant one on a little-endian host; or the last byte alone. */
  lemma {:induction false} WordsAre(h: Host, data: seq<bv8>, k: nat)
    requires k < (|data| + 1) / 2
    ensures Words(h, data)[k] ==
            if 2 * k + 1 == |data| then BeValue([data[2 * k]])
            else if h == Big then BeValue([data[2 * k], data[2 * k + 1]])
            else BeValue([data[2 * k + 1], data[2 * k]])
  {
    hide BeValue, Value;
    if k > 0 {
      WordsAre(h, data[2..], k - 1);
    } else {
      BeOfOne(data[0]);
      if |data| > 1 {
        BeOfTwo(data[0], data[1]);
        BeOfTwo(data[1], data[0]);
      }
    }
  }

  lemma BeOfOne(a: bv8)
    ensures BeValue([a]) == Value(a)
  {
    hide Value;
    assert [a][..0] == [];
  }

  lemma BeOfTwo(a: bv8, b: bv8)
    ensures BeValue([a, b]) == 256 * Value(a) + Value(b)
  {
    hide Value, BeValue;
    BeOfOne(a);
    BeAppend([a], b);
    assert [a] + [b] == [a, b];
  }

  /* ----- exactness ----- */

  lemma OverflowShows(sum: nat)
    requires M32 <= sum < M32 * 0x4000
    ensures Rep(sum % M32) != Rep(sum)
  {
    hide Rep;
    var q, low := sum / M32, sum % M32;
    var m := RepOf(sum);
    var n := RepOf(low);
    if Rep(low) == Rep(sum) {
      assert q * M32 == ONES * (m - n);
      NotMultiple(q, m - n - 0x1_0001 * q);
    }
  }

  lemma NotMultiple(q: nat, k: int)
    requires 0 < q < ONES
    ensures q != ONES * k
  {
  }

  /** The code returns the complement of the one's complement sum exactly when the plain sum of the
      words fits its 32-bit accumulator. */
  lemma ExactIff(h: Host, data: seq<bv8>)
    requires |data| < 0x8000_0000
    ensures Result(h, data) == ONES - OnesSum(Words(h, data)) <==> WordSum(h, data) < M32
  {
    hide Rep, OnesSum, Words, Sum;
    OnesSumIsRep(Words(h, data));
    SumBound(Words(h, data));
    if WordSum(h, data) >= M32 {
      OverflowShows(WordSum(h, data));
    }
  }

  /* ----- verification ----- */

  lemma WordStored(h: Host, w: nat)
    requires w <= ONES
    ensures Word16(h, Stored(h, w)[0], Stored(h, w)[1]) == w
  {
    hide Value, Octet;
    ValueOfOctet(w);
    ValueOfOctet(w / 256);
  }

  /** A word put between an even number of bytes and the rest adds its value. */
  lemma WordSumField(h: Host, p: seq<bv8>, w: nat, t: seq<bv8>)
    requires |p| % 2 == 0 && w <= ONES
    ensures WordSum(h, p + Stored(h, w) + t) == WordSum(h, p) + w + WordSum(h, t)
  {
    hide WordSum, Stored, Word16;
    var f := Stored(h, w);
    WordSumConcat(h, p + f, t);
    WordSumConcat(h, p, f);
    WordSumPair(h, f, 0);
    assert f[..0] == [] && f[..2] == f;
    WordSumNone(h);
    WordStored(h, w);
  }

  /** The checksum brings any 32-bit sum to a multiple of 65535, and never over the top. */
  lemma CheckedRep(sum: nat, c: nat)
    requires sum < M32 && c == ONES - Rep(sum)
    ensures sum + c < M32 && Rep(sum + c) == ONES
  {
    hide Rep;
    var m := RepOf(sum);
    RepUnique(sum + c, ONES, m);
  }

  /** Storing the checksum in its zeroed field makes the buffer check to zero, even where the
      accumulator has overflowed. */
  lemma StoredChecksumVerifies(h: Host, p: seq<bv8>, t: seq<bv8>)
    requires |p| % 2 == 0
    ensures Result(h, p + Stored(h, Result(h, p + Stored(h, 0) + t)) + t) == 0
  {
    hide Rep, WordSum, Stored;
    var zeroed := p + Stored(h, 0) + t;
    var c := Result(h, zeroed);
    WordSumField(h, p, 0, t);
    WordSumField(h, p, c, t);
    CheckedRep(WordSum(h, zeroed) % M32, c);
    KeptIn32(WordSum(h, zeroed), c);
  }

  lemma FieldSlice(s: seq<bv8>, t: seq<bv8>, lo: nat, len: nat, at: nat, f: seq<bv8>)
    requires |s| == |t| && lo + len <= |s| && at + 2 <= len && |f| == 2
    requires t[lo + at] == f[0] && t[lo + at + 1] == f[1]
    requires forall k :: 0 <= k < |s| && !(lo + at <= k < lo + at + 2) ==> t[k] == s[k]
    ensures t[lo..lo + len] == s[lo..lo + at] + f + s[lo + at + 2..lo + len]
  {
  }

  /** The two uses in create_icmp_req_reply: the field at `at` is zeroed, computed over the len bytes
      from lo on, and stored; a recomputation then gives zero. */
  method FillChecksum(h: Host, buf: array<bv8>, lo: nat, len: nat, at: nat)
    requires lo + len <= buf.Length && at + 2 <= len < 0x8000_0000 && at % 2 == 0
    modifies buf
    ensures Result(h, buf[lo..lo + len]) == 0
    ensures forall k :: 0 <= k < buf.Length && !(lo + at <= k < lo + at + 2) ==> buf[k] == old(buf[k])
  {
    hide Rep, WordSum, Stored, Result;
    ghost var was := buf[..];
    buf[lo + at], buf[lo + at + 1] := Stored(h, 0)[0], Stored(h, 0)[1];
    FieldSlice(was, buf[..], lo, len, at, Stored(h, 0));
    var c := OneCompChecksum(h, buf[..][lo..lo + len]);
    buf[lo + at], buf[lo + at + 1] := Stored(h, c)[0], Stored(h, c)[1];
    FieldSlice(was, buf[..], lo, len, at, Stored(h, c));
    assert buf[lo..lo + len] == buf[..][lo..lo + len];
    StoredChecksumVerifies(h, was[lo..lo + at], was[lo + at + 2..lo + len]);
  }

  /* ----- byte order ----- */

  function Swapped(w: nat): nat {
    w % 256 * 256 + w / 256
  }

  lemma SwappedIs256Times(w: nat)
    requires w <= ONES
    ensures 256 * w == Swapped(w) + ONES * (w / 256)
    ensures Swapped(w) <= ONES && (Swapped(w) == 0 <==> w == 0)
  {
  }

  /** The even bytes of the whole words. */
  function FirstBytes(data: seq<bv8>): nat {
    if |data| < 2 then 0 else Value(data[0]) + FirstBytes(data[2..])
  }

  function OddByte(data: seq<bv8>): nat {
    if |data| % 2 == 0 then 0 else Value(data[|data| - 1])
  }

  /** The little-endian sum is 256 times the big-endian one modulo 65535, up to an odd last byte. */
  lemma {:induction false} SumsRelated(data: seq<bv8>)
    ensures 256 * WordSum(Big, data) == WordSum(Little, data) + ONES * FirstBytes(data) + 255 * OddByte(data)
    decreases |data|
  {
    hide Value, Word16, WordSum;
    if |data| == 0 {
      WordSumNone(Little);
      WordSumNone(Big);
    } else if |data| == 1 {
      OneByte(Little, data);
      OneByte(Big, data);
    } else {
      SumsRelated(data[2..]);
      SumHead(Little, data);
      SumHead(Big, data);
      PairRelated(data[0], data[1]);
    }
  }

  lemma OneByte(h: Host, data: seq<bv8>)
    requires |data| == 1
    ensures WordSum(h, data) == Value(data[0])
  {
    SumOne(Value(data[0]));
  }

  lemma PairRelated(a: bv8, b: bv8)
    ensures 256 * Word16(Big, a, b) == Word16(Little, a, b) + ONES * Value(a)
  {
    hide Value;
  }

  lemma SumHead(h: Host, data: seq<bv8>)
    requires |data| >= 2
    ensures WordSum(h, data) == Word16(h, data[0], data[1]) + WordSum(h, data[2..])
  {
    hide Word16;
    assert Words(h, data)[1..] == Words(h, data[2..]);
  }

  lemma SumsZeroTogether(data: seq<bv8>)
    ensures WordSum(Little, data) == 0 <==> WordSum(Big, data) == 0
    decreases |data|
  {
    hide Value;
    if |data| == 1 {
      SumOne(Value(data[0]));
    } else if |data| >= 2 {
      SumsZeroTogether(data[2..]);
      SumHead(Little, data);
      SumHead(Big, data);
    }
  }

  /** How far the kept sums are from being byte-swaps of each other, modulo 65535: an odd last byte
      counts 255 times, a carry lost from the little-endian sum once, from the big-endian one 256 times. */
  function Discrepancy(data: seq<bv8>): int {
    255 * OddByte(data) + WordSum(Little, data) / M32 - 256 * (WordSum(Big, data) / M32)
  }

  /** The kept little-endian sum in terms of the representative of the big-endian one. */
  lemma KeptSumsRelated(data: seq<bv8>) returns (k: int)
    ensures var w := Rep(WordSum(Big, data) % M32);
            WordSum(Little, data) % M32 == Swapped(w) + ONES * k - Discrepancy(data)
  {
    hide Rep, WordSum, Swapped, OddByte, FirstBytes;
    var little, big := WordSum(Little, data), WordSum(Big, data);
    var p, q, kept := little / M32, big / M32, big % M32;
    var w := Rep(kept);
    SumsRelated(data);
    SwappedIs256Times(w);
    var m := RepOf(kept);
    k := w / 256 + 256 * m - FirstBytes(data) + 0x1_0001 * (256 * q - p);
  }

  /** The kept sums represent byte-swaps of each other exactly when they vanish together and do not
      differ modulo 65535. */
  lemma SwapIff(data: seq<bv8>)
    ensures Rep(WordSum(Little, data) % M32) == Swapped(Rep(WordSum(Big, data) % M32))
       <==> (WordSum(Little, data) % M32 == 0 <==> WordSum(Big, data) % M32 == 0) && Discrepancy(data) % ONES == 0
  {
    hide Rep, WordSum, Swapped, Discrepancy;
    var little, w, d := WordSum(Little, data) % M32, Rep(WordSum(Big, data) % M32), Discrepancy(data);
    var k := KeptSumsRelated(data);
    SwappedIs256Times(w);
    if Rep(little) == Swapped(w) {
      var n := RepOf(little);
      MultipleMod(d, k - n);
    } else if d % ONES == 0 && (little == 0 <==> w == 0) {
      RepUnique(little, Swapped(w), k - d / ONES);
    }
  }

  lemma MultipleMod(d: int, k: int)
    requires d == ONES * k
    ensures d % ONES == 0
  {
  }

  lemma OddByteBound(data: seq<bv8>)
    ensures OddByte(data) < 256
  {
  }

  lemma StoredSwapped(v: nat, w: nat)
    requires v <= ONES && w <= ONES
    ensures Stored(Little, ONES - v) == Stored(Big, ONES - w) <==> v == Swapped(w)
  {
    hide Octet;
    var x, y := ONES - v, ONES - w;
    StoredAgree(x, y);
    assert Swapped(y) == ONES - Swapped(w);
  }

  lemma StoredAgree(x: nat, y: nat)
    requires x <= ONES && y <= ONES
    ensures Stored(Little, x) == Stored(Big, y) <==> x == Swapped(y)
  {
    hide Octet, Value;
    ValueOfOctet(x);
    ValueOfOctet(x / 256);
    ValueOfOctet(y);
    ValueOfOctet(y / 256);
    if Stored(Little, x) == Stored(Big, y) {
      assert Stored(Little, x)[0] == Stored(Big, y)[0] && Stored(Little, x)[1] == Stored(Big, y)[1];
      assert x % 256 == y / 256 % 256 && x / 256 % 256 == y % 256;
    }
    if x == Swapped(y) {
      assert x % 256 == y / 256 && x / 256 == y % 256;
      OctetOfLow(x);
      OctetOfLow(y);
    }
  }

  /** The bytes put into the packet do not depend on the byte order of the host exactly when the two
      kept sums vanish together and their discrepancy is a multiple of 65535. */
  lemma ByteOrderExact(data: seq<bv8>)
    ensures Stored(Little, Result(Little, data)) == Stored(Big, Result(Big, data))
       <==> (WordSum(Little, data) % M32 == 0 <==> WordSum(Big, data) % M32 == 0) && Discrepancy(data) % ONES == 0
  {
    hide Rep, WordSum, Stored, Swapped, Discrepancy;
    SwapIff(data);
    StoredSwapped(Rep(WordSum(Little, data) % M32), Rep(WordSum(Big, data) % M32));
  }

  /** Up to 65537 words that is: when the length is even or the last byte is zero. */
  lemma ByteOrderIff(data: seq<bv8>)
    requires 1 <= |data| <= SAFE_LENGTH
    ensures Stored(Little, Result(Little, data)) == Stored(Big, Result(Big, data))
       <==> |data| % 2 == 0 || Value(data[|data| - 1]) == 0
  {
    hide Rep, WordSum, Stored, Result;
    SafeSum(Little, data);
    SafeSum(Big, data);
    SumsZeroTogether(data);
    ByteOrderExact(data);
    OddByteBound(data);
    if OddByte(data) != 0 {
      NotMultiple(255 * OddByte(data), 255 * OddByte(data) / ONES);
    }
  }

  /** A one-byte buffer on which the two orders differ. */
  lemma OddLengthDiffers()
    ensures Stored(Little, Result(Little, [1])) != Stored(Big, Result(Big, [1]))
  {
    hide Rep, WordSum, Stored, Result;
    ByteOrderIff([1]);
  }

  /* ----- buffers that overflow the accumulator ----- */

  /** n copies of the two bytes a, b. */
  function Pairs(a: bv8, b: bv8, n: nat): (r: seq<bv8>)
    ensures |r| == 2 * n
  {
    if n == 0 then [] else [a, b] + Pairs(a, b, n - 1)
  }

  lemma {:induction false} PairsSum(h: Host, a: bv8, b: bv8, n: nat)
    ensures WordSum(h, Pairs(a, b, n)) == n * Word16(h, a, b)
  {
    hide Word16, WordSum;
    if n == 0 {
      WordSumNone(h);
    } else {
      PairsSum(h, a, b, n - 1);
      SumHead(h, Pairs(a, b, n));
      assert Pairs(a, b, n)[2..] == Pairs(a, b, n - 1);
      assert n * Word16(h, a, b) == Word16(h, a, b) + (n - 1) * Word16(h, a, b);
    }
  }

  lemma TopValue()
    ensures Value(0xff) == 255 && Value(0) == 0
  {
  }

  /** One word more than SAFE_LENGTH holds can overflow, and then the result is wrong. */
  lemma SafeLengthIsTight(h: Host)
    ensures var data := Pairs(0xff, 0xff, 65538);
      && |data| == SAFE_LENGTH + 2
      && WordSum(h, data) >= M32
      && Result(h, data) != ONES - OnesSum(Words(h, data))
  {
    hide Value, WordSum, Result, OnesSum, Words, Pairs;
    TopValue();
    PairsSum(h, 0xff, 0xff, 65538);
    ExactIff(h, Pairs(0xff, 0xff, 65538));
  }

  /** An even length does not help past SAFE_LENGTH: here only the little-endian sum overflows. */
  lemma LongEvenDiffers()
    ensures var data := Pairs(0, 0xff, 65794);
      && |data| % 2 == 0
      && Stored(Little, Result(Little, data)) != Stored(Big, Result(Big, data))
  {
    hide Value, WordSum, Result, Stored, Pairs;
    TopValue();
    PairsSum(Little, 0, 0xff, 65794);
    PairsSum(Big, 0, 0xff, 65794);
    ByteOrderExact(Pairs(0, 0xff, 65794));
  }

  /* ----- exchange of fields ----- */

  /** Exchanging two fields of even length, such as the addresses of an IP header, at even offsets. */
  lemma ExchangeKeeps(h: Host, p: seq<bv8>, a: seq<bv8>, q: seq<bv8>, b: seq<bv8>, t: seq<bv8>)
    requires |p| % 2 == 0 && |a| % 2 == 0 && |q| % 2 == 0 && |b| % 2 == 0
    ensures Result(h, p + a + q + b + t) == Result(h, p + b + q + a + t)
  {
    hide WordSum, Rep;
    FiveParts(h, p, a, q, b, t);
    FiveParts(h, p, b, q, a, t);
  }

  lemma FiveParts(h: Host, p: seq<bv8>, a: seq<bv8>, q: seq<bv8>, b: seq<bv8>, t: seq<bv8>)
    requires |p| % 2 == 0 && |a| % 2 == 0 && |q| % 2 == 0 && |b| % 2 == 0
    ensures WordSum(h, p + a + q + b + t)
         == WordSum(h, p) + WordSum(h, a) + WordSum(h, q) + WordSum(h, b) + WordSum(h, t)
  {
    hide WordSum;
    WordSumConcat(h, p + a + q + b, t);
    WordSumConcat(h, p + a + q, b);
    WordSumConcat(h, p + a, q);
    WordSumConcat(h, p, a);
  }
}
