/** one_comp_checksum (ping_client.c) against the Internet checksum of RFC 1071. */
module Checksum {
  import opened Octets

  /** The byte order of the host that reads and writes 16-bit words in memory. */
  datatype Host = Little | Big

  const ONES: nat := 0xffff

  function Word16(h: Host, a: bv8, b: bv8): (w: nat)
    ensures w <= ONES
  {
    if h == Little then Value(a) + 256 * Value(b) else 256 * Value(a) + Value(b)
  }

  /** The bytes of a word in memory. */
  function Stored(h: Host, w: nat): (r: seq<bv8>)
    ensures |r| == 2
  {
    if h == Little then [Octet(w), Octet(w / 256)] else [Octet(w / 256), Octet(w)]
  }

  /** The words that the loop adds up; an odd last byte is a word of its own, with the value of the byte. */
  function Words(h: Host, data: seq<bv8>): (r: seq<nat>)
    ensures |r| == (|data| + 1) / 2
    ensures forall k :: 0 <= k < |r| ==> r[k] <= ONES
  {
    if data == [] then []
    else if |data| == 1 then [Value(data[0])]
    else [Word16(h, data[0], data[1])] + Words(h, data[2..])
  }

  function Sum(words: seq<nat>): nat {
    if words == [] then 0 else words[0] + Sum(words[1..])
  }

  function WordSum(h: Host, data: seq<bv8>): nat {
    Sum(Words(h, data))
  }

  /* ----- one's complement arithmetic ----- */

  /** 16-bit addition with end-around carry. */
  function OnesAdd(a: nat, b: nat): nat {
    if a + b > ONES then a + b - ONES else a + b
  }

  function OnesSum(words: seq<nat>): nat {
    if words == [] then 0 else OnesAdd(words[0], OnesSum(words[1..]))
  }

  /** The 16-bit number that n stands for: zero only for zero. */
  function Rep(n: nat): (r: nat)
    ensures r <= ONES
    ensures r == 0 <==> n == 0
  {
    if n == 0 then 0 else (n - 1) % ONES + 1
  }

  lemma RepUnique(n: nat, r: nat, m: int)
    requires n == r + ONES * m && r <= ONES && (r == 0 <==> n == 0)
    ensures Rep(n) == r
  {
    if n != 0 {
      assert n - 1 == (r - 1) + ONES * m;
      assert (n - 1) % ONES == r - 1;
    }
  }

  /** n and its representative differ by a multiple of 65535. */
  lemma RepOf(n: nat) returns (m: nat)
    ensures n == Rep(n) + ONES * m
  {
    m := if n == 0 then 0 else (n - 1) / ONES;
  }

  lemma RepAdd(a: nat, b: nat)
    requires a <= ONES
    ensures Rep(a + b) == OnesAdd(a, Rep(b))
  {
    var m := RepOf(b);
    if a + Rep(b) > ONES {
      RepUnique(a + b, a + Rep(b) - ONES, m + 1);
    } else {
      RepUnique(a + b, a + Rep(b), m);
    }
  }

  /** Adding with end-around carry word by word gives the representative of the plain sum. */
  lemma {:induction false} OnesSumIsRep(words: seq<nat>)
    requires forall k :: 0 <= k < |words| ==> words[k] <= ONES
    ensures OnesSum(words) == Rep(Sum(words))
  {
    if words != [] {
      OnesSumIsRep(words[1..]);
      RepAdd(words[0], Sum(words[1..]));
    }
  }

  /* ----- the code ----- */

  /** The two folds and the complement on a 32-bit sum. */
  function Folded(sum: nat): nat
    requires sum < 0x1_0000_0000
  {
    var once := sum / 0x1_0000 + sum % 0x1_0000;
    var twice := once + once / 0x1_0000;
    ONES - twice % 0x1_0000
  }

  /** Two folds are enough: they reach the representative. */
  lemma FoldedIsRep(sum: nat)
    requires sum < 0x1_0000_0000
    ensures Folded(sum) == ONES - Rep(sum)
  {
    var hi, lo := sum / 0x1_0000, sum % 0x1_0000;
    var once := hi + lo;
    assert sum == once + ONES * hi;
    if once > ONES {
      RepUnique(sum, once - ONES, hi + 1);
    } else {
      RepUnique(sum, once, hi);
    }
  }

  /** What the code returns: the sum is kept in 32 bits. */
  function Result(h: Host, data: seq<bv8>): nat {
    ONES - Rep(WordSum(h, data) % 0x1_0000_0000)
  }

  lemma SumOne(w: nat)
    ensures Sum([w]) == w
  {
    assert [w][1..] == [];
  }

  lemma {:induction false} SumConcat(s: seq<nat>, t: seq<nat>)
    ensures Sum(s + t) == Sum(s) + Sum(t)
  {
    if s == [] {
      assert s + t == t;
    } else {
      assert (s + t)[1..] == s[1..] + t;
      SumConcat(s[1..], t);
    }
  }

  lemma {:induction false} WordsConcat(h: Host, s: seq<bv8>, t: seq<bv8>)
    requires |s| % 2 == 0
    ensures Words(h, s + t) == Words(h, s) + Words(h, t)
  {
    if s == [] {
      assert s + t == t;
    } else {
      assert (s + t)[2..] == s[2..] + t;
      WordsConcat(h, s[2..], t);
    }
  }

  lemma WordSumConcat(h: Host, s: seq<bv8>, t: seq<bv8>)
    requires |s| % 2 == 0
    ensures WordSum(h, s + t) == WordSum(h, s) + WordSum(h, t)
  {
    WordsConcat(h, s, t);
    SumConcat(Words(h, s), Words(h, t));
  }

  lemma KeptIn32(a: nat, b: nat)
    ensures (a % 0x1_0000_0000 + b) % 0x1_0000_0000 == (a + b) % 0x1_0000_0000
  {
  }

  /** one_comp_checksum. The buffer is not empty: length - 1 is unsigned in the source. */
  method OneCompChecksum(h: Host, data: seq<bv8>) returns (r: nat)
    requires 1 <= |data| < 0x8000_0000
    ensures r == Result(h, data)
  {
    hide WordSum, Word16, Value, Rep, Folded;
    var sum, i := 0, 0;
    WordSumNone(h);
    while i < |data| - 1
      invariant 0 <= i <= |data| && i % 2 == 0
      invariant sum == WordSum(h, data[..i]) % 0x1_0000_0000
    {
      WordSumPair(h, data, i);
      KeptIn32(WordSum(h, data[..i]), Word16(h, data[i], data[i + 1]));
      sum := (sum + Word16(h, data[i], data[i + 1])) % 0x1_0000_0000;
      i := i + 2;
    }
    if |data| % 2 == 1 {
      WordSumLast(h, data);
      KeptIn32(WordSum(h, data[..i]), Value(data[i]));
      sum := (sum + Value(data[i])) % 0x1_0000_0000;
    } else {
      assert data[..i] == data;
    }
    FoldedIsRep(sum);
    r := Folded(sum);
  }

  lemma WordSumNone(h: Host)
    ensures WordSum(h, []) == 0
  {
  }

  lemma WordSumPair(h: Host, data: seq<bv8>, i: nat)
    requires i % 2 == 0 && i + 2 <= |data|
    ensures WordSum(h, data[..i + 2]) == WordSum(h, data[..i]) + Word16(h, data[i], data[i + 1])
  {
    var pair := data[i..i + 2];
    assert data[..i + 2] == data[..i] + pair;
    WordSumConcat(h, data[..i], pair);
    assert Words(h, pair) == [Word16(h, pair[0], pair[1])];
    SumOne(Word16(h, pair[0], pair[1]));
  }

  lemma WordSumLast(h: Host, data: seq<bv8>)
    requires |data| % 2 == 1
    ensures WordSum(h, data) == WordSum(h, data[..|data| - 1]) + Value(data[|data| - 1])
  {
    var n := |data| - 1;
    var last := data[n..];
    assert data == data[..n] + last;
    WordSumConcat(h, data[..n], last);
    assert Words(h, last) == [Value(last[0])];
    SumOne(Value(last[0]));
  }
}
