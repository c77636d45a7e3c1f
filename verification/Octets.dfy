/** Bytes as numbers below 256. */
module Octets {

  const M32: nat := 0x1_0000_0000

  function Value(b: bv8): (n: nat)
    ensures n < 256
  {
    b as nat
  }

  /** The low byte of a number: n & 0xFF. */
  function Octet(n: nat): bv8 {
    (n % 256) as bv8
  }

  function Successor(b: bv8): bv8 {
    b + 1
  }

  lemma NotLast(b: bv8)
    requires b as nat < 255
    ensures b != 255
  {
  }

  lemma SuccessorCast(b: bv8)
    requires b != 255
    ensures (b + 1) as nat == b as nat + 1
  {
  }

  lemma SuccessorValue(b: bv8)
    requires Value(b) < 255
    ensures Value(Successor(b)) == Value(b) + 1
  {
    NotLast(b);
    SuccessorCast(b);
  }

  /** The byte reached from 0 in m steps. */
  function Nth(m: nat): bv8
    requires m < 256
  {
    if m == 0 then 0 else Successor(Nth(m - 1))
  }

  lemma ZeroValue()
    ensures Value(0) == 0
  {
  }

  lemma {:induction false} ValueOfNth(m: nat)
    requires m < 256
    ensures Value(Nth(m)) == m
  {
    hide Value, Successor;
    if m == 0 {
      ZeroValue();
    } else {
      ValueOfNth(m - 1);
      SuccessorValue(Nth(m - 1));
    }
  }

  lemma CastBack(b: bv8)
    ensures (b as nat) as bv8 == b
  {
  }

  lemma OctetOfValue(b: bv8)
    ensures Octet(Value(b)) == b
  {
    CastBack(b);
  }

  lemma ValueOfOctet(n: nat)
    ensures Value(Octet(n)) == n % 256
  {
    hide Value, Octet;
    var m := n % 256;
    ValueOfNth(m);
    OctetOfValue(Nth(m));
    OctetOfLow(n);
  }

  lemma OctetOfLow(n: nat)
    ensures Octet(n) == Octet(n % 256)
  {
  }

  /* ----- byte strings as numbers ----- */

  /** A byte string as one number, most significant byte first. */
  function BeValue(s: seq<bv8>): nat {
    if s == [] then 0 else 256 * BeValue(s[..|s| - 1]) + Value(s[|s| - 1])
  }

  /** Strings of one length are told apart by their numbers. */
  lemma {:induction false} BeInjective(s: seq<bv8>, t: seq<bv8>)
    requires |s| == |t| && BeValue(s) == BeValue(t)
    ensures s == t
  {
    hide Value;
    if s != [] {
      var n := |s| - 1;
      LastDigit(BeValue(s[..n]), Value(s[n]), BeValue(t[..n]), Value(t[n]));
      BeInjective(s[..n], t[..n]);
      OctetOfValue(s[n]);
      OctetOfValue(t[n]);
      assert s == s[..n] + [s[n]] && t == t[..n] + [t[n]];
    }
  }

  lemma LastDigit(p: nat, a: nat, q: nat, b: nat)
    requires a < 256 && b < 256 && 256 * p + a == 256 * q + b
    ensures p == q && a == b
  {
  }

  lemma BeOfFour(a: bv8, b: bv8, c: bv8, d: bv8)
    ensures BeValue([a, b, c, d]) == Value(a) * 0x100_0000 + Value(b) * 0x1_0000 + Value(c) * 0x100 + Value(d)
  {
    hide Value;
    assert [a, b, c, d][..3] == [a, b, c] && [a, b, c][..2] == [a, b] && [a, b][..1] == [a] && [a][..0] == [];
    assert BeValue([a]) == Value(a);
    assert BeValue([a, b]) == 256 * BeValue([a]) + Value(b);
    assert BeValue([a, b, c]) == 256 * BeValue([a, b]) + Value(c);
  }

  /** A byte appended. */
  lemma BeAppend(s: seq<bv8>, b: bv8)
    ensures BeValue(s + [b]) == 256 * BeValue(s) + Value(b)
  {
    assert (s + [b])[..|s|] == s;
  }
}
