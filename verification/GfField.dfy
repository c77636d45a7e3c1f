/** The ring of polynomials modulo x^128 + x^7 + x^2 + x + 1 is a field: every element but zero has an
    inverse, and a product is zero only if a factor is. */
module GfField {
  import opened Gf128
  import opened GfSquare
  import opened GfIdempotent
  import opened GfTables

  /* ----- two powers of an element coincide ----- */

  /** The polynomials in s, times x, plus b. */
  ghost function Prepended(b: bool, s: set<Poly>): set<Poly> {
    set p | p in s :: [b] + p
  }

  lemma {:induction false} PrependedSize(b: bool, s: set<Poly>)
    ensures |Prepended(b, s)| <= |s|
  {
    if s != {} {
      var p :| p in s;
      PrependedSize(b, s - {p});
      assert Prepended(b, s) == Prepended(b, s - {p}) + {[b] + p};
    } else {
      assert Prepended(b, s) == {};
    }
  }

  /** All polynomials with n coefficients. */
  ghost function AllPolys(n: nat): set<Poly> {
    if n == 0 then {[]} else Prepended(false, AllPolys(n - 1)) + Prepended(true, AllPolys(n - 1))
  }

  lemma {:induction false} AllPolysSize(n: nat)
    ensures |AllPolys(n)| <= Size(n)
  {
    if n > 0 {
      AllPolysSize(n - 1);
      PrependedSize(false, AllPolys(n - 1));
      PrependedSize(true, AllPolys(n - 1));
    }
  }

  lemma {:induction false} AllPolysHold(p: Poly)
    ensures p in AllPolys(|p|)
  {
    if p != [] {
      AllPolysHold(p[1..]);
      assert p == [p[0]] + p[1..];
      assert p in Prepended(p[0], AllPolys(|p| - 1));
    }
  }

  ghost function Powers(a: Elem, n: nat): set<Poly> {
    if n == 0 then {} else Powers(a, n - 1) + {Pow(a, n - 1)}
  }

  lemma {:induction false} InPowers(a: Elem, n: nat, p: Poly) returns (i: nat)
    requires p in Powers(a, n)
    ensures i < n && Pow(a, i) == p
  {
    if p == Pow(a, n - 1) {
      i := n - 1;
    } else {
      i := InPowers(a, n - 1, p);
    }
  }

  lemma {:induction false} PowersBounded(a: Elem, n: nat)
    ensures Powers(a, n) <= AllPolys(128)
  {
    hide Pow, AllPolys;
    if n > 0 {
      PowersBounded(a, n - 1);
      AllPolysHold(Pow(a, n - 1));
    }
  }

  lemma SubsetSize(s: set<Poly>, t: set<Poly>)
    requires s <= t
    ensures |s| <= |t|
  {
    assert t == s + (t - s);
  }

  /** Among the first n powers two coincide, or they are n different ones. */
  lemma {:induction false} RepeatOrDistinct(a: Elem, n: nat) returns (i: nat, j: nat)
    ensures (i < j < n && Pow(a, i) == Pow(a, j)) || |Powers(a, n)| == n
  {
    hide Pow;
    i, j := 0, 0;
    if n > 0 {
      i, j := RepeatOrDistinct(a, n - 1);
      if !(i < j < n - 1 && Pow(a, i) == Pow(a, j)) && Pow(a, n - 1) in Powers(a, n - 1) {
        i := InPowers(a, n - 1, Pow(a, n - 1));
        j := n - 1;
      }
    }
  }

  lemma TwoPowersCoincide(a: Elem) returns (i: nat, j: nat)
    ensures i < j && Pow(a, i) == Pow(a, j)
  {
    hide Pow, Size, AllPolys;
    var n := Size(128) + 1;
    i, j := RepeatOrDistinct(a, n);
    PowersBounded(a, n);
    SubsetSize(Powers(a, n), AllPolys(128));
    AllPolysSize(128);
  }

  /* ----- a power that is idempotent ----- */

  /** From power i on, powers repeat with period d. */
  lemma {:induction false} Periodic(a: Elem, i: nat, d: nat, m: nat, k: nat)
    requires Pow(a, i) == Pow(a, i + d) && i <= m
    ensures Pow(a, m + k * d) == Pow(a, m)
    decreases k
  {
    hide Pow, Mul;
    if k > 0 {
      Periodic(a, i, d, m, k - 1);
      var r := m + (k - 1) * d - i;
      PowSum(a, r, i);
      PowSum(a, r, i + d);
      assert m + k * d == r + (i + d);
    }
  }

  lemma IdempotentPower(a: Elem) returns (m: nat)
    ensures m > 0 && (Pow(a, m) == ZERO || Pow(a, m) == ONE)
  {
    hide Pow, Mul;
    var i, j := TwoPowersCoincide(a);
    var d := j - i;
    m := (i + 1) * d;
    MultipleBeyond(i + 1, d);
    Periodic(a, i, d, m, i + 1);
    PowSum(a, m, m);
    Idempotent(Pow(a, m));
  }

  lemma MultipleBeyond(n: nat, d: nat)
    requires d > 0
    ensures n * d >= n
  {
  }

  lemma {:induction false} NilpotentIsZero(a: Elem, m: nat)
    requires m > 0 && Pow(a, m) == ZERO
    ensures a == ZERO
    decreases m
  {
    hide Mul;
    if m == 1 {
      MulOne(a);
      assert Pow(a, 1) == Mul(a, Pow(a, 0));
    } else {
      var k := (m + 1) / 2;
      PowSum(a, 2 * k - m, m);
      MulZero(Pow(a, 2 * k - m));
      PowSum(a, k, k);
      SquareZero(Pow(a, k));
      NilpotentIsZero(a, k);
    }
  }

  /* ----- the field ----- */

  /** Every element but zero has an inverse. */
  lemma Inverse(a: Elem) returns (b: Elem)
    requires a != ZERO
    ensures Mul(a, b) == ONE
  {
    hide Mul;
    var m := IdempotentPower(a);
    if Pow(a, m) == ZERO {
      NilpotentIsZero(a, m);
    }
    b := Pow(a, m - 1);
    assert Pow(a, m) == Mul(a, b);
  }

  /** A product is zero if and only if a factor is. */
  lemma ProductZero(a: Elem, b: Elem)
    ensures Mul(a, b) == ZERO <==> a == ZERO || b == ZERO
  {
    hide Mul;
    MulZero(a);
    MulZero(b);
    if a != ZERO && Mul(a, b) == ZERO {
      var c := Inverse(a);
      MulComm(a, c);
      MulAssoc(c, a, b);
      MulZero(c);
      MulOne(b);
    }
  }
}
