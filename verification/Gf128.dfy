/** GF(2^128) as polynomials over GF(2) modulo x^128 + x^7 + x^2 + x + 1.

    A field element is the sequence of its 128 coefficients, coefficient of x^i at index i.
    Multiplication is defined by Horner's rule over the single step "multiply by x and reduce";
    the theorems say that this is the remainder of the polynomial product by the modulus and
    that it is commutative, associative and distributive.
 */
module Gf128 {

  /** A polynomial over GF(2) of any length; coefficients past the end are zero. */
  type Poly = seq<bool>

  function Coef(p: Poly, i: nat): bool {
    i < |p| && p[i]
  }

  /** A polynomial of degree below 128. */
  type Elem = p: seq<bool> | |p| == 128 witness seq(128, _ => false)

  function Zeros(n: nat): (r: seq<bool>)
    ensures |r| == n
  {
    seq(n, (i: nat) => false)
  }

  const ZERO: Elem := Zeros(128)

  const ONE: Elem := [true] + Zeros(127)

  /** The powers of x in x^7 + x^2 + x + 1, which x^128 reduces to. */
  predicate Tap(i: int) {
    i == 0 || i == 1 || i == 2 || i == 7
  }

  /** x^128 + x^7 + x^2 + x + 1 */
  function Modulus(): Poly {
    seq(129, (i: nat) => Tap(i) || i == 128)
  }

  function Add(a: Elem, b: Elem): Elem {
    seq(128, (i: nat) => Coef(a, i) != Coef(b, i))
  }

  function Scale(c: bool, v: Elem): Elem {
    if c then v else ZERO
  }

  /** Multiplication by x: one shift, and a reduction when x^127 was present. */
  function MulX(a: Elem): Elem {
    seq(128, (i: nat) => MulXCoef(a, i))
  }

  predicate MulXCoef(a: Elem, i: nat) {
    (i > 0 && Coef(a, i - 1)) != (a[127] && Tap(i))
  }

  /** Multiplication by x^n. */
  function XPow(n: nat, a: Elem): Elem {
    if n == 0 then a else MulX(XPow(n - 1, a))
  }

  /** The polynomial q applied to v by Horner's rule: the sum of x^i * v over the powers x^i in q. */
  function Act(q: Poly, v: Elem): Elem {
    if q == [] then ZERO else Add(Scale(q[0], v), MulX(Act(q[1..], v)))
  }

  /** The field product. */
  function Mul(a: Elem, b: Elem): Elem {
    Act(a, b)
  }

  function Pow(h: Elem, n: nat): Elem {
    if n == 0 then ONE else Mul(h, Pow(h, n - 1))
  }

  /* ----- the additive group ----- */

  lemma AddZero(a: Elem)
    ensures Add(a, ZERO) == a && Add(ZERO, a) == a && Add(a, a) == ZERO
  {
  }

  lemma AddAssoc(a: Elem, b: Elem, c: Elem)
    ensures Add(Add(a, b), c) == Add(a, Add(b, c))
  {
  }

  lemma AddSwap(a: Elem, b: Elem, c: Elem, d: Elem)
    ensures Add(Add(a, b), Add(c, d)) == Add(Add(a, c), Add(b, d))
  {
  }

  lemma MulXAdd(a: Elem, b: Elem)
    ensures MulX(Add(a, b)) == Add(MulX(a), MulX(b))
  {
  }

  lemma MulXZero()
    ensures MulX(ZERO) == ZERO
  {
  }

  lemma {:induction false} XPowAdd(n: nat, a: Elem, b: Elem)
    ensures XPow(n, Add(a, b)) == Add(XPow(n, a), XPow(n, b))
  {
    if n > 0 {
      XPowAdd(n - 1, a, b);
      MulXAdd(XPow(n - 1, a), XPow(n - 1, b));
    }
  }

  lemma {:induction false} XPowSum(m: nat, n: nat, a: Elem)
    ensures XPow(m, XPow(n, a)) == XPow(m + n, a)
  {
    if m > 0 {
      XPowSum(m - 1, n, a);
    }
  }

  /* ----- the action of polynomials ----- */

  lemma {:induction false} ActZero(q: Poly)
    ensures Act(q, ZERO) == ZERO
  {
    if q != [] {
      ActZero(q[1..]);
      MulXZero();
      AddZero(ZERO);
    }
  }

  lemma {:induction false} ActAdd(q: Poly, u: Elem, v: Elem)
    ensures Act(q, Add(u, v)) == Add(Act(q, u), Act(q, v))
  {
    if q == [] {
      AddZero(ZERO);
    } else {
      var qu, qv := Act(q[1..], u), Act(q[1..], v);
      ActAdd(q[1..], u, v);
      MulXAdd(qu, qv);
      assert Scale(q[0], Add(u, v)) == Add(Scale(q[0], u), Scale(q[0], v)) by { AddZero(ZERO); }
      AddSwap(Scale(q[0], u), Scale(q[0], v), MulX(qu), MulX(qv));
    }
  }

  lemma {:induction false} ActMulX(q: Poly, v: Elem)
    ensures Act(q, MulX(v)) == MulX(Act(q, v))
  {
    MulXZero();
    if q != [] {
      ActMulX(q[1..], v);
      MulXAdd(Scale(q[0], v), MulX(Act(q[1..], v)));
    }
  }

  lemma {:induction false} ActXPow(q: Poly, n: nat, v: Elem)
    ensures Act(q, XPow(n, v)) == XPow(n, Act(q, v))
  {
    hide Act, MulX;
    if n > 0 {
      ActXPow(q, n - 1, v);
      ActMulX(q, XPow(n - 1, v));
    }
  }

  lemma ActScale(q: Poly, c: bool, v: Elem)
    ensures Act(q, Scale(c, v)) == Scale(c, Act(q, v))
  {
    ActZero(q);
  }

  /** Any two polynomials commute as operators. */
  lemma {:induction false} ActCommute(p: Poly, q: Poly, v: Elem)
    ensures Act(p, Act(q, v)) == Act(q, Act(p, v))
    decreases |q|
  {
    if q == [] {
      ActZero(p);
    } else {
      var rest := Act(q[1..], v);
      ActAdd(p, Scale(q[0], v), MulX(rest));
      ActScale(p, q[0], v);
      ActMulX(p, rest);
      ActCommute(p, q[1..], v);
    }
  }

  lemma {:induction false} ActConcat(p: Poly, q: Poly, v: Elem)
    ensures Act(p + q, v) == Add(Act(p, v), XPow(|p|, Act(q, v)))
  {
    if p == [] {
      assert p + q == q;
      AddZero(Act(q, v));
    } else {
      assert (p + q)[1..] == p[1..] + q;
      ActConcat(p[1..], q, v);
      MulXAdd(Act(p[1..], v), XPow(|p| - 1, Act(q, v)));
      AddAssoc(Scale(p[0], v), MulX(Act(p[1..], v)), XPow(|p|, Act(q, v)));
    }
  }

  /** The coefficients of a field element applied to one give the element back. */
  lemma {:induction false} ActOneSuffix(p: Elem, k: nat)
    requires k <= 128
    ensures Act(p[k..], ONE) == p[k..] + Zeros(k)
    decreases 128 - k
  {
    if k < 128 {
      assert p[k..][1..] == p[k + 1..];
      ActOneSuffix(p, k + 1);
      var tail: Elem := p[k + 1..] + Zeros(k + 1);
      assert !tail[127];
      assert MulX(tail) == [false] + p[k + 1..] + Zeros(k);
    } else {
      assert p[k..] == [];
    }
  }

  lemma ActOne(p: Elem)
    ensures Act(p, ONE) == p
  {
    assert p[0..] == p;
    ActOneSuffix(p, 0);
  }

  /* ----- the field laws ----- */

  lemma MulComm(a: Elem, b: Elem)
    ensures Mul(a, b) == Mul(b, a)
  {
    ActOne(a);
    ActOne(b);
    ActCommute(a, b, ONE);
  }

  lemma MulAssoc(a: Elem, b: Elem, c: Elem)
    ensures Mul(Mul(a, b), c) == Mul(a, Mul(b, c))
  {
    MulComm(Mul(a, b), c);
    ActCommute(c, a, b);
    MulComm(c, b);
  }

  lemma MulDistributes(a: Elem, b: Elem, c: Elem)
    ensures Mul(a, Add(b, c)) == Add(Mul(a, b), Mul(a, c))
    ensures Mul(Add(b, c), a) == Add(Mul(b, a), Mul(c, a))
  {
    ActAdd(a, b, c);
    MulComm(a, Add(b, c));
    MulComm(a, b);
    MulComm(a, c);
  }

  lemma MulOne(a: Elem)
    ensures Mul(a, ONE) == a && Mul(ONE, a) == a
  {
    ActOne(a);
    MulComm(a, ONE);
  }

  lemma MulZero(a: Elem)
    ensures Mul(a, ZERO) == ZERO && Mul(ZERO, a) == ZERO
  {
    ActZero(a);
    MulComm(a, ZERO);
  }

  lemma {:induction false} PowSum(h: Elem, m: nat, n: nat)
    ensures Pow(h, m + n) == Mul(Pow(h, m), Pow(h, n))
  {
    hide Mul;
    if m == 0 {
      MulOne(Pow(h, n));
    } else {
      PowSum(h, m - 1, n);
      MulAssoc(h, Pow(h, m - 1), Pow(h, n));
    }
  }

  /** The squaring step of square-and-multiply. */
  lemma {:induction false} PowSquare(h: Elem, n: nat)
    ensures Pow(Mul(h, h), n) == Pow(h, 2 * n)
  {
    hide Mul;
    if n > 0 {
      PowSquare(h, n - 1);
      assert Pow(h, 2 * n) == Mul(h, Mul(h, Pow(h, 2 * (n - 1))));
      MulAssoc(h, h, Pow(h, 2 * (n - 1)));
    }
  }

  /* ----- the product is the remainder of the polynomial product ----- */

  /** Equality of polynomials: the same coefficients, whatever the stored lengths. */
  ghost predicate Same(p: Poly, q: Poly) {
    forall i: nat :: Coef(p, i) == Coef(q, i)
  }

  function PolyAdd(p: Poly, q: Poly): Poly {
    seq(if |p| < |q| then |q| else |p|, (i: nat) => Coef(p, i) != Coef(q, i))
  }

  /** Schoolbook product, without reduction. */
  function PolyMul(p: Poly, q: Poly): Poly {
    if p == [] then [] else PolyAdd(if p[0] then q else [], [false] + PolyMul(p[1..], q))
  }

  /** r is the remainder of p by the modulus. */
  ghost predicate IsRemainder(p: Poly, r: Elem) {
    exists k: Poly :: Same(p, PolyAdd(PolyMul(k, Modulus()), r))
  }

  lemma {:induction false} ActPolyAdd(p: Poly, q: Poly, v: Elem)
    ensures Act(PolyAdd(p, q), v) == Add(Act(p, v), Act(q, v))
    decreases |p| + |q|
  {
    AddZero(Act(p, v));
    AddZero(Act(q, v));
    if p == [] {
      assert PolyAdd(p, q) == q;
    } else if q == [] {
      assert PolyAdd(p, q) == p;
    } else {
      assert PolyAdd(p, q)[1..] == PolyAdd(p[1..], q[1..]);
      ActPolyAdd(p[1..], q[1..], v);
      MulXAdd(Act(p[1..], v), Act(q[1..], v));
      AddZero(v);
      AddZero(ZERO);
      AddSwap(Scale(p[0], v), Scale(q[0], v), MulX(Act(p[1..], v)), MulX(Act(q[1..], v)));
    }
  }

  lemma {:induction false} ActPolyMul(p: Poly, q: Poly, v: Elem)
    ensures Act(PolyMul(p, q), v) == Act(p, Act(q, v))
  {
    if p != [] {
      var low, high := if p[0] then q else [], [false] + PolyMul(p[1..], q);
      ActPolyAdd(low, high, v);
      assert high[1..] == PolyMul(p[1..], q);
      ActPolyMul(p[1..], q, v);
      AddZero(MulX(Act(p[1..], Act(q, v))));
    }
  }

  lemma {:induction false} ActSame(p: Poly, q: Poly, v: Elem)
    requires Same(p, q)
    ensures Act(p, v) == Act(q, v)
    decreases |p| + |q|
  {
    if p != [] || q != [] {
      var p', q' := if p == [] then [] else p[1..], if q == [] then [] else q[1..];
      forall i: nat
        ensures Coef(p', i) == Coef(q', i)
      {
        assert Coef(p, i + 1) == Coef(q, i + 1);
      }
      ActSame(p', q', v);
      MulXZero();
      AddZero(ZERO);
      assert Coef(p, 0) == Coef(q, 0);
      assert Act(p, v) == Add(Scale(Coef(p, 0), v), MulX(Act(p', v)));
      assert Act(q, v) == Add(Scale(Coef(q, 0), v), MulX(Act(q', v)));
    }
  }

  lemma ModulusActsAsZero(v: Elem)
    ensures Act(Modulus(), v) == ZERO
  {
    var high: Elem := Modulus()[1..];
    ActOne(high);
    assert Act(Modulus(), ONE) == Add(ONE, MulX(high));
    assert Act(Modulus(), ONE) == ZERO;
    ActOne(v);
    ActCommute(Modulus(), v, ONE);
    ActZero(v);
  }

  /** Coefficient i of x*t + b, given coefficient i - 1 of t as quotient times modulus plus r. */
  lemma DivideStep(b: bool, t: Poly, k: Poly, r: Elem, i: nat)
    requires i > 0 ==> Coef(t, i - 1) == Coef(PolyAdd(PolyMul(k, Modulus()), r), i - 1)
    ensures var r' := Add(Scale(b, ONE), MulX(r));
            Coef([b] + t, i) == Coef(PolyAdd(PolyMul([r[127]] + k, Modulus()), r'), i)
  {
    var m := PolyMul(k, Modulus());
    assert ([r[127]] + k)[1..] == k;
    var low := if r[127] then Modulus() else [];
    var r' := Add(Scale(b, ONE), MulX(r));
    assert Coef(low, i) == (r[127] && (Tap(i) || i == 128));
    assert Coef(PolyAdd(low, [false] + m), i) == (Coef(low, i) != (i > 0 && Coef(m, i - 1)));
    assert Coef(r', i) == (i < 128 && ((b && i == 0) != MulX(r)[i]));
  }

  /** Division with remainder: every polynomial is a multiple of the modulus plus Act(p, ONE). */
  lemma {:induction false} Divide(p: Poly) returns (k: Poly)
    ensures Same(p, PolyAdd(PolyMul(k, Modulus()), Act(p, ONE)))
  {
    if p == [] {
      k := [];
    } else {
      var k' := Divide(p[1..]);
      var r: Elem := Act(p[1..], ONE);
      k := [r[127]] + k';
      assert p == [p[0]] + p[1..];
      forall i: nat
        ensures Coef(p, i) == Coef(PolyAdd(PolyMul(k, Modulus()), Act(p, ONE)), i)
      {
        DivideStep(p[0], p[1..], k', r, i);
      }
    }
  }

  /** The field product of a and b is the one element that is a remainder of the
      polynomial product of a and b by x^128 + x^7 + x^2 + x + 1. */
  lemma MulIsProductModulo(a: Elem, b: Elem, r: Elem)
    ensures IsRemainder(PolyMul(a, b), r) <==> r == Mul(a, b)
  {
    var p := PolyMul(a, b);
    ActPolyMul(a, b, ONE);
    ActOne(b);
    var k := Divide(p);
    assert IsRemainder(p, Mul(a, b));
    forall k: Poly | Same(p, PolyAdd(PolyMul(k, Modulus()), r))
      ensures r == Mul(a, b)
    {
      ActSame(p, PolyAdd(PolyMul(k, Modulus()), r), ONE);
      ActPolyAdd(PolyMul(k, Modulus()), r, ONE);
      ActPolyMul(k, Modulus(), ONE);
      ModulusActsAsZero(ONE);
      ActZero(k);
      ActOne(r);
      AddZero(r);
    }
  }

  /** The iterative form in section 6.3 of NIST SP 800-38D: the accumulator z collects v for
      every coefficient of x present, and v is multiplied by x after each one. */
  function ShiftAndAdd(x: Poly, z: Elem, v: Elem): Elem {
    if x == [] then z else ShiftAndAdd(x[1..], if x[0] then Add(z, v) else z, MulX(v))
  }

  lemma {:induction false} ShiftAndAddIsMul(x: Poly, z: Elem, v: Elem)
    ensures ShiftAndAdd(x, z, v) == Add(z, Act(x, v))
    decreases |x|
  {
    if x == [] {
      AddZero(z);
    } else {
      var z' := if x[0] then Add(z, v) else z;
      ShiftAndAddIsMul(x[1..], z', MulX(v));
      ActMulX(x[1..], v);
      AddZero(z);
      AddAssoc(z, Scale(x[0], v), MulX(Act(x[1..], v)));
    }
  }
}
