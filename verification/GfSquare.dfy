/** Squaring in the ring of polynomials modulo x^128 + x^7 + x^2 + x + 1: its coefficients, and that no
    element but zero has square zero. */
module GfSquare {
  import opened Gf128
  import opened GfTables

  /** q with a zero after every coefficient: q(x^2). */
  function Interleaved(q: Poly): (r: Poly)
    ensures |r| == 2 * |q|
    ensures forall i :: 0 <= i < |r| ==> r[i] == (i % 2 == 0 && q[i / 2])
  {
    if q == [] then [] else [q[0], false] + Interleaved(q[1..])
  }

  /** In characteristic two, applying q twice is applying q(x^2). */
  lemma {:induction false} ActTwice(q: Poly, v: Elem)
    ensures Act(q, Act(q, v)) == Act(Interleaved(q), v)
  {
    hide Add, MulX;
    if q == [] {
    } else {
      var c, t := q[0], q[1..];
      var once := Act(t, v);
      ActAdd(q, Scale(c, v), MulX(once));
      ActScale(q, c, v);
      ActMulX(q, once);
      ActTwice(t, v);
      MulXAdd(Scale(c, once), MulX(Act(t, once)));
      ActSpaced(c, Interleaved(t), v);
      assert MulX(Scale(c, once)) == Scale(c, MulX(once)) by {
        MulXZero();
      }
      ScaleTwice(c, v, MulX(once), MulX(MulX(Act(t, once))));
    }
  }

  lemma ActSpaced(c: bool, q: Poly, v: Elem)
    ensures Act([c, false] + q, v) == Add(Scale(c, v), MulX(MulX(Act(q, v))))
  {
    hide Add, MulX;
    var r := [c, false] + q;
    assert r[1..] == [false] + q && r[1..][1..] == q;
    AddZero(MulX(Act(q, v)));
  }

  lemma ScaleTwice(c: bool, a: Elem, b: Elem, d: Elem)
    ensures Add(Scale(c, Add(Scale(c, a), b)), Add(Scale(c, b), d)) == Add(Scale(c, a), d)
  {
  }

  /* ----- reduction of the upper half ----- */

  lemma ActBit(h: Elem)
    ensures Act([true], h) == h
  {
    hide Add, MulX;
    assert [true][1..] == [];
    MulXZero();
    AddZero(h);
  }

  lemma ModulusParts()
    ensures Modulus() == [true, true, true] + (Zeros(4) + ([true] + (Zeros(120) + [true])))
  {
  }

  lemma ActThree(h: Elem)
    ensures Act([true, true, true], h) == Add(h, Add(MulX(h), MulX(MulX(h))))
  {
    hide Add, MulX;
    assert [true, true, true][1..] == [true, true] && [true, true][1..] == [true];
    ActBit(h);
    MulXAdd(h, MulX(h));
  }

  lemma EqualWhenSumZero(a: Elem, b: Elem)
    requires Add(a, b) == ZERO
    ensures a == b
  {
    forall i | 0 <= i < 128
      ensures a[i] == b[i]
    {
      assert !Add(a, b)[i];
    }
  }

  /** x^128 is x^7 + x^2 + x + 1. */
  lemma TopPower(h: Elem)
    ensures XPow(128, h) == Add(Act([true, true, true], h), XPow(7, h))
  {
    hide Add, MulX, Act, XPow;
    ModulusParts();
    ModulusActsAsZero(h);
    ActBit(h);
    ActConcat([true, true, true], Zeros(4) + ([true] + (Zeros(120) + [true])), h);
    ActConcat(Zeros(4), [true] + (Zeros(120) + [true]), h);
    ActConcat([true], Zeros(120) + [true], h);
    ActConcat(Zeros(120), [true], h);
    ActZeros(4, h);
    ActZeros(120, h);
    AddZero(XPow(120, h));
    XPowSum(1, 120, h);
    XPowAdd(4, h, XPow(121, h));
    XPowSum(4, 121, h);
    AddZero(Add(XPow(4, h), XPow(125, h)));
    XPowAdd(3, XPow(4, h), XPow(125, h));
    XPowSum(3, 4, h);
    XPowSum(3, 125, h);
    AddAssoc(Act([true, true, true], h), XPow(7, h), XPow(128, h));
    EqualWhenSumZero(Add(Act([true, true, true], h), XPow(7, h)), XPow(128, h));
  }

  /** What a shift by k places puts at place j: the taps of the coefficients that fell out. */
  predicate Over(v: Elem, k: nat, j: int)
    requires k <= 7
  {
    k > 0 && (Over(v, k - 1, j - 1) != (v[128 - k] && Tap(j)))
  }

  lemma {:induction false} NothingOver(v: Elem, k: nat, j: int)
    requires k <= 7 && (j < 0 || j > 7 + k)
    ensures !Over(v, k, j)
  {
    if k > 0 {
      NothingOver(v, k - 1, j - 1);
    }
  }

  /** Coefficient j of x^k v. */
  lemma {:induction false} ShiftCoef(v: Elem, k: nat, j: nat)
    requires k <= 7 && j < 128
    ensures XPow(k, v)[j] == ((j >= k && v[j - k]) != Over(v, k, j))
  {
    if k > 0 {
      var u := XPow(k - 1, v);
      ShiftCoef(v, k - 1, 127);
      NothingOver(v, k - 1, 127);
      assert u[127] == v[128 - k];
      if j > 0 {
        ShiftCoef(v, k - 1, j - 1);
      } else {
        NothingOver(v, k - 1, -1);
      }
      assert XPow(k, v)[j] == MulXCoef(u, j);
    }
  }

  /* ----- the coefficients of a square ----- */

  /** The even places of the upper half of e(x^2). */
  predicate Upper(e: Elem, m: int) {
    0 <= m < 128 && m % 2 == 0 && e[64 + m / 2]
  }

  predicate Lower(e: Elem, j: nat) {
    j < 128 && j % 2 == 0 && e[j / 2]
  }

  /** What is reduced twice. */
  predicate Again(e: Elem, j: int) {
    (e[127] && (Tap(j) != Tap(j - 5))) != ((e[126] && Tap(j - 3)) != (e[125] && Tap(j - 1)))
  }

  predicate SquareCoef(e: Elem, j: nat) {
    (Lower(e, j) != Upper(e, j)) != ((Upper(e, j - 1) != Upper(e, j - 2)) != (Upper(e, j - 7) != Again(e, j)))
  }

  function UpperHalf(e: Elem): Elem {
    seq(128, (m: nat) => Upper(e, m))
  }

  function LowerHalf(e: Elem): Elem {
    seq(128, (m: nat) => Lower(e, m))
  }

  lemma SquareParts(e: Elem)
    ensures Mul(e, e) == Add(LowerHalf(e), XPow(128, UpperHalf(e)))
  {
    hide Add, MulX, XPow, Act;
    var r, lo: Poly, hi: Poly := Interleaved(e), LowerHalf(e), UpperHalf(e);
    assert r == lo + hi;
    ActOne(e);
    ActTwice(e, ONE);
    ActConcat(lo, hi, ONE);
    ActOne(lo);
    ActOne(hi);
  }

  lemma OverOfUpper(e: Elem, j: nat)
    requires j < 128
    ensures var h := UpperHalf(e);
      && Over(h, 1, j) == false
      && Over(h, 2, j) == (e[127] && Tap(j))
      && Over(h, 7, j) == ((e[127] && Tap(j - 5)) != ((e[126] && Tap(j - 3)) != (e[125] && Tap(j - 1))))
  {
    hide Tap;
    var h := UpperHalf(e);
    assert !h[127] && !h[125] && !h[123] && !h[121];
    assert h[126] == e[127] && h[124] == e[126] && h[122] == e[125];
    assert Over(h, 1, j) == false && Over(h, 1, j - 1) == false && Over(h, 1, j - 6) == false;
    assert Over(h, 2, j - 5) == (e[127] && Tap(j - 5));
    assert Over(h, 3, j - 4) == Over(h, 2, j - 5);
    assert Over(h, 4, j - 3) == (Over(h, 3, j - 4) != (e[126] && Tap(j - 3)));
    assert Over(h, 5, j - 2) == Over(h, 4, j - 3);
    assert Over(h, 6, j - 1) == (Over(h, 5, j - 2) != (e[125] && Tap(j - 1)));
  }

  /** Coefficient j of the square of e. */
  lemma SquareAt(e: Elem, j: nat)
    requires j < 128
    ensures Mul(e, e)[j] == SquareCoef(e, j)
  {
    hide MulX, XPow, Act, Over, Mul;
    var h := UpperHalf(e);
    SquareParts(e);
    TopPower(h);
    ActThree(h);
    XPowOneTwo(h);
    ShiftCoef(h, 1, j);
    ShiftCoef(h, 2, j);
    ShiftCoef(h, 7, j);
    OverOfUpper(e, j);
    SumCoef(LowerHalf(e), h, MulX(h), MulX(MulX(h)), XPow(7, h), j);
  }

  lemma SumCoef(l: Elem, a: Elem, b: Elem, c: Elem, d: Elem, j: nat)
    requires j < 128
    ensures Add(l, Add(Add(a, Add(b, c)), d))[j] == ((l[j] != a[j]) != ((b[j] != c[j]) != d[j]))
  {
  }

  lemma XPowOneTwo(h: Elem)
    ensures XPow(1, h) == MulX(h) && XPow(2, h) == MulX(MulX(h))
  {
    assert XPow(1, h) == MulX(XPow(0, h));
    assert XPow(2, h) == MulX(XPow(1, h));
  }

  /** The odd coefficients from 7 on. */
  lemma OddCoef(e: Elem, i: nat)
    requires 67 <= i < 128
    ensures SquareCoef(e, 2 * i - 127) == (e[i] != e[i - 3])
  {
  }

  /** The even coefficients from 14 on. */
  lemma EvenCoef(e: Elem, t: nat)
    requires 7 <= t < 64
    ensures SquareCoef(e, 2 * t) == (e[t] != (e[64 + t] != e[63 + t]))
  {
  }

  /** Coefficients that repeat with period three. */
  lemma {:induction false} Period(a: Elem, i: nat, k: nat)
    requires forall n :: 67 <= n < 128 ==> a[n] == a[n - 3]
    requires 64 <= i && i + 3 * k < 128
    ensures a[i + 3 * k] == a[i]
  {
    if k > 0 {
      Period(a, i, k - 1);
    }
  }

  lemma UpperZero(a: Elem)
    requires Mul(a, a) == ZERO
    ensures forall i :: 64 <= i < 128 ==> !a[i]
  {
    hide Mul;
    forall n | 67 <= n < 128
      ensures a[n] == a[n - 3]
    {
      OddCoef(a, n);
      SquareAt(a, 2 * n - 127);
    }
    SquareAt(a, 1);
    SquareAt(a, 3);
    SquareAt(a, 5);
    Period(a, 64, 21);
    Period(a, 65, 20);
    Period(a, 66, 20);
    FirstOdd(a);
    forall i | 64 <= i < 128
      ensures !a[i]
    {
      Period(a, 64 + (i - 64) % 3, (i - 64) / 3);
    }
  }

  lemma FirstOdd(e: Elem)
    ensures SquareCoef(e, 1) == (e[64] != (e[127] != e[125]))
    ensures SquareCoef(e, 3) == (e[65] != (e[126] != e[125]))
    ensures SquareCoef(e, 5) == (e[66] != (e[127] != e[126]))
  {
  }

  lemma FirstEven(e: Elem)
    ensures SquareCoef(e, 0) == ((e[0] != e[64]) != e[127])
    ensures SquareCoef(e, 2) == ((e[1] != e[65]) != ((e[64] != e[127]) != e[125]))
    ensures SquareCoef(e, 4) == (((e[2] != e[66]) != e[65]) != e[126])
  {
  }

  lemma NextEven(e: Elem)
    ensures SquareCoef(e, 6) == (((e[3] != e[67]) != e[66]) != e[127])
    ensures SquareCoef(e, 8) == (((e[4] != e[68]) != e[67]) != e[125])
  {
  }

  lemma LastEven(e: Elem)
    ensures SquareCoef(e, 10) == (((e[5] != e[69]) != e[68]) != e[126])
    ensures SquareCoef(e, 12) == (((e[6] != e[70]) != e[69]) != e[127])
  {
  }

  /** No element but zero has square zero. */
  lemma SquareZero(a: Elem)
    requires Mul(a, a) == ZERO
    ensures a == ZERO
  {
    hide Mul;
    UpperZero(a);
    forall t | 0 <= t < 64
      ensures !a[t]
    {
      SquareAt(a, 2 * t);
    }
  }
}
