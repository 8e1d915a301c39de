/** Polynomials over the scalars, and Lagrange interpolation at zero. */
module Polynomials {
  import opened PrimeField

  /** Coefficients, low degree first. */
  type Poly = seq<Scalar>

  function Eval(q: Poly, x: Scalar): Scalar {
    if q == [] then 0 else Add(q[0], Mul(x, Eval(q[1..], x)))
  }

  /** Horner's method, from the highest coefficient down. */
  method Horner(q: Poly, x: Scalar) returns (acc: Scalar)
    ensures acc == Eval(q, x)
  {
    acc := 0;
    var k := |q|;
    while k > 0
      invariant 0 <= k <= |q|
      invariant acc == Eval(q[k..], x)
    {
      k := k - 1;
      MulComm(acc, x);
      assert q[k..][1..] == q[k + 1..];
      acc := Add(Mul(acc, x), q[k]);
    }
    assert q[0..] == q;
  }

  function Pow(x: Scalar, n: nat): Scalar {
    if n == 0 then 1 else Mul(x, Pow(x, n - 1))
  }

  /** The sum of q[i] * x^(k + i), the textbook meaning of evaluation. */
  function PowerSum(q: Poly, x: Scalar, k: nat): Scalar {
    if q == [] then 0 else Add(Mul(q[0], Pow(x, k)), PowerSum(q[1..], x, k + 1))
  }

  lemma {:induction false} EvalIsPowerSum(q: Poly, x: Scalar, k: nat)
    ensures PowerSum(q, x, k) == Mul(Pow(x, k), Eval(q, x))
  {
    hide Add, Mul;
    if q == [] {
      MulUnit(Pow(x, k));
    } else {
      var e := Eval(q[1..], x);
      EvalIsPowerSum(q[1..], x, k + 1);
      Distrib(Pow(x, k), q[0], Mul(x, e));
      MulComm(q[0], Pow(x, k));
      MulAssoc(Pow(x, k), x, e);
      MulComm(x, Pow(x, k));
    }
  }

  lemma EvalAtZero(q: Poly)
    ensures Eval(q, 0) == if q == [] then 0 else q[0]
  {
    hide Add, Mul;
    if q != [] {
      MulUnit(Eval(q[1..], 0));
    }
  }

  // ----- Synthetic division: q(x) = q(z) + (x - z) * Quot(q, z)(x) -----

  function Quot(q: Poly, z: Scalar): (h: Poly)
    ensures |h| == if |q| == 0 then 0 else |q| - 1
  {
    if |q| <= 1 then [] else [Eval(q[1..], z)] + Quot(q[1..], z)
  }

  lemma {:induction false} SyntheticDivision(q: Poly, z: Scalar, x: Scalar)
    ensures Eval(q, x) == Add(Eval(q, z), Mul(Sub(x, z), Eval(Quot(q, z), x)))
  {
    hide Add, Sub, Mul;
    if |q| <= 1 {
      MulUnit(Sub(x, z));
      if |q| == 1 {
        assert q[1..] == [];
        MulUnit(x);
        MulUnit(z);
      }
    } else {
      SyntheticDivision(q[1..], z, x);
      var d, u, v, h := Sub(x, z), Eval(q[1..], x), Eval(q[1..], z), Eval(Quot(q[1..], z), x);
      assert u == Add(v, Mul(d, h));
      assert Quot(q, z)[1..] == Quot(q[1..], z);
      assert Eval(Quot(q, z), x) == Add(v, Mul(x, h));
      DivisionStep(q[0], x, z, u, v, h);
    }
  }

  lemma DivisionStep(c: Scalar, x: Scalar, z: Scalar, u: Scalar, v: Scalar, h: Scalar)
    requires u == Add(v, Mul(Sub(x, z), h))
    ensures Add(c, Mul(x, u)) == Add(Add(c, Mul(z, v)), Mul(Sub(x, z), Add(v, Mul(x, h))))
  {
    hide *;
    var d := Sub(x, z);
    Distrib(x, v, Mul(d, h));
    MulAssoc(x, d, h);
    MulComm(x, d);
    MulAssoc(d, x, h);
    Distrib(d, v, Mul(x, h));
    DistribSub(v, x, z);
    AddShuffle(c, Mul(x, v), Mul(z, v), Mul(d, Mul(x, h)));
  }

  lemma AddShuffle(c: Scalar, a: Scalar, z: Scalar, w: Scalar)
    ensures Add(c, Add(a, w)) == Add(Add(c, z), Add(Sub(a, z), w))
  {
    hide *;
  }

  // ----- Finite sums -----

  function Sum(f: Scalar -> Scalar, xs: seq<Scalar>): Scalar {
    if xs == [] then 0 else Add(Sum(f, xs[..|xs| - 1]), f(xs[|xs| - 1]))
  }

  lemma {:induction false} SumFront(f: Scalar -> Scalar, xs: seq<Scalar>)
    requires xs != []
    ensures Sum(f, xs) == Add(f(xs[0]), Sum(f, xs[1..]))
  {
    hide Add;
    if |xs| == 1 {
      assert xs[..0] == [] && xs[1..] == [];
    } else {
      var n := |xs| - 1;
      SumFront(f, xs[..n]);
      assert xs[..n][1..] == xs[1..][..n - 1];
    }
  }

  lemma {:induction false} SumLinear(
      f: Scalar -> Scalar, g: Scalar -> Scalar, h: Scalar -> Scalar, c: Scalar, d: Scalar, xs: seq<Scalar>)
    requires forall x :: x in xs ==> h(x) == Add(Mul(c, f(x)), Mul(d, g(x)))
    ensures Sum(h, xs) == Add(Mul(c, Sum(f, xs)), Mul(d, Sum(g, xs)))
  {
    hide Add, Mul;
    if xs == [] {
      MulUnit(c);
      MulUnit(d);
    } else {
      var n := |xs| - 1;
      var x := xs[n];
      SumLinear(f, g, h, c, d, xs[..n]);
      Distrib(c, Sum(f, xs[..n]), f(x));
      Distrib(d, Sum(g, xs[..n]), g(x));
      AddInterchange(Mul(c, Sum(f, xs[..n])), Mul(d, Sum(g, xs[..n])), Mul(c, f(x)), Mul(d, g(x)));
    }
  }

  // ----- Lagrange coefficients at zero -----

  predicate Distinct(xs: seq<Scalar>) {
    forall i, j :: 0 <= i < j < |xs| ==> xs[i] != xs[j]
  }

  /** Product of (0 - j) over the entries j of xs other than i. */
  function Num(xs: seq<Scalar>, i: Scalar): Scalar {
    if xs == [] then
      1
    else
      var n := |xs| - 1;
      if xs[n] == i then Num(xs[..n], i) else Mul(Num(xs[..n], i), Neg(xs[n]))
  }

  /** Product of (i - j) over the entries j of xs other than i; never zero. */
  function Den(xs: seq<Scalar>, i: Scalar): (d: Scalar)
    ensures d != 0
  {
    if xs == [] then
      1
    else
      var n := |xs| - 1;
      if xs[n] == i then
        Den(xs[..n], i)
      else
        NoZeroDivisors(Den(xs[..n], i), Sub(i, xs[n]));
        Mul(Den(xs[..n], i), Sub(i, xs[n]))
  }

  function Coeff(xs: seq<Scalar>, i: Scalar): Scalar {
    Mul(Num(xs, i), Inv(Den(xs, i)))
  }

  lemma {:induction false} CoeffNonZero(xs: seq<Scalar>, i: Scalar)
    requires 0 !in xs
    ensures Num(xs, i) != 0 && Coeff(xs, i) != 0
  {
    hide Add, Sub, Mul, Inv;
    if xs != [] {
      var n := |xs| - 1;
      CoeffNonZero(xs[..n], i);
      NoZeroDivisors(Num(xs[..n], i), Neg(xs[n]));
    }
    InvNonZero(Den(xs, i));
    NoZeroDivisors(Num(xs, i), Inv(Den(xs, i)));
  }

  lemma InvNonZero(a: Scalar)
    requires a != 0
    ensures Inv(a) != 0
  {
    hide *;
    MulUnit(a);
  }

  lemma {:induction false} NumDenFront(xs: seq<Scalar>, i: Scalar)
    requires xs != [] && i != xs[0]
    ensures Num(xs, i) == Mul(Num(xs[1..], i), Neg(xs[0]))
    ensures Den(xs, i) == Mul(Den(xs[1..], i), Sub(i, xs[0]))
  {
    hide Add, Sub, Mul;
    var n := |xs| - 1;
    if n == 0 {
      assert xs[..0] == [] && xs[1..] == [];
    } else {
      NumDenFront(xs[..n], i);
      assert xs[..n][1..] == xs[1..][..n - 1];
      MulSwap(Num(xs[1..][..n - 1], i), Neg(xs[0]), Neg(xs[n]));
      MulSwap(Den(xs[1..][..n - 1], i), Sub(i, xs[0]), Sub(i, xs[n]));
    }
  }

  /** Dropping the point z divides the coefficient of x by (0 - z) / (x - z). */
  lemma CoeffDrop(all: seq<Scalar>, ys: seq<Scalar>, z: Scalar, x: Scalar)
    requires x != z
    requires Num(all, x) == Mul(Num(ys, x), Neg(z))
    requires Den(all, x) == Mul(Den(ys, x), Sub(x, z))
    ensures Mul(Coeff(all, x), Sub(x, z)) == Mul(Coeff(ys, x), Neg(z))
  {
    hide Add, Sub, Mul, Inv, Num, Den;
    var n, d, e := Num(ys, x), Den(ys, x), Sub(x, z);
    InvMul(d, e);
    MulInterchange(n, Neg(z), Inv(d), Inv(e));
    MulAssoc(Coeff(ys, x), Mul(Neg(z), Inv(e)), e);
    MulAssoc(Neg(z), Inv(e), e);
    MulComm(e, Inv(e));
    MulUnit(Neg(z));
  }

  /** `ys` is `all` with its first or its last entry z removed. */
  predicate Dropped(all: seq<Scalar>, ys: seq<Scalar>, z: Scalar) {
    all == ys + [z] || all == [z] + ys
  }

  lemma DroppedCoeff(all: seq<Scalar>, ys: seq<Scalar>, z: Scalar, x: Scalar)
    requires Dropped(all, ys, z) && x != z
    ensures Mul(Coeff(all, x), Sub(x, z)) == Mul(Coeff(ys, x), Neg(z))
  {
    hide Add, Sub, Mul, Inv;
    if all == [z] + ys {
      NumDenFront(all, x);
      assert all[1..] == ys;
    } else {
      assert all[..|all| - 1] == ys;
    }
    CoeffDrop(all, ys, z, x);
  }

  lemma DroppedSum(all: seq<Scalar>, ys: seq<Scalar>, z: Scalar, f: Scalar -> Scalar)
    requires Dropped(all, ys, z)
    ensures Sum(f, all) == Add(Sum(f, ys), f(z))
  {
    hide Add;
    if all == [z] + ys {
      SumFront(f, all);
      assert all[1..] == ys;
    } else {
      assert all[..|all| - 1] == ys;
    }
  }

  lemma DroppedDistinct(all: seq<Scalar>, ys: seq<Scalar>, z: Scalar)
    requires Dropped(all, ys, z) && Distinct(all)
    ensures z !in ys && Distinct(ys)
  {
    var s := if all == [z] + ys then 1 else 0;
    assert forall i :: 0 <= i < |ys| ==> ys[i] == all[i + s];
    assert z == all[if s == 1 then 0 else |ys|];
  }

  /** The interpolation term of q at x. */
  function Term(q: Poly, all: seq<Scalar>): Scalar -> Scalar {
    (x: Scalar) => Mul(Eval(q, x), Coeff(all, x))
  }

  function Weight(all: seq<Scalar>): Scalar -> Scalar {
    (x: Scalar) => Coeff(all, x)
  }

  lemma PeelTerm(all: seq<Scalar>, ys: seq<Scalar>, z: Scalar, q: Poly, x: Scalar)
    requires Dropped(all, ys, z) && x != z
    ensures Term(q, all)(x) == Add(Mul(Eval(q, z), Weight(all)(x)), Mul(Neg(z), Term(Quot(q, z), ys)(x)))
  {
    hide Add, Sub, Mul, Inv, Coeff, Dropped, Eval;
    var a, h, c, d := Eval(q, z), Eval(Quot(q, z), x), Coeff(all, x), Sub(x, z);
    SyntheticDivision(q, z, x);
    Distrib(c, a, Mul(d, h));
    DroppedCoeff(all, ys, z, x);
    MulSwap(d, h, c);
    MulComm(d, c);
    MulSwap(Coeff(ys, x), Neg(z), h);
    MulComm(Mul(Coeff(ys, x), h), Neg(z));
    MulComm(Coeff(ys, x), h);
  }

  /** Neville-style step: interpolating q over `all` reduces to interpolating its
      quotient by (x - z) over the other points. */
  lemma Peel(all: seq<Scalar>, ys: seq<Scalar>, z: Scalar, q: Poly)
    requires Dropped(all, ys, z) && z !in ys
    ensures Sum(Term(q, all), all)
         == Add(Mul(Eval(q, z), Sum(Weight(all), all)), Mul(Neg(z), Sum(Term(Quot(q, z), ys), ys)))
  {
    hide *;
    var f, w, e := Term(q, all), Weight(all), Term(Quot(q, z), ys);
    forall x | x in ys
      ensures f(x) == Add(Mul(Eval(q, z), w(x)), Mul(Neg(z), e(x)))
    {
      PeelTerm(all, ys, z, q, x);
    }
    SumLinear(w, e, f, Eval(q, z), Neg(z), ys);
    DroppedSum(all, ys, z, f);
    DroppedSum(all, ys, z, w);
    Distrib(Eval(q, z), Sum(w, ys), w(z));
    assert f(z) == Mul(Eval(q, z), w(z)) by {
      TermIsWeighted(q, all, z);
    }
  }

  lemma TermIsWeighted(q: Poly, all: seq<Scalar>, x: Scalar)
    ensures Term(q, all)(x) == Mul(Eval(q, x), Weight(all)(x))
  {
  }

  /** The coefficients sum to one: peel the polynomial x at both ends and compare. */
  lemma {:induction false} WeightsSumToOne(all: seq<Scalar>)
    requires all != [] && Distinct(all)
    ensures Sum(Weight(all), all) == 1
    decreases |all|, 0
  {
    hide Add, Sub, Mul, Inv, Num, Den, Coeff, Eval, Term, Weight, Sum;
    if |all| == 1 {
      SinglePoint(all[0]);
      assert all == [all[0]];
    } else {
      var n := |all| - 1;
      var w := Sum(Weight(all), all);
      PeelIdentity(all, all[1..], all[0]);
      PeelIdentity(all, all[..n], all[n]);
      assert Mul(Sub(all[0], all[n]), Sub(w, 1)) == 0 by {
        DistribSub(Sub(w, 1), all[0], all[n]);
      }
      NoZeroDivisors(Sub(all[0], all[n]), Sub(w, 1));
    }
  }

  lemma SinglePoint(z: Scalar)
    ensures Sum(Weight([z]), [z]) == 1
  {
    hide Add, Sub, Mul, Inv;
    var xs := [z];
    assert xs[..0] == [];
    assert Num(xs, z) == 1 && Den(xs, z) == 1;
    MulUnit(1);
    InvUnique(1, 1);
    assert Coeff(xs, z) == 1;
  }

  /** Interpolating the polynomial x itself. */
  lemma {:induction false} PeelIdentity(all: seq<Scalar>, ys: seq<Scalar>, z: Scalar)
    requires Dropped(all, ys, z) && Distinct(all) && ys != [] && |ys| < |all|
    ensures Sum(Term([0, 1], all), all) == Mul(z, Sub(Sum(Weight(all), all), 1))
    decreases |ys|, 1
  {
    hide Add, Sub, Mul, Inv, Num, Den, Coeff, Term, Weight, Eval, Quot, Sum;
    var w := Sum(Weight(all), all);
    DroppedDistinct(all, ys, z);
    Peel(all, ys, z, [0, 1]);
    IdentityAt(z);
    ConstantTerm(ys);
    WeightsSumToOne(ys);
    MulNeg(z, 1);
    MulUnit(z);
    DistribSub(z, w, 1);
  }

  lemma IdentityAt(z: Scalar)
    ensures Eval([0, 1], z) == z && Quot([0, 1], z) == [1]
  {
    hide Add, Sub, Mul;
    EvalConstant(1, z);
    assert [0, 1][1..] == [1];
    MulUnit(z);
  }

  lemma EvalConstant(c: Scalar, x: Scalar)
    ensures Eval([c], x) == c
  {
    hide Add, Mul;
    assert [c][1..] == [];
    MulUnit(x);
  }

  lemma ConstantTerm(ys: seq<Scalar>)
    ensures Sum(Term([1], ys), ys) == Sum(Weight(ys), ys)
  {
    hide Add, Sub, Mul, Inv, Num, Den, Coeff, Sum;
    var t, w := Term([1], ys), Weight(ys);
    forall x | x in ys
      ensures t(x) == Add(Mul(1, w(x)), Mul(0, w(x)))
    {
      EvalConstant(1, x);
      MulUnit(w(x));
    }
    SumLinear(w, w, t, 1, 0, ys);
    MulUnit(Sum(w, ys));
  }

  /** Lagrange interpolation at zero over any list of distinct points. */
  lemma {:induction false} InterpolateAtZero(all: seq<Scalar>, q: Poly)
    requires Distinct(all) && |q| <= |all|
    ensures Sum(Term(q, all), all) == Eval(q, 0)
  {
    hide Add, Sub, Mul, Inv, Num, Den, Coeff, Term, Weight;
    if all == [] {
    } else {
      var n := |all| - 1;
      var z, ys := all[n], all[..n];
      Peel(all, ys, z, q);
      WeightsSumToOne(all);
      InterpolateAtZero(ys, Quot(q, z));
      SyntheticDivision(q, z, 0);
      MulUnit(Eval(q, z));
    }
  }

  // ----- Combining points -----

  datatype Point = Point(index: Scalar, value: Scalar)

  function Indices(points: seq<Point>): (xs: seq<Scalar>)
    ensures |xs| == |points|
    ensures forall k :: 0 <= k < |xs| ==> xs[k] == points[k].index
  {
    if points == [] then [] else Indices(points[..|points| - 1]) + [points[|points| - 1].index]
  }

  /** The values of `points` weighted by their coefficients among all the indices `all`. */
  function Weighted(all: seq<Scalar>, points: seq<Point>): Scalar {
    if points == [] then
      0
    else
      var n := |points| - 1;
      Add(Weighted(all, points[..n]), Mul(points[n].value, Coeff(all, points[n].index)))
  }

  function Lagrange(points: seq<Point>): Scalar {
    Weighted(Indices(points), points)
  }

  /** The double loop of the source; no denominator it inverts is ever zero. */
  method LagrangeCombine(points: seq<Point>) returns (acc: Scalar)
    ensures acc == Lagrange(points)
  {
    acc := 0;
    ghost var all := Indices(points);
    for a := 0 to |points|
      invariant acc == Weighted(all, points[..a])
    {
      var i := points[a].index;
      var num: Scalar, den: Scalar := 1, 1;
      for b := 0 to |points|
        invariant num == Num(all[..b], i) && den == Den(all[..b], i)
      {
        var j := points[b].index;
        assert all[..b + 1][..b] == all[..b];
        if i != j {
          num := Mul(num, Neg(j));
          den := Mul(den, Sub(i, j));
        }
      }
      assert all[..|points|] == all;
      assert points[..a + 1][..a] == points[..a];
      acc := Add(acc, Mul(points[a].value, Mul(num, Inv(den))));
    }
    assert points[..|points|] == points;
  }

  /** Every point lies on r times the polynomial. */
  predicate OnPolynomial(points: seq<Point>, q: Poly, r: Scalar) {
    forall p <- points :: p.value == Mul(r, Eval(q, p.index))
  }

  lemma {:induction false} WeightedIsSum(all: seq<Scalar>, points: seq<Point>, q: Poly, r: Scalar)
    requires OnPolynomial(points, q, r)
    ensures Weighted(all, points) == Mul(r, Sum(Term(q, all), Indices(points)))
  {
    hide Add, Mul, Coeff, Eval;
    if points == [] {
      MulUnit(r);
    } else {
      var n := |points| - 1;
      var x := points[n].index;
      WeightedIsSum(all, points[..n], q, r);
      assert points[n] in points;
      MulAssoc(r, Eval(q, x), Coeff(all, x));
      Distrib(r, Sum(Term(q, all), Indices(points[..n])), Term(q, all)(x));
      assert Indices(points)[..n] == Indices(points[..n]);
    }
  }

  /** Points on r * q, as many as q has coefficients, interpolate to r * q(0). */
  lemma LagrangeAtZero(points: seq<Point>, q: Poly, r: Scalar)
    requires Distinct(Indices(points)) && |q| <= |points| && OnPolynomial(points, q, r)
    ensures Lagrange(points) == Mul(r, Eval(q, 0))
  {
    hide Add, Mul, Coeff, Eval, Sum, Term, Weighted, Indices;
    WeightedIsSum(Indices(points), points, q, r);
    InterpolateAtZero(Indices(points), q);
  }
}
