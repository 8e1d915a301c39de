/** Exactly when recombination is correct: a gate of threshold zero that the choice visits
    contributes the identity instead of its secret, and some sharing shows it. */
module Exactness {
  import opened Wrappers
  import opened PrimeField
  import opened Polynomials
  import opened AccessTrees
  import opened Sharing
  import opened Recombination
  import opened LinearForms
  import opened Hiding

  /** What a choice recovers from honest shares of s. */
  function Rebuilt(t: AccessTree, s: Scalar, tape: Tape, c: Choice): Scalar
    requires |tape| == Draws(t)
    decreases t, 0
  {
    match t
    case Leaf(_) => s
    case Gate(k, cs) =>
      var d := Degree(k);
      if c.Combine? && |c.picks| == |cs| then
        Lagrange(RebuiltPoints(cs, 1, [s] + tape[..d], tape[d..], c.picks))
      else
        0
  }

  function RebuiltPoints(cs: seq<AccessTree>, first: nat, q: Poly, tape: Tape, picks: seq<Choice>): seq<Point>
    requires |picks| == |cs| && |tape| == DrawsOf(cs)
    decreases cs
  {
    if cs == [] then
      []
    else
      var n := Draws(cs[0]);
      RebuiltPoint(cs[0], first, q, tape[..n], picks[0]) + RebuiltPoints(cs[1..], first + 1, q, tape[n..], picks[1..])
  }

  function RebuiltPoint(c: AccessTree, first: nat, q: Poly, tape: Tape, pick: Choice): seq<Point>
    requires |tape| == Draws(c)
    decreases c, 1
  {
    if pick.Skip? then [] else
      var x := IndexScalar(first);
      [Point(x, Rebuilt(c, Eval(q, x), tape, pick))]
  }

  lemma {:induction false} FollowIsRebuilt(t: AccessTree, s: Scalar, tape: Tape, path: seq<nat>,
                                           results: LeafResults, held: set<string>, c: Choice)
    requires |tape| == Draws(t) && ValidChoice(t, held, c)
    requires Matches(t, results, path, held) && Honest(SharesOf(t, s, tape, path), results, 1)
    ensures Follow(t, results, path, c) == Rebuilt(t, s, tape, c)
    decreases t
  {
    hide Mul, Eval, Lagrange;
    match t
    case Leaf(_) =>
      MulUnit(s);
      assert Share(path, t.attr, s) in SharesOf(t, s, tape, path);
    case Gate(k, cs) =>
      var d := Degree(k);
      PointsAreRebuilt(cs, 1, [s] + tape[..d], tape[d..], path, results, held, c.picks);
  }

  lemma {:induction false} PointsAreRebuilt(cs: seq<AccessTree>, first: nat, q: Poly, tape: Tape, path: seq<nat>,
                                            results: LeafResults, held: set<string>, picks: seq<Choice>)
    requires |tape| == DrawsOf(cs) && |picks| == |cs| && ValidPicks(cs, held, picks)
    requires MatchesAll(cs, first, results, path, held)
    requires Honest(SharesOfChildren(cs, first, q, tape, path), results, 1)
    ensures PickedPoints(cs, first, results, path, picks) == RebuiltPoints(cs, first, q, tape, picks)
    decreases cs
  {
    hide Mul, Eval, Lagrange;
    if cs != [] {
      var n, x := Draws(cs[0]), Eval(q, IndexScalar(first));
      var head, tail := SharesOf(cs[0], x, tape[..n], path + [first]),
                        SharesOfChildren(cs[1..], first + 1, q, tape[n..], path);
      assert SharesOfChildren(cs, first, q, tape, path) == head + tail;
      if !picks[0].Skip? {
        FollowIsRebuilt(cs[0], x, tape[..n], path + [first], results, held, picks[0]);
      }
      PointsAreRebuilt(cs[1..], first + 1, q, tape[n..], path, results, held, picks[1..]);
    }
  }

  // ----- Sharing zero with an all-zero tape -----

  function Zeros(n: nat): (zs: Tape)
    ensures |zs| == n
    ensures forall i :: 0 <= i < n ==> zs[i] == 0
  {
    seq(n, _ => 0)
  }

  lemma {:induction false} EvalZeros(q: Poly, x: Scalar)
    requires forall i :: 0 <= i < |q| ==> q[i] == 0
    ensures Eval(q, x) == 0
  {
    hide Add, Mul;
    if q != [] {
      EvalZeros(q[1..], x);
      MulUnit(x);
    }
  }

  lemma {:induction false} WeightedZeros(all: seq<Scalar>, points: seq<Point>)
    requires forall p <- points :: p.value == 0
    ensures Weighted(all, points) == 0
  {
    hide Add, Mul, Coeff;
    if points != [] {
      var n := |points| - 1;
      WeightedZeros(all, points[..n]);
      assert points[n] in points;
      MulUnit(Coeff(all, points[n].index));
    }
  }

  lemma {:induction false} ZeroRebuilt(t: AccessTree, tape: Tape, c: Choice)
    requires |tape| == Draws(t) && forall i :: 0 <= i < |tape| ==> tape[i] == 0
    ensures Rebuilt(t, 0, tape, c) == 0
    decreases t
  {
    hide Eval, Weighted;
    if t.Gate? && c.Combine? && |c.picks| == |t.children| {
      var d := Degree(t.threshold);
      var points := RebuiltPoints(t.children, 1, [0] + tape[..d], tape[d..], c.picks);
      ZeroPoints(t.children, 1, [0] + tape[..d], tape[d..], c.picks);
      WeightedZeros(Indices(points), points);
    }
  }

  lemma {:induction false} ZeroPoints(cs: seq<AccessTree>, first: nat, q: Poly, tape: Tape, picks: seq<Choice>)
    requires |picks| == |cs| && |tape| == DrawsOf(cs)
    requires forall i :: 0 <= i < |q| ==> q[i] == 0
    requires forall i :: 0 <= i < |tape| ==> tape[i] == 0
    ensures forall p <- RebuiltPoints(cs, first, q, tape, picks) :: p.value == 0
    decreases cs
  {
    hide Eval, Rebuilt;
    if cs != [] {
      var n, x := Draws(cs[0]), IndexScalar(first);
      EvalZeros(q, x);
      ZeroRebuilt(cs[0], tape[..n], picks[0]);
      ZeroPoints(cs[1..], first + 1, q, tape[n..], picks[1..]);
    }
  }

  // ----- A gate whose polynomial vanishes at every child used but one -----

  /** The points that a correct recombination would interpolate. */
  function HonestPoints(first: nat, q: Poly, picks: seq<Choice>): seq<Point>
    decreases picks
  {
    if picks == [] then
      []
    else
      HonestPoint(first, q, picks[0]) + HonestPoints(first + 1, q, picks[1..])
  }

  function HonestPoint(first: nat, q: Poly, pick: Choice): seq<Point> {
    if pick.Skip? then [] else [Point(IndexScalar(first), Eval(q, IndexScalar(first)))]
  }

  /** The tape that is zero for every child but the one numbered `target`. */
  function TapeFor(cs: seq<AccessTree>, first: nat, target: nat, own: Tape): (tape: Tape)
    requires first <= target < first + |cs| ==> |own| == Draws(cs[target - first])
    ensures |tape| == DrawsOf(cs)
    decreases cs
  {
    if cs == [] then []
    else (if first == target then own else Zeros(Draws(cs[0]))) + TapeFor(cs[1..], first + 1, target, own)
  }

  /** The error that the child numbered `target` contributes. */
  function Error(cs: seq<AccessTree>, first: nat, target: nat, own: Tape, q: Poly, picks: seq<Choice>,
                 all: seq<Scalar>): Scalar
    requires |picks| == |cs|
    requires first <= target < first + |cs| ==> |own| == Draws(cs[target - first])
  {
    if first <= target < first + |cs| && !picks[target - first].Skip? then
      var x := IndexScalar(target);
      Mul(Sub(Rebuilt(cs[target - first], Eval(q, x), own, picks[target - first]), Eval(q, x)), Coeff(all, x))
    else
      0
  }

  /** The polynomial is zero at the children used, the one numbered `target` aside. */
  predicate VanishesBut(cs: seq<AccessTree>, first: nat, target: nat, q: Poly, picks: seq<Choice>)
    requires |picks| == |cs|
  {
    forall i :: 0 <= i < |cs| && first + i != target && !picks[i].Skip? ==> Eval(q, IndexScalar(first + i)) == 0
  }

  lemma VanishesCons(cs: seq<AccessTree>, first: nat, target: nat, q: Poly, picks: seq<Choice>)
    requires |picks| == |cs| > 0 && VanishesBut(cs, first, target, q, picks)
    ensures VanishesBut(cs[1..], first + 1, target, q, picks[1..])
    ensures first != target && !picks[0].Skip? ==> Eval(q, IndexScalar(first)) == 0
  {
    hide Eval, IndexScalar;
    forall i | 0 <= i < |cs| - 1 && first + 1 + i != target && !picks[1..][i].Skip?
      ensures Eval(q, IndexScalar(first + 1 + i)) == 0
    {
      assert picks[1..][i] == picks[i + 1];
    }
  }

  lemma RebuiltCons(cs: seq<AccessTree>, first: nat, q: Poly, mine: Tape, rest: Tape, picks: seq<Choice>)
    requires |picks| == |cs| > 0 && |mine| == Draws(cs[0]) && |rest| == DrawsOf(cs[1..])
    ensures |mine + rest| == DrawsOf(cs)
    ensures RebuiltPoints(cs, first, q, mine + rest, picks)
         == RebuiltPoint(cs[0], first, q, mine, picks[0]) + RebuiltPoints(cs[1..], first + 1, q, rest, picks[1..])
  {
    hide RebuiltPoint;
    assert (mine + rest)[..|mine|] == mine && (mine + rest)[|mine|..] == rest;
  }

  lemma {:induction false} Gap(cs: seq<AccessTree>, first: nat, target: nat, own: Tape, q: Poly, picks: seq<Choice>,
                               all: seq<Scalar>)
    requires |picks| == |cs|
    requires first <= target < first + |cs| ==> |own| == Draws(cs[target - first])
    requires VanishesBut(cs, first, target, q, picks)
    ensures Weighted(all, RebuiltPoints(cs, first, q, TapeFor(cs, first, target, own), picks))
         == Add(Weighted(all, HonestPoints(first, q, picks)), Error(cs, first, target, own, q, picks, all))
    decreases cs
  {
    hide *;
    if cs == [] {
      GapNone(first, target, own, q, all);
    } else {
      var mine, rest := TapeCons(cs, first, target, own);
      VanishesCons(cs, first, target, q, picks);
      HonestCons(first, q, picks);
      RebuiltCons(cs, first, q, mine, rest, picks);
      Gap(cs[1..], first + 1, target, own, q, picks[1..], all);
      GapStep(cs, first, target, own, q, picks, all, mine, RebuiltPoints(cs[1..], first + 1, q, rest, picks[1..]),
              HonestPoints(first + 1, q, picks[1..]));
    }
  }

  lemma GapNone(first: nat, target: nat, own: Tape, q: Poly, all: seq<Scalar>)
    ensures Weighted(all, RebuiltPoints([], first, q, TapeFor([], first, target, own), []))
         == Add(Weighted(all, HonestPoints(first, q, [])), Error([], first, target, own, q, [], all))
  {
    hide Weighted, Add;
    assert Weighted(all, []) == 0 by {
      WeightedZeros(all, []);
    }
  }

  lemma TapeCons(cs: seq<AccessTree>, first: nat, target: nat, own: Tape) returns (mine: Tape, rest: Tape)
    requires cs != [] && (first <= target < first + |cs| ==> |own| == Draws(cs[target - first]))
    ensures mine == if first == target then own else Zeros(Draws(cs[0]))
    ensures rest == TapeFor(cs[1..], first + 1, target, own) && TapeFor(cs, first, target, own) == mine + rest
  {
    mine, rest := if first == target then own else Zeros(Draws(cs[0])), TapeFor(cs[1..], first + 1, target, own);
  }

  lemma HonestCons(first: nat, q: Poly, picks: seq<Choice>)
    requires picks != []
    ensures HonestPoints(first, q, picks) == HonestPoint(first, q, picks[0]) + HonestPoints(first + 1, q, picks[1..])
  {
  }

  lemma GapStep(cs: seq<AccessTree>, first: nat, target: nat, own: Tape, q: Poly, picks: seq<Choice>,
                all: seq<Scalar>, mine: Tape, tail: seq<Point>, honest: seq<Point>)
    requires |picks| == |cs| > 0
    requires first <= target < first + |cs| ==> |own| == Draws(cs[target - first])
    requires mine == if first == target then own else Zeros(Draws(cs[0]))
    requires first != target && !picks[0].Skip? ==> Eval(q, IndexScalar(first)) == 0
    requires Weighted(all, tail)
          == Add(Weighted(all, honest), Error(cs[1..], first + 1, target, own, q, picks[1..], all))
    ensures Weighted(all, RebuiltPoint(cs[0], first, q, mine, picks[0]) + tail)
         == Add(Weighted(all, HonestPoint(first, q, picks[0]) + honest),
                Error(cs, first, target, own, q, picks, all))
  {
    hide Add, Sub, Mul, Eval, Rebuilt, Coeff, Weighted, IndexScalar;
    var x := IndexScalar(first);
    if picks[0].Skip? {
      assert [] + tail == tail && [] + honest == honest;
    } else {
      var v, h := Rebuilt(cs[0], Eval(q, x), mine, picks[0]), Eval(q, x);
      WeightedFront(all, Point(x, v), tail);
      WeightedFront(all, Point(x, h), honest);
      if first == target {
        DistribSub(Coeff(all, x), v, h);
      } else {
        ZeroRebuilt(cs[0], mine, picks[0]);
      }
    }
  }

  // ----- A sharing that shows a visited gate of threshold zero -----

  lemma {:induction false} FindSpoiled(cs: seq<AccessTree>, held: set<string>, picks: seq<Choice>) returns (i: nat)
    requires |picks| == |cs| && !ZeroFreePicks(cs, picks) && ValidPicks(cs, held, picks)
    ensures i < |cs| && !picks[i].Skip? && !ZeroFree(cs[i], picks[i]) && ValidChoice(cs[i], held, picks[i])
    decreases cs
  {
    if !picks[0].Skip? && !ZeroFree(cs[0], picks[0]) {
      i := 0;
    } else {
      i := FindSpoiled(cs[1..], held, picks[1..]);
      i := i + 1;
    }
  }

  /** The polynomial with k coefficients that is v at j and zero at the other points of `all`. */
  lemma Spike(all: seq<Scalar>, j: Scalar, v: Scalar, k: nat) returns (q: Poly)
    requires Distinct(all) && 0 !in all && j in all && |all| == k
    ensures |q| == k && Eval(q, j) == v
    ensures forall x <- all | x != j :: Eval(q, x) == 0
  {
    hide Add, Mul, Inv, Mask, Eval, AddScaled;
    var i :| 0 <= i < k && all[i] == j;
    var zs := all[..i] + all[i + 1..];
    assert 0 !in zs && j !in zs;
    var m := Mask(zs, k);
    MaskNonZero(zs, k, j);
    var e := Eval(m, j);
    var f := Mul(v, Inv(e));
    q := AddScaled(Zeros(k), f, m);
    forall x | x in all
      ensures Eval(q, x) == Mul(f, Eval(m, x))
      ensures x != j ==> Eval(q, x) == 0
    {
      EvalAddScaled(Zeros(k), f, m, x);
      EvalZeros(Zeros(k), x);
      if x != j {
        assert x in zs;
        MaskValues(zs, k, x);
        MulUnit(f);
      }
    }
    MulAssoc(v, Inv(e), e);
    MulComm(e, Inv(e));
    MulUnit(v);
  }

  lemma {:induction false} MaskNonZero(zs: seq<Scalar>, n: nat, x: Scalar)
    requires |zs| < n && 0 !in zs && x !in zs
    ensures Eval(Mask(zs, n), x) != 0
    decreases n
  {
    hide Add, Mul, Neg, Inv, Eval, AddScaled;
    if zs != [] {
      var m, z := Mask(zs[1..], n - 1), zs[0];
      MaskNonZero(zs[1..], n - 1, x);
      EvalAddScaled(m + [0], Neg(Inv(z)), [0] + m, x);
      EvalPadded(m, x);
      EvalShifted(m, x);
      FactorNonZero(Eval(m, x), x, z);
    } else if n == 1 {
      EvalConstant(1, x);
    } else {
      MaskNonZero([], n - 1, x);
      EvalPadded(Mask([], n - 1), x);
    }
  }

  /** The factor 1 - x/z is zero at x = z only. */
  lemma FactorNonZero(e: Scalar, x: Scalar, z: Scalar)
    requires z != 0 && x != z && e != 0
    ensures Add(e, Mul(Neg(Inv(z)), Mul(x, e))) != 0
  {
    hide *;
    var y := Mul(Inv(z), x);
    MulNeg(Inv(z), Mul(x, e));
    MulAssoc(Inv(z), x, e);
    if Add(e, Mul(Neg(Inv(z)), Mul(x, e))) == 0 {
      MulUnit(e);
      Mul1(e, y);
      MulAssoc(z, Inv(z), x);
      MulUnit(x);
      MulUnit(z);
    }
  }

  lemma Mul1(e: Scalar, y: Scalar)
    requires e != 0 && Mul(y, e) == e
    ensures y == 1
  {
    AtLeastTwo();
    hide *;
    MulComm(y, e);
    MulUnit(e);
    Cancel(e, y, 1);
  }

  lemma {:induction false} Spoil(t: AccessTree, held: set<string>, c: Choice) returns (s: Scalar, tape: Tape)
    requires Indexable(t) && ValidChoice(t, held, c) && !ZeroFree(t, c)
    ensures |tape| == Draws(t) && Rebuilt(t, s, tape, c) != s
    decreases t
  {
    var k, cs, picks := t.threshold, t.children, c.picks;
    if k == 0 {
      s, tape := 1, Zeros(Draws(t));
      var points := RebuiltPoints(cs, 1, [s], tape, picks);
      NothingUsed(cs, 1, [s], tape, picks);
      assert [s] + tape[..0] == [s] && tape[0..] == tape;
    } else {
      var i := FindSpoiled(cs, held, picks);
      var v, own := Spoil(cs[i], held, picks[i]);
      s, tape := SpoilGate(t, picks, i, v, own);
    }
  }

  lemma {:induction false} NothingUsed(cs: seq<AccessTree>, first: nat, q: Poly, tape: Tape, picks: seq<Choice>)
    requires |picks| == |cs| && |tape| == DrawsOf(cs) && Used(picks) == 0
    ensures RebuiltPoints(cs, first, q, tape, picks) == []
    decreases cs
  {
    hide Eval, Rebuilt;
    if cs != [] {
      NothingUsed(cs[1..], first + 1, q, tape[Draws(cs[0])..], picks[1..]);
    }
  }

  lemma SpoilGate(t: AccessTree, picks: seq<Choice>, i: nat, v: Scalar, own: Tape) returns (s: Scalar, tape: Tape)
    requires t.Gate? && Indexable(t) && t.threshold >= 1
    requires |picks| == |t.children| && Used(picks) == t.threshold
    requires i < |picks| && !picks[i].Skip?
    requires |own| == Draws(t.children[i]) && Rebuilt(t.children[i], v, own, picks[i]) != v
    ensures |tape| == Draws(t) && Rebuilt(t, s, tape, Combine(picks)) != s
  {
    var cs, j := t.children, IndexScalar(i + 1);
    assert |cs| < P;
    AtLeastTwo();
    hide *;
    var all := PickIndices(1, picks);
    var q := GateSpike(picks, i, v);
    var below := TapeFor(cs, 1, i + 1, own);
    s, tape := q[0], q[1..] + below;
    Gap(cs, 1, i + 1, own, q, picks, all);
    HonestValue(q, picks);
    ErrorAt(cs, i, own, q, picks, all);
    CoeffNonZero(all, j);
    NoZeroDivisors(Sub(Rebuilt(cs[i], v, own, picks[i]), v), Coeff(all, j));
    RebuiltGate(t, q, below, picks);
    RebuiltIndices(cs, 1, q, below, picks);
    LagrangeWeighted(RebuiltPoints(cs, 1, q, below, picks));
  }

  /** A gate polynomial that vanishes at every child used but the one at position i. */
  lemma GateSpike(picks: seq<Choice>, i: nat, v: Scalar) returns (q: Poly)
    requires i < |picks| < P && !picks[i].Skip?
    ensures |q| == Used(picks) > 0 && Eval(q, IndexScalar(i + 1)) == v
    ensures forall m :: 0 <= m < |picks| && 1 + m != i + 1 && !picks[m].Skip? ==> Eval(q, IndexScalar(1 + m)) == 0
    ensures Distinct(PickIndices(1, picks)) && 0 !in PickIndices(1, picks)
  {
    hide *;
    IndicesIncrease(1, picks);
    PickIndexed(1, picks, i);
    q := Spike(PickIndices(1, picks), IndexScalar(i + 1), v, Used(picks));
    forall m | 0 <= m < |picks| && 1 + m != i + 1 && !picks[m].Skip?
      ensures Eval(q, IndexScalar(1 + m)) == 0
    {
      PickIndexed(1, picks, m);
    }
  }

  lemma LagrangeWeighted(points: seq<Point>)
    ensures Lagrange(points) == Weighted(Indices(points), points)
  {
  }

  /** Interpolating the honest points gives the constant term. */
  lemma HonestValue(q: Poly, picks: seq<Choice>)
    requires Distinct(PickIndices(1, picks)) && |q| == Used(picks) > 0
    ensures Weighted(PickIndices(1, picks), HonestPoints(1, q, picks)) == q[0]
  {
    AtLeastTwo();
    hide *;
    var honest := HonestPoints(1, q, picks);
    HonestOnPolynomial(1, q, picks);
    LagrangeAtZero(honest, q, 1);
    LagrangeWeighted(honest);
    EvalAtZero(q);
    MulUnit(q[0]);
  }

  lemma ErrorAt(cs: seq<AccessTree>, i: nat, own: Tape, q: Poly, picks: seq<Choice>, all: seq<Scalar>)
    requires |picks| == |cs| && i < |cs| && !picks[i].Skip? && |own| == Draws(cs[i])
    ensures var x := IndexScalar(i + 1);
      Error(cs, 1, i + 1, own, q, picks, all)
      == Mul(Sub(Rebuilt(cs[i], Eval(q, x), own, picks[i]), Eval(q, x)), Coeff(all, x))
  {
    hide Mul, Sub, Rebuilt, Eval, Coeff, IndexScalar;
  }

  lemma RebuiltGate(t: AccessTree, q: Poly, below: Tape, picks: seq<Choice>)
    requires t.Gate? && |q| == t.threshold >= 1 && |below| == DrawsOf(t.children) && |picks| == |t.children|
    ensures |q[1..] + below| == Draws(t)
    ensures Rebuilt(t, q[0], q[1..] + below, Combine(picks))
         == Lagrange(RebuiltPoints(t.children, 1, q, below, picks))
  {
    hide Lagrange, Eval, RebuiltPoints;
    var tape, d := q[1..] + below, |q| - 1;
    assert tape[..d] == q[1..] && tape[d..] == below;
    assert [q[0]] + q[1..] == q;
  }

  lemma {:induction false} IndicesIncrease(first: nat, picks: seq<Choice>)
    requires 1 <= first && first + |picks| <= P
    ensures Distinct(PickIndices(first, picks)) && 0 !in PickIndices(first, picks)
    decreases picks
  {
    if picks != [] {
      IndicesIncrease(first + 1, picks[1..]);
      var rest := PickIndices(first + 1, picks[1..]);
      if picks[0].Skip? {
        assert PickIndices(first, picks) == rest;
      } else {
        assert PickIndices(first, picks) == [IndexScalar(first)] + rest;
        hide *;
        DistinctFront(IndexScalar(first), rest);
      }
    }
  }

  lemma DistinctFront(x: Scalar, xs: seq<Scalar>)
    requires x !in xs && Distinct(xs)
    ensures Distinct([x] + xs)
  {
    assert forall i :: 0 <= i < |xs| ==> xs[i] in xs;
  }

  lemma {:induction false} PickIndexed(first: nat, picks: seq<Choice>, i: nat)
    requires i < |picks| && !picks[i].Skip? && first + |picks| <= P
    ensures IndexScalar(first + i) in PickIndices(first, picks)
    decreases picks
  {
    if i > 0 {
      PickIndexed(first + 1, picks[1..], i - 1);
    }
  }

  lemma {:induction false} RebuiltIndices(cs: seq<AccessTree>, first: nat, q: Poly, tape: Tape, picks: seq<Choice>)
    requires |picks| == |cs| && |tape| == DrawsOf(cs)
    ensures Indices(RebuiltPoints(cs, first, q, tape, picks)) == PickIndices(first, picks)
    decreases cs
  {
    hide Eval, Rebuilt, IndexScalar, Indices;
    if cs != [] {
      RebuiltIndices(cs[1..], first + 1, q, tape[Draws(cs[0])..], picks[1..]);
    }
  }

  lemma {:induction false} HonestOnPolynomial(first: nat, q: Poly, picks: seq<Choice>)
    ensures var points := HonestPoints(first, q, picks);
      Indices(points) == PickIndices(first, picks) && OnPolynomial(points, q, 1)
    decreases picks
  {
    hide Eval, Mul, IndexScalar, Indices;
    if picks != [] {
      HonestOnPolynomial(first + 1, q, picks[1..]);
      MulUnit(Eval(q, IndexScalar(first)));
    }
  }

  // ----- The exact condition -----

  /** Sharing s with this tape and recombining r times the held shares gives r * s. */
  predicate Recovers(t: AccessTree, held: set<string>, s: Scalar, tape: Tape, r: Scalar)
    requires |tape| == Draws(t)
  {
    Recombined(t, HeldResults(SharesOf(t, s, tape, []), Uniform(held, r)), []) == Some(Mul(r, s))
  }

  /** An AND of no children is satisfied by any attributes, yet recombines to the identity
      instead of the secret: it is wrong whenever r * s is not zero. */
  lemma EmptyAndFails(t: AccessTree, held: set<string>, s: Scalar, tape: Tape, r: Scalar)
    requires t.Gate? && t.threshold == 0 && t.children == [] && |tape| == Draws(t)
    ensures IsSatisfiedBy(t, held) && !Recoverable(t, held)
    ensures Recovers(t, held, s, tape, r) <==> Mul(r, s) == 0
  {
    hide *;
    EmptyAndMeans(t, held);
    EmptyAndValue(t, HeldResults(SharesOf(t, s, tape, []), Uniform(held, r)));
    RecoversMeans(t, held, s, tape, r);
    RecoverableMeans(t, held);
  }

  lemma EmptyAndMeans(t: AccessTree, held: set<string>)
    requires t.Gate? && t.threshold == 0 && t.children == []
    ensures IsSatisfiedBy(t, held) && Draws(t) == 0
    ensures FirstChoice(t, held).Some? && !ZeroFree(t, FirstChoice(t, held).value)
  {
  }

  lemma EmptyAndValue(t: AccessTree, results: LeafResults)
    requires t.Gate? && t.threshold == 0 && t.children == []
    ensures Recombined(t, results, []) == Some(0)
  {
    var points := SatisfiedPoints(t.children, 1, results, []);
    assert points[..0] == [];
  }

  /** A satisfied tree recombines correctly for every secret, tape and r exactly when the
      children that the gates select first lead to no gate of threshold zero. */
  lemma RecoversExactly(t: AccessTree, held: set<string>)
    requires Indexable(t) && IsSatisfiedBy(t, held)
    ensures (forall s, tape: Tape, r | |tape| == Draws(t) :: Recovers(t, held, s, tape, r)) <==> Recoverable(t, held)
  {
    hide Recovers, Recoverable, Indexable, IsSatisfiedBy, Draws;
    if Recoverable(t, held) {
      forall s, tape: Tape, r | |tape| == Draws(t)
        ensures Recovers(t, held, s, tape, r)
      {
        RecombineShares(t, s, tape, held, r);
        RecoversMeans(t, held, s, tape, r);
      }
    } else {
      RecoverableMeans(t, held);
      var s, tape := Spoil(t, held, FirstChoice(t, held).value);
      Spoiled(t, held, s, tape);
      RecoversMeans(t, held, s, tape, 1);
      MulUnit(s);
    }
  }

  lemma RecoversMeans(t: AccessTree, held: set<string>, s: Scalar, tape: Tape, r: Scalar)
    requires |tape| == Draws(t)
    ensures Recovers(t, held, s, tape, r)
      <==> Recombined(t, HeldResults(SharesOf(t, s, tape, []), Uniform(held, r)), []) == Some(Mul(r, s))
  {
    hide Recombined, HeldResults, SharesOf, Uniform, Mul;
  }

  lemma Spoiled(t: AccessTree, held: set<string>, s: Scalar, tape: Tape)
    requires |tape| == Draws(t) && FirstChoice(t, held).Some?
    ensures Recombined(t, HeldResults(SharesOf(t, s, tape, []), Uniform(held, 1)), [])
         == Some(Rebuilt(t, s, tape, FirstChoice(t, held).value))
  {
    AtLeastTwo();
    hide *;
    var shares, c := SharesOf(t, s, tape, []), FirstChoice(t, held);
    var results := HeldResults(shares, Uniform(held, 1));
    ShareLayout(t, s, tape, []);
    HeldResultsHonest(shares, held, 1);
    CoversMatches(t, s, tape, [], results, held);
    RecombineFollows(t, results, [], held);
    FollowingCases(t, results, [], c);
    FollowIsRebuilt(t, s, tape, [], results, held, c.value);
  }

  // ----- The exact condition on the tree alone -----

  /** No gate of threshold zero can be part of satisfying the tree with attributes out of `all`. */
  predicate Sound(t: AccessTree, all: set<string>)
    decreases t
  {
    t.Gate? ==> t.threshold >= 1 && forall c <- t.children | IsSatisfiedBy(c, all) :: Sound(c, all)
  }

  lemma {:induction false} SoundZeroFree(t: AccessTree, all: set<string>, held: set<string>, c: Choice)
    requires held <= all && ValidChoice(t, held, c) && Sound(t, all)
    ensures ZeroFree(t, c)
    decreases t
  {
    if t.Gate? {
      SoundZeroFreePicks(t.children, all, held, c.picks);
    }
  }

  lemma {:induction false} SoundZeroFreePicks(cs: seq<AccessTree>, all: set<string>, held: set<string>,
                                              picks: seq<Choice>)
    requires held <= all && |picks| == |cs| && ValidPicks(cs, held, picks)
    requires forall c <- cs | IsSatisfiedBy(c, all) :: Sound(c, all)
    ensures ZeroFreePicks(cs, picks)
    decreases cs
  {
    hide Sound, ValidChoice, ZeroFree;
    if cs != [] {
      if !picks[0].Skip? {
        ValidMeansSatisfied(cs[0], held, picks[0]);
        Monotone(cs[0], held, all);
        SoundZeroFree(cs[0], all, held, picks[0]);
      }
      SoundZeroFreePicks(cs[1..], all, held, picks[1..]);
    }
  }

  /** A satisfied tree that is not sound can be satisfied through a gate of threshold zero. */
  lemma {:induction false} UnsoundChoice(t: AccessTree, all: set<string>) returns (c: Choice)
    requires IsSatisfiedBy(t, all) && !Sound(t, all)
    ensures ValidChoice(t, all, c) && !ZeroFree(t, c)
    decreases t
  {
    if t.threshold == 0 {
      ChoiceIffSatisfied(t, all);
      c := FirstChoice(t, all).value;
    } else {
      var picks := UnsoundPicks(t.children, all, t.threshold);
      c := Combine(picks);
    }
  }

  lemma {:induction false} UnsoundPicks(cs: seq<AccessTree>, all: set<string>, k: nat) returns (picks: seq<Choice>)
    requires 1 <= k <= CountSatisfied(cs, all)
    requires exists c <- cs :: IsSatisfiedBy(c, all) && !Sound(c, all)
    ensures |picks| == |cs| && Used(picks) == k && ValidPicks(cs, all, picks) && !ZeroFreePicks(cs, picks)
    decreases cs
  {
    hide Sound, ValidChoice, ZeroFree, FirstChoice;
    var rest := cs[1..];
    if IsSatisfiedBy(cs[0], all) && !Sound(cs[0], all) {
      var bad := UnsoundChoice(cs[0], all);
      PicksCountSatisfied(rest, all, k - 1);
      assert !bad.Skip? by { ValidTaken(cs[0], all, bad); }
      picks := [bad] + FirstPicks(rest, all, k - 1);
    } else {
      CountSome(rest, all);
      if CountSatisfied(rest, all) >= k {
        var more := UnsoundPicks(rest, all, k);
        picks := [Skip] + more;
      } else {
        var more := UnsoundPicks(rest, all, k - 1);
        ChoiceIffSatisfied(cs[0], all);
        picks := [FirstChoice(cs[0], all).value] + more;
      }
    }
  }

  lemma ValidTaken(t: AccessTree, held: set<string>, c: Choice)
    requires ValidChoice(t, held, c)
    ensures !c.Skip?
  {
  }

  lemma {:induction false} CountSome(cs: seq<AccessTree>, held: set<string>)
    requires exists c <- cs :: IsSatisfiedBy(c, held)
    ensures CountSatisfied(cs, held) >= 1
    decreases cs
  {
    if !IsSatisfiedBy(cs[0], held) {
      CountSome(cs[1..], held);
    }
  }

  /** Whichever children are picked, by whichever holders, every secret is rebuilt: exactly when
      all attributes together do not satisfy the tree or the tree is sound. */
  lemma RebuiltExactly(t: AccessTree, all: set<string>)
    requires Indexable(t)
    ensures (forall held, c, s, tape: Tape | held <= all && ValidChoice(t, held, c) && |tape| == Draws(t) ::
               Rebuilt(t, s, tape, c) == s)
        <==> (IsSatisfiedBy(t, all) ==> Sound(t, all))
  {
    hide *;
    if IsSatisfiedBy(t, all) && !Sound(t, all) {
      var c := UnsoundChoice(t, all);
      var s, tape := Spoil(t, all, c);
      assert all <= all && Rebuilt(t, s, tape, c) != s;
    } else {
      forall held, c, s, tape: Tape | held <= all && ValidChoice(t, held, c) && |tape| == Draws(t)
        ensures Rebuilt(t, s, tape, c) == s
      {
        ValidMeansSatisfied(t, held, c);
        Monotone(t, held, all);
        SoundZeroFree(t, all, held, c);
        ZeroFreeRebuilt(t, held, s, tape, c);
      }
    }
  }

  lemma ZeroFreeRebuilt(t: AccessTree, held: set<string>, s: Scalar, tape: Tape, c: Choice)
    requires |tape| == Draws(t) && Indexable(t) && ValidChoice(t, held, c) && ZeroFree(t, c)
    ensures Rebuilt(t, s, tape, c) == s
  {
    AtLeastTwo();
    hide *;
    var shares := SharesOf(t, s, tape, []);
    var results := HeldResults(shares, Uniform(held, 1));
    ShareLayout(t, s, tape, []);
    HeldResultsHonest(shares, held, 1);
    CoversMatches(t, s, tape, [], results, held);
    FollowIsRebuilt(t, s, tape, [], results, held, c);
    ChoiceIndependent(t, s, tape, [], results, 1, held, c);
    MulUnit(s);
  }

  /** In particular the first choices of all holders are right. */
  lemma SoundRecoverable(t: AccessTree, all: set<string>, held: set<string>)
    requires held <= all && Sound(t, all)
    ensures Recoverable(t, held)
  {
    var c := FirstChoice(t, held);
    hide *;
    RecoverableMeans(t, held);
    if c.Some? {
      SoundZeroFree(t, all, held, c.value);
    }
  }

  /** The first picks among two children, the first of them satisfied. */
  lemma PairPicks(x: AccessTree, y: AccessTree, held: set<string>, k: nat)
    requires FirstChoice(x, held).Some? && ZeroFree(x, FirstChoice(x, held).value)
    requires k == 1 || (k == 2 && FirstChoice(y, held).Some? && ZeroFree(y, FirstChoice(y, held).value))
    ensures var c := FirstChoice(Gate(k, [x, y]), held); c.Some? && ZeroFree(Gate(k, [x, y]), c.value)
  {
    hide FirstChoice, ZeroFree;
    var u, v := FirstChoice(x, held).value, if k == 1 then Skip else FirstChoice(y, held).value;
    assert [x, y][1..] == [y] && [y][1..] == [];
    assert FirstPicks([y], held, k - 1) == [v];
    assert FirstPicks([x, y], held, k) == [u, v] && Used([u, v]) == k by {
      assert [u, v][1..] == [v] && [v][1..] == [];
    }
    PairZeroFree(x, y, k, u, v);
    assert FirstChoice(Gate(k, [x, y]), held) == Some(Combine([u, v])) by {
      GateChoice(k, [x, y], held);
    }
  }

  lemma GateChoice(k: nat, cs: seq<AccessTree>, held: set<string>)
    ensures var picks := FirstPicks(cs, held, k);
      FirstChoice(Gate(k, cs), held) == if Used(picks) < k then None else Some(Combine(picks))
  {
    hide FirstPicks;
  }

  lemma PairZeroFree(x: AccessTree, y: AccessTree, k: nat, u: Choice, v: Choice)
    requires k >= 1 && (u.Skip? || ZeroFree(x, u)) && (v.Skip? || ZeroFree(y, v))
    ensures ZeroFree(Gate(k, [x, y]), Combine([u, v]))
  {
    assert [x, y][1..] == [y] && [u, v][1..] == [v] && [y][1..] == [] && [v][1..] == [];
    assert ZeroFreePicks([], []) && ZeroFreePicks([y], [v]) && ZeroFreePicks([x, y], [u, v]);
  }

  /** First choices can be right on a tree that is not sound: whoever satisfies
      a AND (a OR an empty AND) picks the a on the right. */
  lemma FirstChoiceSpared(a: string, held: set<string>)
    ensures var t := Gate(2, [Leaf(a), Gate(1, [Leaf(a), Gate(0, [])])]);
      Recoverable(t, held) && (a in held ==> IsSatisfiedBy(t, held) && !Sound(t, held))
  {
    var empty := Gate(0, []);
    var either := Gate(1, [Leaf(a), empty]);
    var t := Gate(2, [Leaf(a), either]);
    assert [Leaf(a), empty][1..] == [empty] && [Leaf(a), either][1..] == [either];
    assert [empty][1..] == [] && [either][1..] == [];
    assert IsSatisfiedBy(empty, held) && !Sound(empty, held);
    assert IsSatisfiedBy(either, held) && empty in either.children && either in t.children;
    if a in held {
      PairPicks(Leaf(a), empty, held, 1);
      PairPicks(Leaf(a), either, held, 2);
    }
  }
}
