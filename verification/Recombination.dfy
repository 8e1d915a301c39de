/** Rebuilding the secret bottom-up from the values at the held leaves. */
module Recombination {
  import opened Wrappers
  import opened PrimeField
  import opened Polynomials
  import opened AccessTrees
  import opened Sharing

  /** The value recovered at each held leaf, keyed by the leaf's path. */
  type LeafResults = map<seq<nat>, Scalar>

  /** The value at the root: each gate interpolates its first `threshold` satisfied children. */
  function Recombined(t: AccessTree, results: LeafResults, path: seq<nat>): Option<Scalar>
    decreases t
  {
    match t
    case Leaf(_) => if path in results then Some(results[path]) else None
    case Gate(k, cs) =>
      var points := SatisfiedPoints(cs, 1, results, path);
      if |points| < k then None else Some(Lagrange(points[..k]))
  }

  function SatisfiedPoints(cs: seq<AccessTree>, first: nat, results: LeafResults, path: seq<nat>): seq<Point>
    decreases cs
  {
    if cs == [] then
      []
    else
      PointOf(first, Recombined(cs[0], results, path + [first]))
      + SatisfiedPoints(cs[1..], first + 1, results, path)
  }

  function PointOf(index: nat, value: Option<Scalar>): seq<Point> {
    match value
    case Some(v) => [Point(IndexScalar(index), v)]
    case None => []
  }

  lemma NextPoint(cs: seq<AccessTree>, i: nat, results: LeafResults, path: seq<nat>)
    requires i < |cs|
    ensures SatisfiedPoints(cs[i..], i + 1, results, path)
         == PointOf(i + 1, Recombined(cs[i], results, path + [i + 1]))
            + SatisfiedPoints(cs[i + 1..], i + 2, results, path)
  {
    hide Lagrange, PointOf;
    assert cs[i..][0] == cs[i] && cs[i..][1..] == cs[i + 1..];
  }

  lemma GateValue(t: AccessTree, results: LeafResults, path: seq<nat>)
    ensures t.Leaf? ==> Recombined(t, results, path) == if path in results then Some(results[path]) else None
    ensures t.Gate? ==>
      var points := SatisfiedPoints(t.children, 1, results, path);
      Recombined(t, results, path)
      == if |points| < t.threshold then None else Some(Lagrange(points[..t.threshold]))
  {
    hide Lagrange;
  }

  /** The recursive procedure, with its path stack, early exit and truncation. */
  class Recombiner {
    const results: LeafResults
    var path: seq<nat>

    constructor (results: LeafResults)
      ensures this.results == results && path == []
    {
      this.results := results;
      path := [];
    }

    method Recombine(tree: AccessTree) returns (r: Option<Scalar>)
      modifies this
      ensures path == old(path)
      ensures r == Recombined(tree, results, path)
      decreases tree
    {
      hide Recombined, SatisfiedPoints, Lagrange;
      GateValue(tree, results, path);
      match tree
      case Leaf(_) =>
        r := if path in results then Some(results[path]) else None;
      case Gate(k, cs) =>
        var satisfied := Gather(cs, k);
        if |satisfied| < k {
          return None;
        }
        assert satisfied[..k] == SatisfiedPoints(cs, 1, results, path)[..k];
        satisfied := satisfied[..k];
        var value := LagrangeCombine(satisfied);
        r := Some(value);
    }

    /** The loop over a gate's children: it stops as soon as `threshold` of them are satisfied. */
    method Gather(cs: seq<AccessTree>, threshold: nat) returns (satisfied: seq<Point>)
      modifies this
      ensures path == old(path)
      ensures satisfied <= SatisfiedPoints(cs, 1, results, path)
      ensures |satisfied| < threshold ==> satisfied == SatisfiedPoints(cs, 1, results, path)
      decreases cs
    {
      hide Recombined, SatisfiedPoints, Lagrange;
      satisfied := [];
      ghost var all := SatisfiedPoints(cs, 1, results, path);
      assert cs[0..] == cs;
      for i := 0 to |cs|
        invariant path == old(path)
        invariant satisfied + SatisfiedPoints(cs[i..], i + 1, results, path) == all
      {
        NextPoint(cs, i, results, path);
        var idx := i + 1;
        path := path + [idx];
        var v := Recombine(cs[i]);
        if v.Some? {
          satisfied := satisfied + [Point(IndexScalar(idx), v.value)];
        }
        path := path[..|path| - 1];
        assert satisfied + SatisfiedPoints(cs[i + 1..], i + 2, results, path) == all;
        if |satisfied| >= threshold {
          return;
        }
      }
      NoPoints(|cs| + 1, results, path);
      assert cs[|cs|..] == [];
    }
  }

  lemma NoPoints(first: nat, results: LeafResults, path: seq<nat>)
    ensures SatisfiedPoints([], first, results, path) == []
  {
  }

  // ----- Choices: which children each gate uses -----

  /** How a tree is satisfied: a leaf is taken, a gate combines its children that are not skipped. */
  datatype Choice = Skip | Take | Combine(picks: seq<Choice>)

  function Used(picks: seq<Choice>): (n: nat)
    ensures n <= |picks|
  {
    if picks == [] then 0 else (if picks[0].Skip? then 0 else 1) + Used(picks[1..])
  }

  /** The choice takes held leaves only and exactly `threshold` children at each gate. */
  predicate ValidChoice(t: AccessTree, held: set<string>, c: Choice)
    decreases t
  {
    match t
    case Leaf(a) => c.Take? && a in held
    case Gate(k, cs) =>
      c.Combine? && |c.picks| == |cs| && Used(c.picks) == k && ValidPicks(cs, held, c.picks)
  }

  predicate ValidPicks(cs: seq<AccessTree>, held: set<string>, picks: seq<Choice>)
    requires |picks| == |cs|
    decreases cs
  {
    cs == [] ||
    ((picks[0].Skip? || ValidChoice(cs[0], held, picks[0])) && ValidPicks(cs[1..], held, picks[1..]))
  }

  /** The value at the root when each gate interpolates the children chosen. */
  function Follow(t: AccessTree, results: LeafResults, path: seq<nat>, c: Choice): Scalar
    decreases t
  {
    match t
    case Leaf(_) => if path in results then results[path] else 0
    case Gate(_, cs) =>
      if c.Combine? && |c.picks| == |cs| then Lagrange(PickedPoints(cs, 1, results, path, c.picks)) else 0
  }

  function PickedPoints(cs: seq<AccessTree>, first: nat, results: LeafResults, path: seq<nat>,
                        picks: seq<Choice>): seq<Point>
    requires |picks| == |cs|
    decreases cs
  {
    if cs == [] then
      []
    else
      (if picks[0].Skip? then [] else
         [Point(IndexScalar(first), Follow(cs[0], results, path + [first], picks[0]))])
      + PickedPoints(cs[1..], first + 1, results, path, picks[1..])
  }

  /** The choice the source makes: at each gate the first `threshold` satisfied children. */
  function FirstChoice(t: AccessTree, held: set<string>): (c: Option<Choice>)
    ensures c.Some? ==> !c.value.Skip? && ValidChoice(t, held, c.value)
    decreases t
  {
    match t
    case Leaf(a) => if a in held then Some(Take) else None
    case Gate(k, cs) =>
      var picks := FirstPicks(cs, held, k);
      if Used(picks) < k then None else Some(Combine(picks))
  }

  function FirstPicks(cs: seq<AccessTree>, held: set<string>, budget: nat): (picks: seq<Choice>)
    ensures |picks| == |cs| && Used(picks) <= budget && ValidPicks(cs, held, picks)
    decreases cs
  {
    if cs == [] then
      []
    else
      var c := FirstChoice(cs[0], held);
      if budget > 0 && c.Some? then
        [c.value] + FirstPicks(cs[1..], held, budget - 1)
      else
        [Skip] + FirstPicks(cs[1..], held, budget)
  }

  /** A first choice exists exactly when the tree is satisfied. */
  lemma {:induction false} ChoiceIffSatisfied(t: AccessTree, held: set<string>)
    ensures FirstChoice(t, held).Some? <==> IsSatisfiedBy(t, held)
    decreases t
  {
    if t.Gate? {
      PicksCountSatisfied(t.children, held, t.threshold);
    }
  }

  lemma {:induction false} PicksCountSatisfied(cs: seq<AccessTree>, held: set<string>, budget: nat)
    ensures var n := CountSatisfied(cs, held);
      Used(FirstPicks(cs, held, budget)) == if n < budget then n else budget
    decreases cs
  {
    if cs != [] {
      ChoiceIffSatisfied(cs[0], held);
      var c := FirstChoice(cs[0], held);
      var rest := if budget > 0 && c.Some? then budget - 1 else budget;
      PicksCountSatisfied(cs[1..], held, rest);
      assert FirstPicks(cs, held, budget)[1..] == FirstPicks(cs[1..], held, rest);
    }
  }

  /** No other choice does better: every valid choice shows that the tree is satisfied. */
  lemma {:induction false} ValidMeansSatisfied(t: AccessTree, held: set<string>, c: Choice)
    requires ValidChoice(t, held, c)
    ensures IsSatisfiedBy(t, held)
    decreases t
  {
    if t.Gate? {
      UsedAtMostSatisfied(t.children, held, c.picks);
    }
  }

  lemma {:induction false} UsedAtMostSatisfied(cs: seq<AccessTree>, held: set<string>, picks: seq<Choice>)
    requires |picks| == |cs| && ValidPicks(cs, held, picks)
    ensures Used(picks) <= CountSatisfied(cs, held)
    decreases cs
  {
    if cs != [] {
      if !picks[0].Skip? {
        ValidMeansSatisfied(cs[0], held, picks[0]);
      }
      UsedAtMostSatisfied(cs[1..], held, picks[1..]);
    }
  }

  // ----- Recombination follows the first choice -----

  /** The results are keyed by exactly the paths of the held leaves. */
  predicate Matches(t: AccessTree, results: LeafResults, path: seq<nat>, held: set<string>)
    decreases t
  {
    match t
    case Leaf(a) => path in results <==> a in held
    case Gate(_, cs) => MatchesAll(cs, 1, results, path, held)
  }

  predicate MatchesAll(cs: seq<AccessTree>, first: nat, results: LeafResults, path: seq<nat>, held: set<string>)
    decreases cs
  {
    cs == [] ||
    (Matches(cs[0], results, path + [first], held) && MatchesAll(cs[1..], first + 1, results, path, held))
  }

  function Following(t: AccessTree, results: LeafResults, path: seq<nat>, c: Option<Choice>): Option<Scalar> {
    match c
    case None => None
    case Some(c) => Some(Follow(t, results, path, c))
  }

  lemma {:induction false} RecombineFollows(t: AccessTree, results: LeafResults, path: seq<nat>, held: set<string>)
    requires Matches(t, results, path, held)
    ensures Recombined(t, results, path) == Following(t, results, path, FirstChoice(t, held))
    decreases t
  {
    hide Lagrange;
    match t
    case Leaf(_) =>
    case Gate(k, cs) =>
      PointsFollow(cs, 1, results, path, held, k);
  }

  lemma {:induction false} PointsFollow(cs: seq<AccessTree>, first: nat, results: LeafResults, path: seq<nat>,
                                        held: set<string>, budget: nat)
    requires MatchesAll(cs, first, results, path, held)
    ensures var all, picks := SatisfiedPoints(cs, first, results, path), FirstPicks(cs, held, budget);
      FirstOf(PickedPoints(cs, first, results, path, picks), all, Used(picks), budget)
    decreases cs
  {
    if cs != [] {
      assert Matches(cs[0], results, path + [first], held) && MatchesAll(cs[1..], first + 1, results, path, held);
      FirstPicksCons(cs, held, budget);
      hide *;
      RecombineFollows(cs[0], results, path + [first], held);
      var c := FirstChoice(cs[0], held);
      var took := budget > 0 && c.Some?;
      var rest := if took then budget - 1 else budget;
      PointsFollow(cs[1..], first + 1, results, path, held, rest);
      FollowingCases(cs[0], results, path + [first], c);
      var picks, tail := FirstPicks(cs, held, budget), SatisfiedPoints(cs[1..], first + 1, results, path);
      if took {
        SatisfiedSome(cs, first, results, path);
        PickTake(cs, first, results, path, picks);
        AddFirst(Point(IndexScalar(first), Follow(cs[0], results, path + [first], c.value)),
                 PickedPoints(cs[1..], first + 1, results, path, picks[1..]), tail, Used(picks[1..]), rest);
      } else {
        PickSkip(cs, first, results, path, picks);
        if c.Some? {
          NoBudget(PickedPoints(cs, first, results, path, picks), tail, SatisfiedPoints(cs, first, results, path),
                   Used(picks));
        } else {
          SatisfiedNone(cs, first, results, path);
        }
      }
    }
  }

  /** The points are the first `used` of all, as many as the budget allows. */
  predicate FirstOf(points: seq<Point>, all: seq<Point>, used: nat, budget: nat) {
    used == (if |all| < budget then |all| else budget) && points == all[..used]
  }

  lemma AddFirst(p: Point, points: seq<Point>, all: seq<Point>, used: nat, budget: nat)
    requires FirstOf(points, all, used, budget)
    ensures FirstOf([p] + points, [p] + all, used + 1, budget + 1)
  {
    assert ([p] + all)[..used + 1] == [p] + all[..used];
  }

  lemma NoBudget(points: seq<Point>, tail: seq<Point>, all: seq<Point>, used: nat)
    requires FirstOf(points, tail, used, 0)
    ensures FirstOf(points, all, used, 0)
  {
  }

  lemma FirstPicksCons(cs: seq<AccessTree>, held: set<string>, budget: nat)
    requires cs != []
    ensures var picks, c := FirstPicks(cs, held, budget), FirstChoice(cs[0], held);
      if budget > 0 && c.Some? then
        picks[0] == c.value && !picks[0].Skip? && picks[1..] == FirstPicks(cs[1..], held, budget - 1)
      else
        picks[0] == Skip && picks[1..] == FirstPicks(cs[1..], held, budget)
  {
    hide FirstChoice;
  }

  lemma SatisfiedSome(cs: seq<AccessTree>, first: nat, results: LeafResults, path: seq<nat>)
    requires cs != [] && Recombined(cs[0], results, path + [first]).Some?
    ensures SatisfiedPoints(cs, first, results, path)
         == [Point(IndexScalar(first), Recombined(cs[0], results, path + [first]).value)]
            + SatisfiedPoints(cs[1..], first + 1, results, path)
  {
    hide Recombined, IndexScalar;
  }

  lemma SatisfiedNone(cs: seq<AccessTree>, first: nat, results: LeafResults, path: seq<nat>)
    requires cs != [] && Recombined(cs[0], results, path + [first]).None?
    ensures SatisfiedPoints(cs, first, results, path) == SatisfiedPoints(cs[1..], first + 1, results, path)
  {
    hide Recombined, IndexScalar;
  }

  /** More attributes never turn a recombination into a failure, whatever the values recovered. */
  lemma RecombineMonotone(t: AccessTree, some: LeafResults, held: set<string>, results: LeafResults,
                          more: set<string>, path: seq<nat>)
    requires Matches(t, some, path, held) && Matches(t, results, path, more) && held <= more
    ensures Recombined(t, some, path).Some? ==> Recombined(t, results, path).Some?
  {
    hide *;
    RecombineFollows(t, some, path, held);
    RecombineFollows(t, results, path, more);
    FollowingCases(t, some, path, FirstChoice(t, held));
    FollowingCases(t, results, path, FirstChoice(t, more));
    ChoiceIffSatisfied(t, held);
    ChoiceIffSatisfied(t, more);
    if IsSatisfiedBy(t, held) {
      Monotone(t, held, more);
    }
  }

  // ----- Honest shares -----

  /** Wherever there is a result it is r times the leaf's share. */
  predicate Honest(shares: seq<Share>, results: LeafResults, r: Scalar) {
    forall sh <- shares :: sh.path in results ==> results[sh.path] == Mul(r, sh.value)
  }

  /** The choice visits no gate of threshold zero. */
  predicate ZeroFree(t: AccessTree, c: Choice)
    decreases t
  {
    t.Gate? ==> t.threshold >= 1 && c.Combine? && |c.picks| == |t.children| && ZeroFreePicks(t.children, c.picks)
  }

  predicate ZeroFreePicks(cs: seq<AccessTree>, picks: seq<Choice>)
    requires |picks| == |cs|
    decreases cs
  {
    cs == [] || ((picks[0].Skip? || ZeroFree(cs[0], picks[0])) && ZeroFreePicks(cs[1..], picks[1..]))
  }

  lemma {:induction false} WellFormedZeroFree(t: AccessTree, held: set<string>, c: Choice)
    requires WellFormed(t) && ValidChoice(t, held, c)
    ensures ZeroFree(t, c)
    decreases t
  {
    if t.Gate? {
      WellFormedZeroFreePicks(t.children, held, c.picks);
    }
  }

  lemma {:induction false} WellFormedZeroFreePicks(cs: seq<AccessTree>, held: set<string>, picks: seq<Choice>)
    requires |picks| == |cs| && ValidPicks(cs, held, picks)
    requires forall c <- cs :: WellFormed(c)
    ensures ZeroFreePicks(cs, picks)
    decreases cs
  {
    if cs != [] {
      if !picks[0].Skip? {
        WellFormedZeroFree(cs[0], held, picks[0]);
      }
      WellFormedZeroFreePicks(cs[1..], held, picks[1..]);
    }
  }

  predicate Increasing(points: seq<Point>, first: nat) {
    && (forall k :: 0 <= k < |points| ==> first <= points[k].index)
    && (forall j, k :: 0 <= j < k < |points| ==> points[j].index < points[k].index)
  }

  lemma PrependNothing(points: seq<Point>, first: nat)
    requires Increasing(points, first + 1)
    ensures Increasing(points, first)
  {
  }

  lemma PrependPoint(p: Point, rest: seq<Point>, q: Poly, r: Scalar)
    requires p.value == Mul(r, Eval(q, p.index))
    requires Increasing(rest, p.index + 1) && OnPolynomial(rest, q, r)
    ensures Increasing([p] + rest, p.index) && OnPolynomial([p] + rest, q, r)
  {
    hide Mul, Eval;
  }

  lemma PickSkip(cs: seq<AccessTree>, first: nat, results: LeafResults, path: seq<nat>, picks: seq<Choice>)
    requires |picks| == |cs| > 0 && picks[0].Skip?
    ensures PickedPoints(cs, first, results, path, picks)
         == PickedPoints(cs[1..], first + 1, results, path, picks[1..])
    ensures Used(picks) == Used(picks[1..])
  {
  }

  lemma PickTake(cs: seq<AccessTree>, first: nat, results: LeafResults, path: seq<nat>, picks: seq<Choice>)
    requires |picks| == |cs| > 0 && !picks[0].Skip?
    ensures PickedPoints(cs, first, results, path, picks)
         == [Point(IndexScalar(first), Follow(cs[0], results, path + [first], picks[0]))]
            + PickedPoints(cs[1..], first + 1, results, path, picks[1..])
    ensures Used(picks) == 1 + Used(picks[1..])
  {
    hide Follow, IndexScalar;
  }

  /** On honest shares every choice that visits no threshold-zero gate recovers r times the
      secret, whichever children it picks. */
  lemma {:induction false} ChoiceIndependent(t: AccessTree, s: Scalar, tape: Tape, path: seq<nat>,
                                             results: LeafResults, r: Scalar, held: set<string>, c: Choice)
    requires |tape| == Draws(t) && Indexable(t)
    requires ValidChoice(t, held, c) && ZeroFree(t, c)
    requires Matches(t, results, path, held) && Honest(SharesOf(t, s, tape, path), results, r)
    ensures Follow(t, results, path, c) == Mul(r, s)
    decreases t
  {
    hide Mul, Eval, Lagrange;
    match t
    case Leaf(_) =>
      assert Share(path, t.attr, s) in SharesOf(t, s, tape, path);
    case Gate(k, cs) =>
      var q := [s] + tape[..Degree(k)];
      var points := PickedPoints(cs, 1, results, path, c.picks);
      PicksOnPolynomial(cs, 1, q, tape[Degree(k)..], path, results, r, held, c.picks);
      LagrangeAtZero(points, q, r);
      EvalAtZero(q);
  }

  lemma HonestSplit(cs: seq<AccessTree>, first: nat, q: Poly, tape: Tape, path: seq<nat>, results: LeafResults,
                    r: Scalar)
    requires cs != [] && |tape| == DrawsOf(cs) && Honest(SharesOfChildren(cs, first, q, tape, path), results, r)
    ensures var n := Draws(cs[0]);
      && n <= |tape| && |tape[n..]| == DrawsOf(cs[1..])
      && Honest(SharesOf(cs[0], Eval(q, IndexScalar(first)), tape[..n], path + [first]), results, r)
      && Honest(SharesOfChildren(cs[1..], first + 1, q, tape[n..], path), results, r)
  {
    hide Mul, Eval, SharesOf;
    var n := Draws(cs[0]);
    var head, tail := SharesOf(cs[0], Eval(q, IndexScalar(first)), tape[..n], path + [first]),
                      SharesOfChildren(cs[1..], first + 1, q, tape[n..], path);
    assert SharesOfChildren(cs, first, q, tape, path) == head + tail;
  }

  lemma PicksSplit(cs: seq<AccessTree>, first: nat, held: set<string>, picks: seq<Choice>, results: LeafResults,
                   path: seq<nat>)
    requires cs != [] && |picks| == |cs| && ValidPicks(cs, held, picks) && ZeroFreePicks(cs, picks)
    requires MatchesAll(cs, first, results, path, held)
    ensures ValidPicks(cs[1..], held, picks[1..]) && ZeroFreePicks(cs[1..], picks[1..])
    ensures MatchesAll(cs[1..], first + 1, results, path, held) && Matches(cs[0], results, path + [first], held)
    ensures !picks[0].Skip? ==> ValidChoice(cs[0], held, picks[0]) && ZeroFree(cs[0], picks[0])
  {
  }

  lemma {:induction false} PicksOnPolynomial(cs: seq<AccessTree>, first: nat, q: Poly, tape: Tape, path: seq<nat>,
                                             results: LeafResults, r: Scalar, held: set<string>, picks: seq<Choice>)
    requires |tape| == DrawsOf(cs) && first + |cs| <= P && forall c <- cs :: Indexable(c)
    requires |picks| == |cs| && ValidPicks(cs, held, picks) && ZeroFreePicks(cs, picks)
    requires MatchesAll(cs, first, results, path, held)
    requires Honest(SharesOfChildren(cs, first, q, tape, path), results, r)
    ensures var points := PickedPoints(cs, first, results, path, picks);
      |points| == Used(picks) && Increasing(points, first) && OnPolynomial(points, q, r)
    decreases cs
  {
    hide Mul, Eval, Lagrange;
    if cs != [] {
      var n := Draws(cs[0]);
      var x := Eval(q, IndexScalar(first));
      HonestSplit(cs, first, q, tape, path, results, r);
      PicksSplit(cs, first, held, picks, results, path);
      hide *;
      PicksOnPolynomial(cs[1..], first + 1, q, tape[n..], path, results, r, held, picks[1..]);
      var rest := PickedPoints(cs[1..], first + 1, results, path, picks[1..]);
      if picks[0].Skip? {
        PickSkip(cs, first, results, path, picks);
        PrependNothing(rest, first);
      } else {
        PickTake(cs, first, results, path, picks);
        ChoiceIndependent(cs[0], x, tape[..n], path + [first], results, r, held, picks[0]);
        PrependPoint(Point(first, Mul(r, x)), rest, q, r);
      }
    }
  }

  // ----- The recombination theorem -----

  /** The results computed from the shares of the leaves whose attribute has an exponent,
      each share scaled by that exponent. */
  function HeldResults(shares: seq<Share>, exponents: map<string, Scalar>): LeafResults {
    if shares == [] then
      map[]
    else
      var n := |shares| - 1;
      var rest := HeldResults(shares[..n], exponents);
      var sh := shares[n];
      if sh.attr in exponents then rest[sh.path := Mul(exponents[sh.attr], sh.value)] else rest
  }

  /** The same exponent r for every held attribute. */
  function Uniform(held: set<string>, r: Scalar): map<string, Scalar> {
    map a | a in held :: r
  }

  /** Exactly the held leaves have a result. */
  predicate Covers(shares: seq<Share>, results: LeafResults, held: set<string>) {
    forall sh <- shares :: sh.path in results <==> sh.attr in held
  }

  lemma {:induction false} HeldResultsAt(shares: seq<Share>, exponents: map<string, Scalar>)
    requires DistinctPaths(shares)
    ensures var results := HeldResults(shares, exponents);
      && Covers(shares, results, exponents.Keys)
      && (forall sh <- shares | sh.attr in exponents :: results[sh.path] == Mul(exponents[sh.attr], sh.value))
      && forall p <- results :: exists sh <- shares :: sh.path == p
  {
    hide Mul;
    if shares != [] {
      var n := |shares| - 1;
      HeldResultsAt(shares[..n], exponents);
      assert forall sh <- shares[..n] :: sh.path != shares[n].path;
      assert shares == shares[..n] + [shares[n]];
    }
  }

  lemma HeldResultsHonest(shares: seq<Share>, held: set<string>, r: Scalar)
    requires DistinctPaths(shares)
    ensures var results := HeldResults(shares, Uniform(held, r));
      Covers(shares, results, held) && Honest(shares, results, r)
  {
    hide Mul, HeldResults;
    HeldResultsAt(shares, Uniform(held, r));
    assert Uniform(held, r).Keys == held;
  }

  lemma {:induction false} CoversMatches(t: AccessTree, s: Scalar, tape: Tape, path: seq<nat>,
                                         results: LeafResults, held: set<string>)
    requires |tape| == Draws(t) && Covers(SharesOf(t, s, tape, path), results, held)
    ensures Matches(t, results, path, held)
    decreases t
  {
    hide Eval;
    match t
    case Leaf(a) =>
      assert Share(path, a, s) in SharesOf(t, s, tape, path);
    case Gate(k, cs) =>
      CoversMatchesAll(cs, 1, [s] + tape[..Degree(k)], tape[Degree(k)..], path, results, held);
  }

  lemma {:induction false} CoversMatchesAll(cs: seq<AccessTree>, first: nat, q: Poly, tape: Tape, path: seq<nat>,
                                            results: LeafResults, held: set<string>)
    requires |tape| == DrawsOf(cs) && Covers(SharesOfChildren(cs, first, q, tape, path), results, held)
    ensures MatchesAll(cs, first, results, path, held)
    decreases cs
  {
    hide Eval;
    if cs != [] {
      var n := Draws(cs[0]);
      var x := Eval(q, IndexScalar(first));
      var head, tail := SharesOf(cs[0], x, tape[..n], path + [first]),
                        SharesOfChildren(cs[1..], first + 1, q, tape[n..], path);
      assert SharesOfChildren(cs, first, q, tape, path) == head + tail;
      CoversMatches(cs[0], x, tape[..n], path + [first], results, held);
      CoversMatchesAll(cs[1..], first + 1, q, tape[n..], path, results, held);
    }
  }

  /** If the held attributes satisfy the tree, its first choice visits no gate of threshold
      zero.  Always so when every gate asks for at least one child. */
  predicate Recoverable(t: AccessTree, held: set<string>) {
    var c := FirstChoice(t, held);
    c.Some? ==> ZeroFree(t, c.value)
  }

  lemma WellFormedRecoverable(t: AccessTree, held: set<string>)
    requires WellFormed(t)
    ensures Recoverable(t, held)
  {
    var c := FirstChoice(t, held);
    hide *;
    if c.Some? {
      WellFormedZeroFree(t, held, c.value);
    }
    RecoverableMeans(t, held);
  }

  lemma RecoverableMeans(t: AccessTree, held: set<string>)
    ensures var c := FirstChoice(t, held); Recoverable(t, held) <==> (c.Some? ==> ZeroFree(t, c.value))
  {
  }

  /** Any results that are r times the shares of exactly the held leaves recombine to r times
      the secret when the tree is satisfied, and to nothing otherwise. */
  lemma RecombineHonest(t: AccessTree, s: Scalar, tape: Tape, path: seq<nat>,
                        results: LeafResults, r: Scalar, held: set<string>)
    requires |tape| == Draws(t) && Indexable(t) && Recoverable(t, held)
    requires var shares := SharesOf(t, s, tape, path); Covers(shares, results, held) && Honest(shares, results, r)
    ensures Recombined(t, results, path) == if IsSatisfiedBy(t, held) then Some(Mul(r, s)) else None
  {
    hide *;
    CoversMatches(t, s, tape, path, results, held);
    RecombineFollows(t, results, path, held);
    ChoiceIffSatisfied(t, held);
    RecoverableMeans(t, held);
    var c := FirstChoice(t, held);
    FollowingCases(t, results, path, c);
    if c.Some? {
      ChoiceIndependent(t, s, tape, path, results, r, held, c.value);
    }
  }

  lemma FollowingCases(t: AccessTree, results: LeafResults, path: seq<nat>, c: Option<Choice>)
    ensures Following(t, results, path, c) == if c.None? then None else Some(Follow(t, results, path, c.value))
  {
  }

  /** Sharing, then recombining the shares of the held leaves. */
  lemma RecombineShares(t: AccessTree, s: Scalar, tape: Tape, held: set<string>, r: Scalar)
    requires |tape| == Draws(t) && Indexable(t) && Recoverable(t, held)
    ensures Recombined(t, HeldResults(SharesOf(t, s, tape, []), Uniform(held, r)), [])
         == if IsSatisfiedBy(t, held) then Some(Mul(r, s)) else None
  {
    hide *;
    var shares := SharesOf(t, s, tape, []);
    ShareLayout(t, s, tape, []);
    HeldResultsHonest(shares, held, r);
    RecombineHonest(t, s, tape, [], HeldResults(shares, Uniform(held, r)), r, held);
  }
}
