/** Recombination as a linear form in the leaf values, and what follows from it: what a key
    with mixed blinding exponents recovers, and exactly when recombination is correct. */
module LinearForms {
  import opened Wrappers
  import opened PrimeField
  import opened Polynomials
  import opened AccessTrees
  import opened Sharing
  import opened Recombination

  /** A leaf that a choice uses, with the weight its value gets at the root. */
  datatype Use = Use(path: seq<nat>, weight: Scalar)

  function PickIndices(first: nat, picks: seq<Choice>): (xs: seq<Scalar>)
    ensures |xs| == Used(picks)
    ensures 1 <= first && first + |picks| <= P ==> forall x <- xs :: first <= x < first + |picks|
    decreases picks
  {
    if picks == [] then []
    else (if picks[0].Skip? then [] else [IndexScalar(first)]) + PickIndices(first + 1, picks[1..])
  }

  function Uses(t: AccessTree, path: seq<nat>, c: Choice): seq<Use>
    decreases t
  {
    match t
    case Leaf(_) => [Use(path, 1)]
    case Gate(_, cs) =>
      if c.Combine? && |c.picks| == |cs| then UsesOf(cs, 1, PickIndices(1, c.picks), path, c.picks) else []
  }

  function UsesOf(cs: seq<AccessTree>, first: nat, all: seq<Scalar>, path: seq<nat>, picks: seq<Choice>): seq<Use>
    requires |picks| == |cs|
    decreases cs
  {
    if cs == [] then
      []
    else
      (if picks[0].Skip? then [] else
         Scale(Uses(cs[0], path + [first], picks[0]), Coeff(all, IndexScalar(first))))
      + UsesOf(cs[1..], first + 1, all, path, picks[1..])
  }

  function Scale(uses: seq<Use>, k: Scalar): (scaled: seq<Use>)
    ensures |scaled| == |uses|
    ensures forall i :: 0 <= i < |uses| ==> scaled[i] == Use(uses[i].path, Mul(uses[i].weight, k))
  {
    if uses == [] then [] else [Use(uses[0].path, Mul(uses[0].weight, k))] + Scale(uses[1..], k)
  }

  function At(results: LeafResults, path: seq<nat>): Scalar {
    if path in results then results[path] else 0
  }

  /** The weighted sum of the results at the used leaves. */
  function Dot(uses: seq<Use>, results: LeafResults): Scalar {
    if uses == [] then 0
    else Add(Mul(uses[0].weight, At(results, uses[0].path)), Dot(uses[1..], results))
  }

  lemma {:induction false} DotConcat(a: seq<Use>, b: seq<Use>, results: LeafResults)
    ensures Dot(a + b, results) == Add(Dot(a, results), Dot(b, results))
  {
    hide Add, Mul;
    if a == [] {
      assert a + b == b;
    } else {
      DotConcat(a[1..], b, results);
      assert (a + b)[1..] == a[1..] + b;
    }
  }

  lemma {:induction false} DotScale(uses: seq<Use>, k: Scalar, results: LeafResults)
    ensures Dot(Scale(uses, k), results) == Mul(Dot(uses, results), k)
  {
    hide Add, Mul;
    if uses == [] {
      MulUnit(k);
    } else {
      var w, v := uses[0].weight, At(results, uses[0].path);
      DotScale(uses[1..], k, results);
      assert Scale(uses, k)[1..] == Scale(uses[1..], k);
      MulSwap(w, k, v);
      Distrib(k, Mul(w, v), Dot(uses[1..], results));
    }
  }

  lemma {:induction false} WeightedFront(all: seq<Scalar>, p: Point, rest: seq<Point>)
    ensures Weighted(all, [p] + rest) == Add(Mul(p.value, Coeff(all, p.index)), Weighted(all, rest))
  {
    hide Add, Mul, Coeff;
    var n := |rest|;
    if n == 0 {
      assert ([p] + rest)[..0] == [] && [p] + rest == [p];
    } else {
      WeightedFront(all, p, rest[..n - 1]);
      assert ([p] + rest)[..n] == [p] + rest[..n - 1];
    }
  }

  /** For a fixed choice the value at the root is a linear form in the results. */
  lemma {:induction false} LinearForm(t: AccessTree, results: LeafResults, path: seq<nat>, c: Choice)
    ensures Follow(t, results, path, c) == Dot(Uses(t, path, c), results)
    decreases t
  {
    hide Add, Mul, Coeff;
    match t
    case Leaf(_) =>
      MulUnit(At(results, path));
      assert [Use(path, 1)][1..] == [];
    case Gate(_, cs) =>
      if c.Combine? && |c.picks| == |cs| {
        var points := PickedPoints(cs, 1, results, path, c.picks);
        PickedIndices(cs, 1, results, path, c.picks);
        LinearPicks(cs, 1, PickIndices(1, c.picks), results, path, c.picks);
      }
  }

  lemma {:induction false} PickedIndices(cs: seq<AccessTree>, first: nat, results: LeafResults, path: seq<nat>,
                                         picks: seq<Choice>)
    requires |picks| == |cs|
    ensures Indices(PickedPoints(cs, first, results, path, picks)) == PickIndices(first, picks)
    decreases cs
  {
    hide Follow, IndexScalar, Indices;
    if cs != [] {
      PickedIndices(cs[1..], first + 1, results, path, picks[1..]);
    }
  }

  lemma {:induction false} LinearPicks(cs: seq<AccessTree>, first: nat, all: seq<Scalar>, results: LeafResults,
                                       path: seq<nat>, picks: seq<Choice>)
    requires |picks| == |cs|
    ensures Weighted(all, PickedPoints(cs, first, results, path, picks))
         == Dot(UsesOf(cs, first, all, path, picks), results)
    decreases cs
  {
    hide Add, Mul, Coeff, Follow, Uses, IndexScalar;
    if cs != [] {
      LinearPicks(cs[1..], first + 1, all, results, path, picks[1..]);
      var rest := UsesOf(cs[1..], first + 1, all, path, picks[1..]);
      if !picks[0].Skip? {
        var uses, i := Uses(cs[0], path + [first], picks[0]), IndexScalar(first);
        var v := Follow(cs[0], results, path + [first], picks[0]);
        LinearForm(cs[0], results, path + [first], picks[0]);
        PickTake(cs, first, results, path, picks);
        DotScale(uses, Coeff(all, i), results);
        DotConcat(Scale(uses, Coeff(all, i)), rest, results);
        WeightedFront(all, Point(i, v), PickedPoints(cs[1..], first + 1, results, path, picks[1..]));
      } else {
        PickSkip(cs, first, results, path, picks);
        assert UsesOf(cs, first, all, path, picks) == rest;
      }
    }
  }

  /** Every leaf that a valid choice uses is a held leaf below `path`, with a non-zero weight,
      and no leaf is used twice. */
  lemma {:induction false} UsesAreHeld(t: AccessTree, path: seq<nat>, held: set<string>, c: Choice)
    requires Indexable(t) && ValidChoice(t, held, c)
    ensures forall u <- Uses(t, path, c) ::
              u.weight != 0 && path <= u.path && exists a <- held :: LeadsTo(t, u.path[|path|..], a)
    ensures DistinctUses(Uses(t, path, c))
    decreases t, 0
  {
    hide Coeff, Mul;
    match t
    case Leaf(a) =>
      assert LeadsTo(t, [], a);
    case Gate(_, cs) =>
      var uses := Uses(t, path, c);
      UsesOfAreHeld(cs, 1, PickIndices(1, c.picks), path, held, c.picks);
      forall u <- uses
        ensures u.weight != 0 && path <= u.path && exists a <- held :: LeadsTo(t, u.path[|path|..], a)
      {
        var a :| a in held && LeadsTo(cs[u.path[|path|] - 1], u.path[|path| + 1..], a);
        assert u.path[|path|..][1..] == u.path[|path| + 1..];
        assert LeadsTo(t, u.path[|path|..], a);
      }
  }

  predicate DistinctUses(uses: seq<Use>) {
    forall i, j :: 0 <= i < j < |uses| ==> uses[i].path != uses[j].path
  }

  /** The use lies below a child of `path` numbered from `first` on, at a held leaf of that child. */
  predicate UseBelow(cs: seq<AccessTree>, first: nat, path: seq<nat>, held: set<string>, u: Use) {
    && u.weight != 0 && Below(path, u.path, first) && u.path[|path|] - first < |cs|
    && exists a <- held :: LeadsTo(cs[u.path[|path|] - first], u.path[|path| + 1..], a)
  }

  lemma {:induction false} UsesOfAreHeld(cs: seq<AccessTree>, first: nat, all: seq<Scalar>, path: seq<nat>,
                                         held: set<string>, picks: seq<Choice>)
    requires |picks| == |cs| && ValidPicks(cs, held, picks)
    requires 0 !in all && forall c <- cs :: Indexable(c)
    ensures forall u <- UsesOf(cs, first, all, path, picks) :: UseBelow(cs, first, path, held, u)
    ensures DistinctUses(UsesOf(cs, first, all, path, picks))
    decreases cs
  {
    hide Coeff, Mul, Uses, LeadsTo;
    if cs != [] {
      UsesOfAreHeld(cs[1..], first + 1, all, path, held, picks[1..]);
      var tail := UsesOf(cs[1..], first + 1, all, path, picks[1..]);
      forall u <- tail
        ensures UseBelow(cs, first, path, held, u) && u.path[|path|] > first
      {
        assert UseBelow(cs[1..], first + 1, path, held, u);
      }
      if !picks[0].Skip? {
        ChildUses(cs, first, all, path, held, picks[0]);
      }
    }
  }

  lemma ChildUses(cs: seq<AccessTree>, first: nat, all: seq<Scalar>, path: seq<nat>, held: set<string>, pick: Choice)
    requires cs != [] && Indexable(cs[0]) && ValidChoice(cs[0], held, pick) && 0 !in all
    ensures var uses := Scale(Uses(cs[0], path + [first], pick), Coeff(all, IndexScalar(first)));
      && DistinctUses(uses)
      && forall u <- uses :: UseBelow(cs, first, path, held, u) && u.path[|path|] == first
    decreases cs[0], 1
  {
    hide Coeff, Mul, Uses, LeadsTo;
    var here, k := path + [first], Coeff(all, IndexScalar(first));
    var uses := Uses(cs[0], here, pick);
    UsesAreHeld(cs[0], here, held, pick);
    CoeffNonZero(all, IndexScalar(first));
    forall i | 0 <= i < |uses|
      ensures var u := Scale(uses, k)[i]; UseBelow(cs, first, path, held, u) && u.path[|path|] == first
    {
      var p := uses[i].path;
      assert uses[i] in uses;
      NoZeroDivisors(uses[i].weight, k);
      assert here == p[..|here|] && p[|path|] == here[|path|] && p[..|path|] == here[..|path|] == path;
      assert p[|path| + 1..] == p[|here|..];
    }
  }

  // ----- Mixed exponents -----

  lemma {:induction false} DotSum(uses: seq<Use>, a: LeafResults, b: LeafResults, c: LeafResults)
    requires forall u <- uses :: At(c, u.path) == Add(At(a, u.path), At(b, u.path))
    ensures Dot(uses, c) == Add(Dot(uses, a), Dot(uses, b))
  {
    hide Add, Mul, At;
    if uses != [] {
      DotSum(uses[1..], a, b, c);
      var w, x, y := uses[0].weight, At(a, uses[0].path), At(b, uses[0].path);
      assert uses[0] in uses;
      Distrib(w, x, y);
      AddInterchange(Mul(w, x), Mul(w, y), Dot(uses[1..], a), Dot(uses[1..], b));
    }
  }

  lemma {:induction false} DotZero(uses: seq<Use>, results: LeafResults)
    requires forall u <- uses :: At(results, u.path) == 0
    ensures Dot(uses, results) == 0
  {
    hide Add, Mul, At;
    if uses != [] {
      DotZero(uses[1..], results);
      assert uses[0] in uses;
      MulUnit(uses[0].weight);
    }
  }

  lemma {:induction false} DotSingle(uses: seq<Use>, results: LeafResults, i: nat)
    requires i < |uses| && forall j :: 0 <= j < |uses| && j != i ==> At(results, uses[j].path) == 0
    ensures Dot(uses, results) == Mul(uses[i].weight, At(results, uses[i].path))
  {
    hide Add, Mul, At;
    if i == 0 {
      DotZero(uses[1..], results);
    } else {
      DotSingle(uses[1..], results, i - 1);
      MulUnit(uses[0].weight);
    }
  }

  /** How far each attribute's exponent is off r. */
  function Excess(exponents: map<string, Scalar>, r: Scalar): map<string, Scalar> {
    map a | a in exponents :: Sub(exponents[a], r)
  }

  lemma ResultsSplit(shares: seq<Share>, exponents: map<string, Scalar>, r: Scalar, p: seq<nat>)
    requires DistinctPaths(shares)
    ensures At(HeldResults(shares, exponents), p)
         == Add(At(HeldResults(shares, Uniform(exponents.Keys, r)), p),
                At(HeldResults(shares, Excess(exponents, r)), p))
  {
    hide Mul, Add, Sub, HeldResults, DistinctPaths;
    HeldResultsAt(shares, exponents);
    HeldResultsAt(shares, Uniform(exponents.Keys, r));
    HeldResultsAt(shares, Excess(exponents, r));
    assert Excess(exponents, r).Keys == exponents.Keys == Uniform(exponents.Keys, r).Keys;
    if sh :| sh in shares && sh.path == p {
      if sh.attr in exponents {
        var x := exponents[sh.attr];
        DistribSub(sh.value, x, r);
        assert Mul(x, sh.value) == Add(Mul(r, sh.value), Mul(Sub(x, r), sh.value));
      }
    }
  }

  /** The uses of the first choice. */
  function FirstUses(t: AccessTree, held: set<string>): seq<Use> {
    match FirstChoice(t, held)
    case None => []
    case Some(c) => Uses(t, [], c)
  }

  predicate UsesPath(uses: seq<Use>, path: seq<nat>) {
    exists u <- uses :: u.path == path
  }

  /** The root value of any held results is the weighted sum over the uses of the first choice. */
  lemma RecombinedIsLinear(t: AccessTree, s: Scalar, tape: Tape, exponents: map<string, Scalar>)
    requires |tape| == Draws(t)
    ensures var results, held := HeldResults(SharesOf(t, s, tape, []), exponents), exponents.Keys;
      Recombined(t, results, []) == if IsSatisfiedBy(t, held) then Some(Dot(FirstUses(t, held), results)) else None
  {
    var held := exponents.Keys;
    var c := FirstChoice(t, held);
    assert c.Some? ==> FirstUses(t, held) == Uses(t, [], c.value) by {
      hide FirstChoice, Uses;
    }
    hide *;
    var shares := SharesOf(t, s, tape, []);
    var results := HeldResults(shares, exponents);
    ShareLayout(t, s, tape, []);
    HeldResultsAt(shares, exponents);
    CoversMatches(t, s, tape, [], results, held);
    ChoiceIffSatisfied(t, held);
    RecombineFollows(t, results, [], held);
    FollowingCases(t, results, [], c);
    if c.Some? {
      LinearForm(t, results, [], c.value);
    }
  }

  /** A key whose leaf for attribute a carries exponent exponents[a] recombines to r * s plus
      the weighted sum of (exponents[a] - r) times the shares of the leaves used. */
  lemma SplicedRecombination(t: AccessTree, s: Scalar, tape: Tape, exponents: map<string, Scalar>, r: Scalar)
    requires |tape| == Draws(t) && Indexable(t) && Recoverable(t, exponents.Keys)
    requires IsSatisfiedBy(t, exponents.Keys)
    ensures var shares := SharesOf(t, s, tape, []);
      Recombined(t, HeldResults(shares, exponents), [])
      == Some(Add(Mul(r, s), Dot(FirstUses(t, exponents.Keys), HeldResults(shares, Excess(exponents, r)))))
  {
    var c := FirstChoice(t, exponents.Keys);
    assert c.Some? ==> FirstUses(t, exponents.Keys) == Uses(t, [], c.value) by {
      hide FirstChoice, Uses;
    }
    hide *;
    var shares, held := SharesOf(t, s, tape, []), exponents.Keys;
    var mixed, honest, extra :=
      HeldResults(shares, exponents), HeldResults(shares, Uniform(held, r)), HeldResults(shares, Excess(exponents, r));
    RecombinedIsLinear(t, s, tape, exponents);
    ShareLayout(t, s, tape, []);
    HeldResultsHonest(shares, held, r);
    CoversMatches(t, s, tape, [], honest, held);
    ChoiceIffSatisfied(t, held);
    RecoverableMeans(t, held);
    LinearForm(t, honest, [], c.value);
    ChoiceIndependent(t, s, tape, [], honest, r, held, c.value);
    var uses := Uses(t, [], c.value);
    forall u <- uses
      ensures At(mixed, u.path) == Add(At(honest, u.path), At(extra, u.path))
    {
      ResultsSplit(shares, exponents, r, u.path);
    }
    DotSum(uses, honest, extra, mixed);
  }

  /** `foreign` is the one share used whose exponent may differ from r. */
  predicate OnlyForeign(shares: seq<Share>, uses: seq<Use>, exponents: map<string, Scalar>, r: Scalar, foreign: Share) {
    && foreign in shares && foreign.attr in exponents && UsesPath(uses, foreign.path)
    && forall sh <- shares | sh != foreign && sh.attr in exponents && UsesPath(uses, sh.path) ::
         exponents[sh.attr] == r
  }

  /** The error of a mixed key with one foreign leaf is that leaf's weighted excess. */
  lemma ForeignError(shares: seq<Share>, uses: seq<Use>, exponents: map<string, Scalar>, r: Scalar, foreign: Share)
    returns (w: Scalar)
    requires DistinctPaths(shares) && DistinctUses(uses) && forall u <- uses :: u.weight != 0
    requires OnlyForeign(shares, uses, exponents, r, foreign)
    ensures w != 0
    ensures Dot(uses, HeldResults(shares, Excess(exponents, r)))
         == Mul(w, Mul(Sub(exponents[foreign.attr], r), foreign.value))
  {
    hide Dot, Mul, Sub, HeldResults, At;
    var extra := HeldResults(shares, Excess(exponents, r));
    var i :| 0 <= i < |uses| && uses[i].path == foreign.path;
    w := uses[i].weight;
    forall j | 0 <= j < |uses| && j != i
      ensures At(extra, uses[j].path) == 0
    {
      OtherUse(shares, uses, exponents, r, foreign, uses[j]);
    }
    DotSingle(uses, extra, i);
    ForeignAt(shares, exponents, r, foreign);
  }

  lemma OtherUse(shares: seq<Share>, uses: seq<Use>, exponents: map<string, Scalar>, r: Scalar, foreign: Share, u: Use)
    requires DistinctPaths(shares) && OnlyForeign(shares, uses, exponents, r, foreign)
    requires u in uses && u.path != foreign.path
    ensures At(HeldResults(shares, Excess(exponents, r)), u.path) == 0
  {
    hide Mul, Sub, HeldResults;
    HeldResultsAt(shares, Excess(exponents, r));
    assert Excess(exponents, r).Keys == exponents.Keys;
    if sh :| sh in shares && sh.path == u.path {
      assert UsesPath(uses, sh.path);
      MulUnit(sh.value);
    }
  }

  lemma ForeignAt(shares: seq<Share>, exponents: map<string, Scalar>, r: Scalar, foreign: Share)
    requires DistinctPaths(shares) && foreign in shares && foreign.attr in exponents
    ensures At(HeldResults(shares, Excess(exponents, r)), foreign.path)
         == Mul(Sub(exponents[foreign.attr], r), foreign.value)
  {
    hide Mul, Sub, HeldResults;
    HeldResultsAt(shares, Excess(exponents, r));
  }

  lemma FirstUsesAreHeld(t: AccessTree, held: set<string>)
    requires Indexable(t)
    ensures DistinctUses(FirstUses(t, held)) && forall u <- FirstUses(t, held) :: u.weight != 0
  {
    hide Uses, Indexable, LeadsTo;
    var c := FirstChoice(t, held);
    hide FirstChoice;
    if c.Some? {
      UsesAreHeld(t, [], held, c.value);
    }
  }

  /** With exactly one used leaf whose exponent may differ from r, the value r * s is
      recovered exactly when the exponents agree after all or that leaf's share is zero. */
  lemma OneForeignLeaf(t: AccessTree, s: Scalar, tape: Tape, exponents: map<string, Scalar>, r: Scalar, foreign: Share)
    requires |tape| == Draws(t) && Indexable(t) && Recoverable(t, exponents.Keys)
    requires IsSatisfiedBy(t, exponents.Keys)
    requires OnlyForeign(SharesOf(t, s, tape, []), FirstUses(t, exponents.Keys), exponents, r, foreign)
    ensures foreign.attr in exponents
    ensures Recombined(t, HeldResults(SharesOf(t, s, tape, []), exponents), []) == Some(Mul(r, s))
        <==> exponents[foreign.attr] == r || foreign.value == 0
  {
    assert foreign.attr in exponents;
    hide *;
    var shares, uses := SharesOf(t, s, tape, []), FirstUses(t, exponents.Keys);
    SplicedRecombination(t, s, tape, exponents, r);
    ShareLayout(t, s, tape, []);
    FirstUsesAreHeld(t, exponents.Keys);
    var w := ForeignError(shares, uses, exponents, r, foreign);
    var excess := Sub(exponents[foreign.attr], r);
    NoZeroDivisors(w, Mul(excess, foreign.value));
    NoZeroDivisors(excess, foreign.value);
    AddSame(Mul(r, s), Mul(w, Mul(excess, foreign.value)));
    SubSame(exponents[foreign.attr], r);
  }

  lemma AddSame(a: Scalar, b: Scalar)
    ensures Add(a, b) == a <==> b == 0
  {
    hide *;
  }

  lemma SubSame(a: Scalar, b: Scalar)
    ensures Sub(a, b) == 0 <==> a == b
  {
    hide *;
  }
}
