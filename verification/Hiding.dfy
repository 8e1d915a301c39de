/** What the shares of the held leaves tell about the secret: everything when the held
    attributes satisfy the tree, nothing at all when they do not. */
module Hiding {
  import opened PrimeField
  import opened Polynomials
  import opened AccessTrees
  import opened Sharing
  import opened Recombination

  // ----- Masks: polynomials that are 1 at zero and vanish at given points -----

  /** a + k * b, coefficient by coefficient. */
  function AddScaled(a: Poly, k: Scalar, b: Poly): (c: Poly)
    requires |a| == |b|
    ensures |c| == |a|
  {
    if a == [] then [] else [Add(a[0], Mul(k, b[0]))] + AddScaled(a[1..], k, b[1..])
  }

  lemma {:induction false} EvalAddScaled(a: Poly, k: Scalar, b: Poly, x: Scalar)
    requires |a| == |b|
    ensures Eval(AddScaled(a, k, b), x) == Add(Eval(a, x), Mul(k, Eval(b, x)))
  {
    hide Add, Mul;
    if a == [] {
      MulUnit(k);
    } else {
      var u, v := Eval(a[1..], x), Eval(b[1..], x);
      EvalAddScaled(a[1..], k, b[1..], x);
      assert AddScaled(a, k, b)[1..] == AddScaled(a[1..], k, b[1..]);
      Distrib(x, u, Mul(k, v));
      MulAssoc(x, k, v);
      MulComm(x, k);
      MulAssoc(k, x, v);
      Distrib(k, b[0], Mul(x, v));
      AddInterchange(a[0], Mul(k, b[0]), Mul(x, u), Mul(k, Mul(x, v)));
    }
  }

  lemma {:induction false} AddScaledBack(a: Poly, k: Scalar, b: Poly)
    requires |a| == |b|
    ensures AddScaled(AddScaled(a, k, b), Neg(k), b) == a
  {
    hide Add, Mul;
    if a != [] {
      AddScaledBack(a[1..], k, b[1..]);
      assert AddScaled(a, k, b)[1..] == AddScaled(a[1..], k, b[1..]);
      MulNeg(k, b[0]);
      assert Add(Add(a[0], Mul(k, b[0])), Neg(Mul(k, b[0]))) == a[0];
    }
  }

  lemma {:induction false} EvalPadded(q: Poly, x: Scalar)
    ensures Eval(q + [0], x) == Eval(q, x)
  {
    hide Add, Mul;
    MulUnit(x);
    if q == [] {
      assert ([] + [0])[1..] == [];
    } else {
      EvalPadded(q[1..], x);
      assert (q + [0])[1..] == q[1..] + [0];
    }
  }

  /** A polynomial with n coefficients that vanishes on zs: the product of (1 - x/z). */
  function Mask(zs: seq<Scalar>, n: nat): (m: Poly)
    requires |zs| < n && 0 !in zs
    ensures |m| == n
    decreases n
  {
    if zs != [] then
      var m := Mask(zs[1..], n - 1);
      AddScaled(m + [0], Neg(Inv(zs[0])), [0] + m)
    else if n == 1 then
      [1]
    else
      Mask([], n - 1) + [0]
  }

  lemma {:induction false} MaskValues(zs: seq<Scalar>, n: nat, x: Scalar)
    requires |zs| < n && 0 !in zs
    ensures x == 0 ==> Eval(Mask(zs, n), x) == 1
    ensures x in zs ==> Eval(Mask(zs, n), x) == 0
    decreases n
  {
    hide Add, Mul, Neg, Inv, Eval, AddScaled;
    if zs != [] {
      var m, z := Mask(zs[1..], n - 1), zs[0];
      MaskValues(zs[1..], n - 1, x);
      EvalAddScaled(m + [0], Neg(Inv(z)), [0] + m, x);
      EvalPadded(m, x);
      EvalShifted(m, x);
      MaskFactor(Eval(m, x), x, z);
    } else if n == 1 {
      EvalConstant(1, x);
    } else {
      MaskValues([], n - 1, x);
      EvalPadded(Mask([], n - 1), x);
    }
  }

  lemma EvalShifted(q: Poly, x: Scalar)
    ensures Eval([0] + q, x) == Mul(x, Eval(q, x))
  {
    hide Add, Mul;
    assert ([0] + q)[1..] == q;
  }

  /** The factor 1 - x/z is one at x = 0 and zero at x = z. */
  lemma MaskFactor(e: Scalar, x: Scalar, z: Scalar)
    requires z != 0
    ensures var v := Add(e, Mul(Neg(Inv(z)), Mul(x, e)));
      (x == 0 ==> v == e) && (x == z ==> v == 0) && (e == 0 ==> v == 0)
  {
    hide *;
    MulNeg(Inv(z), Mul(x, e));
    MulAssoc(Inv(z), x, e);
    MulComm(Inv(z), z);
    MulUnit(e);
    MulUnit(x);
    MulUnit(Inv(z));
  }

  lemma MaskConstant(zs: seq<Scalar>, n: nat)
    requires |zs| < n && 0 !in zs
    ensures Mask(zs, n)[0] == 1
  {
    AtLeastTwo();
    hide *;
    MaskValues(zs, n, 0);
    EvalAtZero(Mask(zs, n));
  }

  // ----- Shifting the random tape -----

  function SatisfiedIndices(cs: seq<AccessTree>, first: nat, held: set<string>): (zs: seq<Scalar>)
    ensures |zs| == CountSatisfied(cs, held)
    ensures 1 <= first && first + |cs| <= P ==> 0 !in zs
    decreases cs
  {
    if cs == [] then
      []
    else
      (if IsSatisfiedBy(cs[0], held) then [IndexScalar(first)] else [])
      + SatisfiedIndices(cs[1..], first + 1, held)
  }

  /** The tape for a secret larger by d under which every held share is the same: each
      unsatisfied gate adds d times a mask of its satisfied children to its polynomial. */
  function Shift(t: AccessTree, held: set<string>, d: Scalar, tape: Tape): (shifted: Tape)
    requires |tape| == Draws(t) && Indexable(t) && !IsSatisfiedBy(t, held)
    ensures |shifted| == |tape|
    decreases t, 0
  {
    match t
    case Leaf(_) => []
    case Gate(k, cs) =>
      var m := Mask(SatisfiedIndices(cs, 1, held), k);
      AddScaled(tape[..k - 1], d, m[1..]) + ShiftChildren(cs, 1, held, d, m, tape[k - 1..])
  }

  function ShiftChildren(cs: seq<AccessTree>, first: nat, held: set<string>, d: Scalar, m: Poly, tape: Tape):
    (shifted: Tape)
    requires |tape| == DrawsOf(cs) && forall c <- cs :: Indexable(c)
    ensures |shifted| == |tape|
    decreases cs
  {
    if cs == [] then
      []
    else
      var n := Draws(cs[0]);
      ShiftChild(cs[0], held, Mul(d, Eval(m, IndexScalar(first))), tape[..n])
      + ShiftChildren(cs[1..], first + 1, held, d, m, tape[n..])
  }

  function ShiftChild(t: AccessTree, held: set<string>, d: Scalar, tape: Tape): (shifted: Tape)
    requires |tape| == Draws(t) && Indexable(t)
    ensures |shifted| == |tape|
    decreases t, 1
  {
    if IsSatisfiedBy(t, held) then tape else Shift(t, held, d, tape)
  }

  /** Shifting by d and then by -d gives back the tape, so shifting is a bijection on tapes. */
  lemma {:induction false} ShiftBack(t: AccessTree, held: set<string>, d: Scalar, tape: Tape)
    requires |tape| == Draws(t) && Indexable(t) && !IsSatisfiedBy(t, held)
    ensures Shift(t, held, Neg(d), Shift(t, held, d, tape)) == tape
    decreases t, 0
  {
    if t.Gate? {
      var k, cs := t.threshold, t.children;
      assert |tape| == k - 1 + DrawsOf(cs) && CountSatisfied(cs, held) < k && forall c <- cs :: Indexable(c);
      hide *;
      var own, below := tape[..k - 1], tape[k - 1..];
      var m := ShiftGate(t, held, d, own, below);
      assert tape == own + below;
      AddScaledBack(own, d, m[1..]);
      var below' := ShiftChildren(cs, 1, held, d, m, below);
      ShiftBackChildren(cs, 1, held, d, m, below, below');
      var m' := ShiftGate(t, held, Neg(d), AddScaled(own, d, m[1..]), below');
    }
  }

  lemma ShiftGate(t: AccessTree, held: set<string>, d: Scalar, own: Tape, below: Tape) returns (m: Poly)
    requires t.Gate? && Indexable(t) && !IsSatisfiedBy(t, held)
    requires |own| == t.threshold - 1 && |below| == DrawsOf(t.children)
    ensures forall c <- t.children :: Indexable(c)
    ensures |t.children| < P && CountSatisfied(t.children, held) < t.threshold
    ensures |own + below| == Draws(t)
    ensures m == Mask(SatisfiedIndices(t.children, 1, held), t.threshold)
    ensures Shift(t, held, d, own + below)
         == AddScaled(own, d, m[1..]) + ShiftChildren(t.children, 1, held, d, m, below)
  {
    m := Mask(SatisfiedIndices(t.children, 1, held), t.threshold);
    hide Mask, AddScaled, ShiftChildren, SatisfiedIndices;
    assert (own + below)[..|own|] == own && (own + below)[|own|..] == below;
  }

  lemma {:induction false} ShiftBackChildren(cs: seq<AccessTree>, first: nat, held: set<string>, d: Scalar,
                                             m: Poly, tape: Tape, shifted: Tape)
    requires |tape| == DrawsOf(cs) && forall c <- cs :: Indexable(c)
    requires shifted == ShiftChildren(cs, first, held, d, m, tape)
    ensures ShiftChildren(cs, first, held, Neg(d), m, shifted) == tape
    decreases cs
  {
    if cs != [] {
      var n, e := Draws(cs[0]), Eval(m, IndexScalar(first));
      var rest := cs[1..];
      assert |tape| == n + DrawsOf(rest) && Indexable(cs[0]) && forall c <- rest :: Indexable(c);
      hide *;
      var own, below := tape[..n], tape[n..];
      assert own + below == tape;
      var own', below' := ShiftChild(cs[0], held, Mul(d, e), own), ShiftChildren(rest, first + 1, held, d, m, below);
      assert ShiftChild(cs[0], held, Mul(Neg(d), e), own') == own by {
        MulNeg(d, e);
        ShiftBackChild(cs[0], held, Mul(d, e), own);
      }
      ShiftBackChildren(rest, first + 1, held, d, m, below, below');
      ShiftCons(cs, first, held, d, m, own, below, own', below');
      ShiftCons(cs, first, held, Neg(d), m, own', below', own, below);
    }
  }

  lemma {:induction false} ShiftBackChild(t: AccessTree, held: set<string>, d: Scalar, tape: Tape)
    requires |tape| == Draws(t) && Indexable(t)
    ensures ShiftChild(t, held, Neg(d), ShiftChild(t, held, d, tape)) == tape
    decreases t, 1
  {
    hide Neg, Shift, Draws, Indexable;
    if !IsSatisfiedBy(t, held) {
      ShiftBack(t, held, d, tape);
    }
  }

  lemma ShiftCons(cs: seq<AccessTree>, first: nat, held: set<string>, d: Scalar, m: Poly, own: Tape, below: Tape,
                  own': Tape, below': Tape)
    requires cs != [] && |own| == Draws(cs[0]) && |below| == DrawsOf(cs[1..]) && forall c <- cs :: Indexable(c)
    requires own' == ShiftChild(cs[0], held, Mul(d, Eval(m, IndexScalar(first))), own)
    requires below' == ShiftChildren(cs[1..], first + 1, held, d, m, below)
    ensures |own + below| == DrawsOf(cs)
    ensures ShiftChildren(cs, first, held, d, m, own + below) == own' + below'
  {
    hide Mul, Eval, ShiftChild, IndexScalar, Indexable;
    assert (own + below)[..|own|] == own && (own + below)[|own|..] == below;
  }

  // ----- The held view -----

  /** The shares of the leaves whose attribute is held: all that their holder sees. */
  function View(shares: seq<Share>, held: set<string>): seq<Share> {
    if shares == [] then []
    else (if shares[0].attr in held then [shares[0]] else []) + View(shares[1..], held)
  }

  lemma {:induction false} ViewConcat(a: seq<Share>, b: seq<Share>, held: set<string>)
    ensures View(a + b, held) == View(a, held) + View(b, held)
  {
    if a == [] {
      assert a + b == b;
    } else {
      ViewConcat(a[1..], b, held);
      ViewCons(a[0], a[1..] + b, held);
      ConsConcat(a, b);
      hide *;
      var first := if a[0].attr in held then [a[0]] else [];
      Associate(first, View(a[1..], held), View(b, held));
    }
  }

  lemma ConsConcat<T>(a: seq<T>, b: seq<T>)
    requires a != []
    ensures a + b == [a[0]] + (a[1..] + b)
  {
  }

  lemma Associate<T>(a: seq<T>, b: seq<T>, c: seq<T>)
    ensures a + (b + c) == a + b + c
  {
  }

  lemma ViewCons(sh: Share, rest: seq<Share>, held: set<string>)
    ensures View([sh] + rest, held) == (if sh.attr in held then [sh] else []) + View(rest, held)
  {
    assert ([sh] + rest)[1..] == rest;
  }

  /** Unsatisfied: the shifted tape shares a secret larger by d with exactly the same view. */
  lemma {:induction false} PerfectHiding(t: AccessTree, held: set<string>, s: Scalar, d: Scalar,
                                         tape: Tape, path: seq<nat>)
    requires |tape| == Draws(t) && Indexable(t) && !IsSatisfiedBy(t, held)
    ensures View(SharesOf(t, Add(s, d), Shift(t, held, d, tape), path), held)
         == View(SharesOf(t, s, tape, path), held)
    decreases t
  {
    hide Add, Mul, Eval, Mask, AddScaled, ShiftChildren;
    match t
    case Leaf(_) =>
    case Gate(k, cs) =>
      var zs := SatisfiedIndices(cs, 1, held);
      var m := Mask(zs, k);
      var q, q' := [s] + tape[..k - 1], [Add(s, d)] + AddScaled(tape[..k - 1], d, m[1..]);
      MaskConstant(zs, k);
      AddScaledCons(s, tape[..k - 1], d, m);
      forall x
        ensures Eval(q', x) == Add(Eval(q, x), Mul(d, Eval(m, x)))
        ensures x in zs ==> Eval(m, x) == 0
      {
        EvalAddScaled(q, d, m, x);
        MaskValues(zs, k, x);
      }
      var shifted := Shift(t, held, d, tape);
      assert shifted[..k - 1] == AddScaled(tape[..k - 1], d, m[1..]);
      assert shifted[k - 1..] == ShiftChildren(cs, 1, held, d, m, tape[k - 1..]);
      HidingChildren(cs, 1, held, q, q', d, m, tape[k - 1..], path);
  }

  lemma AddScaledCons(s: Scalar, a: Poly, d: Scalar, m: Poly)
    requires |m| == |a| + 1 && m[0] == 1
    ensures AddScaled([s] + a, d, m) == [Add(s, d)] + AddScaled(a, d, m[1..])
  {
    hide Add, Mul;
    assert ([s] + a)[1..] == a;
    MulUnit(d);
  }

  lemma {:induction false} HidingChildren(cs: seq<AccessTree>, first: nat, held: set<string>, q: Poly, q': Poly,
                                          d: Scalar, m: Poly, tape: Tape, path: seq<nat>)
    requires |tape| == DrawsOf(cs) && forall c <- cs :: Indexable(c)
    requires forall x: Scalar :: Eval(q', x) == Add(Eval(q, x), Mul(d, Eval(m, x)))
    requires forall x <- SatisfiedIndices(cs, first, held) :: Eval(m, x) == 0
    ensures View(SharesOfChildren(cs, first, q', ShiftChildren(cs, first, held, d, m, tape), path), held)
         == View(SharesOfChildren(cs, first, q, tape, path), held)
    decreases cs
  {
    hide Add, Mul, Eval;
    if cs != [] {
      var n, i := Draws(cs[0]), IndexScalar(first);
      var x, e := Eval(q, i), Mul(d, Eval(m, i));
      var here := path + [first];
      HidingChildren(cs[1..], first + 1, held, q, q', d, m, tape[n..], path);
      var head, tail := ShiftChild(cs[0], held, e, tape[..n]), ShiftChildren(cs[1..], first + 1, held, d, m, tape[n..]);
      if IsSatisfiedBy(cs[0], held) {
        assert i in SatisfiedIndices(cs, first, held);
        MulUnit(d);
        assert Add(x, e) == x;
      } else {
        PerfectHiding(cs[0], held, x, e, tape[..n], here);
      }
      assert (head + tail)[..n] == head && (head + tail)[n..] == tail;
      ViewConcat(SharesOf(cs[0], Add(x, e), head, here), SharesOfChildren(cs[1..], first + 1, q', tail, path), held);
      ViewConcat(SharesOf(cs[0], x, tape[..n], here), SharesOfChildren(cs[1..], first + 1, q, tape[n..], path), held);
    }
  }

  // ----- Satisfied: the view determines the secret -----

  lemma {:induction false} ResultsOfView(shares: seq<Share>, exponents: map<string, Scalar>)
    ensures HeldResults(shares, exponents) == HeldResults(View(shares, exponents.Keys), exponents)
  {
    if shares != [] {
      hide *;
      var n := |shares| - 1;
      var init, last := shares[..n], shares[n];
      ResultsOfView(init, exponents);
      assert shares == init + [last];
      ViewConcat(init, [last], exponents.Keys);
      ViewSingle(last, exponents.Keys);
      HeldLast(init, last, exponents);
      var v := View(init, exponents.Keys);
      HeldLast(v, last, exponents);
      assert v + [] == v;
    }
  }

  lemma ViewSingle(sh: Share, held: set<string>)
    ensures View([sh], held) == if sh.attr in held then [sh] else []
  {
    assert [sh][1..] == [];
  }

  lemma HeldLast(shares: seq<Share>, sh: Share, exponents: map<string, Scalar>)
    ensures HeldResults(shares + [sh], exponents)
         == var rest := HeldResults(shares, exponents);
            if sh.attr in exponents then rest[sh.path := Mul(exponents[sh.attr], sh.value)] else rest
  {
    hide Mul;
    assert (shares + [sh])[..|shares|] == shares;
  }

  // ----- The tree that the splitter sees -----

  /** The polynomial of a gate of threshold zero has one coefficient, as if it asked for one child. */
  function Raised(t: AccessTree): AccessTree
    decreases t
  {
    match t
    case Leaf(_) => t
    case Gate(k, cs) => Gate(if k == 0 then 1 else k, RaisedAll(cs))
  }

  function RaisedAll(cs: seq<AccessTree>): (raised: seq<AccessTree>)
    ensures |raised| == |cs|
    decreases cs
  {
    if cs == [] then [] else [Raised(cs[0])] + RaisedAll(cs[1..])
  }

  /** The raised tree is well formed and shares every secret the same way. */
  lemma {:induction false} RaisedShares(t: AccessTree, s: Scalar, tape: Tape, path: seq<nat>)
    requires |tape| == Draws(t)
    ensures WellFormed(Raised(t)) && Draws(Raised(t)) == Draws(t)
    ensures SharesOf(Raised(t), s, tape, path) == SharesOf(t, s, tape, path)
    decreases t
  {
    hide Eval;
    match t
    case Leaf(_) =>
    case Gate(k, cs) =>
      RaisedChildren(cs, 1, [s] + tape[..Degree(k)], tape[Degree(k)..], path);
  }

  lemma {:induction false} RaisedChildren(cs: seq<AccessTree>, first: nat, q: Poly, tape: Tape, path: seq<nat>)
    requires |tape| == DrawsOf(cs)
    ensures (forall c <- RaisedAll(cs) :: WellFormed(c)) && DrawsOf(RaisedAll(cs)) == DrawsOf(cs)
    ensures SharesOfChildren(RaisedAll(cs), first, q, tape, path) == SharesOfChildren(cs, first, q, tape, path)
    decreases cs
  {
    hide Eval, Raised, WellFormed;
    if cs != [] {
      var n := Draws(cs[0]);
      RaisedShares(cs[0], Eval(q, IndexScalar(first)), tape[..n], path + [first]);
      RaisedChildren(cs[1..], first + 1, q, tape[n..], path);
    }
  }

  lemma {:induction false} RaisedIndexable(t: AccessTree)
    ensures Indexable(Raised(t)) <==> Indexable(t)
    decreases t
  {
    if t.Gate? {
      RaisedAllIndexable(t.children);
    }
  }

  lemma {:induction false} RaisedAllIndexable(cs: seq<AccessTree>)
    ensures (forall c <- RaisedAll(cs) :: Indexable(c)) <==> (forall c <- cs :: Indexable(c))
    decreases cs
  {
    hide Indexable, Raised;
    if cs != [] {
      RaisedIndexable(cs[0]);
      RaisedAllIndexable(cs[1..]);
      assert cs == [cs[0]] + cs[1..];
    }
  }

  /** Raising changes no tree whose gates all ask for a child. */
  lemma {:induction false} RaisedSame(t: AccessTree)
    ensures Raised(t) == t <==> WellFormed(t)
    decreases t
  {
    if t.Gate? {
      RaisedAllSame(t.children);
    }
  }

  lemma {:induction false} RaisedAllSame(cs: seq<AccessTree>)
    ensures RaisedAll(cs) == cs <==> forall c <- cs :: WellFormed(c)
    decreases cs
  {
    hide WellFormed, Raised;
    if cs != [] {
      RaisedSame(cs[0]);
      RaisedAllSame(cs[1..]);
      assert cs == [cs[0]] + cs[1..];
    }
  }

  /** A choice that visits no gate of threshold zero satisfies the raised tree too. */
  lemma {:induction false} RaisedChoice(t: AccessTree, held: set<string>, c: Choice)
    requires ValidChoice(t, held, c) && ZeroFree(t, c)
    ensures IsSatisfiedBy(Raised(t), held)
    decreases t
  {
    if t.Gate? {
      RaisedPicks(t.children, held, c.picks);
    }
  }

  lemma {:induction false} RaisedPicks(cs: seq<AccessTree>, held: set<string>, picks: seq<Choice>)
    requires |picks| == |cs| && ValidPicks(cs, held, picks) && ZeroFreePicks(cs, picks)
    ensures Used(picks) <= CountSatisfied(RaisedAll(cs), held)
    decreases cs
  {
    if cs != [] {
      if !picks[0].Skip? {
        RaisedChoice(cs[0], held, picks[0]);
      }
      RaisedPicks(cs[1..], held, picks[1..]);
    }
  }

  // ----- All or nothing -----

  /** Two sharings with the same held view have the same secret when the view satisfies the
      raised tree. */
  lemma ViewDetermines(t: AccessTree, held: set<string>, s: Scalar, tape: Tape, s': Scalar, tape': Tape)
    requires |tape| == |tape'| == Draws(t) && Indexable(t) && IsSatisfiedBy(Raised(t), held)
    requires View(SharesOf(t, s, tape, []), held) == View(SharesOf(t, s', tape', []), held)
    ensures s == s'
  {
    AtLeastTwo();
    assert Uniform(held, 1).Keys == held;
    hide *;
    RaisedShares(t, s, tape, []);
    RaisedShares(t, s', tape', []);
    RaisedIndexable(t);
    WellFormedRecoverable(Raised(t), held);
    RecombineShares(Raised(t), s, tape, held, 1);
    RecombineShares(Raised(t), s', tape', held, 1);
    ResultsOfView(SharesOf(t, s, tape, []), Uniform(held, 1));
    ResultsOfView(SharesOf(t, s', tape', []), Uniform(held, 1));
    MulUnit(s);
    MulUnit(s');
  }

  /** Whoever can recombine correctly satisfies the raised tree; a gate of threshold zero that
      nobody needs makes no difference. */
  lemma RecoverableRaised(t: AccessTree, held: set<string>)
    requires IsSatisfiedBy(t, held) && Recoverable(t, held)
    ensures IsSatisfiedBy(Raised(t), held)
  {
    hide *;
    ChoiceIffSatisfied(t, held);
    RecoverableMeans(t, held);
    RaisedChoice(t, held, FirstChoice(t, held).value);
  }

  /** Some tape shares s' with the view that `tape` gives for s. */
  ghost predicate Explains(t: AccessTree, held: set<string>, s: Scalar, tape: Tape, s': Scalar)
    requires |tape| == Draws(t)
  {
    exists tape': Tape | |tape'| == Draws(t) ::
      View(SharesOf(t, s', tape', []), held) == View(SharesOf(t, s, tape, []), held)
  }

  /** Every view is explained by every secret exactly when the raised tree is not satisfied. */
  lemma HidesIffUnsatisfied(t: AccessTree, held: set<string>)
    requires Indexable(t)
    ensures (forall s, s', tape: Tape | |tape| == Draws(t) :: Explains(t, held, s, tape, s'))
        <==> !IsSatisfiedBy(Raised(t), held)
  {
    hide View, SharesOf, IsSatisfiedBy, WellFormed, Indexable, Draws, Raised;
    if IsSatisfiedBy(Raised(t), held) {
      var tape: Tape := seq(Draws(t), _ => 0);
      if Explains(t, held, 0, tape, 1) {
        var tape': Tape :| |tape'| == Draws(t)
          && View(SharesOf(t, 1, tape', []), held) == View(SharesOf(t, 0, tape, []), held);
        ViewDetermines(t, held, 0, tape, 1, tape');
      }
    } else {
      forall s, s', tape: Tape | |tape| == Draws(t)
        ensures Explains(t, held, s, tape, s')
      {
        ExplainedBy(t, held, s, tape, s');
      }
    }
  }

  lemma ExplainedBy(t: AccessTree, held: set<string>, s: Scalar, tape: Tape, s': Scalar)
    requires |tape| == Draws(t) && Indexable(t) && !IsSatisfiedBy(Raised(t), held)
    ensures Explains(t, held, s, tape, s')
  {
    hide View, SharesOf, IsSatisfiedBy, WellFormed, Indexable, Draws, Raised, Shift;
    var d := Sub(s', s);
    RaisedShares(t, s, tape, []);
    RaisedIndexable(t);
    var tape' := Shift(Raised(t), held, d, tape);
    RaisedShares(t, s', tape', []);
    PerfectHiding(Raised(t), held, s, d, tape, []);
    assert Add(s, d) == s';
  }
}
