/** Splitting a secret down an access tree with one random polynomial per gate. */
module Sharing {
  import opened PrimeField
  import opened Polynomials
  import opened AccessTrees

  /** One leaf's share, keyed by the leaf's path of child indices. */
  datatype Share = Share(path: seq<nat>, attr: string, value: Scalar)

  type Tape = seq<Scalar>

  /** A source of random scalars: the tape of the values it is going to return. */
  class Rng {
    var tape: Tape

    constructor (tape: Tape)
      ensures this.tape == tape
    {
      this.tape := tape;
    }

    method Random() returns (x: Scalar)
      requires tape != []
      modifies this
      ensures x == old(tape)[0] && tape == old(tape)[1..]
    {
      x := tape[0];
      tape := tape[1..];
    }
  }

  /** Child indices 1, 2, ... as scalars. */
  function IndexScalar(i: nat): (x: Scalar)
    ensures i < P ==> x == i
  {
    FromNat(i)
  }

  /** The child indices of every gate are distinct non-zero scalars.  In the source
      they are 64-bit numbers and the group order has 255 bits. */
  predicate Indexable(t: AccessTree)
    decreases t
  {
    t.Gate? ==> |t.children| < P && forall c <- t.children :: Indexable(c)
  }

  function Degree(threshold: nat): nat {
    if threshold == 0 then 0 else threshold - 1
  }

  /** How many random scalars sharing over the tree consumes. */
  function Draws(t: AccessTree): nat
    decreases t
  {
    match t
    case Leaf(_) => 0
    case Gate(k, cs) => Degree(k) + DrawsOf(cs)
  }

  function DrawsOf(cs: seq<AccessTree>): nat
    decreases cs
  {
    if cs == [] then 0 else Draws(cs[0]) + DrawsOf(cs[1..])
  }

  /** The shares of `secret`, left to right, when `tape` holds the random scalars. */
  function SharesOf(t: AccessTree, secret: Scalar, tape: Tape, path: seq<nat>): seq<Share>
    requires |tape| == Draws(t)
    decreases t
  {
    match t
    case Leaf(a) => [Share(path, a, secret)]
    case Gate(k, cs) =>
      var d := Degree(k);
      SharesOfChildren(cs, 1, [secret] + tape[..d], tape[d..], path)
  }

  /** The shares of the children `cs`, numbered from `first`, of a gate with polynomial q. */
  function SharesOfChildren(cs: seq<AccessTree>, first: nat, q: Poly, tape: Tape, path: seq<nat>): seq<Share>
    requires |tape| == DrawsOf(cs)
    decreases cs
  {
    if cs == [] then
      []
    else
      var n := Draws(cs[0]);
      SharesOf(cs[0], Eval(q, IndexScalar(first)), tape[..n], path + [first])
      + SharesOfChildren(cs[1..], first + 1, q, tape[n..], path)
  }

  /** A random polynomial of the given degree with the given constant term. */
  method RandomWithConstant(constant: Scalar, degree: nat, rng: Rng) returns (coeffs: Poly)
    requires |rng.tape| >= degree
    modifies rng
    ensures coeffs == [constant] + old(rng.tape)[..degree]
    ensures rng.tape == old(rng.tape)[degree..]
  {
    coeffs := [constant];
    for i := 0 to degree
      invariant coeffs == [constant] + old(rng.tape)[..i]
      invariant rng.tape == old(rng.tape)[i..]
    {
      var c := rng.Random();
      coeffs := coeffs + [c];
    }
  }

  /** Sharing among the children from the i-th on handles that child first. */
  lemma NextChild(cs: seq<AccessTree>, i: nat, q: Poly, tape: Tape, path: seq<nat>)
    requires i < |cs| && DrawsOf(cs[i..]) <= |tape|
    ensures var n, m := Draws(cs[i]), DrawsOf(cs[i + 1..]);
      && DrawsOf(cs[i..]) == n + m
      && tape[n + m..] == tape[n..][m..]
      && SharesOfChildren(cs[i..], i + 1, q, tape[..n + m], path)
         == SharesOf(cs[i], Eval(q, IndexScalar(i + 1)), tape[..n], path + [i + 1])
            + SharesOfChildren(cs[i + 1..], i + 2, q, tape[n..][..m], path)
  {
    hide Eval;
    assert cs[i..][0] == cs[i] && cs[i..][1..] == cs[i + 1..];
    var n, m := Draws(cs[i]), DrawsOf(cs[i + 1..]);
    assert tape[..n + m][..n] == tape[..n];
    assert tape[..n + m][n..] == tape[n..][..m];
  }

  /** Sharing over a gate draws its polynomial first. */
  lemma GateFirst(t: AccessTree, secret: Scalar, tape: Tape, path: seq<nat>)
    requires t.Gate? && Draws(t) <= |tape|
    ensures var d, m := Degree(t.threshold), DrawsOf(t.children);
      && Draws(t) == d + m
      && tape[d + m..] == tape[d..][m..]
      && SharesOf(t, secret, tape[..d + m], path)
         == SharesOfChildren(t.children, 1, [secret] + tape[..d], tape[d..][..m], path)
  {
    hide Eval;
    var d, m := Degree(t.threshold), DrawsOf(t.children);
    assert tape[..d + m][..d] == tape[..d];
    assert tape[..d + m][d..] == tape[d..][..m];
  }

  /** The recursive splitter, with its path stack and its output list. */
  class Splitter {
    const rng: Rng
    var path: seq<nat>
    var out: seq<Share>

    constructor (rng: Rng)
      ensures this.rng == rng && path == [] && out == []
    {
      this.rng := rng;
      path := [];
      out := [];
    }

    method ShareNode(node: AccessTree, secret: Scalar)
      requires |rng.tape| >= Draws(node)
      modifies this, rng
      ensures path == old(path)
      ensures rng.tape == old(rng.tape)[Draws(node)..]
      ensures out == old(out) + SharesOf(node, secret, old(rng.tape)[..Draws(node)], path)
      decreases node
    {
      hide SharesOf, SharesOfChildren, Eval, Draws, DrawsOf, Degree;
      match node
      case Leaf(a) =>
        LeafShare(a, secret, path);
        out := out + [Share(path, a, secret)];
      case Gate(k, cs) =>
        GateFirst(node, secret, rng.tape, path);
        var poly := RandomWithConstant(secret, Degree(k), rng);
        assert cs[0..] == cs;
        var i := 0;
        while i < |cs|
          invariant 0 <= i <= |cs|
          invariant path == old(path)
          invariant DrawsOf(cs[i..]) <= |rng.tape|
          invariant rng.tape[DrawsOf(cs[i..])..] == old(rng.tape)[Draws(node)..]
          invariant out + SharesOfChildren(cs[i..], i + 1, poly, rng.tape[..DrawsOf(cs[i..])], path)
                 == old(out) + SharesOf(node, secret, old(rng.tape)[..Draws(node)], path)
        {
          NextChild(cs, i, poly, rng.tape, path);
          var idx := i + 1;
          var childSecret := Horner(poly, IndexScalar(idx));
          path := path + [idx];
          ShareNode(cs[i], childSecret);
          path := path[..|path| - 1];
          i := i + 1;
        }
        NoChildren(i + 1, poly, path);
        assert cs[i..] == [];
    }
  }

  lemma LeafShare(a: string, secret: Scalar, path: seq<nat>)
    ensures Draws(Leaf(a)) == 0 && SharesOf(Leaf(a), secret, [], path) == [Share(path, a, secret)]
  {
  }

  lemma NoChildren(first: nat, q: Poly, path: seq<nat>)
    ensures DrawsOf([]) == 0 && SharesOfChildren([], first, q, [], path) == []
  {
  }

  /** Splits the secret over the tree, consuming one scalar per non-constant coefficient. */
  method ShareSecret(tree: AccessTree, secret: Scalar, rng: Rng) returns (shares: seq<Share>)
    requires |rng.tape| >= Draws(tree)
    modifies rng
    ensures shares == SharesOf(tree, secret, old(rng.tape)[..Draws(tree)], [])
    ensures rng.tape == old(rng.tape)[Draws(tree)..]
  {
    var splitter := new Splitter(rng);
    splitter.ShareNode(tree, secret);
    shares := splitter.out;
  }

  // ----- The layout of the shares -----

  /** The node that a path of child indices leads to is a leaf with this attribute. */
  predicate LeadsTo(t: AccessTree, path: seq<nat>, attr: string)
    decreases |path|
  {
    if path == [] then
      t == Leaf(attr)
    else
      t.Gate? && 1 <= path[0] <= |t.children| && LeadsTo(t.children[path[0] - 1], path[1..], attr)
  }

  /** What the layout of a list of shares below `path` promises, besides its order. */
  predicate DistinctPaths(shares: seq<Share>) {
    forall i, j :: 0 <= i < j < |shares| ==> shares[i].path != shares[j].path
  }

  predicate Below(path: seq<nat>, p: seq<nat>, first: nat) {
    |path| < |p| && path == p[..|path|] && first <= p[|path|]
  }

  /** The shares name the leaves in order; their paths are pairwise distinct and each
      leads, below `path`, to its own leaf. */
  lemma {:induction false} ShareLayout(t: AccessTree, secret: Scalar, tape: Tape, path: seq<nat>)
    requires |tape| == Draws(t)
    ensures var shares := SharesOf(t, secret, tape, path);
      && |shares| == |Leaves(t)|
      && DistinctPaths(shares)
      && (forall i :: 0 <= i < |shares| ==>
            && shares[i].attr == Leaves(t)[i]
            && path <= shares[i].path
            && LeadsTo(t, shares[i].path[|path|..], shares[i].attr))
    decreases t
  {
    hide Eval;
    match t
    case Leaf(_) =>
    case Gate(k, cs) =>
      var d := Degree(k);
      var shares := SharesOf(t, secret, tape, path);
      ChildrenLayout(cs, 1, [secret] + tape[..d], tape[d..], path);
      forall i | 0 <= i < |shares|
        ensures shares[i].attr == Leaves(t)[i] && path <= shares[i].path
        ensures LeadsTo(t, shares[i].path[|path|..], shares[i].attr)
      {
        var p := shares[i].path;
        assert p[|path|..][1..] == p[|path| + 1..];
      }
  }

  lemma {:induction false} ChildrenLayout(cs: seq<AccessTree>, first: nat, q: Poly, tape: Tape, path: seq<nat>)
    requires |tape| == DrawsOf(cs)
    ensures var shares := SharesOfChildren(cs, first, q, tape, path);
      && |shares| == |LeavesOf(cs)|
      && DistinctPaths(shares)
      && (forall i :: 0 <= i < |shares| ==>
            var p := shares[i].path;
            && shares[i].attr == LeavesOf(cs)[i]
            && Below(path, p, first) && p[|path|] - first < |cs|
            && LeadsTo(cs[p[|path|] - first], p[|path| + 1..], shares[i].attr))
    decreases cs
  {
    hide Eval;
    if cs != [] {
      var n := Draws(cs[0]);
      var here := path + [first];
      var x := Eval(q, IndexScalar(first));
      ShareLayout(cs[0], x, tape[..n], here);
      ChildrenLayout(cs[1..], first + 1, q, tape[n..], path);
      var head := SharesOf(cs[0], x, tape[..n], here);
      var tail := SharesOfChildren(cs[1..], first + 1, q, tape[n..], path);
      forall i | 0 <= i < |head|
        ensures Below(path, head[i].path, first) && head[i].path[|path|] == first
        ensures head[i].path[|path| + 1..] == head[i].path[|here|..]
      {
        var p := head[i].path;
        assert here == p[..|here|];
        assert p[|path|] == here[|path|] && p[..|path|] == here[..|path|] == path;
      }
      forall i | 0 <= i < |tail|
        ensures Below(path, tail[i].path, first) && tail[i].path[|path|] >= first + 1
      {
      }
    }
  }
}
