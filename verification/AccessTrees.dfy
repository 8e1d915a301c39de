/** Threshold access trees and their plain meaning. */
module AccessTrees {

  datatype AccessTree =
    | Leaf(attr: string)
    | Gate(threshold: nat, children: seq<AccessTree>)

  function AndGate(children: seq<AccessTree>): AccessTree {
    Gate(|children|, children)
  }

  function OrGate(children: seq<AccessTree>): AccessTree {
    Gate(1, children)
  }

  /** Whether the held attributes satisfy the tree, cryptography aside. */
  predicate IsSatisfiedBy(t: AccessTree, held: set<string>)
    decreases t
  {
    match t
    case Leaf(a) => a in held
    case Gate(k, cs) => CountSatisfied(cs, held) >= k
  }

  function CountSatisfied(cs: seq<AccessTree>, held: set<string>): (n: nat)
    ensures n <= |cs|
    decreases cs
  {
    if cs == [] then 0
    else (if IsSatisfiedBy(cs[0], held) then 1 else 0) + CountSatisfied(cs[1..], held)
  }

  /** The attributes of the leaves, left to right. */
  function Leaves(t: AccessTree): seq<string>
    decreases t
  {
    match t
    case Leaf(a) => [a]
    case Gate(_, cs) => LeavesOf(cs)
  }

  function LeavesOf(cs: seq<AccessTree>): seq<string>
    decreases cs
  {
    if cs == [] then [] else Leaves(cs[0]) + LeavesOf(cs[1..])
  }

  /** Every gate asks for at least one child. */
  predicate WellFormed(t: AccessTree)
    decreases t
  {
    t.Gate? ==> t.threshold >= 1 && forall c <- t.children :: WellFormed(c)
  }

  /** Every gate asks for at least one and at most all of its children. */
  predicate Proper(t: AccessTree)
    decreases t
  {
    t.Gate? ==> 1 <= t.threshold <= |t.children| && forall c <- t.children :: Proper(c)
  }

  /** More attributes never hurt. */
  lemma {:induction false} Monotone(t: AccessTree, held: set<string>, more: set<string>)
    requires held <= more && IsSatisfiedBy(t, held)
    ensures IsSatisfiedBy(t, more)
    decreases t
  {
    if t.Gate? {
      MonotoneCount(t.children, held, more);
    }
  }

  lemma {:induction false} MonotoneCount(cs: seq<AccessTree>, held: set<string>, more: set<string>)
    requires held <= more
    ensures CountSatisfied(cs, held) <= CountSatisfied(cs, more)
    decreases cs
  {
    if cs != [] {
      if IsSatisfiedBy(cs[0], held) {
        Monotone(cs[0], held, more);
      }
      MonotoneCount(cs[1..], held, more);
    }
  }

  /** Only the attributes named by leaves matter. */
  lemma {:induction false} OnlyLeavesMatter(t: AccessTree, a: set<string>, b: set<string>)
    requires forall x <- Leaves(t) :: x in a <==> x in b
    ensures IsSatisfiedBy(t, a) == IsSatisfiedBy(t, b)
    decreases t
  {
    if t.Gate? {
      OnlyLeavesMatterCount(t.children, a, b);
    }
  }

  lemma {:induction false} OnlyLeavesMatterCount(cs: seq<AccessTree>, a: set<string>, b: set<string>)
    requires forall x <- LeavesOf(cs) :: x in a <==> x in b
    ensures CountSatisfied(cs, a) == CountSatisfied(cs, b)
    decreases cs
  {
    if cs != [] {
      OnlyLeavesMatter(cs[0], a, b);
      OnlyLeavesMatterCount(cs[1..], a, b);
    }
  }
}
