/** Epoch-tagged attributes and revoked users. */
module Revocation {
  import opened Names
  import opened AccessTrees

  type Epochs = map<string, nat>

  function CurrentEpoch(epochs: Epochs, base: string): nat {
    if base in epochs then epochs[base] else 0
  }

  function TagFor(epochs: Epochs, base: string): string {
    Tag(base, CurrentEpoch(epochs, base))
  }

  /** An attribute that was never revoked is at epoch zero. */
  lemma FreshTag(epochs: Epochs, base: string)
    requires base !in epochs
    ensures TagFor(epochs, base) == base + "@epoch0"
  {
    assert Decimal(0) == "0";
  }

  class RevocationList {
    var epochs: Epochs
    var revokedUsers: seq<string>

    constructor ()
      ensures epochs == map[] && revokedUsers == []
    {
      epochs, revokedUsers := map[], [];
    }

    /** Moves the attribute to its next epoch and changes no other. */
    method RevokeAttribute(base: string) returns (next: nat)
      modifies this`epochs
      ensures next == CurrentEpoch(old(epochs), base) + 1
      ensures epochs == old(epochs)[base := next]
    {
      next := CurrentEpoch(epochs, base) + 1;
      epochs := epochs[base := next];
    }

    method RevokeUser(subject: string)
      modifies this`revokedUsers
      ensures revokedUsers == WithUser(old(revokedUsers), subject)
    {
      if subject !in revokedUsers {
        revokedUsers := revokedUsers + [subject];
      }
    }
  }

  /** A user is listed at most once. */
  function WithUser(users: seq<string>, subject: string): (r: seq<string>)
    ensures subject in r && users <= r && forall u <- r :: u in users || u == subject
    ensures |r| == |users| + if subject in users then 0 else 1
  {
    if subject in users then users else users + [subject]
  }

  /** The tree with every leaf tagged with the epoch in force. */
  function RetagTree(t: AccessTree, epochs: Epochs): AccessTree
    decreases t
  {
    match t
    case Leaf(a) => Leaf(TagFor(epochs, a))
    case Gate(k, cs) => Gate(k, RetagAll(cs, epochs))
  }

  function RetagAll(cs: seq<AccessTree>, epochs: Epochs): (ts: seq<AccessTree>)
    ensures |ts| == |cs|
    ensures forall i :: 0 <= i < |cs| ==> ts[i] == RetagTree(cs[i], epochs)
    decreases cs
  {
    if cs == [] then [] else [RetagTree(cs[0], epochs)] + RetagAll(cs[1..], epochs)
  }

  /** The retagged tree is satisfied by some names exactly when the tree is satisfied by the
      attributes whose tag in force is among them. */
  lemma {:induction false} RetagMeaning(t: AccessTree, epochs: Epochs, names: set<string>, held: set<string>)
    requires forall a <- Leaves(t) :: a in held <==> TagFor(epochs, a) in names
    ensures IsSatisfiedBy(RetagTree(t, epochs), names) == IsSatisfiedBy(t, held)
    decreases t
  {
    hide TagFor;
    if t.Gate? {
      RetagCount(t.children, epochs, names, held);
    }
  }

  lemma {:induction false} RetagCount(cs: seq<AccessTree>, epochs: Epochs, names: set<string>, held: set<string>)
    requires forall a <- LeavesOf(cs) :: a in held <==> TagFor(epochs, a) in names
    ensures CountSatisfied(RetagAll(cs, epochs), names) == CountSatisfied(cs, held)
    decreases cs
  {
    hide TagFor;
    if cs != [] {
      RetagMeaning(cs[0], epochs, names, held);
      RetagCount(cs[1..], epochs, names, held);
      assert RetagAll(cs, epochs)[1..] == RetagAll(cs[1..], epochs);
    }
  }

  /** Tagging preserves the meaning of a tree: the tagged attributes satisfy the retagged tree
      exactly when the attributes satisfy the tree, as distinct attributes get distinct tags. */
  lemma RetagPreserves(t: AccessTree, epochs: Epochs, held: set<string>)
    ensures IsSatisfiedBy(RetagTree(t, epochs), set a <- held :: TagFor(epochs, a)) == IsSatisfiedBy(t, held)
  {
    var names := set a <- held :: TagFor(epochs, a);
    forall a | a in Leaves(t)
      ensures a in held <==> TagFor(epochs, a) in names
    {
      if TagFor(epochs, a) in names {
        var b :| b in held && TagFor(epochs, b) == TagFor(epochs, a);
        TagInjective(a, CurrentEpoch(epochs, a), b, CurrentEpoch(epochs, b));
      }
    }
    RetagMeaning(t, epochs, names, held);
  }
}
