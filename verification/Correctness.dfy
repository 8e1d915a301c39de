/** What decryption recovers: from coherent keys, from spliced keys, and after a swap of the tree. */
module Correctness {
  import opened Wrappers
  import opened PrimeField
  import opened AccessTrees
  import opened Sharing
  import opened Recombination
  import opened LinearForms
  import opened Scheme

  /** The commitment's exponent t cancels between the two halves of a key component. */
  lemma LeafCancels(lambda: Scalar, t: Scalar, x: Scalar, rj: Scalar)
    ensures Sub(Mul(lambda, Add(x, Mul(t, rj))), Mul(Mul(t, lambda), rj)) == Mul(x, lambda)
  {
    hide *;
    Distrib(lambda, x, Mul(t, rj));
    MulAssoc(lambda, t, rj);
    MulComm(lambda, t);
    MulComm(lambda, x);
    assert Sub(Add(Mul(x, lambda), Mul(Mul(t, lambda), rj)), Mul(Mul(t, lambda), rj)) == Mul(x, lambda);
  }

  lemma LeafRecovers(pp: PublicParams, msk: MasterSecret, keys: map<string, KeyShare>,
                     exponents: map<string, Scalar>, sh: Share)
    requires ParamsFor(pp, msk) && Carries(pp, keys, exponents)
    requires sh.attr in pp.attributes && sh.attr in keys
    ensures LeafValue(SealLeaf(pp, sh), keys[sh.attr]) == Mul(exponents[sh.attr], sh.value)
  {
    hide Mul, Add, Sub;
    MulUnit(sh.value);
    LeafCancels(sh.value, pp.attributes[sh.attr].t1, exponents[sh.attr], keys[sh.attr].djPrime);
  }

  /** Opening the sealed leaves recovers each held share times the exponent of its component. */
  lemma {:induction false} OpenSealed(pp: PublicParams, msk: MasterSecret, keys: map<string, KeyShare>,
                                      exponents: map<string, Scalar>, shares: seq<Share>)
    requires ParamsFor(pp, msk) && Carries(pp, keys, exponents)
    requires forall sh <- shares :: sh.attr in pp.attributes
    ensures OpenLeaves(keys, SealLeaves(pp, shares)) == HeldResults(shares, exponents)
  {
    hide LeafValue, Mul;
    if shares != [] {
      var n := |shares| - 1;
      var leaves := SealLeaves(pp, shares[..n]);
      OpenSealed(pp, msk, keys, exponents, shares[..n]);
      var all := SealLeaves(pp, shares);
      assert all[..|leaves|] == leaves && all[|leaves|] == SealLeaf(pp, shares[n]);
      if shares[n].attr in keys {
        LeafRecovers(pp, msk, keys, exponents, shares[n]);
      }
    }
  }

  /** e(C, D) is alpha * s plus r * s. */
  lemma PairedCD(alpha: Scalar, beta: Scalar, d: Scalar, r: Scalar, s: Scalar)
    requires Mul(beta, d) == Add(alpha, r)
    ensures Mul(Mul(beta, s), d) == Add(Mul(alpha, s), Mul(r, s))
  {
    hide *;
    MulSwap(beta, s, d);
    Distrib(s, alpha, r);
  }

  lemma UnwrapSealed(kdf: Kdf, pp: PublicParams, dek: Key, tree: AccessTree, s: Scalar, tape: Tape, nonce: Bytes,
                     blinding: Scalar)
    requires |tape| == Draws(tree) && forall a <- Leaves(tree) :: a in pp.attributes
    ensures Unwrap(kdf, blinding, CiphertextFrom(kdf, pp, dek, tree, s, tape, nonce))
         == if kdf(blinding) == kdf(Mul(pp.eggAlpha, s)) then Ok(dek) else Err(PolicyNotSatisfied)
  {
    hide SharesOf, SealLeaves, Mul;
  }

  /** The blinding value that a key recovers from a root value. */
  lemma DecryptedAs(kdf: Kdf, pp: PublicParams, msk: MasterSecret, usk: UserSecretKey,
                    exponents: map<string, Scalar>, r: Scalar,
                    dek: Key, tree: AccessTree, s: Scalar, tape: Tape, nonce: Bytes)
    requires ParamsFor(pp, msk) && Carries(pp, usk.attributes, exponents)
    requires Mul(msk.beta, usk.d) == Add(msk.alpha, r)
    requires |tape| == Draws(tree) && forall a <- Leaves(tree) :: a in pp.attributes
    ensures var ct := CiphertextFrom(kdf, pp, dek, tree, s, tape, nonce);
      var root := Recombined(tree, HeldResults(SharesOf(tree, s, tape, []), exponents), []);
      Decrypted(kdf, usk, ct)
      == if root.Some?
         && kdf(Sub(Add(Mul(msk.alpha, s), Mul(r, s)), root.value)) == kdf(Mul(msk.alpha, s))
         then Ok(dek) else Err(PolicyNotSatisfied)
  {
    hide SharesOf, Recombined, HeldResults, OpenLeaves, SealLeaves, Mul, Add, Sub, Unwrap, Leaves;
    SharesRegistered(pp, tree, s, tape);
    var shares := SharesOf(tree, s, tape, []);
    OpenSealed(pp, msk, usk.attributes, exponents, shares);
    PairedCD(msk.alpha, msk.beta, usk.d, r, s);
    var root := Recombined(tree, HeldResults(shares, exponents), []);
    if root.Some? {
      UnwrapSealed(kdf, pp, dek, tree, s, tape, nonce, Sub(Add(Mul(msk.alpha, s), Mul(r, s)), root.value));
    }
  }

  /** End to end: a coherent key opens an honest ciphertext exactly when its attributes satisfy
      the tree, and is refused otherwise. */
  lemma DecryptHonest(kdf: Kdf, pp: PublicParams, msk: MasterSecret, usk: UserSecretKey, r: Scalar,
                      dek: Key, tree: AccessTree, s: Scalar, tape: Tape, nonce: Bytes)
    requires ParamsFor(pp, msk) && KeyFor(pp, msk, usk, r)
    requires |tape| == Draws(tree) && forall a <- Leaves(tree) :: a in pp.attributes
    requires Indexable(tree) && Recoverable(tree, usk.attributes.Keys)
    ensures Decrypted(kdf, usk, CiphertextFrom(kdf, pp, dek, tree, s, tape, nonce))
         == if IsSatisfiedBy(tree, usk.attributes.Keys) then Ok(dek) else Err(PolicyNotSatisfied)
  {
    var held := usk.attributes.Keys;
    assert Mul(msk.beta, usk.d) == Add(msk.alpha, r) && Carries(pp, usk.attributes, Uniform(held, r));
    hide *;
    DecryptedAs(kdf, pp, msk, usk, Uniform(held, r), r, dek, tree, s, tape, nonce);
    RecombineShares(tree, s, tape, held, r);
    assert Sub(Add(Mul(msk.alpha, s), Mul(r, s)), Mul(r, s)) == Mul(msk.alpha, s);
  }

  /** What a key that satisfies the tree gets from any wrapped key put in place of the honest one:
      its message if it is 32 bytes long and was sealed with the right key, nonce, label and tree. */
  lemma DecryptWrapped(kdf: Kdf, pp: PublicParams, msk: MasterSecret, usk: UserSecretKey, r: Scalar,
                       dek: Key, tree: AccessTree, s: Scalar, tape: Tape, nonce: Bytes, wrapped: WrappedKey)
    requires ParamsFor(pp, msk) && KeyFor(pp, msk, usk, r)
    requires |tape| == Draws(tree) && forall a <- Leaves(tree) :: a in pp.attributes
    requires Indexable(tree) && Recoverable(tree, usk.attributes.Keys)
    ensures var ct := CiphertextFrom(kdf, pp, dek, tree, s, tape, nonce).(wrappedKey := wrapped);
      var box := wrapped.ciphertext;
      Decrypted(kdf, usk, ct)
      == if !IsSatisfiedBy(tree, usk.attributes.Keys)
            || box.key != kdf(Mul(msk.alpha, s)) || box.nonce != wrapped.nonce
            || box.aad != Aad("SECURE_ABE_DEK_WRAP_v1", tree) then Err(PolicyNotSatisfied)
         else if |box.message| != 32 then Err(Encoding("unexpected DEK length"))
         else Ok(box.message)
  {
    hide SharesOf, Recombined, HeldResults, OpenLeaves, SealLeaves, Mul, Add, Sub, Leaves, IsSatisfiedBy, Indexable,
      Recoverable, Uniform, Draws;
    var held := usk.attributes.Keys;
    assert Uniform(held, r).Keys == held by {
      UniformKeys(held, r);
    }
    SharesRegistered(pp, tree, s, tape);
    OpenSealed(pp, msk, usk.attributes, Uniform(held, r), SharesOf(tree, s, tape, []));
    RecombineShares(tree, s, tape, held, r);
    PairedCD(msk.alpha, msk.beta, usk.d, r, s);
    BlindingAgrees(Mul(msk.alpha, s), Mul(r, s), Mul(r, s));
  }

  lemma UniformKeys(held: set<string>, r: Scalar)
    ensures Uniform(held, r).Keys == held
  {
  }

  /** The same for the procedures as called: issue a key, encrypt, decrypt. */
  lemma KeygenEncryptDecrypt(kdf: Kdf, pp: PublicParams, msk: MasterSecret, subject: string, names: seq<string>,
                             keyTape: Tape, dek: Key, tree: AccessTree, tape: Tape, nonce: Bytes)
    requires ParamsFor(pp, msk) && msk.beta != 0 && |keyTape| >= 1 + |names| && |tape| >= 1 + Draws(tree)
    requires Indexable(tree) && Recoverable(tree, set a <- names)
    ensures var key := KeyFrom(pp, msk, subject, names, keyTape);
      var ct := Encrypted(kdf, pp, dek, tree, tape, nonce);
      && (key.Ok? <==> forall a <- names :: a in pp.attributes)
      && (ct.Ok? <==> forall a <- Leaves(tree) :: a in pp.attributes)
      && (key.Ok? && ct.Ok? ==>
            Decrypted(kdf, key.value, ct.value)
            == if IsSatisfiedBy(tree, set a <- names) then Ok(dek) else Err(PolicyNotSatisfied))
  {
    var key := KeyFrom(pp, msk, subject, names, keyTape);
    var ct := Encrypted(kdf, pp, dek, tree, tape, nonce);
    KeygenIsCoherent(pp, msk, subject, names, keyTape);
    assert ct.Ok? ==>
      ct.value == CiphertextFrom(kdf, pp, dek, tree, tape[0], tape[1..1 + Draws(tree)], nonce) by {
      hide CiphertextFrom, Draws, Leaves;
    }
    assert ct.Ok? <==> forall a <- Leaves(tree) :: a in pp.attributes;
    hide *;
    if key.Ok? && ct.Ok? {
      DecryptHonest(kdf, pp, msk, key.value, keyTape[0], dek, tree, tape[0], tape[1..1 + Draws(tree)], nonce);
    }
  }

  /** `leaf` is the one share of attribute a that is used. */
  predicate OnlyUse(shares: seq<Share>, uses: seq<Use>, a: string, leaf: Share) {
    && leaf in shares && leaf.attr == a && UsesPath(uses, leaf.path)
    && forall sh <- shares | sh != leaf && sh.attr == a :: !UsesPath(uses, sh.path)
  }

  /** A key whose component for attribute a carries the exponent exponents[a], put together from
      the keys of any number of users, recovers alpha * s less the weighted sum of
      (exponents[a] - r) times the shares used. */
  lemma MixedKey(kdf: Kdf, pp: PublicParams, msk: MasterSecret, usk: UserSecretKey,
                 exponents: map<string, Scalar>, r: Scalar,
                 dek: Key, tree: AccessTree, s: Scalar, tape: Tape, nonce: Bytes) returns (recovered: Scalar)
    requires ParamsFor(pp, msk) && Carries(pp, usk.attributes, exponents)
    requires Mul(msk.beta, usk.d) == Add(msk.alpha, r)
    requires |tape| == Draws(tree) && forall a <- Leaves(tree) :: a in pp.attributes
    ensures var ct := CiphertextFrom(kdf, pp, dek, tree, s, tape, nonce);
      Decrypted(kdf, usk, ct)
      == if IsSatisfiedBy(tree, exponents.Keys) && kdf(recovered) == kdf(Mul(msk.alpha, s))
         then Ok(dek) else Err(PolicyNotSatisfied)
    ensures var shares, uses := SharesOf(tree, s, tape, []), FirstUses(tree, exponents.Keys);
      && recovered == Sub(Add(Mul(msk.alpha, s), Mul(r, s)), Dot(uses, HeldResults(shares, exponents)))
      && (Indexable(tree) && Recoverable(tree, exponents.Keys) && IsSatisfiedBy(tree, exponents.Keys) ==>
            recovered == Sub(Mul(msk.alpha, s), Dot(uses, HeldResults(shares, Excess(exponents, r)))))
  {
    hide *;
    var shares, held := SharesOf(tree, s, tape, []), exponents.Keys;
    var root := Dot(FirstUses(tree, held), HeldResults(shares, exponents));
    recovered := Sub(Add(Mul(msk.alpha, s), Mul(r, s)), root);
    DecryptedAs(kdf, pp, msk, usk, exponents, r, dek, tree, s, tape, nonce);
    RecombinedIsLinear(tree, s, tape, exponents);
    if Indexable(tree) && Recoverable(tree, held) && IsSatisfiedBy(tree, held) {
      SplicedRecombination(tree, s, tape, exponents, r);
      BlindingLess(Mul(msk.alpha, s), Mul(r, s), Dot(FirstUses(tree, held), HeldResults(shares, Excess(exponents, r))));
    }
  }

  lemma BlindingLess(x: Scalar, y: Scalar, excess: Scalar)
    ensures Sub(Add(x, y), Add(y, excess)) == Sub(x, excess)
  {
    hide *;
  }

  /** Putting another user's component for attribute a into a key: when only one leaf of a is
      used, the blinding is recovered exactly when the two users share r or that leaf's share
      is zero, and decryption succeeds exactly when the value recovered derives its key. */
  lemma SplicedKey(kdf: Kdf, pp: PublicParams, msk: MasterSecret, mine: UserSecretKey, r: Scalar,
                   theirs: UserSecretKey, r': Scalar, a: string,
                   dek: Key, tree: AccessTree, s: Scalar, tape: Tape, nonce: Bytes, leaf: Share)
    returns (recovered: Scalar)
    requires ParamsFor(pp, msk) && KeyFor(pp, msk, mine, r) && KeyFor(pp, msk, theirs, r') && a in theirs.attributes
    requires |tape| == Draws(tree) && forall x <- Leaves(tree) :: x in pp.attributes
    requires var held := mine.attributes.Keys + {a};
      && Indexable(tree) && Recoverable(tree, held) && IsSatisfiedBy(tree, held)
      && OnlyUse(SharesOf(tree, s, tape, []), FirstUses(tree, held), a, leaf)
    ensures recovered == Mul(msk.alpha, s) <==> r == r' || leaf.value == 0
    ensures var spliced := mine.(attributes := mine.attributes[a := theirs.attributes[a]]);
      Decrypted(kdf, spliced, CiphertextFrom(kdf, pp, dek, tree, s, tape, nonce))
      == if kdf(recovered) == kdf(Mul(msk.alpha, s)) then Ok(dek) else Err(PolicyNotSatisfied)
  {
    var exponents := Uniform(mine.attributes.Keys, r)[a := r'];
    SplicedCarries(pp, msk, mine, r, theirs, r', a);
    OnlyUseForeign(SharesOf(tree, s, tape, []), FirstUses(tree, exponents.Keys), exponents, r, a, leaf);
    assert leaf.attr == a;
    hide *;
    var spliced := mine.(attributes := mine.attributes[a := theirs.attributes[a]]);
    recovered := MixedKey(kdf, pp, msk, spliced, exponents, r, dek, tree, s, tape, nonce);
    OneForeignLeaf(tree, s, tape, exponents, r, leaf);
    RecombinedIsLinear(tree, s, tape, exponents);
    BlindingAgrees(Mul(msk.alpha, s), Mul(r, s),
                   Dot(FirstUses(tree, exponents.Keys), HeldResults(SharesOf(tree, s, tape, []), exponents)));
  }

  lemma OnlyUseForeign(shares: seq<Share>, uses: seq<Use>, exponents: map<string, Scalar>, r: Scalar, a: string,
                       leaf: Share)
    requires OnlyUse(shares, uses, a, leaf) && a in exponents
    requires forall x <- exponents | x != a :: exponents[x] == r
    ensures OnlyForeign(shares, uses, exponents, r, leaf)
  {
    hide UsesPath;
  }

  lemma SplicedCarries(pp: PublicParams, msk: MasterSecret, mine: UserSecretKey, r: Scalar,
                       theirs: UserSecretKey, r': Scalar, a: string)
    requires KeyFor(pp, msk, mine, r) && KeyFor(pp, msk, theirs, r') && a in theirs.attributes
    ensures var exponents := Uniform(mine.attributes.Keys, r)[a := r'];
      && exponents.Keys == mine.attributes.Keys + {a}
      && exponents[a] == r' && (forall x <- exponents | x != a :: exponents[x] == r)
      && Carries(pp, mine.attributes[a := theirs.attributes[a]], exponents)
      && Mul(msk.beta, mine.d) == Add(msk.alpha, r)
  {
    hide Mul, Add;
  }

  lemma BlindingAgrees(x: Scalar, y: Scalar, root: Scalar)
    ensures Sub(Add(x, y), root) == x <==> root == y
  {
    hide *;
  }

  /** A ciphertext whose tree was replaced never yields a data key. */
  lemma SwappedTree(kdf: Kdf, pp: PublicParams, usk: UserSecretKey, dek: Key, tree: AccessTree, s: Scalar, tape: Tape,
                    nonce: Bytes, other: AccessTree)
    requires |tape| == Draws(tree) && forall a <- Leaves(tree) :: a in pp.attributes
    requires other != tree
    ensures Decrypted(kdf, usk, CiphertextFrom(kdf, pp, dek, tree, s, tape, nonce).(tree := other))
         == Err(PolicyNotSatisfied)
  {
    hide Recombined, OpenLeaves, Mul, Sub, SharesOf, SealLeaves, Leaves;
  }

  // ----- Later parameters -----

  /** A key stays coherent when attributes are added. */
  lemma KeyForExtends(pp: PublicParams, later: PublicParams, msk: MasterSecret, usk: UserSecretKey, r: Scalar)
    requires KeyFor(pp, msk, usk, r) && Extends(pp, later)
    ensures KeyFor(later, msk, usk, r)
  {
    hide Mul, Add;
  }

  lemma {:induction false} SealLeavesExtends(pp: PublicParams, later: PublicParams, shares: seq<Share>)
    requires Extends(pp, later) && forall sh <- shares :: sh.attr in pp.attributes
    ensures forall sh <- shares :: sh.attr in later.attributes
    ensures SealLeaves(later, shares) == SealLeaves(pp, shares)
  {
    hide Mul;
    if shares != [] {
      SealLeavesExtends(pp, later, shares[..|shares| - 1]);
    }
  }

  /** A ciphertext made before is one that could be made under the later parameters. */
  lemma CiphertextExtends(kdf: Kdf, pp: PublicParams, later: PublicParams, dek: Key, tree: AccessTree, s: Scalar,
                          tape: Tape, nonce: Bytes)
    requires |tape| == Draws(tree) && forall a <- Leaves(tree) :: a in pp.attributes
    requires Extends(pp, later)
    ensures forall a <- Leaves(tree) :: a in later.attributes
    ensures CiphertextFrom(kdf, later, dek, tree, s, tape, nonce) == CiphertextFrom(kdf, pp, dek, tree, s, tape, nonce)
  {
    hide SharesOf, SealLeaves, Mul, Leaves;
    SharesRegistered(pp, tree, s, tape);
    SealLeavesExtends(pp, later, SharesOf(tree, s, tape, []));
  }
}
