/** Which random scalar ends up where: no scalar drawn is dropped, replaced or used twice. */
module Freshness {
  import opened Wrappers
  import opened PrimeField
  import opened AccessTrees
  import opened Sharing
  import opened Scheme
  import opened Revocation
  import opened Deployment
  import PolicyParser

  // ----- Ciphertexts -----

  /** The box opens to the data key under exactly this key, nonce and additional data. */
  ghost predicate OpensOnlyWith(box: Box, key: Key, nonce: Bytes, aad: Aad, dek: Key) {
    forall k, n, a :: box.Open(k, n, a) == if k == key && n == nonce && a == aad then Some(dek) else None
  }

  /** The sealed leaves carry the shares in order, each against its attribute's commitment. */
  ghost predicate CarriesShares(pp: PublicParams, leaves: seq<LeafCiphertext>, shares: seq<Share>) {
    && |leaves| == |shares|
    && forall i :: 0 <= i < |shares| ==>
         var sh, leaf := shares[i], leaves[i];
         && leaf.path == sh.path && leaf.attribute == sh.attr && leaf.cy == sh.value
         && sh.attr in pp.attributes && leaf.cyPrime == Mul(pp.attributes[sh.attr].t1, sh.value)
  }

  lemma {:induction false} SealedShares(pp: PublicParams, msk: MasterSecret, shares: seq<Share>)
    requires ParamsFor(pp, msk) && forall sh <- shares :: sh.attr in pp.attributes
    ensures CarriesShares(pp, SealLeaves(pp, shares), shares)
  {
    hide Mul;
    if shares != [] {
      var n := |shares| - 1;
      SealedShares(pp, msk, shares[..n]);
      MulUnit(shares[n].value);
      var init := SealLeaves(pp, shares[..n]);
      assert SealLeaves(pp, shares) == init + [SealLeaf(pp, shares[n])];
    }
  }

  /** The ciphertext of `dek` for s = tape[0], shared with the scalars after it: c is beta * s, the
      data key is sealed under the key derived from alpha * s, and the leaves carry the shares of s. */
  ghost predicate BlindedBy(kdf: Kdf, pp: PublicParams, msk: MasterSecret, ct: AbeCiphertext, dek: Key,
                            tree: AccessTree, tape: Tape, nonce: Bytes)
    requires |tape| >= 1 + Draws(tree)
  {
    var s := tape[0];
    && ct.tree == tree && ct.c == Mul(msk.beta, s)
    && ct.wrappedKey.nonce == nonce
    && OpensOnlyWith(ct.wrappedKey.ciphertext, kdf(Mul(msk.alpha, s)), nonce, Aad("SECURE_ABE_DEK_WRAP_v1", tree), dek)
    && CarriesShares(pp, ct.leaves, SharesOf(tree, s, tape[1..1 + Draws(tree)], []))
  }

  /** The first scalar of the tape blinds the ciphertext and the next ones share it. */
  lemma EncryptedUsesTape(kdf: Kdf, pp: PublicParams, msk: MasterSecret, dek: Key, tree: AccessTree, tape: Tape,
                          nonce: Bytes)
    requires ParamsFor(pp, msk) && |tape| >= 1 + Draws(tree)
    ensures var ct := Encrypted(kdf, pp, dek, tree, tape, nonce);
      && (ct.Ok? <==> forall a <- Leaves(tree) :: a in pp.attributes)
      && (ct.Err? ==> ct.error.UnknownAttribute? && IsFirstUnknown(pp, Leaves(tree), ct.error.name))
      && (ct.Ok? ==> BlindedBy(kdf, pp, msk, ct.value, dek, tree, tape, nonce))
  {
    UnknownIsFirst(pp, Leaves(tree));
    hide Mul, SharesOf, Draws, Leaves, CarriesShares, SealLeaves, IsFirstUnknown;
    var ct := Encrypted(kdf, pp, dek, tree, tape, nonce);
    if ct.Ok? {
      var rest := tape[1..1 + Draws(tree)];
      SharesRegistered(pp, tree, tape[0], rest);
      SealedShares(pp, msk, SharesOf(tree, tape[0], rest, []));
    }
  }

  /** With non-zero alpha and beta, different first scalars give different c and different blindings. */
  lemma EncryptedDiffers(kdf: Kdf, pp: PublicParams, msk: MasterSecret, dek: Key, tree: AccessTree, tape: Tape,
                         nonce: Bytes, dek': Key, tree': AccessTree, tape': Tape, nonce': Bytes)
    requires ParamsFor(pp, msk) && msk.alpha != 0 && msk.beta != 0
    requires |tape| >= 1 + Draws(tree) && |tape'| >= 1 + Draws(tree') && tape[0] != tape'[0]
    ensures Mul(msk.alpha, tape[0]) != Mul(msk.alpha, tape'[0])
    ensures var ct, ct' := Encrypted(kdf, pp, dek, tree, tape, nonce), Encrypted(kdf, pp, dek', tree', tape', nonce');
      ct.Ok? && ct'.Ok? ==> ct.value.c != ct'.value.c
  {
    EncryptedUsesTape(kdf, pp, msk, dek, tree, tape, nonce);
    EncryptedUsesTape(kdf, pp, msk, dek', tree', tape', nonce');
    hide Mul, SharesOf, Draws, Leaves, CarriesShares, OpensOnlyWith, Encrypted;
    if Mul(msk.alpha, tape[0]) == Mul(msk.alpha, tape'[0]) {
      Cancel(msk.alpha, tape[0], tape'[0]);
    }
    if Mul(msk.beta, tape[0]) == Mul(msk.beta, tape'[0]) {
      Cancel(msk.beta, tape[0], tape'[0]);
    }
  }

  // ----- Keys -----

  /** The first scalar binds the key, the next ones randomise its components; the subject is the one named. */
  lemma KeyUsesTape(pp: PublicParams, msk: MasterSecret, subject: string, names: seq<string>, tape: Tape)
    requires msk.beta != 0 && |tape| >= 1 + |names| && ParamsFor(pp, msk)
    ensures var usk := KeyFrom(pp, msk, subject, names, tape);
      && (usk.Err? ==> usk.error.UnknownAttribute? && IsFirstUnknown(pp, names, usk.error.name))
      && (usk.Ok? ==>
            && usk.value.subject == subject && KeyFor(pp, msk, usk.value, tape[0])
            && forall i | 0 <= i < |names| && forall j :: i < j < |names| ==> names[j] != names[i] ::
                 names[i] in usk.value.attributes && usk.value.attributes[names[i]].djPrime == tape[1 + i])
  {
    UnknownIsFirst(pp, names);
    hide Mul, Add, KeyD, KeyShares, KeyFor, IsFirstUnknown;
    KeygenIsCoherent(pp, msk, subject, names, tape);
    var usk := KeyFrom(pp, msk, subject, names, tape);
    if usk.Ok? {
      forall i | 0 <= i < |names| && forall j :: i < j < |names| ==> names[j] != names[i]
        ensures names[i] in usk.value.attributes && usk.value.attributes[names[i]].djPrime == tape[1 + i]
      {
        KeySharesFresh(pp, tape[0], names, tape[1..], i);
      }
    }
  }

  // ----- Registration -----

  /** The names not registered before, each at its first listing. */
  function NewNames(pp: PublicParams, names: seq<string>): (added: seq<string>)
    ensures |added| <= |names|
    ensures forall a :: a in added <==> a in names && a !in pp.attributes
    ensures forall i, j :: 0 <= i < j < |added| ==> added[i] != added[j]
  {
    if names == [] then []
    else
      var n := |names| - 1;
      var before := NewNames(pp, names[..n]);
      if names[n] in pp.attributes || names[n] in before then before else before + [names[n]]
  }

  /** Registration gives the k-th new name the k-th scalar and leaves all others as they are. */
  ghost predicate RegistersFresh(pp: PublicParams, later: PublicParams, names: seq<string>, tape: Tape)
    requires |tape| >= |names|
  {
    var added := NewNames(pp, names);
    && Extends(pp, later)
    && (forall a :: a in later.attributes <==> a in pp.attributes || a in names)
    && forall k :: 0 <= k < |added| ==>
         added[k] in later.attributes && later.attributes[added[k]] == Commitment(tape[k], tape[k])
  }

  lemma NewNamesMore(pp: PublicParams, names: seq<string>, name: string)
    ensures var added := NewNames(pp, names);
      NewNames(pp, names + [name]) == if name in pp.attributes || name in added then added else added + [name]
  {
    assert (names + [name])[..|names|] == names;
  }

  lemma RegistersMore(pp: PublicParams, mid: PublicParams, later: PublicParams, names: seq<string>, name: string,
                      tape: Tape)
    requires |tape| > |names| && RegistersFresh(pp, mid, names, tape) && Extends(mid, later)
    requires later.attributes.Keys == mid.attributes.Keys + {name}
    requires var x := tape[|NewNames(pp, names)|]; name !in mid.attributes ==> later.attributes[name] == Commitment(x, x)
    ensures RegistersFresh(pp, later, names + [name], tape)
    ensures |NewNames(pp, names + [name])| == |NewNames(pp, names)| + if name in mid.attributes then 0 else 1
  {
    var added, all := NewNames(pp, names), NewNames(pp, names + [name]);
    NewNamesMore(pp, names, name);
    hide NewNames;
    assert name in mid.attributes <==> name in pp.attributes || name in added;
    assert forall a :: a in names + [name] <==> a in names || a == name;
    assert Extends(pp, later) by {
      ExtendsTransitive(pp, mid, later);
    }
    forall k | 0 <= k < |all|
      ensures all[k] in later.attributes && later.attributes[all[k]] == Commitment(tape[k], tape[k])
    {
      if k < |added| {
        assert all[k] == added[k] && all[k] in mid.attributes;
      }
    }
  }

  lemma {:induction false} RegisterAllUsesTape(pp: PublicParams, msk: MasterSecret, names: seq<string>, tape: Tape)
    requires |tape| >= |names| && ParamsFor(pp, msk)
    ensures var (later, rest) := RegisterAll(pp, names, tape);
      ParamsFor(later, msk) && RegistersFresh(pp, later, names, tape) && rest == tape[|NewNames(pp, names)|..]
  {
    hide *;
    if names == [] {
      NoneRegistered(pp, tape);
    } else {
      var n := |names| - 1;
      var init, name := names[..n], names[n];
      var (mid, rest) := RegisterAll(pp, init, tape);
      RegisterAllUsesTape(pp, msk, init, tape);
      RegisterMore(pp, init, name, tape);
      RegisteredIsCoherent(mid, msk, name, rest);
      var (later, rest') := Registered(mid, name, rest);
      RegistersMore(pp, mid, later, init, name, tape);
      assert names == init + [name];
    }
  }

  lemma NoneRegistered(pp: PublicParams, tape: Tape)
    ensures RegisterAll(pp, [], tape) == (pp, tape) && RegistersFresh(pp, pp, [], tape) && NewNames(pp, []) == []
  {
  }

  // ----- Commands -----

  /** An encryption registers the policy's tags with the first scalars, readable file or not, and
      blinds the package with the scalars after them. */
  lemma EncryptStepUsesTape(kdf: Kdf, st: State, id: string, policy: string, readable: bool, dek: Key, nonce: Bytes,
                            tape: Tape)
    requires ParamsFor(st.pp, st.msk) && |tape| >= EncryptDraws(st, policy)
    ensures var parsed := PolicyParser.Parsed(policy);
      var (st', error) := EncryptStep(kdf, st, id, policy, readable, dek, nonce, tape);
      if parsed.Err? then st' == st && error == Some(BadPolicy(parsed.error))
      else
        var tree := RetagTree(parsed.value, st.epochs);
        var m := |NewNames(st.pp, Leaves(tree))|;
        && RegistersFresh(st.pp, st'.pp, Leaves(tree), tape)
        && (if readable then
              && error.None?
              && st' == st.(pp := st'.pp, packages := st.packages[PackageDir(id) := st'.packages[PackageDir(id)]])
              && BlindedBy(kdf, st'.pp, st.msk, st'.packages[PackageDir(id)], dek, tree, tape[m..], nonce)
            else st' == st.(pp := st'.pp) && error == Some(UnreadableFile))
  {
    hide PolicyParser.Parsed, RetagTree, Leaves, Draws, RegisterAll, Encrypted, BlindedBy, RegistersFresh, ParamsFor;
    var parsed := PolicyParser.Parsed(policy);
    if parsed.Ok? {
      var tree := RetagTree(parsed.value, st.epochs);
      var (pp, rest) := RegisterAll(st.pp, Leaves(tree), tape);
      RegisterAllUsesTape(st.pp, st.msk, Leaves(tree), tape);
      EncryptedUsesTape(kdf, pp, st.msk, dek, tree, rest, nonce);
      AllRegistered(st.pp, pp, Leaves(tree), tape);
    }
  }

  lemma AllRegistered(pp: PublicParams, later: PublicParams, names: seq<string>, tape: Tape)
    requires |tape| >= |names| && RegistersFresh(pp, later, names, tape)
    ensures forall a <- names :: a in later.attributes
  {
  }

  /** A grant registers its tags with the first scalars and binds the key by the next one. */
  lemma IssuedUsesTape(st: State, user: string, attrs: seq<string>, order: seq<string>, tape: Tape)
    requires ParamsFor(st.pp, st.msk) && st.msk.beta != 0 && |tape| >= 2 * |attrs| + 1 + |order|
    ensures var (st', error), tags := Issued(st, user, attrs, order, tape), TagsOf(st.epochs, attrs);
      var m, all := |NewNames(st.pp, tags)|, Merged(tags, order);
      error.None? ==>
        && RegistersFresh(st.pp, st'.pp, tags, tape) && KeyFile(user) in st'.keys
        && var usk := st'.keys[KeyFile(user)];
        && usk.subject == user && KeyFor(st'.pp, st.msk, usk, tape[m])
        && forall i | 0 <= i < |all| && forall j :: i < j < |all| ==> all[j] != all[i] ::
             all[i] in usk.attributes && usk.attributes[all[i]].djPrime == tape[m..][1 + i]
  {
    hide RegisterAll, KeyFrom, RegistersFresh, ParamsFor, KeyFor, TagsOf, Merged, IsFirstUnknown;
    var tags := TagsOf(st.epochs, attrs);
    var (pp, rest) := RegisterAll(st.pp, tags, tape);
    RegisterAllUsesTape(st.pp, st.msk, tags, tape);
    KeyUsesTape(pp, st.msk, user, Merged(tags, order), rest);
  }
}
