/** What holds in every reachable state of the deployment, whatever commands led there. */
module RunTheorems {
  import opened Wrappers
  import opened PrimeField
  import opened Names
  import opened AccessTrees
  import opened Sharing
  import opened Recombination
  import opened Scheme
  import opened Correctness
  import opened Claims
  import opened Revocation
  import opened Deployment
  import opened Runs
  import PolicyParser

  lemma InitialInv(kdf: Kdf, alpha: Scalar, beta: Scalar)
    requires beta != 0
    ensures Invariant(kdf, Initial(alpha, beta), {}, map[])
  {
    SetupIsCoherent(alpha, beta);
    hide SetupFrom;
  }

  /** The invariant holds after every run from set-up. */
  lemma {:induction false} RunKeepsInv(kdf: Kdf, alpha: Scalar, beta: Scalar, cmds: seq<Command>)
    requires beta != 0
    ensures var start := Initial(alpha, beta);
      Invariant(kdf, After(kdf, start, cmds), Grants(kdf, start, cmds), Seals(kdf, start, cmds))
  {
    hide Invariant, Initial, Next, GrantedBy, SealedBy;
    if cmds == [] {
      InitialInv(kdf, alpha, beta);
    } else {
      var n, start := |cmds| - 1, Initial(alpha, beta);
      RunKeepsInv(kdf, alpha, beta, cmds[..n]);
      var before := cmds[..n];
      NextKeepsInv(kdf, After(kdf, start, before), cmds[n], Grants(kdf, start, before), Seals(kdf, start, before));
    }
  }

  /** In every reachable state an issue succeeds exactly when the user is not revoked, its
      arguments parse and every claim is permitted, and an encryption exactly when its policy
      parses and the file can be read: the cryptography itself never refuses. */
  lemma CommandsSucceed(kdf: Kdf, alpha: Scalar, beta: Scalar, cmds: seq<Command>, cmd: Command)
    requires beta != 0 && Enabled(After(kdf, Initial(alpha, beta), cmds), cmd)
    ensures var st := After(kdf, Initial(alpha, beta), cmds);
      var ok := Step(kdf, st, cmd).1.None?;
      match cmd
      case Issue(_, _, _, _, _, _, _) => ok <==> AsksProperly(st, cmd)
      case Encrypt(_, policy, readable, _, _, _) => ok <==> PolicyParser.Parsed(policy).Ok? && readable
      case _ => ok
  {
    hide Initial, After, Grants, Seals, Invariant, IssueStep, EncryptStep, Evolves, Refused, Enabled, AsksProperly,
      PolicyParser.Parsed;
    RunKeepsInv(kdf, alpha, beta, cmds);
    var start := Initial(alpha, beta);
    var st, grants, seals := After(kdf, start, cmds), Grants(kdf, start, cmds), Seals(kdf, start, cmds);
    if cmd.Issue? {
      IssueKeepsInv(kdf, st, cmd, grants, seals);
    } else if cmd.Encrypt? {
      EncryptKeepsInv(kdf, st, cmd, grants, seals);
    }
  }

  // ----- Keys on file are their history -----

  /** A user of the key file was granted the attribute at that epoch. */
  ghost predicate Granted(grants: set<Grant>, file: string, attr: string, epoch: nat) {
    exists g <- grants :: KeyFile(g.user) == file && g.attr == attr && g.epoch == epoch
  }

  lemma NamesAreGrants(grants: set<Grant>, file: string, attr: string, epoch: nat)
    ensures Tag(attr, epoch) in NamesOf(grants, file) <==> Granted(grants, file, attr, epoch)
  {
    hide Tag;
    if Tag(attr, epoch) in NamesOf(grants, file) {
      var g :| g in grants && KeyFile(g.user) == file && Tag(g.attr, g.epoch) == Tag(attr, epoch);
      TagInjective(g.attr, g.epoch, attr, epoch);
    }
  }

  /** In every reachable state a key on file is bound by one exponent, and it holds a tag
      exactly when a successful issue to a user of that file granted that attribute at that
      epoch; no tag is from a later epoch than the current one. */
  lemma KeysAreHistory(kdf: Kdf, alpha: Scalar, beta: Scalar, cmds: seq<Command>, file: string, attr: string,
                       epoch: nat)
    requires beta != 0
    ensures var start := Initial(alpha, beta);
      var st := After(kdf, start, cmds);
      file in st.keys ==>
        && (exists r :: KeyFor(st.pp, st.msk, st.keys[file], r))
        && (Tag(attr, epoch) in st.keys[file].attributes <==> Granted(Grants(kdf, start, cmds), file, attr, epoch))
        && (Tag(attr, epoch) in st.keys[file].attributes ==> epoch <= CurrentEpoch(st.epochs, attr))
  {
    hide Initial, After, Grants, Seals, KeyFor, NamesOf, Tag, CurrentEpoch, PackagesHonest;
    RunKeepsInv(kdf, alpha, beta, cmds);
    var st, grants := After(kdf, Initial(alpha, beta), cmds), Grants(kdf, Initial(alpha, beta), cmds);
    if file in st.keys {
      assert CoherentKey(st, grants, file);
      NamesAreGrants(grants, file, attr, epoch);
    }
  }

  /** Every attribute granted by an authority that was restricted at the time is under one of
      its prefixes. */
  lemma GrantsAreControlled(kdf: Kdf, alpha: Scalar, beta: Scalar, cmds: seq<Command>)
    requires beta != 0
    ensures forall g <- Grants(kdf, Initial(alpha, beta), cmds) | g.controls != [] :: Controlled(g.controls, g.attr)
  {
    hide Initial, After, Grants, Seals, Controlled;
    RunKeepsInv(kdf, alpha, beta, cmds);
  }

  // ----- Whole-run refinement -----

  /** The leaves of the sealed policy that the users of a key file were granted at the epoch in
      force when it was sealed. */
  ghost function Readable(grants: set<Grant>, file: string, seal: Seal): set<string> {
    set a <- Leaves(seal.policy) | Granted(grants, file, a, CurrentEpoch(seal.epochs, a))
  }

  /** A coherent key opens an honest package exactly when the policy holds of what is readable. */
  lemma OpensHonest(kdf: Kdf, st: State, grants: set<Grant>, file: string, ct: AbeCiphertext, seal: Seal)
    requires ParamsFor(st.pp, st.msk) && file in st.keys && CoherentKey(st, grants, file)
    requires HonestPackage(kdf, st.pp, ct, seal)
    ensures Decrypted(kdf, st.keys[file], ct)
         == if IsSatisfiedBy(seal.policy, Readable(grants, file, seal)) then Ok(seal.dek) else Err(PolicyNotSatisfied)
  {
    hide KeyFor, ParamsFor, RetagTree, Draws, Leaves, CiphertextFrom, Decrypted, WellFormed, Indexable, Recoverable,
      NamesOf, IsSatisfiedBy, CurrentEpoch, Granted;
    var usk := st.keys[file];
    var r :| KeyFor(st.pp, st.msk, usk, r);
    var s, tape, nonce :| MadeBy(kdf, st.pp, ct, seal, s, tape, nonce);
    var tree, held := RetagTree(seal.policy, seal.epochs), usk.attributes.Keys;
    RetagShape(seal.policy, seal.epochs);
    WellFormedRecoverable(tree, held);
    DecryptHonest(kdf, st.pp, st.msk, usk, r, seal.dek, tree, s, tape, nonce);
    forall a | a in Leaves(seal.policy)
      ensures a in Readable(grants, file, seal) <==> TagFor(seal.epochs, a) in held
    {
      NamesAreGrants(grants, file, a, CurrentEpoch(seal.epochs, a));
    }
    RetagMeaning(seal.policy, seal.epochs, held, Readable(grants, file, seal));
  }

  /** In every reachable state, decrypting a package with the key on file yields the data key
      it was sealed with exactly when its policy holds, each leaf read as "some successful
      issue to this user, under any name of the same key file, granted the attribute at the
      epoch in force when the package was sealed"; otherwise it is refused. */
  lemma WholeRun(kdf: Kdf, alpha: Scalar, beta: Scalar, cmds: seq<Command>, user: string, id: string)
    requires beta != 0
    ensures var start := Initial(alpha, beta);
      var st, grants, seals := After(kdf, start, cmds), Grants(kdf, start, cmds), Seals(kdf, start, cmds);
      var file, dir := KeyFile(user), PackageDir(id);
      && st.packages.Keys == seals.Keys
      && DecryptOnFile(kdf, st, id, user)
         == (if file !in st.keys then Err(NoKey(user))
             else if dir !in seals then Err(NoPackage(id))
             else if IsSatisfiedBy(seals[dir].policy, Readable(grants, file, seals[dir])) then Ok(seals[dir].dek)
             else Err(Abe(PolicyNotSatisfied)))
  {
    hide Initial, After, Grants, Seals, Decrypted, HonestPackage, ParamsFor, IsSatisfiedBy, Readable, GrantsLegal,
      CoherentKey;
    RunKeepsInv(kdf, alpha, beta, cmds);
    var start := Initial(alpha, beta);
    var st, grants, seals := After(kdf, start, cmds), Grants(kdf, start, cmds), Seals(kdf, start, cmds);
    var file, dir := KeyFile(user), PackageDir(id);
    if file in st.keys && dir in seals {
      OpensHonest(kdf, st, grants, file, st.packages[dir], seals[dir]);
    }
  }

  // ----- Continuing a run -----

  lemma Extended(cmds: seq<Command>, more: seq<Command>)
    requires more != []
    ensures var all, n := cmds + more, |cmds| + |more| - 1;
      all != [] && |all| - 1 == n && all[..n] == cmds + more[..|more| - 1] && all[n] == more[|more| - 1]
  {
  }

  /** Whatever follows, commitments and keys on file stay, grants stay, epochs do not go back,
      revoked users stay revoked, and a file all of whose users are revoked keeps its very key. */
  lemma {:induction false} Continue(kdf: Kdf, alpha: Scalar, beta: Scalar, cmds: seq<Command>, more: seq<Command>)
    requires beta != 0
    ensures var start := Initial(alpha, beta);
      var st, st' := After(kdf, start, cmds), After(kdf, start, cmds + more);
      && st'.msk == st.msk && Extends(st.pp, st'.pp)
      && Grants(kdf, start, cmds) <= Grants(kdf, start, cmds + more)
      && (forall a :: CurrentEpoch(st.epochs, a) <= CurrentEpoch(st'.epochs, a))
      && (forall file <- st.keys :: file in st'.keys)
      && (forall u <- st.revokedUsers :: u in st'.revokedUsers)
      && (forall file | AllRevoked(st, file) :: SameKey(st, st', file))
  {
    hide Initial, Next, GrantedBy, SealedBy, Invariant, Extends, CurrentEpoch;
    var start := Initial(alpha, beta);
    if more == [] {
      assert cmds + more == cmds;
      SameParams(After(kdf, start, cmds).pp);
    } else {
      var n := |more| - 1;
      Extended(cmds, more);
      Continue(kdf, alpha, beta, cmds, more[..n]);
      var mid := cmds + more[..n];
      RunKeepsInv(kdf, alpha, beta, mid);
      NextKeepsInv(kdf, After(kdf, start, mid), more[n], Grants(kdf, start, mid), Seals(kdf, start, mid));
      ExtendsTransitive(After(kdf, start, cmds).pp, After(kdf, start, mid).pp, After(kdf, start, cmds + more).pp);
    }
  }

  /** Every user name that leads to the key file is revoked. */
  ghost predicate AllRevoked(st: State, file: string) {
    forall u | KeyFile(u) == file :: u in st.revokedUsers
  }

  /** There is no such file in either state, or the same key in both. */
  ghost predicate SameKey(st: State, st': State, file: string) {
    (file in st.keys <==> file in st'.keys) && (file in st.keys ==> st'.keys[file] == st.keys[file])
  }

  /** A key once on file stays coherent with the parameters of every later state. */
  lemma OldKeysStayValid(kdf: Kdf, alpha: Scalar, beta: Scalar, cmds: seq<Command>, more: seq<Command>, file: string)
    requires beta != 0
    ensures var start := Initial(alpha, beta);
      var st, st' := After(kdf, start, cmds), After(kdf, start, cmds + more);
      file in st.keys ==> exists r :: KeyFor(st'.pp, st'.msk, st.keys[file], r)
  {
    hide Initial, After, Grants, Seals, KeyFor, Extends, PackagesHonest, GrantsLegal, ParamsFor, CurrentEpoch, NamesOf;
    var start := Initial(alpha, beta);
    var st, st' := After(kdf, start, cmds), After(kdf, start, cmds + more);
    RunKeepsInv(kdf, alpha, beta, cmds);
    Continue(kdf, alpha, beta, cmds, more);
    if file in st.keys {
      assert CoherentKey(st, Grants(kdf, start, cmds), file);
      var r :| KeyFor(st.pp, st.msk, st.keys[file], r);
      KeyForExtends(st.pp, st'.pp, st.msk, st.keys[file], r);
    }
  }

  // ----- Revocation -----

  /** After an attribute is revoked no key on file holds its current tag until a new successful
      issue of it to a user of that file. */
  lemma RevokedUntilReissued(kdf: Kdf, alpha: Scalar, beta: Scalar, pre: seq<Command>, attr: string,
                             post: seq<Command>, file: string)
    requires beta != 0
    ensures var start := Initial(alpha, beta);
      var all := pre + [Command.RevokeAttribute(attr)] + post;
      var st := After(kdf, start, all);
      (forall g <- Grants(kdf, start, all) - Grants(kdf, start, pre) :: !(KeyFile(g.user) == file && g.attr == attr))
      && file in st.keys
      ==> Tag(attr, CurrentEpoch(st.epochs, attr)) !in st.keys[file].attributes
  {
    hide Initial, Grants, Seals, After, Invariant, Extends, Tag, CurrentEpoch, KeyFor;
    var start, rev := Initial(alpha, beta), pre + [Command.RevokeAttribute(attr)];
    var st0, st := After(kdf, start, pre), After(kdf, start, rev + post);
    AfterRevoke(kdf, start, pre, attr);
    Continue(kdf, alpha, beta, rev, post);
    KeysAreHistory(kdf, alpha, beta, rev + post, file, attr, CurrentEpoch(st.epochs, attr));
    PastGrants(kdf, alpha, beta, pre);
    assert CurrentEpoch(After(kdf, start, rev).epochs, attr) <= CurrentEpoch(st.epochs, attr);
  }

  lemma PastGrants(kdf: Kdf, alpha: Scalar, beta: Scalar, cmds: seq<Command>)
    requires beta != 0
    ensures var start := Initial(alpha, beta);
      forall g <- Grants(kdf, start, cmds) :: g.epoch <= CurrentEpoch(After(kdf, start, cmds).epochs, g.attr)
  {
    hide Initial, After, Grants, Seals, CurrentEpoch;
    RunKeepsInv(kdf, alpha, beta, cmds);
  }

  lemma AfterRevoke(kdf: Kdf, start: State, cmds: seq<Command>, attr: string)
    ensures CurrentEpoch(After(kdf, start, cmds + [Command.RevokeAttribute(attr)]).epochs, attr)
         == CurrentEpoch(After(kdf, start, cmds).epochs, attr) + 1
  {
    var all := cmds + [Command.RevokeAttribute(attr)];
    assert all[..|cmds|] == cmds && all[|cmds|] == Command.RevokeAttribute(attr);
  }

  /** A user name once revoked stays so, and the key in its file stays the same in every
      continuation if and only if all names that lead to this file are revoked. */
  lemma RevokedUserFrozen(kdf: Kdf, alpha: Scalar, beta: Scalar, cmds: seq<Command>, user: string)
    requires beta != 0
    ensures var start, file := Initial(alpha, beta), KeyFile(user);
      var st := After(kdf, start, cmds);
      && (user in st.revokedUsers ==> forall more :: user in After(kdf, start, cmds + more).revokedUsers)
      && ((forall more :: SameKey(st, After(kdf, start, cmds + more), file)) <==> AllRevoked(st, file))
  {
    hide Initial, After, Grants, Seals, SameKey, Extends, CurrentEpoch, Next;
    var start, file := Initial(alpha, beta), KeyFile(user);
    var st := After(kdf, start, cmds);
    forall more
      ensures user in st.revokedUsers ==> user in After(kdf, start, cmds + more).revokedUsers
      ensures AllRevoked(st, file) ==> SameKey(st, After(kdf, start, cmds + more), file)
    {
      Continue(kdf, alpha, beta, cmds, more);
    }
    if u :| KeyFile(u) == file && u !in st.revokedUsers {
      RunKeepsInv(kdf, alpha, beta, cmds);
      var cmd := Reissue(kdf, st, u, Grants(kdf, start, cmds), Seals(kdf, start, cmds));
      OneMore(kdf, start, cmds, cmd);
    }
  }

  lemma OneMore(kdf: Kdf, start: State, cmds: seq<Command>, cmd: Command)
    ensures After(kdf, start, cmds + [cmd]) == Next(kdf, After(kdf, start, cmds), cmd)
  {
    hide Next;
    assert (cmds + [cmd])[..|cmds|] == cmds;
  }

  /** Issuing nothing to a user who is not revoked mints that user's key anew. */
  lemma Reissue(kdf: Kdf, st: State, user: string, grants: set<Grant>, seals: map<string, Seal>) returns (cmd: Command)
    requires Invariant(kdf, st, grants, seals) && user !in st.revokedUsers
    ensures !SameKey(st, Next(kdf, st, cmd), KeyFile(user))
  {
    InvParams(kdf, st, grants, seals);
    AtLeastTwo();
    assert KeysCoherent(st, grants);
    hide *;
    var file, r' := KeyFile(user), 0;
    var order := FileOrder(st.keys, file);
    if file in st.keys {
      var r := ExponentOf(st, grants, file);
      r' := if r == 0 then 1 else 0;
      cmd := Issue("", user, [], [], [], order, [r'] + seq(|order|, _ => 0));
      Reminted(kdf, st, cmd, grants);
      if SameKey(st, Next(kdf, st, cmd), file) {
        SameKeyMeans(st, Next(kdf, st, cmd), file);
        OneExponent(st.pp, st.msk, st.keys[file], r, r');
      }
    } else {
      cmd := Issue("", user, [], [], [], order, [r'] + seq(|order|, _ => 0));
      Reminted(kdf, st, cmd, grants);
      SameKeyMeans(st, Next(kdf, st, cmd), file);
    }
  }

  lemma SameKeyMeans(st: State, st': State, file: string)
    ensures SameKey(st, st', file) ==> (file in st.keys <==> file in st'.keys)
    ensures SameKey(st, st', file) && file in st.keys ==> st'.keys[file] == st.keys[file]
  {
  }

  lemma FileOrder(keys: map<string, UserSecretKey>, file: string) returns (order: seq<string>)
    ensures IsOrdering(order, keys, file)
  {
    order := [];
    if file in keys {
      order := Listed(keys[file].attributes.Keys);
    }
  }

  lemma ExponentOf(st: State, grants: set<Grant>, file: string) returns (r: Scalar)
    requires KeysCoherent(st, grants) && file in st.keys
    ensures KeyFor(st.pp, st.msk, st.keys[file], r)
  {
    hide KeyFor, NamesOf;
    assert CoherentKey(st, grants, file);
    r :| KeyFor(st.pp, st.msk, st.keys[file], r);
  }

  lemma OneExponent(pp: PublicParams, msk: MasterSecret, usk: UserSecretKey, r: Scalar, r': Scalar)
    requires KeyFor(pp, msk, usk, r) && KeyFor(pp, msk, usk, r')
    ensures r == r'
  {
    assert Add(msk.alpha, r) == Add(msk.alpha, r');
    hide *;
    assert Sub(Add(msk.alpha, r), msk.alpha) == r && Sub(Add(msk.alpha, r'), msk.alpha) == r';
  }

  lemma Reminted(kdf: Kdf, st: State, cmd: Command, grants: set<Grant>)
    requires cmd.Issue? && cmd.flags == cmd.texts == cmd.numerics == [] && cmd.user !in st.revokedUsers
    requires KeysCoherent(st, grants) && ParamsFor(st.pp, st.msk) && st.msk.beta != 0
    requires IsOrdering(cmd.order, st.keys, KeyFile(cmd.user)) && |cmd.tape| == 1 + |cmd.order|
    ensures var keys := Next(kdf, st, cmd).keys;
      KeyFile(cmd.user) in keys && KeyFor(st.pp, st.msk, keys[KeyFile(cmd.user)], cmd.tape[0])
  {
    hide KeyFor, ParamsFor, KeysCoherent, KeyFrom, Next, Merged, IsOrdering;
    NothingIssued(kdf, st, cmd);
    NoTags(st.epochs);
    SameParams(st.pp);
    MergedRegistered(st, grants, KeyFile(cmd.user), [], cmd.order, st.pp);
    KeygenIsCoherent(st.pp, st.msk, cmd.user, Merged([], cmd.order), cmd.tape);
  }

  lemma NoTags(epochs: Epochs)
    ensures TagsOf(epochs, []) == []
  {
  }

  /** An issue without claims re-mints the key from the names on file. */
  lemma NothingIssued(kdf: Kdf, st: State, cmd: Command)
    requires cmd.Issue? && cmd.flags == cmd.texts == cmd.numerics == [] && cmd.user !in st.revokedUsers
    requires st.msk.beta != 0 && IsOrdering(cmd.order, st.keys, KeyFile(cmd.user)) && |cmd.tape| == 1 + |cmd.order|
    ensures var key := KeyFrom(st.pp, st.msk, cmd.user, Merged([], cmd.order), cmd.tape);
      Next(kdf, st, cmd) == if key.Ok? then st.(keys := st.keys[KeyFile(cmd.user) := key.value]) else st
  {
    OrderingLength(cmd.order, st.keys, KeyFile(cmd.user));
    NoTags(st.epochs);
    assert ClaimsFrom([], [], []) == Ok([]);
    assert ResolveAll([]) == [] && FirstDenied(st.registry, cmd.authority, []).None?;
    assert RegisterAll(st.pp, [], cmd.tape) == (st.pp, cmd.tape);
    hide KeyFrom, ClaimsFrom, ResolveAll, FirstDenied, RegisterAll, TagsOf, Merged, IsOrdering;
  }

  lemma {:induction false} Listed(names: set<string>) returns (order: seq<string>)
    ensures |order| == |names| && forall a :: a in order <==> a in names
  {
    if names == {} {
      order := [];
    } else {
      var a :| a in names;
      order := Listed(names - {a});
      order := order + [a];
    }
  }

  /** Revocation is not retroactive: what a user could open stays open to that user as long as
      the package is not sealed anew, whatever is revoked or issued in between. */
  lemma AccessIsKept(kdf: Kdf, alpha: Scalar, beta: Scalar, cmds: seq<Command>, more: seq<Command>, user: string,
                     id: string)
    requires beta != 0
    ensures var start := Initial(alpha, beta);
      var st, st' := After(kdf, start, cmds), After(kdf, start, cmds + more);
      var seals, seals' := Seals(kdf, start, cmds), Seals(kdf, start, cmds + more);
      var dir := PackageDir(id);
      DecryptOnFile(kdf, st, id, user).Ok? && dir in seals && dir in seals' && seals'[dir] == seals[dir]
      ==> DecryptOnFile(kdf, st', id, user) == DecryptOnFile(kdf, st, id, user)
  {
    hide Initial, After, Grants, Seals, DecryptOnFile, Extends, CurrentEpoch, IsSatisfiedBy, SameKey;
    var start := Initial(alpha, beta);
    var seals := Seals(kdf, start, cmds);
    WholeRun(kdf, alpha, beta, cmds, user, id);
    WholeRun(kdf, alpha, beta, cmds + more, user, id);
    Continue(kdf, alpha, beta, cmds, more);
    var file, dir := KeyFile(user), PackageDir(id);
    if dir in seals {
      var before := Readable(Grants(kdf, start, cmds), file, seals[dir]);
      var later := Readable(Grants(kdf, start, cmds + more), file, seals[dir]);
      assert before <= later;
      if IsSatisfiedBy(seals[dir].policy, before) {
        Monotone(seals[dir].policy, before, later);
      }
    }
  }
}
