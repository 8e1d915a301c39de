/** Properties of every run of the deployment, stated over what was issued and sealed in it. */
module Runs {
  import opened PrimeField
  import opened Names
  import opened AccessTrees
  import opened Sharing
  import opened Scheme
  import opened Correctness
  import opened Claims
  import opened Revocation
  import opened Deployment
  import PolicyParser
  import PolicyPrinter

  // ----- Runs and their history -----

  /** The state after the commands.  A command that is not enabled is not a step of the
      program, and a list of commands stands for the run of those that are. */
  ghost function After(kdf: Kdf, start: State, cmds: seq<Command>): State {
    if cmds == [] then start
    else
      var n := |cmds| - 1;
      Next(kdf, After(kdf, start, cmds[..n]), cmds[n])
  }

  ghost function Next(kdf: Kdf, st: State, cmd: Command): State {
    if Enabled(st, cmd) then Step(kdf, st, cmd).0 else st
  }

  /** An attribute granted to a user at an epoch, by an authority with these controls. */
  datatype Grant = Grant(user: string, attr: string, epoch: nat, authority: string, controls: seq<string>)

  function ControlsOf(registry: Registry, authority: string): seq<string> {
    if authority in registry then registry[authority] else []
  }

  /** The grants of a successful issue of these attributes. */
  function NewGrants(st: State, authority: string, user: string, attrs: seq<string>): set<Grant> {
    set a <- attrs :: Grant(user, a, CurrentEpoch(st.epochs, a), authority, ControlsOf(st.registry, authority))
  }

  /** What a command grants: a successful issue grants all that its claims resolve to, at the
      epochs in force. */
  ghost function GrantedBy(st: State, cmd: Command): set<Grant>
  {
    match cmd
    case Issue(authority, user, flags, texts, numerics, order, tape) =>
      (match ClaimsFrom(flags, texts, numerics)
       case Ok(claims) =>
         if Enabled(st, cmd) && IssueStep(st, authority, user, flags, texts, numerics, order, tape).1.None? then
           NewGrants(st, authority, user, ResolveAll(claims))
         else {}
       case Err(_) => {})
    case _ => {}
  }

  ghost function Grants(kdf: Kdf, start: State, cmds: seq<Command>): set<Grant>
  {
    if cmds == [] then {}
    else
      var n := |cmds| - 1;
      Grants(kdf, start, cmds[..n]) + GrantedBy(After(kdf, start, cmds[..n]), cmds[n])
  }

  /** What a package was sealed as: the policy as written, the epochs then in force, the data key. */
  datatype Seal = Seal(policy: AccessTree, epochs: Epochs, dek: Key)

  /** The seals after a command: a successful encryption adds one under its package's directory. */
  ghost function SealedBy(kdf: Kdf, st: State, cmd: Command, seals: map<string, Seal>): map<string, Seal>
  {
    match cmd
    case Encrypt(id, policy, readable, dek, nonce, tape) =>
      (match PolicyParser.Parsed(policy)
       case Ok(raw) =>
         if Enabled(st, cmd) && EncryptStep(kdf, st, id, policy, readable, dek, nonce, tape).1.None?
         then seals[PackageDir(id) := Seal(raw, st.epochs, dek)] else seals
       case Err(_) => seals)
    case _ => seals
  }

  ghost function Seals(kdf: Kdf, start: State, cmds: seq<Command>): map<string, Seal>
  {
    if cmds == [] then map[]
    else
      var n := |cmds| - 1;
      SealedBy(kdf, After(kdf, start, cmds[..n]), cmds[n], Seals(kdf, start, cmds[..n]))
  }

  // ----- The invariant -----

  /** The tags granted to the users of a key file. */
  ghost function NamesOf(grants: set<Grant>, file: string): set<string> {
    set g <- grants | KeyFile(g.user) == file :: Tag(g.attr, g.epoch)
  }

  /** The key is bound by one exponent and holds exactly the tags granted to its file's users. */
  ghost predicate CoherentKey(st: State, grants: set<Grant>, file: string)
    requires file in st.keys
  {
    && (exists r :: KeyFor(st.pp, st.msk, st.keys[file], r))
    && st.keys[file].attributes.Keys == NamesOf(grants, file)
  }

  /** The package is an honest ciphertext of its seal's data key under the retagged policy. */
  ghost predicate HonestPackage(kdf: Kdf, pp: PublicParams, ct: AbeCiphertext, seal: Seal) {
    && WellFormed(seal.policy) && Indexable(seal.policy)
    && exists s, tape, nonce :: MadeBy(kdf, pp, ct, seal, s, tape, nonce)
  }

  ghost predicate MadeBy(kdf: Kdf, pp: PublicParams, ct: AbeCiphertext, seal: Seal, s: Scalar, tape: Tape,
                         nonce: Bytes)
  {
    var tree := RetagTree(seal.policy, seal.epochs);
    && |tape| == Draws(tree)
    && (forall a <- Leaves(tree) :: a in pp.attributes)
    && ct == CiphertextFrom(kdf, pp, seal.dek, tree, s, tape, nonce)
  }

  ghost predicate KeysCoherent(st: State, grants: set<Grant>) {
    && (forall file <- st.keys :: CoherentKey(st, grants, file))
    && (forall g <- grants :: KeyFile(g.user) in st.keys)
  }

  ghost predicate PackagesHonest(kdf: Kdf, st: State, seals: map<string, Seal>) {
    && st.packages.Keys == seals.Keys
    && forall dir <- st.packages :: HonestPackage(kdf, st.pp, st.packages[dir], seals[dir])
  }

  ghost predicate GrantsLegal(st: State, grants: set<Grant>) {
    forall g <- grants ::
      && g.epoch <= CurrentEpoch(st.epochs, g.attr)
      && (g.controls != [] ==> Controlled(g.controls, g.attr))
  }

  ghost predicate Invariant(kdf: Kdf, st: State, grants: set<Grant>, seals: map<string, Seal>) {
    && ParamsFor(st.pp, st.msk) && st.msk.beta != 0
    && KeysCoherent(st, grants) && PackagesHonest(kdf, st, seals) && GrantsLegal(st, grants)
  }

  // ----- Growing parameters -----

  lemma {:induction false} RegisterAllCoherent(pp: PublicParams, msk: MasterSecret, names: seq<string>, tape: Tape)
    requires |tape| >= |names| && ParamsFor(pp, msk)
    ensures var pp' := RegisterAll(pp, names, tape).0;
      ParamsFor(pp', msk) && Extends(pp, pp') && forall a :: a in pp'.attributes <==> a in pp.attributes || a in names
  {
    hide Registered;
    if names != [] {
      var n := |names| - 1;
      RegisterAllCoherent(pp, msk, names[..n], tape);
      var (mid, rest) := RegisterAll(pp, names[..n], tape);
      RegisteredIsCoherent(mid, msk, names[n], rest);
      assert names == names[..n] + [names[n]];
    }
  }

  lemma HonestPackageExtends(kdf: Kdf, pp: PublicParams, later: PublicParams, ct: AbeCiphertext, seal: Seal)
    requires HonestPackage(kdf, pp, ct, seal) && Extends(pp, later)
    ensures HonestPackage(kdf, later, ct, seal)
  {
    hide CiphertextFrom, RetagTree, Draws, Leaves, WellFormed, Indexable, Extends;
    var s, tape, nonce :| MadeBy(kdf, pp, ct, seal, s, tape, nonce);
    CiphertextExtends(kdf, pp, later, seal.dek, RetagTree(seal.policy, seal.epochs), s, tape, nonce);
    assert MadeBy(kdf, later, ct, seal, s, tape, nonce);
  }

  /** Adding commitments keeps every key coherent and every package honest. */
  lemma GrownParams(kdf: Kdf, st: State, pp: PublicParams, grants: set<Grant>, seals: map<string, Seal>)
    requires Invariant(kdf, st, grants, seals) && Extends(st.pp, pp) && ParamsFor(pp, st.msk)
    ensures Invariant(kdf, st.(pp := pp), grants, seals)
  {
    hide HonestPackage, KeyFor, Extends, GrantsLegal, ParamsFor, NamesOf;
    var st' := st.(pp := pp);
    forall file | file in st'.keys
      ensures CoherentKey(st', grants, file)
    {
      assert CoherentKey(st, grants, file);
      var r :| KeyFor(st.pp, st.msk, st.keys[file], r);
      KeyForExtends(st.pp, pp, st.msk, st.keys[file], r);
    }
    forall dir | dir in st'.packages
      ensures HonestPackage(kdf, pp, st'.packages[dir], seals[dir])
    {
      HonestPackageExtends(kdf, st.pp, pp, st.packages[dir], seals[dir]);
    }
    assert KeysCoherent(st', grants);
    LegalFrame(st, st', grants);
  }

  lemma LegalFrame(st: State, st': State, grants: set<Grant>)
    requires GrantsLegal(st, grants)
    requires forall a :: CurrentEpoch(st.epochs, a) <= CurrentEpoch(st'.epochs, a)
    ensures GrantsLegal(st', grants)
  {
    hide CurrentEpoch, Controlled;
    forall g | g in grants
      ensures g.epoch <= CurrentEpoch(st'.epochs, g.attr)
    {
      assert CurrentEpoch(st.epochs, g.attr) <= CurrentEpoch(st'.epochs, g.attr);
    }
  }

  // ----- Each command keeps the invariant -----

  lemma {:induction false} TagsAre(epochs: Epochs, attrs: seq<string>, tag: string)
    ensures tag in TagsOf(epochs, attrs) <==> exists a <- attrs :: TagFor(epochs, a) == tag
  {
    hide TagFor;
    var tags := TagsOf(epochs, attrs);
    if a :| a in attrs && TagFor(epochs, a) == tag {
      var i :| 0 <= i < |attrs| && attrs[i] == a;
      assert tags[i] == tag;
    }
  }

  /** What a successful grant does to the key of its user. */
  lemma IssuedKey(st: State, user: string, attrs: seq<string>, order: seq<string>, tape: Tape, grants: set<Grant>)
    requires ParamsFor(st.pp, st.msk) && st.msk.beta != 0 && KeysCoherent(st, grants)
    requires IsOrdering(order, st.keys, KeyFile(user)) && |tape| >= 2 * |attrs| + 1 + |order|
    ensures var (st', error), file := Issued(st, user, attrs, order, tape), KeyFile(user);
      && error.None?
      && ParamsFor(st'.pp, st.msk) && Extends(st.pp, st'.pp)
      && st' == st.(pp := st'.pp, keys := st'.keys)
      && st'.keys.Keys == st.keys.Keys + {file}
      && (forall f <- st.keys | f != file :: st'.keys[f] == st.keys[f])
      && (exists r :: KeyFor(st'.pp, st.msk, st'.keys[file], r))
      && st'.keys[file].attributes.Keys
         == NamesOf(grants, file) + (set a <- attrs :: TagFor(st.epochs, a))
  {
    hide KeyFrom, RegisterAll, Merged, TagsOf, KeyFor, ParamsFor, Extends, NamesOf, TagFor, KeysCoherent, IsOrdering;
    var tags := TagsOf(st.epochs, attrs);
    var (pp, rest) := RegisterAll(st.pp, tags, tape);
    var names := Merged(tags, order);
    RegisterAllCoherent(st.pp, st.msk, tags, tape);
    MergedRegistered(st, grants, KeyFile(user), attrs, order, pp);
    MergedNames(st, grants, KeyFile(user), attrs, order);
    KeygenIsCoherent(pp, st.msk, user, names, rest);
    var usk := KeyFrom(pp, st.msk, user, names, rest).value;
    assert usk.attributes.Keys == NamesOf(grants, KeyFile(user)) + (set a <- attrs :: TagFor(st.epochs, a));
  }

  /** Every name a re-minted key will hold is registered. */
  lemma MergedRegistered(st: State, grants: set<Grant>, file: string, attrs: seq<string>, order: seq<string>,
                         pp: PublicParams)
    requires KeysCoherent(st, grants) && IsOrdering(order, st.keys, file) && Extends(st.pp, pp)
    requires forall a <- TagsOf(st.epochs, attrs) :: a in pp.attributes
    ensures forall a <- Merged(TagsOf(st.epochs, attrs), order) :: a in pp.attributes
  {
    hide Merged, TagsOf, Extends, KeysCoherent;
    forall a | a in order
      ensures a in pp.attributes
    {
      OnFileRegistered(st, grants, file, a);
      ExtendsKeeps(st.pp, pp, a);
    }
  }

  /** A re-minted key holds the names on file and the new tags. */
  lemma MergedNames(st: State, grants: set<Grant>, file: string, attrs: seq<string>, order: seq<string>)
    requires KeysCoherent(st, grants) && IsOrdering(order, st.keys, file)
    ensures (set x <- Merged(TagsOf(st.epochs, attrs), order))
         == NamesOf(grants, file) + (set a <- attrs :: TagFor(st.epochs, a))
  {
    hide Merged, TagsOf, NamesOf, TagFor;
    if file in st.keys {
      assert CoherentKey(st, grants, file);
    } else {
      NoGrantsNoKey(st, grants, file);
    }
    forall x
      ensures x in Merged(TagsOf(st.epochs, attrs), order)
        <==> x in NamesOf(grants, file) || exists a <- attrs :: TagFor(st.epochs, a) == x
    {
      TagsAre(st.epochs, attrs, x);
    }
  }

  lemma ExtendsKeeps(pp: PublicParams, later: PublicParams, a: string)
    requires Extends(pp, later) && a in pp.attributes
    ensures a in later.attributes
  {
  }

  lemma OnFileRegistered(st: State, grants: set<Grant>, file: string, a: string)
    requires KeysCoherent(st, grants) && file in st.keys && a in st.keys[file].attributes
    ensures a in st.pp.attributes
  {
    hide NamesOf, Mul, Add;
    assert CoherentKey(st, grants, file);
    var r :| KeyFor(st.pp, st.msk, st.keys[file], r);
  }

  lemma NoGrantsNoKey(st: State, grants: set<Grant>, file: string)
    requires KeysCoherent(st, grants) && file !in st.keys
    ensures NamesOf(grants, file) == {}
  {
  }

  // ----- Issue -----

  lemma NamesOfUnion(st: State, grants: set<Grant>, authority: string, user: string, attrs: seq<string>,
                     file: string)
    ensures NamesOf(grants + NewGrants(st, authority, user, attrs), file)
         == NamesOf(grants, file) + if file == KeyFile(user) then set a <- attrs :: TagFor(st.epochs, a) else {}
  {
    var added := NewGrants(st, authority, user, attrs);
    forall a | a in attrs
      ensures file == KeyFile(user) ==> TagFor(st.epochs, a) in NamesOf(grants + added, file)
    {
      var g := Grant(user, a, CurrentEpoch(st.epochs, a), authority, ControlsOf(st.registry, authority));
      assert g in added;
    }
  }

  lemma IssuedKeepsInv(kdf: Kdf, st: State, authority: string, user: string, attrs: seq<string>, order: seq<string>,
                       tape: Tape, grants: set<Grant>, seals: map<string, Seal>)
    requires Invariant(kdf, st, grants, seals)
    requires IsOrdering(order, st.keys, KeyFile(user)) && |tape| >= 2 * |attrs| + 1 + |order|
    requires ControlsOf(st.registry, authority) != [] ==>
               forall a <- attrs :: Controlled(ControlsOf(st.registry, authority), a)
    ensures var (st', error) := Issued(st, user, attrs, order, tape);
      && error.None? && Invariant(kdf, st', grants + NewGrants(st, authority, user, attrs), seals)
      && Extends(st.pp, st'.pp) && st' == st.(pp := st'.pp, keys := st'.keys)
      && st'.keys.Keys == st.keys.Keys + {KeyFile(user)}
      && (forall f <- st.keys | f != KeyFile(user) :: st'.keys[f] == st.keys[f])
  {
    hide Issued, KeyFor, Extends, ParamsFor, HonestPackage, NamesOf, TagFor, IsOrdering;
    IssuedKey(st, user, attrs, order, tape, grants);
    var st' := Issued(st, user, attrs, order, tape).0;
    var all := grants + NewGrants(st, authority, user, attrs);
    GrownParams(kdf, st, st'.pp, grants, seals);
    forall f | f in st'.keys
      ensures CoherentKey(st', all, f)
    {
      NamesOfUnion(st, grants, authority, user, attrs, f);
      if f != KeyFile(user) {
        assert CoherentKey(st.(pp := st'.pp), grants, f);
      }
    }
  }

  /** What one step can change. */
  ghost predicate Evolves(st: State, st': State, cmd: Command) {
    && st'.msk == st.msk && Extends(st.pp, st'.pp)
    && (forall a :: CurrentEpoch(st.epochs, a) <= CurrentEpoch(st'.epochs, a))
    && (forall u <- st.revokedUsers :: u in st'.revokedUsers)
    && (forall f <- st.keys :: f in st'.keys)
    && (forall f <- st.keys | !MayWrite(st, cmd, f) :: st'.keys[f] == st.keys[f])
    && (forall f <- st'.keys | f !in st.keys :: MayWrite(st, cmd, f))
  }

  /** Only an issue to a user who is not revoked writes a key file, that user's. */
  predicate MayWrite(st: State, cmd: Command, file: string) {
    cmd.Issue? && KeyFile(cmd.user) == file && cmd.user !in st.revokedUsers
  }

  /** An issue is either refused without any effect or grants all that its claims resolve to. */
  ghost predicate Refused(kdf: Kdf, st: State, cmd: Command)
    requires cmd.Issue? && Enabled(st, cmd)
  {
    var (st', error) := Step(kdf, st, cmd);
    st' == st && error.Some? && !error.value.Abe? && GrantedBy(st, cmd) == {}
  }

  lemma IssueCases(kdf: Kdf, st: State, cmd: Command)
    requires cmd.Issue? && Enabled(st, cmd)
    ensures Refused(kdf, st, cmd) || AsksProperly(st, cmd)
    ensures !Refused(kdf, st, cmd) && AsksProperly(st, cmd) ==>
      var attrs := ResolveAll(ClaimsFrom(cmd.flags, cmd.texts, cmd.numerics).value);
      |cmd.tape| >= 2 * |attrs| + 1 + |cmd.order| &&
      var o := Issued(st, cmd.user, attrs, cmd.order, cmd.tape);
      && Step(kdf, st, cmd) == o
      && (o.1.None? ==> GrantedBy(st, cmd) == NewGrants(st, cmd.authority, cmd.user, attrs))
  {
    OrderingLength(cmd.order, st.keys, KeyFile(cmd.user));
    hide Issued, IsOrdering, ClaimsFrom, ResolveAll, FirstDenied, NewGrants;
  }

  /** The user is not revoked, the arguments parse and every claim is permitted. */
  predicate AsksProperly(st: State, cmd: Command)
    requires cmd.Issue?
  {
    var claims := ClaimsFrom(cmd.flags, cmd.texts, cmd.numerics);
    cmd.user !in st.revokedUsers && claims.Ok? && FirstDenied(st.registry, cmd.authority, claims.value).None?
  }

  /** An issue keeps the invariant; it never fails in key generation, and a refused one
      changes nothing. */
  lemma IssueKeepsInv(kdf: Kdf, st: State, cmd: Command, grants: set<Grant>, seals: map<string, Seal>)
    requires cmd.Issue? && Enabled(st, cmd) && Invariant(kdf, st, grants, seals)
    ensures Invariant(kdf, Step(kdf, st, cmd).0, grants + GrantedBy(st, cmd), seals)
    ensures Evolves(st, Step(kdf, st, cmd).0, cmd)
    ensures Step(kdf, st, cmd).1.None? || Refused(kdf, st, cmd)
    ensures Step(kdf, st, cmd).1.None? <==> AsksProperly(st, cmd)
  {
    SameParams(st.pp);
    assert IsOrdering(cmd.order, st.keys, KeyFile(cmd.user));
    assert grants + {} == grants;
    IssueEvolves(st, st, cmd);
    hide Step, Invariant, Issued, Extends, IsOrdering, Enabled, ClaimsFrom, ResolveAll, FirstDenied, GrantedBy,
      NewGrants, Evolves;
    if Refused(kdf, st, cmd) {
      RefusedMeans(kdf, st, cmd);
      RefusedWhy(kdf, st, cmd);
    } else {
      IssueCases(kdf, st, cmd);
      ResolvedControlled(st, cmd);
      var attrs := ResolveAll(ClaimsFrom(cmd.flags, cmd.texts, cmd.numerics).value);
      IssuedKeepsInv(kdf, st, cmd.authority, cmd.user, attrs, cmd.order, cmd.tape, grants, seals);
      IssueEvolves(st, Issued(st, cmd.user, attrs, cmd.order, cmd.tape).0, cmd);
    }
  }

  lemma RefusedMeans(kdf: Kdf, st: State, cmd: Command)
    requires cmd.Issue? && Enabled(st, cmd) && Refused(kdf, st, cmd)
    ensures Step(kdf, st, cmd).0 == st && Step(kdf, st, cmd).1.Some? && !Step(kdf, st, cmd).1.value.Abe?
    ensures GrantedBy(st, cmd) == {}
  {
    hide Step, Enabled, GrantedBy;
  }

  lemma RefusedWhy(kdf: Kdf, st: State, cmd: Command)
    requires cmd.Issue? && Enabled(st, cmd)
    requires Step(kdf, st, cmd).1.Some? && !Step(kdf, st, cmd).1.value.Abe?
    ensures !AsksProperly(st, cmd)
  {
    OrderingLength(cmd.order, st.keys, KeyFile(cmd.user));
    hide IsOrdering, ClaimsFrom, ResolveAll, FirstDenied, KeyFrom, RegisterAll, Merged, TagsOf;
  }

  lemma IssueEvolves(st: State, st': State, cmd: Command)
    requires cmd.Issue? && Extends(st.pp, st'.pp) && st' == st.(pp := st'.pp, keys := st'.keys)
    requires st' == st || (cmd.user !in st.revokedUsers && st'.keys.Keys == st.keys.Keys + {KeyFile(cmd.user)})
    requires forall f <- st.keys | f != KeyFile(cmd.user) || st' == st :: st'.keys[f] == st.keys[f]
    ensures Evolves(st, st', cmd)
  {
    hide Extends, CurrentEpoch;
  }

  lemma SameParams(pp: PublicParams)
    ensures Extends(pp, pp)
  {
  }

  /** Everything a permitted issue resolves to is under the authority's prefixes. */
  lemma ResolvedControlled(st: State, cmd: Command)
    requires cmd.Issue?
    ensures AsksProperly(st, cmd) && ControlsOf(st.registry, cmd.authority) != [] ==>
      forall a <- ResolveAll(ClaimsFrom(cmd.flags, cmd.texts, cmd.numerics).value) ::
        Controlled(ControlsOf(st.registry, cmd.authority), a)
  {
    hide CheckPermission, Controlled, ClaimsFrom, Keyed, ResolveAll, ControlsOf;
    if AsksProperly(st, cmd) {
      ParsedAreKeyed(cmd.flags, cmd.texts, cmd.numerics);
      EachControlled(st.registry, cmd.authority, ClaimsFrom(cmd.flags, cmd.texts, cmd.numerics).value);
    }
  }

  lemma {:induction false} EachControlled(registry: Registry, authority: string, claims: seq<Claim>)
    requires forall c <- claims :: Keyed(c) && CheckPermission(registry, authority, c).None?
    ensures ControlsOf(registry, authority) != [] ==>
      forall a <- ResolveAll(claims) :: Controlled(ControlsOf(registry, authority), a)
  {
    hide Controlled, Keyed, CheckPermission;
    if claims != [] && ControlsOf(registry, authority) != [] {
      var n := |claims| - 1;
      EachControlled(registry, authority, claims[..n]);
      PermittedIsControlled(registry, authority, claims[n]);
    }
  }

  lemma OrderingLength(order: seq<string>, keys: map<string, UserSecretKey>, file: string)
    requires IsOrdering(order, keys, file)
    ensures |order| == if file in keys then |keys[file].attributes| else 0
  {
  }

  // ----- Encrypt -----

  lemma {:induction false} RetagShape(t: AccessTree, epochs: Epochs)
    ensures WellFormed(t) ==> WellFormed(RetagTree(t, epochs))
    ensures Indexable(t) ==> Indexable(RetagTree(t, epochs))
    decreases t
  {
    hide TagFor;
    if t.Gate? {
      var ts := RetagAll(t.children, epochs);
      forall i | 0 <= i < |ts|
        ensures WellFormed(t) ==> WellFormed(ts[i])
        ensures Indexable(t) ==> Indexable(ts[i])
      {
        RetagShape(t.children[i], epochs);
      }
    }
  }

  /** The package that an encryption stores is honest. */
  lemma SealedIsHonest(kdf: Kdf, pp: PublicParams, raw: AccessTree, epochs: Epochs, dek: Key, tape: Tape, nonce: Bytes)
    requires WellFormed(raw) && Indexable(raw)
    requires var tree := RetagTree(raw, epochs);
      |tape| >= 1 + Draws(tree) && forall a <- Leaves(tree) :: a in pp.attributes
    ensures var ct := Encrypted(kdf, pp, dek, RetagTree(raw, epochs), tape, nonce);
      ct.Ok? && HonestPackage(kdf, pp, ct.value, Seal(raw, epochs, dek))
  {
    hide RetagTree, Draws, Leaves, CiphertextFrom, WellFormed, Indexable;
    var tree := RetagTree(raw, epochs);
    var ct := Encrypted(kdf, pp, dek, tree, tape, nonce).value;
    assert MadeBy(kdf, pp, ct, Seal(raw, epochs, dek), tape[0], tape[1..1 + Draws(tree)], nonce);
  }

  lemma EncryptKeepsInv(kdf: Kdf, st: State, cmd: Command, grants: set<Grant>, seals: map<string, Seal>)
    requires cmd.Encrypt? && Invariant(kdf, st, grants, seals) && Enabled(st, cmd)
    ensures var (st', error) := Step(kdf, st, cmd);
      && Invariant(kdf, st', grants, SealedBy(kdf, st, cmd, seals))
      && Extends(st.pp, st'.pp) && st' == st.(pp := st'.pp, packages := st'.packages)
      && (error.None? <==> PolicyParser.Parsed(cmd.policy).Ok? && cmd.readable)
  {
    hide Invariant, RetagTree, Draws, Leaves, RegisterAll, Encrypted, Extends, PolicyParser.Parsed, HonestPackage,
      ParamsFor, WellFormed, Indexable;
    SameParams(st.pp);
    var parsed := PolicyParser.Parsed(cmd.policy);
    if parsed.Ok? {
      var raw := parsed.value;
      var tree := RetagTree(raw, st.epochs);
      PolicyPrinter.ParsedPrintable(cmd.policy, raw);
      PolicyPrinter.PrintableWellFormed(raw);
      var (pp, rest) := RegisterAll(st.pp, Leaves(tree), cmd.tape);
      InvParams(kdf, st, grants, seals);
      RegisterAllCoherent(st.pp, st.msk, Leaves(tree), cmd.tape);
      GrownParams(kdf, st, pp, grants, seals);
      if cmd.readable {
        SealedIsHonest(kdf, pp, raw, st.epochs, cmd.dek, rest, cmd.nonce);
        var ct := Encrypted(kdf, pp, cmd.dek, tree, rest, cmd.nonce).value;
        AddPackage(kdf, st.(pp := pp), PackageDir(cmd.id), ct, Seal(raw, st.epochs, cmd.dek), grants, seals);
      }
    }
  }

  lemma InvParams(kdf: Kdf, st: State, grants: set<Grant>, seals: map<string, Seal>)
    requires Invariant(kdf, st, grants, seals)
    ensures ParamsFor(st.pp, st.msk) && st.msk.beta != 0
  {
  }

  lemma AddPackage(kdf: Kdf, st: State, dir: string, ct: AbeCiphertext, seal: Seal, grants: set<Grant>,
                   seals: map<string, Seal>)
    requires Invariant(kdf, st, grants, seals) && HonestPackage(kdf, st.pp, ct, seal)
    ensures Invariant(kdf, st.(packages := st.packages[dir := ct]), grants, seals[dir := seal])
  {
    hide HonestPackage, ParamsFor, KeyFor, NamesOf;
    var st' := st.(packages := st.packages[dir := ct]);
    forall file | file in st'.keys
      ensures CoherentKey(st', grants, file)
    {
      assert CoherentKey(st, grants, file);
    }
    assert KeysCoherent(st', grants);
  }

  // ----- The other commands -----

  /** Only the registry, the epochs and the revoked users change, and epochs only grow. */
  ghost predicate Bookkeeping(st: State, st': State) {
    && st' == st.(registry := st'.registry, epochs := st'.epochs, revokedUsers := st'.revokedUsers)
    && forall a :: CurrentEpoch(st.epochs, a) <= CurrentEpoch(st'.epochs, a)
  }

  lemma BookkeepingKeepsInv(kdf: Kdf, st: State, st': State, grants: set<Grant>, seals: map<string, Seal>)
    requires Invariant(kdf, st, grants, seals) && Bookkeeping(st, st')
    ensures Invariant(kdf, st', grants, seals)
  {
    hide HonestPackage, ParamsFor, KeyFor, NamesOf, CurrentEpoch, GrantsLegal;
    forall file | file in st'.keys
      ensures CoherentKey(st', grants, file)
    {
      assert CoherentKey(st, grants, file);
    }
    assert KeysCoherent(st', grants);
    LegalFrame(st, st', grants);
  }

  lemma NextKeepsInv(kdf: Kdf, st: State, cmd: Command, grants: set<Grant>, seals: map<string, Seal>)
    requires Invariant(kdf, st, grants, seals)
    ensures var st' := Next(kdf, st, cmd);
      Invariant(kdf, st', grants + GrantedBy(st, cmd), SealedBy(kdf, st, cmd, seals)) && Evolves(st, st', cmd)
  {
    hide Invariant, IssueStep, EncryptStep, ControlList, Extends, IsOrdering, IssueDraws, EncryptDraws,
      PolicyParser.Parsed, ClaimsFrom;
    assert grants + {} == grants;
    SameParams(st.pp);
    if Enabled(st, cmd) {
      match cmd
      case Issue(_, _, _, _, _, _, _) => IssueKeepsInv(kdf, st, cmd, grants, seals);
      case Encrypt(_, _, _, _, _, _) => EncryptKeepsInv(kdf, st, cmd, grants, seals);
      case _ => BookkeepingKeepsInv(kdf, st, Next(kdf, st, cmd), grants, seals);
    }
  }
}
