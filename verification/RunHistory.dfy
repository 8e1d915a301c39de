/** The state after a run, read off the commands themselves: registrations, revocations and
    what was typed in the issues. */
module RunHistory {
  import opened Wrappers
  import opened PrimeField
  import opened Names
  import opened AccessTrees
  import opened Sharing
  import opened Scheme
  import opened Claims
  import opened Revocation
  import opened Deployment
  import opened ControlTexts
  import opened Freshness
  import opened Runs
  import opened RunTheorems
  import PolicyParser

  /** Set-up leaves the two secrets and nothing on file. */
  lemma InitialIs(alpha: Scalar, beta: Scalar)
    ensures Initial(alpha, beta)
         == State(PublicParams(1, 1, beta, alpha, map[]), MasterSecret(alpha, beta), map[], map[], [], map[], map[])
  {
    hide Mul;
    SetupIsCoherent(alpha, beta);
  }

  // ----- What each command writes -----

  lemma NextWrites(kdf: Kdf, st: State, cmd: Command)
    ensures var st' := Next(kdf, st, cmd);
      && (cmd.RegisterAuthority? || st'.registry == st.registry)
      && (cmd.RevokeAttribute? || st'.epochs == st.epochs)
      && (cmd.RevokeUser? || st'.revokedUsers == st.revokedUsers)
      && (cmd.Issue? || st'.keys == st.keys)
      && (cmd.Encrypt? || st'.packages == st.packages)
      && (cmd.RegisterAuthority? ==> st'.registry == st.registry[cmd.name := ControlList(cmd.controls)])
      && (cmd.RevokeAttribute? ==> st'.epochs == st.epochs[cmd.attr := CurrentEpoch(st.epochs, cmd.attr) + 1])
      && (cmd.RevokeUser? ==> forall u :: u in st'.revokedUsers <==> u in st.revokedUsers || u == cmd.user)
  {
    hide ClaimsFrom, FirstDenied, RegisterAll, KeyFrom, PolicyParser.Parsed, RetagTree, Leaves, Draws, Encrypted,
      ControlList, IsOrdering, Merged, TagsOf, ResolveAll;
    if Enabled(st, cmd) && cmd.Issue? {
      OrderingLength(cmd.order, st.keys, KeyFile(cmd.user));
    }
  }

  // ----- Revocations -----

  /** How often the attribute was revoked. */
  function Revocations(cmds: seq<Command>, attr: string): nat {
    if cmds == [] then 0
    else
      var n := |cmds| - 1;
      Revocations(cmds[..n], attr) + if cmds[n] == Command.RevokeAttribute(attr) then 1 else 0
  }

  /** An attribute's epoch is the number of its revocations. */
  lemma {:induction false} EpochIsCount(kdf: Kdf, alpha: Scalar, beta: Scalar, cmds: seq<Command>, attr: string)
    ensures CurrentEpoch(After(kdf, Initial(alpha, beta), cmds).epochs, attr) == Revocations(cmds, attr)
  {
    hide Initial, Next;
    if cmds == [] {
      InitialIs(alpha, beta);
    } else {
      var n := |cmds| - 1;
      EpochIsCount(kdf, alpha, beta, cmds[..n], attr);
      NextWrites(kdf, After(kdf, Initial(alpha, beta), cmds[..n]), cmds[n]);
    }
  }

  /** The revoked users are those that some command revoked. */
  lemma {:induction false} RevokedAreCommanded(kdf: Kdf, alpha: Scalar, beta: Scalar, cmds: seq<Command>, user: string)
    ensures user in After(kdf, Initial(alpha, beta), cmds).revokedUsers <==> Command.RevokeUser(user) in cmds
  {
    hide Initial, Next;
    if cmds == [] {
      InitialIs(alpha, beta);
    } else {
      var n := |cmds| - 1;
      RevokedAreCommanded(kdf, alpha, beta, cmds[..n], user);
      NextWrites(kdf, After(kdf, Initial(alpha, beta), cmds[..n]), cmds[n]);
      assert cmds == cmds[..n] + [cmds[n]];
    }
  }

  /** After a user name is revoked every issue to it is refused, grants nothing and leaves the
      state as it was. */
  lemma RevokedAreRefused(kdf: Kdf, alpha: Scalar, beta: Scalar, cmds: seq<Command>, cmd: Command)
    requires cmd.Issue? && Command.RevokeUser(cmd.user) in cmds
    ensures var st := After(kdf, Initial(alpha, beta), cmds);
      && Next(kdf, st, cmd) == st && GrantedBy(st, cmd) == {}
      && (Enabled(st, cmd) ==> Step(kdf, st, cmd) == (st, Some(UserRevoked(cmd.user))))
  {
    hide Initial, After, IsOrdering, ClaimsFrom;
    RevokedAreCommanded(kdf, alpha, beta, cmds, cmd.user);
  }

  // ----- Registrations -----

  /** The prefixes as typed in the latest registration of the authority, if there is one. */
  function LatestControls(cmds: seq<Command>, authority: string): Option<string> {
    if cmds == [] then None
    else
      var n := |cmds| - 1;
      if cmds[n].RegisterAuthority? && cmds[n].name == authority then Some(cmds[n].controls)
      else LatestControls(cmds[..n], authority)
  }

  /** An authority is on file exactly when it was registered, with the prefixes of its latest
      registration. */
  lemma {:induction false} RegistryIsLatest(kdf: Kdf, alpha: Scalar, beta: Scalar, cmds: seq<Command>,
                                            authority: string)
    ensures var registry, latest := After(kdf, Initial(alpha, beta), cmds).registry, LatestControls(cmds, authority);
      && (authority in registry <==> latest.Some?)
      && (latest.Some? ==> registry[authority] == ControlList(latest.value))
  {
    hide Initial, Next, ControlList;
    if cmds == [] {
      InitialIs(alpha, beta);
    } else {
      var n := |cmds| - 1;
      RegistryIsLatest(kdf, alpha, beta, cmds[..n], authority);
      NextWrites(kdf, After(kdf, Initial(alpha, beta), cmds[..n]), cmds[n]);
    }
  }

  /** Whatever an authority grants is under the prefixes typed in its latest registration, unless
      none were. */
  lemma GrantsUnderLatest(kdf: Kdf, alpha: Scalar, beta: Scalar, cmds: seq<Command>, cmd: Command, text: string,
                          pieces: seq<string>, controls: seq<string>)
    requires beta != 0 && cmd.Issue? && LatestControls(cmds, cmd.authority) == Some(text)
    requires Separated(text, pieces) && Lists(pieces, controls) && controls != []
    ensures forall g <- GrantedBy(After(kdf, Initial(alpha, beta), cmds), cmd) :: Controlled(controls, g.attr)
  {
    hide Initial, After, Grants, Seals, Separated, Lists, ControlList, Controlled, IssueStep, Enabled, ClaimsFrom,
      ResolveAll;
    var start, all := Initial(alpha, beta), cmds + [cmd];
    RegistryIsLatest(kdf, alpha, beta, cmds, cmd.authority);
    ControlListExactly(text, controls);
    GrantsAreControlled(kdf, alpha, beta, all);
    GrantsOneMore(kdf, start, cmds, cmd);
  }

  lemma GrantsOneMore(kdf: Kdf, start: State, cmds: seq<Command>, cmd: Command)
    ensures Grants(kdf, start, cmds + [cmd]) == Grants(kdf, start, cmds) + GrantedBy(After(kdf, start, cmds), cmd)
  {
    hide After, GrantedBy;
    assert (cmds + [cmd])[..|cmds|] == cmds;
  }

  // ----- Issues as typed -----

  /** One of the arguments stands for the attribute: a flag or a text is the attribute itself, a
      numeric argument stands for the thresholds it reaches. */
  ghost predicate Typed(cmd: Command, attr: string)
    requires cmd.Issue?
  {
    || attr in cmd.flags || attr in cmd.texts
    || exists arg <- cmd.numerics :: ParseNumeric(arg).Ok? && attr in ParseNumeric(arg).value.Resolve()
  }

  predicate SomeResolves(claims: seq<Claim>, attr: string) {
    exists c <- claims :: attr in c.Resolve()
  }

  lemma {:induction false} ResolvedByOne(claims: seq<Claim>, attr: string)
    ensures attr in ResolveAll(claims) <==> SomeResolves(claims, attr)
  {
    if claims != [] {
      var n := |claims| - 1;
      ResolvedByOne(claims[..n], attr);
      assert claims == claims[..n] + [claims[n]];
    }
  }

  lemma SomeOfParts(a: seq<Claim>, b: seq<Claim>, c: seq<Claim>, attr: string)
    ensures SomeResolves(a + b + c, attr) <==> SomeResolves(a, attr) || SomeResolves(b, attr) || SomeResolves(c, attr)
  {
    assert forall x <- a :: x in a + b + c;
    assert forall x <- b :: x in a + b + c;
    assert forall x <- c :: x in a + b + c;
  }

  lemma SomeFlag(flags: seq<string>, claims: seq<Claim>, attr: string)
    requires |claims| == |flags| && forall i :: 0 <= i < |flags| ==> claims[i] == Flag(flags[i])
    ensures SomeResolves(claims, attr) <==> attr in flags
  {
    if attr in flags {
      var i :| 0 <= i < |flags| && flags[i] == attr;
      assert claims[i] in claims && attr in claims[i].Resolve();
    }
    if c :| c in claims && attr in c.Resolve() {
      var i :| 0 <= i < |claims| && claims[i] == c;
    }
  }

  lemma SomeText(texts: seq<string>, claims: seq<Claim>, attr: string)
    requires ParsedInOrder(ParseText, texts, claims)
    ensures SomeResolves(claims, attr) <==> attr in texts
  {
    hide ParseText;
    forall i | 0 <= i < |texts|
      ensures claims[i].Resolve() == [texts[i]]
    {
      TextResolvesToArgument(texts[i]);
    }
    if attr in texts {
      var i :| 0 <= i < |texts| && texts[i] == attr;
      assert claims[i] in claims && attr in claims[i].Resolve();
    }
    if c :| c in claims && attr in c.Resolve() {
      var i :| 0 <= i < |claims| && claims[i] == c;
    }
  }

  lemma SomeNumeric(numerics: seq<string>, claims: seq<Claim>, attr: string)
    requires ParsedInOrder(ParseNumeric, numerics, claims)
    ensures SomeResolves(claims, attr)
        <==> exists arg <- numerics :: ParseNumeric(arg).Ok? && attr in ParseNumeric(arg).value.Resolve()
  {
    hide ParseNumeric;
    if arg :| arg in numerics && ParseNumeric(arg).Ok? && attr in ParseNumeric(arg).value.Resolve() {
      var i :| 0 <= i < |numerics| && numerics[i] == arg;
      assert claims[i] in claims && attr in claims[i].Resolve();
    }
    if c :| c in claims && attr in c.Resolve() {
      var i :| 0 <= i < |claims| && claims[i] == c;
      assert numerics[i] in numerics;
    }
  }

  /** The claims resolve to exactly the attributes that the arguments stand for. */
  lemma ResolvedAsTyped(cmd: Command, attr: string)
    requires cmd.Issue? && ClaimsFrom(cmd.flags, cmd.texts, cmd.numerics).Ok?
    ensures attr in ResolveAll(ClaimsFrom(cmd.flags, cmd.texts, cmd.numerics).value) <==> Typed(cmd, attr)
  {
    hide ClaimsFrom, ResolveAll, ParseText, ParseNumeric, ParsedInOrder, SomeResolves;
    ClaimsByIndex(cmd.flags, cmd.texts, cmd.numerics);
    var claims := ClaimsFrom(cmd.flags, cmd.texts, cmd.numerics).value;
    ResolvedByOne(claims, attr);
    var f, t := |cmd.flags|, |cmd.flags| + |cmd.texts|;
    var a, b, c := claims[..f], claims[f..t], claims[t..];
    assert claims == a + b + c;
    SomeOfParts(a, b, c, attr);
    SomeFlag(cmd.flags, a, attr);
    SomeText(cmd.texts, b, attr);
    SomeNumeric(cmd.numerics, c, attr);
  }

  /** The authority is registered, and unrestricted or allowed the prefix. */
  ghost predicate MayIssue(registry: Registry, authority: string, prefix: string) {
    authority in registry && (registry[authority] == [] || prefix in registry[authority])
  }

  lemma PrefixOfArgument(arg: string)
    ensures ParseText(arg).Ok? ==> ParseText(arg).value.KeyPrefix() == Before(arg, '=')
    ensures ParseNumeric(arg).Ok? ==> ParseNumeric(arg).value.KeyPrefix() == Before(arg, '=')
  {
    hide ParseI64, Before, SplitOnce;
    if ParseNumeric(arg).Ok? {
      var (kv, m) := SplitOnce(arg, ':').value;
      var (k, v) := SplitOnce(kv, '=').value;
      assert ParseNumeric(arg).value.KeyPrefix() == k;
      hide *;
      PrefixBeforeColon(k, v, m);
    }
  }

  lemma PrefixBeforeColon(k: string, v: string, m: string)
    requires '=' !in k
    ensures Before(k + ['='] + v + [':'] + m, '=') == k
  {
    hide Before;
    BeforeFirst(k, '=', v + [':'] + m);
    assert k + ['='] + v + [':'] + m == k + ['='] + (v + [':'] + m);
  }

  lemma EachMayIssue(parse: string -> Result<Claim, ClaimError>, registry: Registry, authority: string,
                     args: seq<string>, claims: seq<Claim>)
    requires ParsedInOrder(parse, args, claims)
    requires forall arg <- args | parse(arg).Ok? :: parse(arg).value.KeyPrefix() == Before(arg, '=')
    ensures (forall c <- claims :: CheckPermission(registry, authority, c).None?)
        <==> forall arg <- args :: MayIssue(registry, authority, Before(arg, '='))
  {
    hide Before;
    forall i | 0 <= i < |args|
      ensures CheckPermission(registry, authority, claims[i]).None? <==> MayIssue(registry, authority, Before(args[i], '='))
      ensures claims[i] in claims && args[i] in args
    {
    }
  }

  lemma AllParse(cmd: Command)
    requires cmd.Issue?
    ensures ClaimsFrom(cmd.flags, cmd.texts, cmd.numerics).Ok?
        <==> (forall arg <- cmd.texts :: '=' in arg) && forall arg <- cmd.numerics :: ParseNumeric(arg).Ok?
  {
    hide ClaimsFrom, ParseText, ParseNumeric;
    ClaimsByIndex(cmd.flags, cmd.texts, cmd.numerics);
    forall arg
      ensures ParseText(arg).Ok? <==> '=' in arg
    {
      TextResolvesToArgument(arg);
    }
    match ClaimsFrom(cmd.flags, cmd.texts, cmd.numerics)
    case Err(_) =>
    case Ok(claims) =>
      var f, t := |cmd.flags|, |cmd.flags| + |cmd.texts|;
      InOrderOk(ParseText, cmd.texts, claims[f..t]);
      InOrderOk(ParseNumeric, cmd.numerics, claims[t..]);
  }

  lemma InOrderOk(parse: string -> Result<Claim, ClaimError>, args: seq<string>, claims: seq<Claim>)
    requires ParsedInOrder(parse, args, claims)
    ensures forall arg <- args :: parse(arg).Ok?
  {
  }

  /** An issue is proper exactly when its user is not revoked, each text argument has an '=', each
      numeric argument is read, and the authority may issue under the prefix of every argument. */
  lemma ProperExactly(st: State, cmd: Command)
    requires cmd.Issue?
    ensures AsksProperly(st, cmd) <==>
      && cmd.user !in st.revokedUsers
      && (forall arg <- cmd.texts :: '=' in arg) && (forall arg <- cmd.numerics :: ParseNumeric(arg).Ok?)
      && (forall arg <- cmd.flags :: MayIssue(st.registry, cmd.authority, Before(arg, '=')))
      && (forall arg <- cmd.texts :: MayIssue(st.registry, cmd.authority, Before(arg, '=')))
      && (forall arg <- cmd.numerics :: MayIssue(st.registry, cmd.authority, Before(arg, '=')))
  {
    hide ClaimsFrom, ParseText, ParseNumeric, ParsedInOrder, FirstDenied, CheckPermission, Before, MayIssue;
    AllParse(cmd);
    ClaimsByIndex(cmd.flags, cmd.texts, cmd.numerics);
    if ClaimsFrom(cmd.flags, cmd.texts, cmd.numerics).Ok? {
      var claims := ClaimsFrom(cmd.flags, cmd.texts, cmd.numerics).value;
      var f, t := |cmd.flags|, |cmd.flags| + |cmd.texts|;
      var a, b, c := claims[..f], claims[f..t], claims[t..];
      assert claims == a + b + c;
      forall arg
        ensures ParseText(arg).Ok? ==> ParseText(arg).value.KeyPrefix() == Before(arg, '=')
        ensures ParseNumeric(arg).Ok? ==> ParseNumeric(arg).value.KeyPrefix() == Before(arg, '=')
      {
        PrefixOfArgument(arg);
      }
      FlagsMayIssue(st.registry, cmd.authority, cmd.flags, a);
      EachMayIssue(ParseText, st.registry, cmd.authority, cmd.texts, b);
      EachMayIssue(ParseNumeric, st.registry, cmd.authority, cmd.numerics, c);
      assert forall x :: x in claims <==> x in a || x in b || x in c;
    }
  }

  lemma FlagsMayIssue(registry: Registry, authority: string, flags: seq<string>, claims: seq<Claim>)
    requires |claims| == |flags| && forall i :: 0 <= i < |flags| ==> claims[i] == Flag(flags[i])
    ensures (forall c <- claims :: CheckPermission(registry, authority, c).None?)
        <==> forall arg <- flags :: MayIssue(registry, authority, Before(arg, '='))
  {
    hide Before;
    forall i | 0 <= i < |flags|
      ensures CheckPermission(registry, authority, claims[i]).None? <==> MayIssue(registry, authority, Before(flags[i], '='))
      ensures claims[i] in claims && flags[i] in flags
    {
    }
  }

  /** Which error an issue reports: revocation of the user comes first, then the first malformed
      argument, then the first claim that is denied. */
  lemma IssueErrors(kdf: Kdf, st: State, cmd: Command)
    requires cmd.Issue? && Enabled(st, cmd)
    ensures var error, claims := Step(kdf, st, cmd).1, ClaimsFrom(cmd.flags, cmd.texts, cmd.numerics);
      && (cmd.user in st.revokedUsers ==> error == Some(UserRevoked(cmd.user)))
      && (cmd.user !in st.revokedUsers && claims.Err? ==> error == Some(BadClaim(claims.error)))
      && (cmd.user !in st.revokedUsers && claims.Ok? ==>
            forall i | 0 <= i < |claims.value| && NoneDenied(st.registry, cmd.authority, claims.value, i) ::
              var d := CheckPermission(st.registry, cmd.authority, claims.value[i]);
              d.Some? ==> error == Some(Denied(d.value)))
  {
    OrderingLength(cmd.order, st.keys, KeyFile(cmd.user));
    hide ClaimsFrom, CheckPermission, Issued, IsOrdering, ResolveAll, FirstDenied;
    var claims := ClaimsFrom(cmd.flags, cmd.texts, cmd.numerics);
    if claims.Ok? {
      forall i | 0 <= i < |claims.value| && NoneDenied(st.registry, cmd.authority, claims.value, i)
        ensures var d := CheckPermission(st.registry, cmd.authority, claims.value[i]);
          d.Some? ==> FirstDenied(st.registry, cmd.authority, claims.value) == d
      {
        DeniedAt(st.registry, cmd.authority, claims.value, i);
      }
    }
  }

  /** What a successful issue does: the user's key file then holds the tags it held before and
      those of the attributes typed, at the epochs in force, under the user's name. */
  ghost predicate GivesTyped(st: State, st': State, cmd: Command)
    requires cmd.Issue?
  {
    var file := KeyFile(cmd.user);
    && file in st'.keys && st'.keys[file].subject == cmd.user
    && (forall f | f != file :: SameKey(st, st', f))
    && forall tag :: tag in st'.keys[file].attributes <==>
         || (file in st.keys && tag in st.keys[file].attributes)
         || exists a :: Typed(cmd, a) && tag == TagFor(st.epochs, a)
  }

  lemma IssueGives(kdf: Kdf, st: State, cmd: Command, grants: set<Grant>, seals: map<string, Seal>)
    requires cmd.Issue? && Enabled(st, cmd) && Invariant(kdf, st, grants, seals) && Step(kdf, st, cmd).1.None?
    ensures GivesTyped(st, Step(kdf, st, cmd).0, cmd)
    ensures forall a | Typed(cmd, a) :: Granted(GrantedBy(st, cmd), KeyFile(cmd.user), a, CurrentEpoch(st.epochs, a))
  {
    hide *;
    var attrs := IssueParts(kdf, st, cmd, grants, seals);
    IssuedGives(st, cmd.user, attrs, cmd.order, cmd.tape, grants);
    var st' := Step(kdf, st, cmd).0;
    GivesAsTyped(st, st', cmd, attrs);
    forall a | Typed(cmd, a)
      ensures Granted(GrantedBy(st, cmd), KeyFile(cmd.user), a, CurrentEpoch(st.epochs, a))
    {
      NewlyGranted(st, cmd.authority, cmd.user, attrs, a);
    }
  }

  /** A successful issue is a grant of what was typed. */
  lemma IssueParts(kdf: Kdf, st: State, cmd: Command, grants: set<Grant>, seals: map<string, Seal>)
    returns (attrs: seq<string>)
    requires cmd.Issue? && Enabled(st, cmd) && Invariant(kdf, st, grants, seals) && Step(kdf, st, cmd).1.None?
    ensures KeysCoherent(st, grants) && ParamsFor(st.pp, st.msk) && st.msk.beta != 0
    ensures IsOrdering(cmd.order, st.keys, KeyFile(cmd.user)) && |cmd.tape| >= 2 * |attrs| + 1 + |cmd.order|
    ensures Step(kdf, st, cmd) == Issued(st, cmd.user, attrs, cmd.order, cmd.tape)
    ensures GrantedBy(st, cmd) == NewGrants(st, cmd.authority, cmd.user, attrs)
    ensures forall a :: a in attrs <==> Typed(cmd, a)
  {
    assert IsOrdering(cmd.order, st.keys, KeyFile(cmd.user));
    assert KeysCoherent(st, grants) && ParamsFor(st.pp, st.msk) && st.msk.beta != 0;
    assert !Refused(kdf, st, cmd) by {
      hide Step, Enabled, GrantedBy, Invariant;
    }
    hide Issued, Step, Enabled, Invariant, KeysCoherent, ParamsFor, ClaimsFrom, ResolveAll, GrantedBy, Refused,
      IsOrdering, Typed, FirstDenied, NewGrants;
    IssueCases(kdf, st, cmd);
    attrs := ResolveAll(ClaimsFrom(cmd.flags, cmd.texts, cmd.numerics).value);
    forall a
      ensures a in attrs <==> Typed(cmd, a)
    {
      ResolvedAsTyped(cmd, a);
    }
  }

  /** The key file holds the old tags and those of the attributes; other files stay. */
  ghost predicate Gives(st: State, st': State, user: string, attrs: seq<string>) {
    var file := KeyFile(user);
    && file in st'.keys && st'.keys[file].subject == user
    && (forall f | f != file :: SameKey(st, st', f))
    && st'.keys[file].attributes.Keys
       == (if file in st.keys then st.keys[file].attributes.Keys else {}) + set a <- attrs :: TagFor(st.epochs, a)
  }

  lemma IssuedGives(st: State, user: string, attrs: seq<string>, order: seq<string>, tape: Tape, grants: set<Grant>)
    requires ParamsFor(st.pp, st.msk) && st.msk.beta != 0 && KeysCoherent(st, grants)
    requires IsOrdering(order, st.keys, KeyFile(user)) && |tape| >= 2 * |attrs| + 1 + |order|
    requires Issued(st, user, attrs, order, tape).1.None?
    ensures Gives(st, Issued(st, user, attrs, order, tape).0, user, attrs)
  {
    hide Issued, KeysCoherent, ParamsFor, NamesOf, KeyFor, IsOrdering, TagFor, Extends, RegistersFresh, TagsOf, Merged;
    IssuedKey(st, user, attrs, order, tape, grants);
    IssuedUsesTape(st, user, attrs, order, tape);
    KeyNames(st, grants, KeyFile(user));
  }

  lemma GivesAsTyped(st: State, st': State, cmd: Command, attrs: seq<string>)
    requires cmd.Issue? && Gives(st, st', cmd.user, attrs) && forall a :: a in attrs <==> Typed(cmd, a)
    ensures GivesTyped(st, st', cmd)
  {
    hide Typed, TagFor, SameKey;
  }

  lemma KeyNames(st: State, grants: set<Grant>, file: string)
    requires KeysCoherent(st, grants)
    ensures NamesOf(grants, file) == if file in st.keys then st.keys[file].attributes.Keys else {}
  {
    hide KeyFor, NamesOf;
    if file in st.keys {
      assert CoherentKey(st, grants, file);
    } else {
      NoGrantsNoKey(st, grants, file);
    }
  }

  lemma NewlyGranted(st: State, authority: string, user: string, attrs: seq<string>, a: string)
    requires a in attrs
    ensures Granted(NewGrants(st, authority, user, attrs), KeyFile(user), a, CurrentEpoch(st.epochs, a))
  {
    var g := Grant(user, a, CurrentEpoch(st.epochs, a), authority, ControlsOf(st.registry, authority));
    assert g in NewGrants(st, authority, user, attrs);
  }

  /** In every run a successful issue grants all that was typed, at the epochs in force, and the
      key on file holds exactly that besides what it held. */
  lemma IssuedAsTyped(kdf: Kdf, alpha: Scalar, beta: Scalar, cmds: seq<Command>, cmd: Command)
    requires beta != 0 && cmd.Issue?
    requires var st := After(kdf, Initial(alpha, beta), cmds); Enabled(st, cmd) && Step(kdf, st, cmd).1.None?
    ensures var start, all := Initial(alpha, beta), cmds + [cmd];
      var st := After(kdf, start, cmds);
      && GivesTyped(st, After(kdf, start, all), cmd)
      && forall a | Typed(cmd, a) :: Granted(Grants(kdf, start, all), KeyFile(cmd.user), a, CurrentEpoch(st.epochs, a))
  {
    hide Initial, After, Grants, Seals, Enabled, Step, GivesTyped, Typed, GrantedBy, Invariant, CurrentEpoch;
    var start := Initial(alpha, beta);
    var st := After(kdf, start, cmds);
    RunKeepsInv(kdf, alpha, beta, cmds);
    IssueGives(kdf, st, cmd, Grants(kdf, start, cmds), Seals(kdf, start, cmds));
    OneMore(kdf, start, cmds, cmd);
    GrantsOneMore(kdf, start, cmds, cmd);
  }

  // ----- Every command can be given -----

  /** Whatever is asked for, some listing of the names on file and enough random scalars make an
      issue a step. */
  lemma IssueEnabled(kdf: Kdf, alpha: Scalar, beta: Scalar, cmds: seq<Command>, authority: string, user: string,
                     flags: seq<string>, texts: seq<string>, numerics: seq<string>)
    returns (order: seq<string>, n: nat)
    requires beta != 0
    ensures forall tape: Tape | |tape| >= n ::
              Enabled(After(kdf, Initial(alpha, beta), cmds), Issue(authority, user, flags, texts, numerics, order, tape))
  {
    hide Initial, After, Grants, Seals, IssueDraws, IsOrdering, KeysCoherent, PackagesHonest, GrantsLegal;
    RunKeepsInv(kdf, alpha, beta, cmds);
    var st := After(kdf, Initial(alpha, beta), cmds);
    order := FileOrder(st.keys, KeyFile(user));
    n := IssueDraws(st, flags, texts, numerics, user);
  }

  /** Every policy shorter than the group order can be encrypted under. */
  lemma EncryptEnabled(kdf: Kdf, st: State, policy: string) returns (n: nat)
    requires |policy| < P
    ensures forall id, readable, dek, nonce, tape: Tape | |tape| >= n ::
              Enabled(st, Encrypt(id, policy, readable, dek, nonce, tape))
  {
    hide EncryptDraws;
    n := EncryptDraws(st, policy);
  }
}
