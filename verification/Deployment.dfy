/** The command-line deployment: its state, its commands and the procedures that run them. */
module Deployment {
  import opened Wrappers
  import opened PrimeField
  import opened Names
  import opened AccessTrees
  import opened Sharing
  import opened Scheme
  import opened Claims
  import opened Revocation
  import PolicyParser

  /** How names lead to files. */
  type FileNaming = f: string -> string | true witness (name: string) => name

  /** The key file of a user name and the directory of a package id.  Nothing is known about
      them: two names may lead to the same place, as "bob" and "./bob" do. */
  const KeyFile: FileNaming
  const PackageDir: FileNaming

  /** Keys are on file by key file, packages by directory. */
  datatype State = State(
    pp: PublicParams,
    msk: MasterSecret,
    registry: Registry,
    epochs: Epochs,
    revokedUsers: seq<string>,
    keys: map<string, UserSecretKey>,
    packages: map<string, AbeCiphertext>)

  datatype CommandError =
    | UserRevoked(user: string)
    | BadClaim(claim: ClaimError)
    | Denied(denial: AuthorityError)
    | Abe(abe: AbeError)
    | BadPolicy(policy: PolicyParser.PolicyError)
    | UnreadableFile
    | NoKey(user: string)
    | NoPackage(id: string)

  /** What a command did: its new state, and its error if it failed. */
  type Outcome = (State, Option<CommandError>)

  /** A command with everything outside the program's control: the random scalars, the order in
      which the attribute names of a key on file are listed, and whether the file can be read. */
  datatype Command =
    | RegisterAuthority(name: string, controls: string)
    | Issue(authority: string, user: string, flags: seq<string>, texts: seq<string>, numerics: seq<string>,
            order: seq<string>, tape: Tape)
    | Encrypt(id: string, policy: string, readable: bool, dek: Key, nonce: Bytes, tape: Tape)
    | RevokeAttribute(attr: string)
    | RevokeUser(user: string)

  function Initial(alpha: Scalar, beta: Scalar): State {
    var (pp, msk) := SetupFrom(alpha, beta);
    State(pp, msk, map[], map[], [], map[], map[])
  }

  // ----- Registering authorities -----

  function NonEmpty(pieces: seq<string>): seq<string> {
    if pieces == [] then []
    else
      var n := |pieces| - 1;
      NonEmpty(pieces[..n]) + (if Trim(pieces[n]) == "" then [] else [Trim(pieces[n])])
  }

  /** The comma-separated, trimmed, non-empty prefixes. */
  function ControlList(controls: string): seq<string> {
    NonEmpty(SplitOn(controls, ','))
  }

  function Joined(list: seq<string>): string
    requires list != []
  {
    if |list| == 1 then list[0] else list[0] + "," + Joined(list[1..])
  }

  /** Trimmed, non-empty prefixes without commas, written with commas between, are read back. */
  lemma ControlsReadBack(list: seq<string>)
    requires list != [] && forall c <- list :: c != "" && ',' !in c && Trim(c) == c
    ensures ControlList(Joined(list)) == list
  {
    SplitJoined(list);
    KeepNonEmpty(list);
  }

  lemma {:induction false} SplitJoined(list: seq<string>)
    requires list != [] && forall c <- list :: ',' !in c
    ensures SplitOn(Joined(list), ',') == list
  {
    if |list| > 1 {
      SplitJoined(list[1..]);
      SplitFirst(list[0], ',', Joined(list[1..]));
      assert Joined(list) == list[0] + [','] + Joined(list[1..]);
    } else {
      assert list == [list[0]];
    }
  }

  lemma {:induction false} KeepNonEmpty(list: seq<string>)
    requires forall c <- list :: c != "" && Trim(c) == c
    ensures NonEmpty(list) == list
  {
    hide Trim;
    if list != [] {
      var n := |list| - 1;
      assert list[n] in list && forall c <- list[..n] :: c in list;
      assert NonEmpty(list) == NonEmpty(list[..n]) + [list[n]];
      KeepNonEmpty(list[..n]);
      hide *;
      assert list == list[..n] + [list[n]];
    }
  }

  // ----- Issuing keys -----

  function TagsOf(epochs: Epochs, names: seq<string>): (tags: seq<string>)
    ensures |tags| == |names|
    ensures forall i :: 0 <= i < |names| ==> tags[i] == TagFor(epochs, names[i])
  {
    if names == [] then []
    else
      var n := |names| - 1;
      TagsOf(epochs, names[..n]) + [TagFor(epochs, names[n])]
  }

  /** The attributes that all the claims resolve to, in order. */
  function ResolveAll(claims: seq<Claim>): seq<string> {
    if claims == [] then []
    else
      var n := |claims| - 1;
      ResolveAll(claims[..n]) + claims[n].Resolve()
  }

  /** Their tags at the epochs in force. */
  function ClaimTags(epochs: Epochs, claims: seq<Claim>): seq<string> {
    TagsOf(epochs, ResolveAll(claims))
  }

  function FirstDenied(registry: Registry, authority: string, claims: seq<Claim>): (denial: Option<AuthorityError>)
    ensures denial.None? <==> forall c <- claims :: CheckPermission(registry, authority, c).None?
  {
    if claims == [] then None
    else
      var d := CheckPermission(registry, authority, claims[0]);
      if d.Some? then d else FirstDenied(registry, authority, claims[1..])
  }

  function RegisterAll(pp: PublicParams, names: seq<string>, tape: Tape): (r: (PublicParams, Tape))
    requires |tape| >= |names|
    ensures |r.1| >= |tape| - |names|
  {
    if names == [] then (pp, tape)
    else
      var n := |names| - 1;
      var (pp', tape') := RegisterAll(pp, names[..n], tape);
      Registered(pp', names[n], tape')
  }

  /** The new names followed by those on file that are not among them. */
  function Merged(flat: seq<string>, names: seq<string>): (all: seq<string>)
    ensures |all| <= |flat| + |names|
    ensures forall a :: a in all <==> a in flat || a in names
  {
    if names == [] then flat
    else
      var n := |names| - 1;
      var m := Merged(flat, names[..n]);
      if names[n] in m then m else m + [names[n]]
  }

  /** The attribute names of a key on file, listed once each in some order. */
  ghost predicate IsOrdering(order: seq<string>, keys: map<string, UserSecretKey>, file: string) {
    if file in keys then
      |order| == |keys[file].attributes| && forall a :: a in order <==> a in keys[file].attributes
    else
      order == []
  }

  function IssueDraws(st: State, flags: seq<string>, texts: seq<string>, numerics: seq<string>, user: string): nat {
    match ClaimsFrom(flags, texts, numerics)
    case Err(_) => 0
    case Ok(claims) =>
      2 * |ResolveAll(claims)| + 1 + if KeyFile(user) in st.keys then |st.keys[KeyFile(user)].attributes| else 0
  }

  /** Grants tagged attributes: registers them, merges them with the key on file and re-mints
      the key under one fresh exponent. */
  function Issued(st: State, user: string, attrs: seq<string>, order: seq<string>, tape: Tape): Outcome
    requires st.msk.beta != 0 && |tape| >= 2 * |attrs| + 1 + |order|
  {
    var tags := TagsOf(st.epochs, attrs);
    var (pp, rest) := RegisterAll(st.pp, tags, tape);
    match KeyFrom(pp, st.msk, user, Merged(tags, order), rest)
    case Err(e) => (st, Some(Abe(e)))
    case Ok(usk) => (st.(pp := pp, keys := st.keys[KeyFile(user) := usk]), None)
  }

  function IssueStep(st: State, authority: string, user: string, flags: seq<string>, texts: seq<string>,
                     numerics: seq<string>, order: seq<string>, tape: Tape): Outcome
    requires st.msk.beta != 0 && IsOrdering(order, st.keys, KeyFile(user))
    requires |tape| >= IssueDraws(st, flags, texts, numerics, user)
  {
    if user in st.revokedUsers then
      (st, Some(UserRevoked(user)))
    else
      match ClaimsFrom(flags, texts, numerics)
      case Err(e) => (st, Some(BadClaim(e)))
      case Ok(claims) =>
        match FirstDenied(st.registry, authority, claims)
        case Some(d) => (st, Some(Denied(d)))
        case None => Issued(st, user, ResolveAll(claims), order, tape)
  }

  // ----- Encrypting -----

  function EncryptDraws(st: State, policy: string): nat {
    match PolicyParser.Parsed(policy)
    case Err(_) => 0
    case Ok(raw) => var tree := RetagTree(raw, st.epochs); |Leaves(tree)| + 1 + Draws(tree)
  }

  /** Registers the leaves of the retagged policy, even when the file then cannot be read. */
  function EncryptStep(kdf: Kdf, st: State, id: string, policy: string, readable: bool, dek: Key, nonce: Bytes,
                       tape: Tape): Outcome
    requires |tape| >= EncryptDraws(st, policy)
  {
    match PolicyParser.Parsed(policy)
    case Err(e) => (st, Some(BadPolicy(e)))
    case Ok(raw) =>
      var tree := RetagTree(raw, st.epochs);
      var (pp, rest) := RegisterAll(st.pp, Leaves(tree), tape);
      var st' := st.(pp := pp);
      if !readable then
        (st', Some(UnreadableFile))
      else
        match Encrypted(kdf, pp, dek, tree, rest, nonce)
        case Err(e) => (st', Some(Abe(e)))
        case Ok(ct) => (st'.(packages := st.packages[PackageDir(id) := ct]), None)
  }

  // ----- All commands -----

  /** The randomness suffices, the listing order is one, and the policy text is shorter than
      the group order. */
  ghost predicate Enabled(st: State, cmd: Command) {
    match cmd
    case Issue(_, user, flags, texts, numerics, order, tape) =>
      && st.msk.beta != 0 && IsOrdering(order, st.keys, KeyFile(user))
      && |tape| >= IssueDraws(st, flags, texts, numerics, user)
    case Encrypt(_, policy, _, _, _, tape) => |policy| < P && |tape| >= EncryptDraws(st, policy)
    case _ => true
  }

  function Step(kdf: Kdf, st: State, cmd: Command): Outcome
    requires Enabled(st, cmd)
  {
    match cmd
    case RegisterAuthority(name, controls) => (st.(registry := st.registry[name := ControlList(controls)]), None)
    case Issue(authority, user, flags, texts, numerics, order, tape) =>
      IssueStep(st, authority, user, flags, texts, numerics, order, tape)
    case Encrypt(id, policy, readable, dek, nonce, tape) =>
      EncryptStep(kdf, st, id, policy, readable, dek, nonce, tape)
    case RevokeAttribute(a) => (st.(epochs := st.epochs[a := CurrentEpoch(st.epochs, a) + 1]), None)
    case RevokeUser(u) => (st.(revokedUsers := WithUser(st.revokedUsers, u)), None)
  }

  /** Decryption with the key on file; it changes no state. */
  function DecryptOnFile(kdf: Kdf, st: State, id: string, user: string): Result<Key, CommandError> {
    if KeyFile(user) !in st.keys then
      Err(NoKey(user))
    else if PackageDir(id) !in st.packages then
      Err(NoPackage(id))
    else
      match Decrypted(kdf, st.keys[KeyFile(user)], st.packages[PackageDir(id)])
      case Err(e) => Err(Abe(e))
      case Ok(dek) => Ok(dek)
  }

  // ----- The procedures -----

  method MergeNames(flat: seq<string>, names: seq<string>) returns (all: seq<string>)
    ensures all == Merged(flat, names)
  {
    all := flat;
    for i := 0 to |names|
      invariant all == Merged(flat, names[..i])
    {
      assert names[..i + 1][..i] == names[..i];
      if names[i] !in all {
        all := all + [names[i]];
      }
    }
    assert names[..|names|] == names;
  }

  class System {
    var pp: PublicParams
    const msk: MasterSecret
    var registry: Registry
    const revocation: RevocationList
    var keys: map<string, UserSecretKey>
    var packages: map<string, AbeCiphertext>

    function View(): State
      reads this, revocation
    {
      State(pp, msk, registry, revocation.epochs, revocation.revokedUsers, keys, packages)
    }

    /** Set-up, run once. */
    constructor (rng: Rng)
      requires |rng.tape| >= 2
      modifies rng
      ensures fresh(revocation)
      ensures View() == Initial(old(rng.tape)[0], old(rng.tape)[1])
    {
      var pp', msk' := Setup(rng);
      pp, msk := pp', msk';
      registry, keys, packages := map[], map[], map[];
      revocation := new RevocationList();
    }

    method CmdRegisterAuthority(name: string, controls: string)
      modifies this
      ensures View() == old(View()).(registry := old(registry)[name := ControlList(controls)])
      ensures forall kdf :: (View(), None) == Step(kdf, old(View()), RegisterAuthority(name, controls))
    {
      var list: seq<string> := [];
      var pieces := SplitOn(controls, ',');
      for i := 0 to |pieces|
        invariant View() == old(View())
        invariant list == NonEmpty(pieces[..i])
      {
        assert pieces[..i + 1][..i] == pieces[..i];
        var piece := Trim(pieces[i]);
        if piece != "" {
          list := list + [piece];
        }
      }
      assert pieces[..|pieces|] == pieces;
      registry := registry[name := list];
    }

    /** The attribute names of the key on file, in no particular order. */
    method AttributeNames(user: string) returns (order: seq<string>)
      ensures IsOrdering(order, keys, KeyFile(user))
    {
      order := [];
      var file := KeyFile(user);
      if file in keys {
        var left := keys[file].attributes.Keys;
        while left != {}
          invariant left <= keys[file].attributes.Keys
          invariant |order| + |left| == |keys[file].attributes.Keys|
          invariant forall a :: a in order <==> a in keys[file].attributes && a !in left
          decreases left
        {
          var a :| a in left;
          left := left - {a};
          order := order + [a];
        }
      }
    }

    method CmdIssue(authority: string, user: string, flags: seq<string>, texts: seq<string>, numerics: seq<string>,
                    rng: Rng)
      returns (error: Option<CommandError>, ghost order: seq<string>)
      requires msk.beta != 0 && |rng.tape| >= IssueDraws(View(), flags, texts, numerics, user)
      modifies this, rng
      ensures old(Enabled(View(), Issue(authority, user, flags, texts, numerics, order, rng.tape)))
      ensures (View(), error)
           == old(IssueStep(View(), authority, user, flags, texts, numerics, order, rng.tape))
      ensures forall kdf ::
                (View(), error) == Step(kdf, old(View()), Issue(authority, user, flags, texts, numerics, order, old(rng.tape)))
    {
      if user in revocation.revokedUsers {
        order := AttributeNames(user);
        return Some(UserRevoked(user)), order;
      }
      var claims := ParseClaims(flags, texts, numerics);
      if claims.Err? {
        order := AttributeNames(user);
        return Some(BadClaim(claims.error)), order;
      }
      hide FirstDenied, Issued, IsOrdering, ClaimsFrom, ResolveAll;
      error, order := IssueClaims(authority, user, claims.value, rng);
    }

    method IssueClaims(authority: string, user: string, claims: seq<Claim>, rng: Rng)
      returns (error: Option<CommandError>, ghost order: seq<string>)
      requires msk.beta != 0
      requires var file := KeyFile(user);
        |rng.tape| >= 2 * |ResolveAll(claims)| + 1 + if file in keys then |keys[file].attributes| else 0
      modifies this, rng
      ensures old(IsOrdering(order, keys, KeyFile(user)))
      ensures var file := KeyFile(user); |order| == if file in old(keys) then |old(keys)[file].attributes| else 0
      ensures var denial := FirstDenied(old(registry), authority, claims);
        (View(), error)
        == if denial.Some? then (old(View()), Some(Denied(denial.value)))
           else Issued(old(View()), user, ResolveAll(claims), order, old(rng.tape))
    {
      hide RegisterAll, KeyFrom, ResolveAll, FirstDenied, TagsOf, Merged;
      var shared := new SharedParams(pp);
      var denial, tags := Collect(authority, claims, shared, rng);
      var names := AttributeNames(user);
      order := names;
      if denial.Some? {
        return Some(Denied(denial.value)), order;
      }
      var flat := MergeNames(tags, names);
      var usk := Keygen(shared.pp, msk, user, flat, rng);
      if usk.Err? {
        return Some(Abe(usk.error)), order;
      }
      pp := shared.pp;
      keys := keys[KeyFile(user) := usk.value];
      error := None;
    }

    /** Checks each claim, and registers and collects the tags of what it resolves to. */
    method Collect(authority: string, claims: seq<Claim>, shared: SharedParams, rng: Rng)
      returns (denial: Option<AuthorityError>, flat: seq<string>)
      requires |rng.tape| >= |ResolveAll(claims)|
      modifies shared, rng
      ensures denial == FirstDenied(registry, authority, claims)
      ensures denial.None? ==> flat == ClaimTags(revocation.epochs, claims)
      ensures denial.None? ==> (shared.pp, rng.tape) == RegisterAll(old(shared.pp), flat, old(rng.tape))
    {
      ghost var pp0, tape := shared.pp, rng.tape;
      var permitted, epochs := registry, revocation.epochs;
      flat := [];
      NothingCollected(epochs, pp0, tape);
      hide *;
      assert claims[..0] == [];
      for i := 0 to |claims|
        invariant revocation.epochs == epochs && NoneDenied(permitted, authority, claims, i)
        invariant |flat| <= |tape| && flat == ClaimTags(epochs, claims[..i])
        invariant (shared.pp, rng.tape) == RegisterAll(pp0, flat, tape)
      {
        denial := CheckPermission(permitted, authority, claims[i]);
        DeniedAt(permitted, authority, claims, i);
        if denial.Some? {
          return;
        }
        TagsMore(epochs, claims, i);
        var attrs := claims[i].Resolve();
        flat := RegisterTags(attrs, flat, shared, rng, pp0, tape);
      }
      assert claims[..|claims|] == claims;
      AllPermitted(permitted, authority, claims);
      denial := None;
    }

    /** The inner loop: the attributes of one claim. */
    method RegisterTags(attrs: seq<string>, flat: seq<string>, shared: SharedParams, rng: Rng,
                        ghost pp0: PublicParams, ghost tape: Tape)
      returns (all: seq<string>)
      requires |tape| >= |flat| + |attrs| && (shared.pp, rng.tape) == RegisterAll(pp0, flat, tape)
      modifies shared, rng
      ensures all == flat + TagsOf(revocation.epochs, attrs)
      ensures (shared.pp, rng.tape) == RegisterAll(pp0, all, tape)
    {
      hide Registered, TagFor, RegisterAll;
      all := flat;
      for j := 0 to |attrs|
        invariant all == flat + TagsOf(revocation.epochs, attrs[..j])
        invariant (shared.pp, rng.tape) == RegisterAll(pp0, all, tape)
      {
        var tagged := TagFor(revocation.epochs, attrs[j]);
        assert attrs[..j + 1][..j] == attrs[..j];
        RegisterMore(pp0, all, tagged, tape);
        shared.RegisterAttribute(tagged, rng);
        all := all + [tagged];
      }
      assert attrs[..|attrs|] == attrs;
    }

    method CmdEncrypt(kdf: Kdf, id: string, policy: string, readable: bool, dek: Key, nonce: Bytes, rng: Rng)
      returns (error: Option<CommandError>)
      requires |rng.tape| >= EncryptDraws(View(), policy)
      modifies this, rng
      ensures (View(), error) == old(EncryptStep(kdf, View(), id, policy, readable, dek, nonce, rng.tape))
      ensures |policy| < P ==>
        (View(), error) == Step(kdf, old(View()), Encrypt(id, policy, readable, dek, nonce, old(rng.tape)))
    {
      hide Registered, Encrypted, PolicyParser.Parsed, RetagTree, Leaves, Draws;
      ghost var before, tape := View(), rng.tape;
      var raw := PolicyParser.ParseText(policy);
      if raw.Err? {
        return Some(BadPolicy(raw.error));
      }
      var tree := RetagTree(raw.value, revocation.epochs);
      var shared := new SharedParams(pp);
      var leaves := Leaves(tree);
      for i := 0 to |leaves|
        invariant View() == before
        invariant (shared.pp, rng.tape) == RegisterAll(before.pp, leaves[..i], tape)
      {
        assert leaves[..i + 1] == leaves[..i] + [leaves[i]];
        RegisterMore(before.pp, leaves[..i], leaves[i], tape);
        shared.RegisterAttribute(leaves[i], rng);
      }
      assert leaves[..|leaves|] == leaves;
      pp := shared.pp;
      if !readable {
        return Some(UnreadableFile);
      }
      var ct := EncryptKey(kdf, pp, dek, tree, nonce, rng);
      if ct.Err? {
        return Some(Abe(ct.error));
      }
      packages := packages[PackageDir(id) := ct.value];
      error := None;
    }

    method CmdDecrypt(kdf: Kdf, id: string, user: string) returns (dek: Result<Key, CommandError>)
      ensures dek == DecryptOnFile(kdf, View(), id, user)
    {
      hide Decrypted;
      if KeyFile(user) !in keys {
        return Err(NoKey(user));
      }
      if PackageDir(id) !in packages {
        return Err(NoPackage(id));
      }
      var r := DecryptKey(kdf, keys[KeyFile(user)], packages[PackageDir(id)]);
      match r
      case Ok(k) => dek := Ok(k);
      case Err(e) => dek := Err(Abe(e));
    }

    method CmdRevokeAttribute(attr: string)
      modifies revocation
      ensures var epochs := old(revocation.epochs);
        View() == old(View()).(epochs := epochs[attr := CurrentEpoch(epochs, attr) + 1])
      ensures forall kdf :: (View(), None) == Step(kdf, old(View()), Command.RevokeAttribute(attr))
    {
      var _ := revocation.RevokeAttribute(attr);
    }

    method CmdRevokeUser(user: string)
      modifies revocation
      ensures View() == old(View()).(revokedUsers := WithUser(old(revocation.revokedUsers), user))
      ensures forall kdf :: (View(), None) == Step(kdf, old(View()), Command.RevokeUser(user))
    {
      revocation.RevokeUser(user);
    }
  }

  lemma NothingCollected(epochs: Epochs, pp: PublicParams, tape: Tape)
    ensures ClaimTags(epochs, []) == [] && RegisterAll(pp, [], tape) == (pp, tape)
  {
  }

  lemma ResolveMore(claims: seq<Claim>, i: nat)
    requires i < |claims|
    ensures ResolveAll(claims[..i + 1]) == ResolveAll(claims[..i]) + claims[i].Resolve()
    ensures |ResolveAll(claims[..i + 1])| <= |ResolveAll(claims)|
    decreases |claims| - i
  {
    assert claims[..i + 1][..i] == claims[..i];
    if i + 1 < |claims| {
      ResolveMore(claims, i + 1);
    } else {
      assert claims[..i + 1] == claims;
    }
  }

  predicate NoneDenied(registry: Registry, authority: string, claims: seq<Claim>, i: nat)
    requires i <= |claims|
  {
    forall k :: 0 <= k < i ==> CheckPermission(registry, authority, claims[k]).None?
  }

  lemma {:induction false} DeniedAt(registry: Registry, authority: string, claims: seq<Claim>, i: nat)
    requires i < |claims| && NoneDenied(registry, authority, claims, i)
    ensures var d := CheckPermission(registry, authority, claims[i]);
      if d.Some? then FirstDenied(registry, authority, claims) == d
      else NoneDenied(registry, authority, claims, i + 1)
    decreases i
  {
    hide CheckPermission;
    if i > 0 {
      DeniedAt(registry, authority, claims[1..], i - 1);
    }
  }

  lemma AllPermitted(registry: Registry, authority: string, claims: seq<Claim>)
    requires NoneDenied(registry, authority, claims, |claims|)
    ensures FirstDenied(registry, authority, claims).None?
  {
    hide CheckPermission;
  }

  lemma TagsMore(epochs: Epochs, claims: seq<Claim>, i: nat)
    requires i < |claims|
    ensures ClaimTags(epochs, claims[..i + 1]) == ClaimTags(epochs, claims[..i]) + TagsOf(epochs, claims[i].Resolve())
    ensures |ClaimTags(epochs, claims[..i + 1])| <= |ResolveAll(claims)|
  {
    hide TagsOf, ResolveAll;
    ResolveMore(claims, i);
    TagsConcat(epochs, ResolveAll(claims[..i]), claims[i].Resolve());
  }

  lemma {:induction false} TagsConcat(epochs: Epochs, a: seq<string>, b: seq<string>)
    ensures TagsOf(epochs, a + b) == TagsOf(epochs, a) + TagsOf(epochs, b)
  {
    hide TagFor, TagsOf;
  }

  lemma RegisterMore(pp: PublicParams, names: seq<string>, name: string, tape: Tape)
    requires |tape| >= |names| + 1
    ensures var (pp', tape') := RegisterAll(pp, names, tape);
      tape' != [] && RegisterAll(pp, names + [name], tape) == Registered(pp', name, tape')
  {
    hide Registered;
    assert (names + [name])[..|names|] == names;
  }
}
