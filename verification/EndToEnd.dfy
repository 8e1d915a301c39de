/** From the commands as typed to the outcome of a decryption. */
module EndToEnd {
  import opened Wrappers
  import opened PrimeField
  import opened AccessTrees
  import opened Sharing
  import opened Scheme
  import opened Revocation
  import opened Deployment
  import opened Runs
  import opened RunTheorems
  import opened RunHistory
  import opened PolicyGrammar
  import opened PolicyPrinter
  import opened PolicyText
  import PolicyParser

  // ----- Grants as typed -----

  /** The k-th command is a successful issue to a user of the key file, one of whose arguments
      stands for the attribute, after `epoch` revocations of the attribute. */
  ghost predicate IssuedAt(kdf: Kdf, start: State, cmds: seq<Command>, k: nat, file: string, attr: string, epoch: nat) {
    && k < |cmds| && cmds[k].Issue? && KeyFile(cmds[k].user) == file
    && Typed(cmds[k], attr) && Revocations(cmds[..k], attr) == epoch
    && Succeeds(kdf, After(kdf, start, cmds[..k]), cmds[k])
  }

  ghost predicate Succeeds(kdf: Kdf, st: State, cmd: Command) {
    Enabled(st, cmd) && Step(kdf, st, cmd).1.None?
  }

  lemma GrantedNow(kdf: Kdf, st: State, cmd: Command, grants: set<Grant>, seals: map<string, Seal>, file: string,
                   attr: string, epoch: nat)
    requires Invariant(kdf, st, grants, seals)
    ensures Granted(GrantedBy(st, cmd), file, attr, epoch)
        <==> cmd.Issue? && KeyFile(cmd.user) == file && Typed(cmd, attr) && CurrentEpoch(st.epochs, attr) == epoch
             && Succeeds(kdf, st, cmd)
  {
    if cmd.Issue? && Succeeds(kdf, st, cmd) {
      hide Step, Enabled, GrantedBy, Invariant, Typed, CurrentEpoch;
      var attrs := IssueParts(kdf, st, cmd, grants, seals);
      GrantedNew(st, cmd.authority, cmd.user, attrs, file, attr, epoch);
    } else {
      GrantsNothing(kdf, st, cmd);
    }
  }

  lemma GrantedNew(st: State, authority: string, user: string, attrs: seq<string>, file: string, attr: string, epoch: nat)
    ensures Granted(NewGrants(st, authority, user, attrs), file, attr, epoch)
        <==> KeyFile(user) == file && attr in attrs && CurrentEpoch(st.epochs, attr) == epoch
  {
    if attr in attrs {
      NewlyGranted(st, authority, user, attrs, attr);
    }
  }

  lemma GrantsNothing(kdf: Kdf, st: State, cmd: Command)
    requires !cmd.Issue? || !Succeeds(kdf, st, cmd)
    ensures GrantedBy(st, cmd) == {}
  {
  }

  lemma GrantedUnion(a: set<Grant>, b: set<Grant>, file: string, attr: string, epoch: nat)
    ensures Granted(a + b, file, attr, epoch) <==> Granted(a, file, attr, epoch) || Granted(b, file, attr, epoch)
  {
  }

  /** An attribute is granted to a key file at an epoch exactly when some command did it. */
  lemma {:induction false} GrantedAsTyped(kdf: Kdf, alpha: Scalar, beta: Scalar, cmds: seq<Command>, file: string,
                                          attr: string, epoch: nat)
    requires beta != 0
    ensures var start := Initial(alpha, beta);
      Granted(Grants(kdf, start, cmds), file, attr, epoch)
      <==> exists k :: IssuedAt(kdf, start, cmds, k, file, attr, epoch)
  {
    hide Initial, After, GrantedBy, Typed, Revocations, Succeeds, Granted, Invariant, Seals;
    var start := Initial(alpha, beta);
    if cmds == [] {
      NothingGranted(file, attr, epoch);
    } else {
      var n := |cmds| - 1;
      var before, cmd := cmds[..n], cmds[n];
      GrantedAsTyped(kdf, alpha, beta, before, file, attr, epoch);
      RunKeepsInv(kdf, alpha, beta, before);
      var st := After(kdf, start, before);
      GrantedNow(kdf, st, cmd, Grants(kdf, start, before), Seals(kdf, start, before), file, attr, epoch);
      EpochIsCount(kdf, alpha, beta, before, attr);
      GrantedUnion(Grants(kdf, start, before), GrantedBy(st, cmd), file, attr, epoch);
      forall k: nat | k < n
        ensures before[k] == cmds[k] && before[..k] == cmds[..k]
        ensures IssuedAt(kdf, start, before, k, file, attr, epoch) <==> IssuedAt(kdf, start, cmds, k, file, attr, epoch)
      {
      }
      assert Granted(GrantedBy(st, cmd), file, attr, epoch) <==> IssuedAt(kdf, start, cmds, n, file, attr, epoch);
    }
  }

  lemma NothingGranted(file: string, attr: string, epoch: nat)
    ensures !Granted({}, file, attr, epoch)
  {
  }

  /** The k-th command is a successful issue to a user of the key file. */
  ghost predicate KeyIssuedAt(kdf: Kdf, start: State, cmds: seq<Command>, k: nat, file: string) {
    && k < |cmds| && cmds[k].Issue? && KeyFile(cmds[k].user) == file
    && Succeeds(kdf, After(kdf, start, cmds[..k]), cmds[k])
  }

  lemma KeyNow(kdf: Kdf, st: State, cmd: Command, grants: set<Grant>, seals: map<string, Seal>, file: string)
    requires Invariant(kdf, st, grants, seals)
    ensures file in Next(kdf, st, cmd).keys
        <==> file in st.keys || (cmd.Issue? && KeyFile(cmd.user) == file && Succeeds(kdf, st, cmd))
  {
    hide Step, Enabled, Invariant, Typed, AsksProperly, Evolves, GrantedBy, Granted;
    NextWrites(kdf, st, cmd);
    if cmd.Issue? && Enabled(st, cmd) {
      if Succeeds(kdf, st, cmd) {
        IssueGives(kdf, st, cmd, grants, seals);
        assert KeyFile(cmd.user) != file ==> SameKey(st, Step(kdf, st, cmd).0, file);
      } else {
        IssueKeepsInv(kdf, st, cmd, grants, seals);
      }
    }
  }

  /** There is a key on file exactly when a successful issue to a user of that file made one. */
  lemma {:induction false} KeyAsIssued(kdf: Kdf, alpha: Scalar, beta: Scalar, cmds: seq<Command>, file: string)
    requires beta != 0
    ensures var start := Initial(alpha, beta);
      file in After(kdf, start, cmds).keys <==> exists k :: KeyIssuedAt(kdf, start, cmds, k, file)
  {
    hide Initial, Next, Succeeds, Invariant, Grants, Seals;
    var start := Initial(alpha, beta);
    if cmds == [] {
      InitialIs(alpha, beta);
    } else {
      var n := |cmds| - 1;
      var before := cmds[..n];
      KeyAsIssued(kdf, alpha, beta, before, file);
      RunKeepsInv(kdf, alpha, beta, before);
      KeyNow(kdf, After(kdf, start, before), cmds[n], Grants(kdf, start, before), Seals(kdf, start, before), file);
      forall k: nat | k < n
        ensures KeyIssuedAt(kdf, start, before, k, file) <==> KeyIssuedAt(kdf, start, cmds, k, file)
      {
        assert before[k] == cmds[k] && before[..k] == cmds[..k];
      }
      assert KeyIssuedAt(kdf, start, cmds, n, file)
        <==> cmds[n].Issue? && KeyFile(cmds[n].user) == file && Succeeds(kdf, After(kdf, start, before), cmds[n]);
    }
  }

  // ----- Seals as typed -----

  /** No command encrypts into the directory. */
  predicate LeavesAlone(cmds: seq<Command>, dir: string) {
    forall c <- cmds :: !(c.Encrypt? && PackageDir(c.id) == dir)
  }

  lemma {:induction false} SealStays(kdf: Kdf, start: State, pre: seq<Command>, enc: Command, post: seq<Command>,
                                     raw: AccessTree)
    requires enc.Encrypt? && PolicyParser.Parsed(enc.policy) == Ok(raw)
    requires Succeeds(kdf, After(kdf, start, pre), enc) && LeavesAlone(post, PackageDir(enc.id))
    ensures var seals, dir := Seals(kdf, start, pre + [enc] + post), PackageDir(enc.id);
      dir in seals && seals[dir] == Seal(raw, After(kdf, start, pre).epochs, enc.dek)
    decreases post
  {
    hide *;
    if post == [] {
      assert pre + [enc] + post == pre + [enc];
      SealsOneMore(kdf, start, pre, enc);
      SealsNow(kdf, After(kdf, start, pre), enc, Seals(kdf, start, pre), raw);
    } else {
      var n := |post| - 1;
      var before := pre + [enc] + post[..n];
      AloneBefore(post, PackageDir(enc.id));
      SealStays(kdf, start, pre, enc, post[..n], raw);
      assert pre + [enc] + post == before + [post[n]];
      SealsOneMore(kdf, start, before, post[n]);
      SealsElsewhere(kdf, After(kdf, start, before), post[n], Seals(kdf, start, before), PackageDir(enc.id));
    }
  }

  lemma AloneBefore(cmds: seq<Command>, dir: string)
    requires cmds != [] && LeavesAlone(cmds, dir)
    ensures var n := |cmds| - 1; LeavesAlone(cmds[..n], dir) && !(cmds[n].Encrypt? && PackageDir(cmds[n].id) == dir)
  {
  }

  lemma SealsOneMore(kdf: Kdf, start: State, cmds: seq<Command>, cmd: Command)
    ensures Seals(kdf, start, cmds + [cmd]) == SealedBy(kdf, After(kdf, start, cmds), cmd, Seals(kdf, start, cmds))
  {
    hide After, SealedBy;
    assert (cmds + [cmd])[..|cmds|] == cmds;
  }

  lemma SealsNow(kdf: Kdf, st: State, cmd: Command, seals: map<string, Seal>, raw: AccessTree)
    requires cmd.Encrypt? && PolicyParser.Parsed(cmd.policy) == Ok(raw) && Succeeds(kdf, st, cmd)
    ensures SealedBy(kdf, st, cmd, seals) == seals[PackageDir(cmd.id) := Seal(raw, st.epochs, cmd.dek)]
  {
    hide PolicyParser.Parsed, EncryptDraws;
  }

  lemma SealsElsewhere(kdf: Kdf, st: State, cmd: Command, seals: map<string, Seal>, dir: string)
    requires !(cmd.Encrypt? && PackageDir(cmd.id) == dir) && dir in seals
    ensures var later := SealedBy(kdf, st, cmd, seals); dir in later && later[dir] == seals[dir]
  {
    hide PolicyParser.Parsed, EncryptDraws, EncryptStep, Enabled;
  }

  // ----- Decryption as typed -----

  /** The attributes of the policy that were issued to the key file, before or after the package
      was sealed, with no revocation of the attribute in between. */
  ghost function IssuedLeaves(kdf: Kdf, start: State, cmds: seq<Command>, sealed: seq<Command>, tree: AccessTree,
                              file: string): set<string>
  {
    set a <- Leaves(tree) | exists k :: IssuedAt(kdf, start, cmds, k, file, a, Revocations(sealed, a))
  }

  /** A user who was issued a key decrypts a package that was encrypted under a policy text exactly
      when the text, read as a formula, holds of the attributes issued to that user, as typed,
      with as many revocations of each before its issue as before the encryption. */
  lemma DecryptsAsTyped(kdf: Kdf, alpha: Scalar, beta: Scalar, pre: seq<Command>, enc: Command, post: seq<Command>,
                        o: OrExpr, user: string)
    requires beta != 0 && enc.Encrypt? && enc.readable && Enabled(After(kdf, Initial(alpha, beta), pre), enc)
    requires GoodOr(o) && Writes(enc.policy, YieldOr(o)) && LeavesAlone(post, PackageDir(enc.id))
    ensures var start, cmds, file := Initial(alpha, beta), pre + [enc] + post, KeyFile(user);
      var st := After(kdf, start, cmds);
      DecryptOnFile(kdf, st, enc.id, user)
      == if !exists k :: KeyIssuedAt(kdf, start, cmds, k, file) then Err(NoKey(user))
         else if HoldsOr(o, IssuedLeaves(kdf, start, cmds, pre, TreeOfOr(o), file)) then Ok(enc.dek)
         else Err(Abe(PolicyNotSatisfied))
  {
    hide *;
    var start, cmds, file := Initial(alpha, beta), pre + [enc] + post, KeyFile(user);
    var tree := TreeOfOr(o);
    WritesParsed(enc.policy, o);
    EncryptSucceeds(kdf, alpha, beta, pre, enc);
    SealStays(kdf, start, pre, enc, post, tree);
    KeyAsIssued(kdf, alpha, beta, cmds, file);
    WholeRun(kdf, alpha, beta, cmds, user, enc.id);
    ReadableAsIssued(kdf, alpha, beta, cmds, pre, tree, enc.dek, file);
    OrMeans(o, IssuedLeaves(kdf, start, cmds, pre, tree, file));
  }

  lemma WritesParsed(text: string, o: OrExpr)
    requires GoodOr(o) && Writes(text, YieldOr(o))
    ensures PolicyParser.Parsed(text) == Ok(TreeOfOr(o))
  {
    hide *;
    DerivesMeans(YieldOr(o), TreeOfOr(o), o);
    ParsedIffWritten(text, TreeOfOr(o));
  }

  lemma EncryptSucceeds(kdf: Kdf, alpha: Scalar, beta: Scalar, pre: seq<Command>, enc: Command)
    requires beta != 0 && enc.Encrypt? && enc.readable && Enabled(After(kdf, Initial(alpha, beta), pre), enc)
    requires PolicyParser.Parsed(enc.policy).Ok?
    ensures Succeeds(kdf, After(kdf, Initial(alpha, beta), pre), enc)
  {
    hide Initial, After, Enabled, Step, PolicyParser.Parsed;
    CommandsSucceed(kdf, alpha, beta, pre, enc);
  }

  lemma ReadableAsIssued(kdf: Kdf, alpha: Scalar, beta: Scalar, cmds: seq<Command>, sealed: seq<Command>,
                         tree: AccessTree, dek: Key, file: string)
    requires beta != 0
    ensures var start := Initial(alpha, beta);
      Readable(Grants(kdf, start, cmds), file, Seal(tree, After(kdf, start, sealed).epochs, dek))
      == IssuedLeaves(kdf, start, cmds, sealed, tree, file)
  {
    hide Initial, After, Grants, Leaves, Granted, IssuedAt, Revocations, CurrentEpoch;
    forall a
      ensures var epoch := Revocations(sealed, a);
        && epoch == CurrentEpoch(After(kdf, Initial(alpha, beta), sealed).epochs, a)
        && (Granted(Grants(kdf, Initial(alpha, beta), cmds), file, a, epoch)
            <==> exists k :: IssuedAt(kdf, Initial(alpha, beta), cmds, k, file, a, epoch))
    {
      EpochIsCount(kdf, alpha, beta, sealed, a);
      GrantedAsTyped(kdf, alpha, beta, cmds, file, a, Revocations(sealed, a));
    }
  }
}
