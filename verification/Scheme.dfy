/** The CP-ABE scheme over exponents: parameters, keys, encryption and decryption of a data key. */
module Scheme {
  import opened Wrappers
  import opened PrimeField
  import opened AccessTrees
  import opened Sharing
  import opened Recombination

  type Bytes = seq<bv8>
  type Key = k: Bytes | |k| == 32 witness seq(32, _ => 0)

  /** The key derivation function: any function of the blinding value. */
  type Kdf = Scalar -> Key

  datatype AbeError = UnknownAttribute(name: string) | PolicyNotSatisfied | Encoding(message: string)

  datatype Commitment = Commitment(t1: Scalar, t2: Scalar)

  datatype PublicParams = PublicParams(
    g1: Scalar, g2: Scalar, h: Scalar, eggAlpha: Scalar, attributes: map<string, Commitment>)

  datatype MasterSecret = MasterSecret(alpha: Scalar, beta: Scalar)

  datatype KeyShare = KeyShare(dj: Scalar, djPrime: Scalar)

  datatype UserSecretKey = UserSecretKey(subject: string, d: Scalar, attributes: map<string, KeyShare>)

  datatype LeafCiphertext = LeafCiphertext(path: seq<nat>, attribute: string, cy: Scalar, cyPrime: Scalar)

  datatype AbeCiphertext = AbeCiphertext(
    tree: AccessTree, c: Scalar, leaves: seq<LeafCiphertext>, wrappedKey: WrappedKey)

  datatype WrappedKey = WrappedKey(nonce: Bytes, ciphertext: Box)

  /** Additional data authenticated with a wrapped key: a domain label and the access tree. */
  datatype Aad = Aad(domain: string, tree: AccessTree)

  const DEK_WRAP_AAD_DOMAIN := "SECURE_ABE_DEK_WRAP_v1"

  /** An ideal authenticated encryption: a box opens under the key, nonce and data it was sealed with. */
  datatype Box = Box(key: Key, nonce: Bytes, aad: Aad, message: Bytes) {
    function Open(k: Key, n: Bytes, a: Aad): Option<Bytes> {
      if k == key && n == nonce && a == aad then Some(message) else None
    }
  }

  // ----- Set-up and registration -----

  function SetupFrom(alpha: Scalar, beta: Scalar): (PublicParams, MasterSecret) {
    var g1, g2: Scalar := 1, 1;
    (PublicParams(g1, g2, Mul(g1, beta), Mul(Mul(g1, g2), alpha), map[]), MasterSecret(alpha, beta))
  }

  method Setup(rng: Rng) returns (pp: PublicParams, msk: MasterSecret)
    requires |rng.tape| >= 2
    modifies rng
    ensures (pp, msk) == SetupFrom(old(rng.tape)[0], old(rng.tape)[1])
    ensures rng.tape == old(rng.tape)[2..]
  {
    var g1: Scalar, g2: Scalar := 1, 1;
    var alpha := rng.Random();
    var beta := rng.Random();
    var h := Mul(g1, beta);
    var eggAlpha := Mul(Mul(g1, g2), alpha);
    pp, msk := PublicParams(g1, g2, h, eggAlpha, map[]), MasterSecret(alpha, beta);
  }

  /** Parameters and tape after registering an attribute; a known one changes neither. */
  function Registered(pp: PublicParams, name: string, tape: Tape): (PublicParams, Tape)
    requires tape != []
  {
    if name in pp.attributes then
      (pp, tape)
    else
      var c := Commitment(Mul(pp.g1, tape[0]), Mul(pp.g2, tape[0]));
      (pp.(attributes := pp.attributes[name := c]), tape[1..])
  }

  /** The public parameters as shared by everyone who registers attributes in them. */
  class SharedParams {
    var pp: PublicParams

    constructor (pp: PublicParams)
      ensures this.pp == pp
    {
      this.pp := pp;
    }

    method RegisterAttribute(name: string, rng: Rng)
      requires rng.tape != []
      modifies this, rng
      ensures (pp, rng.tape) == Registered(old(pp), name, old(rng.tape))
    {
      if name in pp.attributes {
        return;
      }
      var t := rng.Random();
      var t1 := Mul(pp.g1, t);
      var t2 := Mul(pp.g2, t);
      pp := pp.(attributes := pp.attributes[name := Commitment(t1, t2)]);
    }
  }

  /** The parameters belong to this master secret, and every commitment uses a single exponent. */
  ghost predicate ParamsFor(pp: PublicParams, msk: MasterSecret) {
    && pp.g1 == 1 && pp.g2 == 1 && pp.h == msk.beta && pp.eggAlpha == msk.alpha
    && forall a <- pp.attributes :: pp.attributes[a].t1 == pp.attributes[a].t2
  }

  /** The later parameters only add commitments. */
  ghost predicate Extends(pp: PublicParams, later: PublicParams) {
    && (later.g1, later.g2, later.h, later.eggAlpha) == (pp.g1, pp.g2, pp.h, pp.eggAlpha)
    && forall a <- pp.attributes :: a in later.attributes && later.attributes[a] == pp.attributes[a]
  }

  lemma ExtendsTransitive(a: PublicParams, b: PublicParams, c: PublicParams)
    requires Extends(a, b) && Extends(b, c)
    ensures Extends(a, c)
  {
  }

  lemma SetupIsCoherent(alpha: Scalar, beta: Scalar)
    ensures var (pp, msk) := SetupFrom(alpha, beta);
      ParamsFor(pp, msk) && msk == MasterSecret(alpha, beta) && pp.attributes == map[]
  {
    hide Mul;
    MulUnit(beta);
    MulUnit(alpha);
    MulUnit(1);
  }

  lemma RegisteredIsCoherent(pp: PublicParams, msk: MasterSecret, name: string, tape: Tape)
    requires tape != [] && ParamsFor(pp, msk)
    ensures var (later, rest) := Registered(pp, name, tape);
      && ParamsFor(later, msk) && Extends(pp, later)
      && later.attributes.Keys == pp.attributes.Keys + {name}
      && (if name in pp.attributes then later == pp && rest == tape
          else later.attributes[name] == Commitment(tape[0], tape[0]) && rest == tape[1..])
  {
    hide Mul;
    MulUnit(tape[0]);
  }

  // ----- Key generation -----

  /** The name is not registered, and all names listed before it are. */
  ghost predicate IsFirstUnknown(pp: PublicParams, names: seq<string>, name: string) {
    exists i | 0 <= i < |names| ::
      names[i] == name && name !in pp.attributes && forall j :: 0 <= j < i ==> names[j] in pp.attributes
  }

  lemma {:induction false} UnknownIsFirst(pp: PublicParams, names: seq<string>)
    ensures FirstUnknown(pp, names).Some? ==> IsFirstUnknown(pp, names, FirstUnknown(pp, names).value)
  {
    if names != [] && names[0] in pp.attributes {
      var rest := names[1..];
      UnknownIsFirst(pp, rest);
      if FirstUnknown(pp, rest).Some? {
        var a := FirstUnknown(pp, rest).value;
        var i :| 0 <= i < |rest| && rest[i] == a && forall j :: 0 <= j < i ==> rest[j] in pp.attributes;
        assert names[i + 1] == a && forall j :: 0 < j < i + 1 ==> names[j] == rest[j - 1];
      }
    }
  }

  function FirstUnknown(pp: PublicParams, names: seq<string>): (unknown: Option<string>)
    ensures unknown.None? <==> forall a <- names :: a in pp.attributes
    ensures unknown.Some? ==> unknown.value in names && unknown.value !in pp.attributes
  {
    if names == [] then None
    else if names[0] !in pp.attributes then Some(names[0])
    else FirstUnknown(pp, names[1..])
  }

  method FindUnknown(pp: PublicParams, names: seq<string>) returns (unknown: Option<string>)
    ensures unknown == FirstUnknown(pp, names)
  {
    assert names[0..] == names;
    for i := 0 to |names|
      invariant FirstUnknown(pp, names) == FirstUnknown(pp, names[i..])
    {
      if names[i] !in pp.attributes {
        return Some(names[i]);
      }
    }
    return None;
  }

  /** The key components for the attributes in order; a repeated name keeps its last one. */
  function KeyShares(pp: PublicParams, r: Scalar, names: seq<string>, tape: Tape): (m: map<string, KeyShare>)
    requires |tape| >= |names| && forall a <- names :: a in pp.attributes
    ensures forall a :: a in m <==> a in names
  {
    if names == [] then
      map[]
    else
      var n := |names| - 1;
      var a, rj := names[n], tape[n];
      var share := KeyShare(Add(Mul(pp.g2, r), Mul(pp.attributes[a].t2, rj)), Mul(pp.g2, rj));
      KeyShares(pp, r, names[..n], tape)[a := share]
  }

  function KeyD(pp: PublicParams, msk: MasterSecret, r: Scalar): Scalar
    requires msk.beta != 0
  {
    Mul(pp.g2, Mul(Add(msk.alpha, r), Inv(msk.beta)))
  }

  function KeyFrom(pp: PublicParams, msk: MasterSecret, subject: string, names: seq<string>, tape: Tape):
    Result<UserSecretKey, AbeError>
    requires msk.beta != 0 && |tape| >= 1 + |names|
  {
    match FirstUnknown(pp, names)
    case Some(a) => Err(UnknownAttribute(a))
    case None => Ok(UserSecretKey(subject, KeyD(pp, msk, tape[0]), KeyShares(pp, tape[0], names, tape[1..])))
  }

  /** Mints a key for the names, all its components bound by one fresh r. */
  method Keygen(pp: PublicParams, msk: MasterSecret, subject: string, names: seq<string>, rng: Rng)
    returns (usk: Result<UserSecretKey, AbeError>)
    requires msk.beta != 0 && |rng.tape| >= 1 + |names|
    modifies rng
    ensures usk == KeyFrom(pp, msk, subject, names, old(rng.tape))
    ensures rng.tape == if usk.Ok? then old(rng.tape)[1 + |names|..] else old(rng.tape)
  {
    hide Mul, Add, Inv;
    var unknown := FindUnknown(pp, names);
    if unknown.Some? {
      return Err(UnknownAttribute(unknown.value));
    }
    var r := rng.Random();
    var betaInv := Inv(msk.beta);
    var dExp := Mul(Add(msk.alpha, r), betaInv);
    var d := Mul(pp.g2, dExp);
    ghost var tape := rng.tape;
    var attributes: map<string, KeyShare> := map[];
    for i := 0 to |names|
      invariant forall a <- names[..i] :: a in pp.attributes
      invariant attributes == KeyShares(pp, r, names[..i], tape)
      invariant |rng.tape| == |tape| - i && rng.tape == tape[i..]
    {
      var a := names[i];
      assert names[..i + 1][..i] == names[..i];
      var commitment := pp.attributes[a];
      var rj := rng.Random();
      var dj := Add(Mul(pp.g2, r), Mul(commitment.t2, rj));
      var djPrime := Mul(pp.g2, rj);
      attributes := attributes[a := KeyShare(dj, djPrime)];
    }
    assert names[..|names|] == names;
    usk := Ok(UserSecretKey(subject, d, attributes));
  }

  /** The component of attribute a carries the exponent exponents[a]. */
  ghost predicate Carries(pp: PublicParams, shares: map<string, KeyShare>, exponents: map<string, Scalar>) {
    && shares.Keys == exponents.Keys
    && forall a <- shares ::
         a in pp.attributes
         && shares[a].dj == Add(exponents[a], Mul(pp.attributes[a].t2, shares[a].djPrime))
  }

  /** The key is bound by r: its d and all its attribute components carry that one exponent. */
  ghost predicate KeyFor(pp: PublicParams, msk: MasterSecret, usk: UserSecretKey, r: Scalar) {
    && Mul(msk.beta, usk.d) == Add(msk.alpha, r)
    && Carries(pp, usk.attributes, Uniform(usk.attributes.Keys, r))
  }

  lemma {:induction false} KeySharesCarry(pp: PublicParams, r: Scalar, names: seq<string>, tape: Tape)
    requires |tape| >= |names| && pp.g2 == 1 && forall a <- names :: a in pp.attributes
    ensures var shares := KeyShares(pp, r, names, tape); Carries(pp, shares, Uniform(shares.Keys, r))
  {
    hide Add, Mul;
    if names != [] {
      var n := |names| - 1;
      KeySharesCarry(pp, r, names[..n], tape);
      MulUnit(r);
      MulUnit(tape[n]);
    }
  }

  /** Each component is randomised by its own scalar: that of the last listing of its name. */
  lemma {:induction false} KeySharesFresh(pp: PublicParams, r: Scalar, names: seq<string>, tape: Tape, i: nat)
    requires |tape| >= |names| && pp.g2 == 1 && forall a <- names :: a in pp.attributes
    requires i < |names| && forall j :: i < j < |names| ==> names[j] != names[i]
    ensures KeyShares(pp, r, names, tape)[names[i]].djPrime == tape[i]
  {
    hide Add, Mul;
    var n := |names| - 1;
    if i == n {
      MulUnit(tape[n]);
    } else {
      KeySharesFresh(pp, r, names[..n], tape, i);
    }
  }

  lemma KeygenIsCoherent(pp: PublicParams, msk: MasterSecret, subject: string, names: seq<string>, tape: Tape)
    requires msk.beta != 0 && |tape| >= 1 + |names| && ParamsFor(pp, msk)
    ensures var usk := KeyFrom(pp, msk, subject, names, tape);
      && (usk.Ok? <==> forall a <- names :: a in pp.attributes)
      && (usk.Ok? ==> KeyFor(pp, msk, usk.value, tape[0]) && usk.value.attributes.Keys == (set a <- names))
  {
    hide Add, Mul, Inv;
    if FirstUnknown(pp, names).None? {
      var r := tape[0];
      KeySharesCarry(pp, r, names, tape[1..]);
      var x := Add(msk.alpha, r);
      MulUnit(Mul(x, Inv(msk.beta)));
      MulComm(x, Inv(msk.beta));
      MulAssoc(msk.beta, Inv(msk.beta), x);
      MulUnit(x);
    }
  }

  // ----- Encryption -----

  function SealLeaf(pp: PublicParams, sh: Share): LeafCiphertext
    requires sh.attr in pp.attributes
  {
    LeafCiphertext(sh.path, sh.attr, Mul(pp.g1, sh.value), Mul(pp.attributes[sh.attr].t1, sh.value))
  }

  function SealLeaves(pp: PublicParams, shares: seq<Share>): (leaves: seq<LeafCiphertext>)
    requires forall sh <- shares :: sh.attr in pp.attributes
  {
    if shares == [] then
      []
    else
      var n := |shares| - 1;
      SealLeaves(pp, shares[..n]) + [SealLeaf(pp, shares[n])]
  }

  lemma SharesRegistered(pp: PublicParams, tree: AccessTree, s: Scalar, tape: Tape)
    requires |tape| == Draws(tree) && forall a <- Leaves(tree) :: a in pp.attributes
    ensures forall sh <- SharesOf(tree, s, tape, []) :: sh.attr in pp.attributes
  {
    hide SharesOf, Leaves;
    ShareLayout(tree, s, tape, []);
    var shares := SharesOf(tree, s, tape, []);
    forall sh | sh in shares
      ensures sh.attr in pp.attributes
    {
      var i :| 0 <= i < |shares| && shares[i] == sh;
      assert Leaves(tree)[i] in Leaves(tree);
    }
  }

  /** The ciphertext of `dek` under the tree, blinded by s, with the shares drawn from the tape. */
  function CiphertextFrom(kdf: Kdf, pp: PublicParams, dek: Key, tree: AccessTree, s: Scalar, tape: Tape,
                          nonce: Bytes): AbeCiphertext
    requires |tape| == Draws(tree) && forall a <- Leaves(tree) :: a in pp.attributes
  {
    SharesRegistered(pp, tree, s, tape);
    AbeCiphertext(
      tree,
      Mul(pp.h, s),
      SealLeaves(pp, SharesOf(tree, s, tape, [])),
      WrappedKey(nonce, Box(kdf(Mul(pp.eggAlpha, s)), nonce, Aad(DEK_WRAP_AAD_DOMAIN, tree), dek)))
  }

  function Encrypted(kdf: Kdf, pp: PublicParams, dek: Key, tree: AccessTree, tape: Tape, nonce: Bytes):
    Result<AbeCiphertext, AbeError>
    requires |tape| >= 1 + Draws(tree)
  {
    match FirstUnknown(pp, Leaves(tree))
    case Some(a) => Err(UnknownAttribute(a))
    case None => Ok(CiphertextFrom(kdf, pp, dek, tree, tape[0], tape[1..1 + Draws(tree)], nonce))
  }

  method EncryptKey(kdf: Kdf, pp: PublicParams, dek: Key, tree: AccessTree, nonce: Bytes, rng: Rng)
    returns (ct: Result<AbeCiphertext, AbeError>)
    requires |rng.tape| >= 1 + Draws(tree)
    modifies rng
    ensures ct == Encrypted(kdf, pp, dek, tree, old(rng.tape), nonce)
    ensures rng.tape == if ct.Ok? then old(rng.tape)[1 + Draws(tree)..] else old(rng.tape)
  {
    hide Mul, SharesOf, Draws, Leaves;
    var unknown := FindUnknown(pp, Leaves(tree));
    if unknown.Some? {
      return Err(UnknownAttribute(unknown.value));
    }
    var s := rng.Random();
    var c := Mul(pp.h, s);
    var blinding := Mul(pp.eggAlpha, s);
    ghost var tape := rng.tape[..Draws(tree)];
    assert tape == old(rng.tape)[1..1 + Draws(tree)];
    var shares := ShareSecret(tree, s, rng);
    SharesRegistered(pp, tree, s, tape);
    var leaves: seq<LeafCiphertext> := [];
    for i := 0 to |shares|
      invariant leaves == SealLeaves(pp, shares[..i])
    {
      var sh := shares[i];
      assert shares[..i + 1][..i] == shares[..i];
      var commitment := pp.attributes[sh.attr];
      var cy := Mul(pp.g1, sh.value);
      var cyPrime := Mul(commitment.t1, sh.value);
      leaves := leaves + [LeafCiphertext(sh.path, sh.attr, cy, cyPrime)];
    }
    assert shares[..|shares|] == shares;
    var keyBytes := kdf(blinding);
    var box := Box(keyBytes, nonce, Aad(DEK_WRAP_AAD_DOMAIN, tree), dek);
    ct := Ok(AbeCiphertext(tree, c, leaves, WrappedKey(nonce, box)));
  }

  // ----- Decryption -----

  /** What a key component recovers from a leaf. */
  function LeafValue(leaf: LeafCiphertext, share: KeyShare): Scalar {
    Sub(Mul(leaf.cy, share.dj), Mul(leaf.cyPrime, share.djPrime))
  }

  function OpenLeaves(shares: map<string, KeyShare>, leaves: seq<LeafCiphertext>): LeafResults {
    if leaves == [] then
      map[]
    else
      var n := |leaves| - 1;
      var rest := OpenLeaves(shares, leaves[..n]);
      var leaf := leaves[n];
      if leaf.attribute in shares then rest[leaf.path := LeafValue(leaf, shares[leaf.attribute])] else rest
  }

  /** The result at a path is what the last leaf there with a held attribute recovers. */
  lemma {:induction false} OpenLeavesLast(shares: map<string, KeyShare>, leaves: seq<LeafCiphertext>, i: nat)
    requires i < |leaves| && leaves[i].attribute in shares
    requires forall j :: i < j < |leaves| && leaves[j].attribute in shares ==> leaves[j].path != leaves[i].path
    ensures var results := OpenLeaves(shares, leaves);
      leaves[i].path in results && results[leaves[i].path] == LeafValue(leaves[i], shares[leaves[i].attribute])
    decreases leaves
  {
    hide LeafValue;
    if i < |leaves| - 1 {
      OpenLeavesLast(shares, leaves[..|leaves| - 1], i);
    }
  }

  /** Only leaves with a held attribute give results. */
  lemma {:induction false} OpenLeavesHeld(shares: map<string, KeyShare>, leaves: seq<LeafCiphertext>, path: seq<nat>)
    ensures path in OpenLeaves(shares, leaves) <==> exists leaf <- leaves :: leaf.path == path && leaf.attribute in shares
  {
    hide LeafValue;
    if leaves != [] {
      var n := |leaves| - 1;
      OpenLeavesHeld(shares, leaves[..n], path);
      assert leaves == leaves[..n] + [leaves[n]];
    }
  }

  function Unwrap(kdf: Kdf, blinding: Scalar, ct: AbeCiphertext): Result<Key, AbeError> {
    match ct.wrappedKey.ciphertext.Open(kdf(blinding), ct.wrappedKey.nonce, Aad(DEK_WRAP_AAD_DOMAIN, ct.tree))
    case None => Err(PolicyNotSatisfied)
    case Some(plaintext) => if |plaintext| != 32 then Err(Encoding("unexpected DEK length")) else Ok(plaintext)
  }

  function Decrypted(kdf: Kdf, usk: UserSecretKey, ct: AbeCiphertext): Result<Key, AbeError> {
    match Recombined(ct.tree, OpenLeaves(usk.attributes, ct.leaves), [])
    case None => Err(PolicyNotSatisfied)
    case Some(root) => Unwrap(kdf, Sub(Mul(ct.c, usk.d), root), ct)
  }

  method DecryptKey(kdf: Kdf, usk: UserSecretKey, ct: AbeCiphertext) returns (dek: Result<Key, AbeError>)
    ensures dek == Decrypted(kdf, usk, ct)
  {
    hide Mul, Sub, Recombined;
    var results: LeafResults := map[];
    for i := 0 to |ct.leaves|
      invariant results == OpenLeaves(usk.attributes, ct.leaves[..i])
    {
      var leaf := ct.leaves[i];
      assert ct.leaves[..i + 1][..i] == ct.leaves[..i];
      if leaf.attribute in usk.attributes {
        var share := usk.attributes[leaf.attribute];
        var num := Mul(leaf.cy, share.dj);
        var den := Mul(leaf.cyPrime, share.djPrime);
        results := results[leaf.path := Sub(num, den)];
      }
    }
    assert ct.leaves[..|ct.leaves|] == ct.leaves;
    var recombiner := new Recombiner(results);
    var root := recombiner.Recombine(ct.tree);
    if root.None? {
      return Err(PolicyNotSatisfied);
    }
    var blinding := Sub(Mul(ct.c, usk.d), root.value);
    var keyBytes := kdf(blinding);
    var plaintext := ct.wrappedKey.ciphertext.Open(keyBytes, ct.wrappedKey.nonce, Aad(DEK_WRAP_AAD_DOMAIN, ct.tree));
    if plaintext.None? {
      return Err(PolicyNotSatisfied);
    }
    if |plaintext.value| != 32 {
      return Err(Encoding("unexpected DEK length"));
    }
    dek := Ok(plaintext.value);
  }
}
