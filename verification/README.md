# Verified model of secure-abe

A Dafny model of the parts of secure-abe that decide who can read what: the secret sharing
over access trees, the BSW07-style CP-ABE scheme built on it, the policy language, attribute
claims, epochs, and the command-line deployment as a state machine. `dafny verify dfyconfig.toml`
checks the whole project.

## How the system is represented

- **Groups.** Elements of G1, G2 and Gt are their exponents in Z_P relative to the generators.
  The pairing is multiplication; the additive operations of the source on Gt are field addition
  and multiplication. `PrimeField.P` is an arbitrary prime: the constant has no defining value,
  so every theorem holds for every prime, the 255-bit order of BLS12-381 among them. The inverse
  of a scalar is chosen by its defining property; the extended Euclidean algorithm serves only
  to prove that there is one.
- **Child indices.** The source numbers children with 64-bit integers, which are distinct and
  non-zero in a 255-bit field. For an arbitrary P this is the predicate `Sharing.Indexable`
  (fewer than P children at each gate). Parsed policies meet it because a policy text is shorter
  than P (`PolicyPrinter.ParsedPrintable`).
- **Randomness** is a tape of scalars, consumed in the order of the code (`Sharing.Rng`); every
  function names how much it draws.
- **Key derivation and AEAD.** The KDF is a parameter, any function from blinding values to
  32-byte keys. A sealed message is an ideal box that opens under the key, nonce and additional
  data it was made with. The additional data is the domain label and the access tree.
- **Hash maps** are maps. The order in which the attribute names of a key on file are listed
  is left open: `IsOrdering` admits every order, and the results hold for each.
- **Files.** Keys are on file under `Deployment.KeyFile(user)` and packages under
  `Deployment.PackageDir(id)`, two functions about which nothing is known: different names may
  lead to the same file, as "bob" and "./bob" do. What holds for a key file is stated in terms
  of all user names that lead to it.
- **Imperative code** stays imperative: the path stack and output list of the splitter, the
  path stack and early exit of the recombiner, the Horner, Lagrange, key generation, encryption
  and decryption loops, the tokenizer's buffer, the parser's cursor, and the deployment's
  commands are methods and classes, each proved equal to a function that the theorems are about.
- **Runs.** `Runs.After` folds a list of commands over the state that set-up leaves. A command
  whose tape is too short, or whose listing order is not one, is not a step. `Runs.Grants` and
  `Runs.Seals` are the history: what each successful issue granted, at which epochs and under
  which controls, and what each package was sealed as.

## Main results

1. *Sharing hides perfectly or determines the secret.* For an unsatisfied tree, shifting the
   random tape by a fixed bijection turns the sharing of any secret into a sharing of any other
   with the very same held shares; for a satisfied tree the held shares determine the secret.
   With gates of threshold zero, which are shared like an OR, the exact condition is
   satisfaction of the tree with these thresholds raised to one.
2. *Recombination is correct exactly when it should be.* Honest shares recombine to r·s whichever
   children are picked; the one exception, gates of threshold zero, is characterised exactly:
   for given attributes by the first selection, and for all holders and selections at once by
   the tree alone.
3. *Decryption refines the plain meaning of the tree.* A key put together from the components of
   any number of users recovers the blinding less the weighted sum of the exponents' differences
   times the shares, for any KDF; with one foreign leaf it is the blinding exactly when the two
   users' exponents agree or that leaf's share is zero.
4. *Every random scalar is used as it should be, once.* A ciphertext is blinded by the scalar
   drawn for it and carries the shares of exactly that scalar, whatever was registered before;
   likewise for keys and commitments.
5. *The parser is its grammar*, with unique derivations: a text in any layout is accepted with a
   tree if and only if it writes a derivation of the tree, the tree is satisfied exactly when the
   derivation holds as a formula, and any other text is refused with the error that one scan with
   a counter of open parentheses gives.
6. *Whole runs.* In every reachable state the outcome of decryption equals a predicate over what
   was issued at which epoch, across any interleaving of commands. `EndToEnd.DecryptsAsTyped`
   states it over the commands as typed: the policy text read as a formula, the arguments of the
   successful issues, and the number of revocations before each.
7. *Authority and revocation over runs.* What an authority grants is under the prefixes typed in
   its latest registration; every issue to a revoked name is refused without effect; a revoked
   user's key file never changes again if and only if every name that leads to it is revoked.

## Where the code and its documentation differ

- `core/src/share.rs:83-85` promises a result equal to r·secret if and only if the attributes
  satisfy the tree. A gate of threshold 0, which `AccessTree::and(vec![])` builds, recombines to
  the identity instead (`Exactness.EmptyAndFails`). `Exactness.RecoversExactly` and
  `Exactness.RebuiltExactly` give the exact conditions; trees that come from policies always
  meet them.
- `policy/src/parser.rs:138-140` says that policy attributes and issued attributes compare equal
  regardless of blanks and quotes. Only the policy side is normalized: an attribute is issued as
  it is written, and some policy asks for it if and only if it has no white space, quote or
  parenthesis (`PolicyPrinter.AskedForIffClean`, `IssuedNames.FlagIsIssuedRaw`). The flag
  `role = admin` is issued and no policy asks for it (`IssuedNames.BlankFlag`).
- `cli/src/main.rs:437` reports that a revoked user is blocked from future key issuance. The
  block is on the name while the key is stored under a path made from the name: the file is
  frozen if and only if all names leading to it are revoked (`RunTheorems.RevokedUserFrozen`).

## Model

| member | source | states |
|---|---|---|
| `PrimeField.Inv` | core/src/share.rs:134 | every non-zero scalar gets a scalar that multiplies it to one; that there is one follows from Bezout's identity over the prime |
| `PrimeField.MulIsProduct` | core/src/scheme.rs:57-58 | scaling by iterated addition is the product of the exponents modulo the group order |
| `PrimeField.FromNatIsReduced` | core/src/share.rs:32-34 | an index as a scalar is its remainder modulo the group order |
| `PrimeField.InvMul` | core/src/share.rs:134 | the inverse of a product of denominators is the product of the inverses |
| `Polynomials.Horner` | core/src/share.rs:22-29 | the loop from the highest coefficient down evaluates the polynomial |
| `Polynomials.EvalIsPowerSum` | core/src/share.rs:22-29 | that value is the sum of coefficients times powers of x |
| `Polynomials.Den` | core/src/share.rs:123-134 | no denominator that interpolation inverts is zero |
| `Polynomials.LagrangeCombine` | core/src/share.rs:120-138 | the double loop computes the values weighted by their Lagrange coefficients at zero |
| `Polynomials.WeightsSumToOne` | core/src/share.rs:120-138 | the coefficients at zero of any distinct points sum to one |
| `Polynomials.InterpolateAtZero` | core/src/share.rs:118-138 | over any distinct points at least as many as its coefficients, a polynomial's weighted values sum to its value at zero |
| `Polynomials.LagrangeAtZero` | core/src/share.rs:118-138 | points (i, r·q(i)), as many as q has coefficients, combine to r·q(0) |
| `AccessTrees.Monotone` | policy/src/tree.rs:46-60 | more attributes never turn a satisfied tree unsatisfied |
| `AccessTrees.OnlyLeavesMatter` | policy/src/tree.rs:46-69 | satisfaction depends only on which leaf attributes are held |
| `Sharing.RandomWithConstant` | core/src/share.rs:13-20 | the constant followed by `degree` fresh scalars, drawn in order |
| `Sharing.Splitter.ShareNode` | core/src/share.rs:50-76 | appends exactly the node's shares, restores the path stack, and draws a number of scalars that depends on the tree alone |
| `Sharing.ShareSecret` | core/src/share.rs:40-48 | the shares of the whole tree from an empty path |
| `Sharing.ShareLayout` | core/src/share.rs:50-76 | one share per leaf in leaf order, with pairwise distinct paths that each lead to that leaf |
| `Recombination.Recombiner.Gather` | core/src/share.rs:97-109 | the loop with its early exit collects the first satisfied children, all of them if they are too few |
| `Recombination.Recombiner.Recombine` | core/src/share.rs:86-116 | the recursive procedure restores its path and interpolates the first `threshold` satisfied children |
| `Recombination.ChoiceIffSatisfied` | core/src/share.rs:97-111 | the selection succeeds exactly when the tree is satisfied in its plain meaning |
| `Recombination.ValidMeansSatisfied` | core/src/share.rs:97-111 | no other selection succeeds on an unsatisfied tree |
| `Recombination.RecombineFollows` | core/src/share.rs:86-116 | recombination is the evaluation of its first selection, through nested gates, early exit and truncation |
| `Recombination.RecombineMonotone` | core/src/share.rs:86-116 | results for more attributes, whatever their values, never turn a recombination into a failure |
| `Recombination.ChoiceIndependent` | core/src/share.rs:97-113 | on honest shares every selection of satisfied children, not only the first, yields r·secret |
| `Recombination.RecombineHonest` | core/src/share.rs:83-116 | r times the shares of exactly the held leaves recombine to r·secret if the tree is satisfied and to nothing otherwise |
| `Recombination.RecombineShares` | core/src/share.rs:40-116 | the same from splitting to recombining |
| `Exactness.EmptyAndFails` | core/src/share.rs:105-113 | an AND of no children is always satisfied and is recovered only when r·secret is zero |
| `Exactness.Spoil` | core/src/share.rs:86-116 | whenever the selection visits a gate of threshold zero, some secret and tape are recovered wrongly |
| `Exactness.RecoversExactly` | core/src/share.rs:83-116 | a satisfied tree is recovered for every secret, tape and r if and only if its first selection visits no gate of threshold zero |
| `Exactness.UnsoundChoice` | core/src/share.rs:86-116 | a satisfied tree with a gate of threshold zero that can take part has a selection that visits one |
| `Exactness.RebuiltExactly` | core/src/share.rs:83-116 | every selection by every holder of attributes out of a set rebuilds every secret if and only if the whole set does not satisfy the tree or no gate of threshold zero can take part in satisfying it |
| `Exactness.SoundRecoverable` | core/src/share.rs:83-116 | this condition on the tree alone makes the first selection right for all holders |
| `Exactness.FirstChoiceSpared` | core/src/share.rs:97-111 | it is not necessary for first selections: a tree on which all are right although another selection is wrong |
| `Hiding.PerfectHiding` | core/src/share.rs:50-76 | unsatisfied: the shifted tape shares a secret larger by d with exactly the same held shares |
| `Hiding.ShiftBack` | core/src/share.rs:50-76 | shifting by d and by -d cancel, so the shift is a bijection on tapes and the held shares are equally likely for every secret |
| `Hiding.RaisedShares` | core/src/share.rs:65-66 | a gate of threshold zero is shared exactly like one of threshold one |
| `Hiding.RaisedSame` | policy/src/tree.rs:22-35 | raising thresholds of zero to one leaves exactly the trees without them as they are |
| `Hiding.ViewDetermines` | core/src/share.rs:50-116 | whenever the raised tree is satisfied, equal held shares mean equal secrets |
| `Hiding.RecoverableRaised` | core/src/share.rs:50-116 | so whenever recombination is right the held shares determine the secret |
| `Hiding.HidesIffUnsatisfied` | core/src/share.rs:50-76 | for every tree, every secret explains every held view if and only if the raised tree is unsatisfied |
| `LinearForms.LinearForm` | core/src/share.rs:86-138 | for a fixed selection the root value is a linear form in the leaf values |
| `LinearForms.UsesAreHeld` | core/src/share.rs:86-138 | every leaf used is held, is used once, and has a non-zero weight |
| `LinearForms.RecombinedIsLinear` | core/src/share.rs:86-138 | so recombination is, on every tree, the weighted sum over the first selection, or nothing if the tree is unsatisfied |
| `LinearForms.SplicedRecombination` | core/src/share.rs:86-138 | leaves with mixed exponents recombine to r·secret plus the weighted sum of (exponent − r)·share |
| `LinearForms.OneForeignLeaf` | core/src/share.rs:86-138 | with one foreign leaf, r·secret is recovered if and only if the exponents agree or that share is zero |
| `Scheme.Setup` | core/src/scheme.rs:51-70 | draws alpha and beta, in this order, and builds the parameters from them |
| `Scheme.SetupIsCoherent` | core/src/scheme.rs:51-70 | fresh parameters belong to their master secret and have no attributes |
| `Scheme.SharedParams.RegisterAttribute` | core/src/scheme.rs:79-93 | registers in place; a known attribute changes nothing and draws nothing |
| `Scheme.RegisteredIsCoherent` | core/src/scheme.rs:79-93 | both halves of a new commitment have the same drawn exponent, and no other commitment changes |
| `Scheme.Keygen` | core/src/scheme.rs:97-140 | mints the key from the tape, or reports the first unknown attribute and draws nothing |
| `Scheme.UnknownIsFirst` | core/src/scheme.rs:104-108 | the unknown attribute reported is the first one listed |
| `Scheme.KeygenIsCoherent` | core/src/scheme.rs:97-140 | succeeds exactly when all attributes are registered; then one r binds `d` and every component, and the names are those asked for |
| `Scheme.KeySharesFresh` | core/src/scheme.rs:117-132 | each component is randomised by its own scalar, the one of the last listing of its name |
| `Scheme.EncryptKey` | core/src/scheme.rs:263-336 | computes the ciphertext that the specification gives for the tape, draws exactly one scalar more than sharing needs, and draws nothing when a leaf is unknown; which scalar ends up where is `Freshness.EncryptedUsesTape` |
| `Scheme.DecryptKey` | core/src/scheme.rs:341-403 | the leaf loop, recombination, unblinding and unwrapping, with all error cases |
| `Scheme.OpenLeavesLast` | core/src/scheme.rs:346-354 | the result at a path comes from the last leaf there whose attribute is held |
| `Scheme.OpenLeavesHeld` | core/src/scheme.rs:346-354 | exactly the paths of leaves whose attribute is held have results |
| `Freshness.EncryptedUsesTape` | core/src/scheme.rs:269-336 | with s the first scalar: c is beta·s, the box opens to the data key under exactly kdf(alpha·s), the nonce, the domain label and the tree, and the leaves carry, in order, the shares of s drawn from the scalars after it, each times its commitment's exponent; otherwise the first unknown leaf is the error |
| `Freshness.EncryptedDiffers` | core/src/scheme.rs:275-277 | with non-zero alpha and beta, different first scalars give different c and different blindings |
| `Freshness.KeyUsesTape` | core/src/scheme.rs:104-139 | the key names its subject, is bound by the first scalar, and its i-th component is randomised by the i-th scalar after that |
| `Freshness.RegisterAllUsesTape` | core/src/scheme.rs:79-93 | of any names registered in order, the k-th new one gets the k-th scalar, all others stay, and no further scalar is drawn |
| `Freshness.IssuedUsesTape` | cli/src/main.rs:265-304 | an issue binds the key by the first scalar after those of its new commitments |
| `Freshness.EncryptStepUsesTape` | cli/src/main.rs:320-345 | an encryption registers its leaves even if the file is unreadable, and blinds the package with the first scalar after those of its new commitments |
| `Correctness.LeafCancels` | core/src/scheme.rs:349-352 | the commitment exponent cancels, leaving r times the share |
| `Correctness.DecryptHonest` | core/src/scheme.rs:341-403 | a coherent key opens an honest ciphertext to its data key exactly when its attributes satisfy the tree; otherwise PolicyNotSatisfied |
| `Correctness.DecryptWrapped` | core/src/scheme.rs:370-402 | any wrapped key put in place of the honest one opens exactly when key, nonce, domain label and tree are right; a message of another length than 32 is an encoding error |
| `Correctness.KeygenEncryptDecrypt` | core/src/scheme.rs:97-403 | the same from key generation through encryption to decryption, with the exact success conditions of the first two |
| `Correctness.MixedKey` | core/src/scheme.rs:341-403 | a key whose components carry any exponents, from any number of users, recovers α·s less the weighted sum of (exponent − r)·share over the leaves used, and opens exactly when the tree is satisfied and that value derives the same key as α·s |
| `Correctness.SplicedKey` | core/src/scheme.rs:528-556 | with a component spliced in from another user's key at the one leaf that uses it, the value recovered is α·s if and only if the users share r or the leaf's share is zero; decryption succeeds exactly when it derives the same key |
| `Correctness.SwappedTree` | core/src/scheme.rs:580-606 | a check of the definitions: a ciphertext whose tree was replaced never yields a data key |
| `Correctness.KeyForExtends` | core/src/scheme.rs:79-93 | a check of the definitions: registering attributes leaves existing keys coherent |
| `Correctness.CiphertextExtends` | core/src/scheme.rs:263-336 | registering attributes leaves existing ciphertexts honest |
| `PolicyGrammar.Tokenize` | policy/src/parser.rs:25-60 | the buffered character loop computes the token sequence, which `PolicyText.LexExactly` characterises |
| `PolicyGrammar.LexedWords` | policy/src/parser.rs:25-60 | attribute tokens are non-empty, without parentheses or white space, and tokens are no more than characters |
| `PolicyGrammar.KeywordSpellings` | policy/src/parser.rs:33-38 | a check of the definitions: exactly the spellings of AND and OR in any mix of cases are keywords |
| `PolicyText.LexExactly` | policy/src/parser.rs:25-60 | the tokens of a text are t1, t2, ... if and only if the text writes them: parentheses and keywords in any case as such, attributes as they are, any white space around them, and none needed next to a parenthesis |
| `PolicyParser.Parser.Next` | policy/src/parser.rs:72-76 | returns the token at the cursor and advances even past the end |
| `PolicyParser.Parser.ParseAtom` | policy/src/parser.rs:116-135 | agrees with the phrase function on result, error and cursor; on success the cursor advanced and is within bounds |
| `PolicyParser.Parser.ParseAnd` | policy/src/parser.rs:102-113 | likewise, collapsing a single operand |
| `PolicyParser.Parser.ParseOr` | policy/src/parser.rs:88-99 | likewise; the mutual recursion terminates by remaining tokens, then grammar level |
| `PolicyParser.Parser.ParsePolicy` | policy/src/parser.rs:79-85 | accepts only when all tokens are consumed |
| `PolicyParser.ParseText` | policy/src/parser.rs:147-154 | text to tree, with the empty text refused |
| `PolicyTheorems.OrSound` | policy/src/parser.rs:87-135 | what is parsed is a derivation of exactly the tokens consumed, as long as possible |
| `PolicyTheorems.OrComplete` | policy/src/parser.rs:87-135 | every derivation is found, whatever follows that cannot continue it |
| `PolicyTheorems.DerivationUnique` | policy/src/parser.rs:87-135 | a token sequence has at most one derivation |
| `PolicyTheorems.ParsedIffDerives` | policy/src/parser.rs:78-154 | a text is accepted with tree t if and only if the grammar derives t from its tokens |
| `PolicyText.ParsedIffWritten` | policy/src/parser.rs:25-154 | a text is accepted with tree t if and only if it writes the tokens of a derivation of t |
| `PolicyText.WordPolicy` | policy/src/parser.rs:33-38 | a clean word that is no spelling of AND or OR is a policy that asks for it as written |
| `PolicyText.TypicalPolicy` | policy/src/parser.rs:145-154 | (a AND b) OR c, with parentheses tight against the names and any white space around the operators, is read as that threshold tree |
| `PolicyText.OrMeans` | policy/src/parser.rs:87-135 | the tree of a derivation is satisfied exactly when the derivation, read as a formula of AND and OR, holds |
| `PolicyText.PolicyMeans` | policy/src/parser.rs:25-154 | the same from the text |
| `PolicyErrors.ErrorsExactly` | policy/src/parser.rs:78-154 | a text is refused with an error if and only if one scan of its tokens with a counter of open parentheses ends in that error |
| `PolicyErrors.NeverEmptyAttribute` | policy/src/parser.rs:126-128 | the error for an empty attribute is never reported, as no token is empty |
| `PolicyPrinter.LexRendered` | policy/src/parser.rs:25-60 | the tokenizer reads rendered tokens back |
| `PolicyPrinter.NormalizeQuoted` | policy/src/parser.rs:141-143 | quoting a clean attribute is undone by normalization |
| `PolicyPrinter.PrintParse` | policy/src/parser.rs:25-154 | parsing the printed text of a printable tree gives the tree back |
| `PolicyText.AnyLayout` | policy/src/parser.rs:25-154 | so does parsing any other layout of the same tokens, names being unquoted where they can |
| `PolicyPrinter.ParsedPrintable` | policy/src/parser.rs:78-154 | every accepted tree is printable and its child indices are distinct non-zero scalars |
| `PolicyPrinter.AcceptedIffPrintable` | policy/src/parser.rs:78-154 | the trees that texts denote are exactly the printable ones |
| `PolicyPrinter.PrintableWellFormed` | policy/src/tree.rs:22-35 | such trees have 1 ≤ threshold ≤ number of children at every gate |
| `PolicyPrinter.PolicyLeavesClean` | policy/src/parser.rs:138-143 | no policy asks for an attribute with quotes, parentheses or white space |
| `PolicyPrinter.AskedForIffClean` | policy/src/parser.rs:138-154 | the attributes that some policy asks for are exactly the clean ones |
| `PolicyPrinter.NormalizeFixed` | policy/src/parser.rs:141-143 | a literal of a policy asks for the attribute as written if and only if it has no quote |
| `PolicyText.NormalizeDropsQuote` | policy/src/parser.rs:141-143 | a quote anywhere in a literal makes no difference; with the row above, a word asks for itself without its quotes |
| `PolicyText.QuotedValue` | policy/src/parser.rs:138-143 | key="value" asks for key=value |
| `Names.DecimalInjective` | revocation/src/lib.rs:74-76 | distinct numbers print differently |
| `Names.TagInjective` | revocation/src/lib.rs:74-76 | attribute and epoch are determined by the tag, whatever the attribute contains |
| `IssuedNames.TagAsWritten` | revocation/src/lib.rs:74-76 | a tag is the attribute, the mark @epoch and the numeral of the epoch |
| `Names.TrimExactly` | cli/src/main.rs:231 | trimming removes all white space at both ends and nothing else |
| `Names.WhitespaceExactly` | policy/src/parser.rs:52 | a check of the definitions: white space is the 25 characters of Unicode's White_Space property |
| `Claims.NumericMeansAtLeast` | authorities/src/lib.rs:58-67 | the leaf key>=d, where the text d is the numeral of n, is met by a numeric claim if and only if n is at least one and at most its value and its maximum |
| `Claims.NumericResolvesTo` | authorities/src/lib.rs:58-67 | a numeric claim resolves to exactly these texts |
| `Claims.DecimalIsNumeral` | authorities/src/lib.rs:64 | the text printed for a number is its one numeral without leading zeros |
| `Claims.ParseDigitsByPlace` | cli/src/main.rs:201-202 | digits are read by their decimal places, and nothing else is read |
| `Claims.PermissionExactly` | authorities/src/lib.rs:69-124 | a claim is allowed exactly by a registered authority that is unrestricted or has its prefix, the text before the first '=' or the key, and is refused with the matching error otherwise |
| `Claims.PermittedIsControlled` | authorities/src/lib.rs:69-124 | whatever a restricted authority may claim has its text before '=' equal to a controlled prefix, or that with ">" |
| `Claims.ParseClaims` | cli/src/main.rs:178-206 | the three loops with their early exits compute the claims, which `Claims.ClaimsByIndex` characterises |
| `Claims.ClaimsByIndex` | cli/src/main.rs:178-206 | all arguments become claims one for one, flags, then texts, then numerics, each in order; otherwise the error is that of the first malformed text, or else of the first malformed numeric |
| `Claims.ParsedAreKeyed` | cli/src/main.rs:183-204 | keys of parsed text and numeric claims contain no '=' |
| `Claims.TextResolvesToArgument` | cli/src/main.rs:183-191 | a text argument is accepted exactly when it has an '=', resolves to itself, and is named in the error otherwise |
| `Claims.ParseDigitsExactly` | cli/src/main.rs:201-202 | digits are read as n if and only if they are leading zeros, if any, followed by the decimal numeral of n |
| `Claims.ParseI64Exactly` | cli/src/main.rs:201-202 | a text is read as n if and only if n is a 64-bit number and the text is its numeral, with leading zeros and a fitting sign allowed |
| `Claims.NumericArgument` | cli/src/main.rs:192-204 | a numeric claim written out, negative numbers included, parses back to itself if and only if its key has no '=' and no ':' and both numbers are 64-bit numbers |
| `Claims.ParseNumericExactly` | cli/src/main.rs:192-204 | a numeric argument is read as a claim if and only if it has the form key=number:max with texts that spell the two numbers |
| `Claims.NumericErrors` | cli/src/main.rs:192-204 | which of the three errors a malformed numeric argument gives |
| `IssuedNames.FlagIsIssuedRaw` | cli/src/main.rs:178-182 | every flag is issued as it is written, and some policy asks for it if and only if it is clean |
| `IssuedNames.BlankFlag` | policy/src/parser.rs:138-143 | the flag "role = admin" is issued and no policy asks for it, while policies do ask for its normal form |
| `Revocation.FreshTag` | revocation/src/lib.rs:67-76 | a check of the definitions: an attribute that was never revoked is tagged with epoch zero |
| `Revocation.RevocationList.RevokeAttribute` | revocation/src/lib.rs:81-88 | the attribute's epoch grows by one and no other changes |
| `Revocation.RevocationList.RevokeUser` | revocation/src/lib.rs:90-95 | the user is listed, once |
| `Revocation.RetagPreserves` | cli/src/main.rs:165-176 | the tagged attributes satisfy the retagged tree if and only if the attributes satisfy the tree |
| `Deployment.System.constructor` | cli/src/main.rs:208-225 | set-up leaves the initial state |
| `Deployment.System.CmdRegisterAuthority` | cli/src/main.rs:227-238 | the authority is registered with its trimmed, non-empty prefixes, and this is the step of the run theorems |
| `Deployment.ControlsReadBack` | cli/src/main.rs:229-233 | comma-joined, trimmed, non-empty prefixes are read back as they are |
| `ControlTexts.ControlListExactly` | cli/src/main.rs:229-233 | a text is read as a list of prefixes if and only if it writes them between commas, padded with any white space and with any blank pieces among them |
| `ControlTexts.NoControls` | cli/src/main.rs:229-233 | a blank text, the default, gives no prefixes |
| `Deployment.System.AttributeNames` | core/src/keys.rs:109-111 | the names of the key on file, once each, in some order |
| `Deployment.MergeNames` | cli/src/main.rs:292-298 | names on file are appended unless already present |
| `Deployment.System.Collect` | cli/src/main.rs:266-276 | the first denied claim, or the tags of all claims with each registered |
| `Deployment.System.CmdIssue` | cli/src/main.rs:240-318 | the whole new state and error of an issue; a refused one persists nothing |
| `Deployment.System.CmdEncrypt` | cli/src/main.rs:320-355 | the whole new state and error of an encryption, including the leaves registered before an unreadable file is noticed |
| `Deployment.System.CmdDecrypt` | cli/src/main.rs:357-387 | decryption with the key on file, changing nothing |
| `Deployment.System.CmdRevokeAttribute` | cli/src/main.rs:412-425 | only the attribute's epoch changes, and this is the step of the run theorems |
| `Deployment.System.CmdRevokeUser` | cli/src/main.rs:427-439 | only the list of revoked users changes, and this is the step of the run theorems |
| `Runs.IssueKeepsInv` | cli/src/main.rs:240-318 | an issue keeps the invariant, succeeds exactly when user, arguments and permissions allow, and otherwise changes nothing |
| `Runs.EncryptKeepsInv` | cli/src/main.rs:320-355 | an encryption keeps the invariant and succeeds exactly when the policy parses and the file is readable |
| `Runs.NextKeepsInv` | cli/src/main.rs:227-439 | every command keeps the invariant and changes only what it may |
| `RunTheorems.RunKeepsInv` | cli/src/main.rs:208-439 | the invariant holds after every run |
| `RunTheorems.CommandsSucceed` | cli/src/main.rs:240-355 | in every reachable state the cryptography itself refuses no issue and no encryption |
| `RunTheorems.KeysAreHistory` | cli/src/main.rs:265-304 | each key on file has one r, holds a tag if and only if it was granted to a name that leads to that file, and no tag from a later epoch than the current one |
| `RunTheorems.GrantsAreControlled` | cli/src/main.rs:267-276 | every attribute granted by an authority restricted at the time is under one of its prefixes |
| `RunTheorems.OpensHonest` | cli/src/main.rs:357-387 | a coherent key opens an honest package exactly when the policy holds of what was granted at the sealed epochs |
| `RunTheorems.WholeRun` | cli/src/main.rs:240-387 | in every reachable state decryption succeeds if and only if the policy holds with each leaf read as "granted to this user, by any name of the same key file, at the epoch in force when the package was sealed" |
| `RunTheorems.Continue` | cli/src/main.rs:227-439 | commitments, grants and keys on file persist, epochs never go back, revoked users stay revoked, and a file all of whose names are revoked keeps its key |
| `RunTheorems.OldKeysStayValid` | revocation/src/lib.rs:17-24 | a key once on file is coherent with the parameters of every later state |
| `RunTheorems.RevokedUntilReissued` | revocation/src/lib.rs:78-88 | after an attribute is revoked no key on file holds its current tag until it is newly granted to a name that leads to that file |
| `RunTheorems.RevokedUserFrozen` | cli/src/main.rs:156-163 | a revoked name stays revoked, and its key file stays the same in every continuation if and only if all names that lead to it are revoked |
| `RunTheorems.Reissue` | cli/src/main.rs:240-304 | any name that is not revoked can be issued a key anew, which changes its key file |
| `RunTheorems.AccessIsKept` | revocation/src/lib.rs:17-24 | what a user could open stays open until the package is sealed anew, whatever is revoked |
| `RunHistory.InitialIs` | core/src/scheme.rs:51-70 | set-up leaves exactly alpha, beta, what they determine, and nothing on file |
| `RunHistory.EpochIsCount` | revocation/src/lib.rs:67-88 | after any run an attribute's epoch is the number of its revocations |
| `RunHistory.RevokedAreCommanded` | revocation/src/lib.rs:90-99 | the revoked users are exactly those that some command revoked |
| `RunHistory.RevokedAreRefused` | cli/src/main.rs:258-261 | every issue to a revoked name is refused with that error, grants nothing and leaves the state as it was |
| `RunHistory.RegistryIsLatest` | cli/src/main.rs:227-238 | an authority is on file exactly when it was registered, with the prefixes of its latest registration |
| `RunHistory.GrantsUnderLatest` | authorities/src/lib.rs:105-124 | whatever an authority grants is under the prefixes typed in its latest registration, unless none were |
| `RunHistory.ProperExactly` | cli/src/main.rs:258-276 | an issue is proper exactly when the name is not revoked, all arguments are well formed, and the authority may issue under the text before the first '=' of each |
| `RunHistory.IssueErrors` | cli/src/main.rs:258-270 | revocation is reported first, then the first malformed argument, then the first denied claim |
| `RunHistory.ResolvedAsTyped` | cli/src/main.rs:263-276 | the claims resolve to exactly the flags and texts as typed and the thresholds of the numerics |
| `RunHistory.IssuedAsTyped` | cli/src/main.rs:240-318 | after a successful issue the key file names the user, holds the tags it held and those of everything typed at the epochs in force and no other, each is granted in the history, and other key files stay |
| `RunHistory.IssueEnabled` | cli/src/main.rs:240-304 | in every reachable state any issue can be asked for, given enough random scalars |
| `RunHistory.EncryptEnabled` | cli/src/main.rs:320-345 | so can any encryption under a policy text shorter than P |
| `EndToEnd.GrantedAsTyped` | cli/src/main.rs:240-318 | an attribute is granted to a key file at epoch e exactly when some successful issue to one of its names typed it after e revocations |
| `EndToEnd.KeyAsIssued` | cli/src/main.rs:149-163 | a key is on file exactly when some successful issue to one of its names made it |
| `EndToEnd.DecryptsAsTyped` | cli/src/main.rs:240-387 | a package encrypted under a policy text, and not replaced since, decrypts to its data key if and only if the text, read as a formula, holds of the attributes typed in the successful issues to the user's file with no revocation between issue and encryption, in either order |

## Left out

- Curve and pairing arithmetic, point encodings and the byte form of Gt elements: library code, replaced by exponents.
- The difference between G1 and G2: an element is its exponent, and the types of the source keep the groups apart.
- HKDF and AES-GCM internals, and computational hardness: the KDF is arbitrary and the AEAD ideal; only algebraic and information-theoretic statements are made.
- JSON and hex encodings, including the bytes of the additional data: the tree itself stands for its encoding.
- The file-level envelope: one more AEAD layer over the data key, which would only add an easy corollary.
- Storage, audit log, argument parsing, printing, clocks, random ids, partial file writes, unreadable key files, and a second set-up: I/O around the modelled steps.
- Zeroization: invisible to a functional model.
- The 64-bit overflow of epoch counters: epochs are unbounded.
- `authorities::issue`: the command-line tool does not call it; its loop is that of `Deployment.System.Collect` without tags.
- User names and package ids that lead out of the key and package directories, or that name no file: key files, packages and the other state are kept apart.
- RunTheorems.WholeRun: policy texts are shorter than P, as every text in memory is for the 255-bit order.
- Scheme.Keygen: requires a non-zero beta, where the source panics.
- Deployment.System.CmdEncrypt: the data key and the nonce are parameters, where the source draws them from the generator first.
- PolicyParser.Parser.ParseAtom: an unexpected token is reported as the token, where the source reports its debug text.
