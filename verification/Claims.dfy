/** Attribute claims: their parsing, their expansion and the prefixes an authority may issue. */
module Claims {
  import opened Wrappers
  import opened Names
  import opened AccessTrees

  datatype Claim =
    | Flag(text: string)
    | Text(key: string, value: string)
    | Numeric(key: string, number: int, max: int)
  {
    /** The flat attribute strings the claim stands for. */
    function Resolve(): seq<string> {
      match this
      case Flag(s) => [s]
      case Text(k, v) => [k + "=" + v]
      case Numeric(k, n, m) => AtLeastNames(k, Top(n, m))
    }

    function KeyPrefix(): string {
      match this
      case Flag(s) => Before(s, '=')
      case Text(k, _) => k
      case Numeric(k, _, _) => k
    }
  }

  function Top(number: int, max: int): nat {
    var top := if number < max then number else max;
    if top < 0 then 0 else top
  }

  function AtLeastName(key: string, n: nat): string {
    key + ">=" + Decimal(n)
  }

  /** key>=1 up to key>=top. */
  function AtLeastNames(key: string, top: nat): (names: seq<string>)
    ensures |names| == top
    ensures forall i :: 0 <= i < top ==> names[i] == AtLeastName(key, i + 1)
  {
    if top == 0 then [] else AtLeastNames(key, top - 1) + [AtLeastName(key, top)]
  }

  // ----- Permissions -----

  datatype AuthorityError = UnknownAuthority(name: string) | NotPermitted(name: string, prefix: string)

  /** Each registered authority with the prefixes it controls; none means unrestricted. */
  type Registry = map<string, seq<string>>

  function CheckPermission(registry: Registry, authority: string, claim: Claim): Option<AuthorityError> {
    if authority !in registry then
      Some(UnknownAuthority(authority))
    else if registry[authority] == [] || claim.KeyPrefix() in registry[authority] then
      None
    else
      Some(NotPermitted(authority, claim.KeyPrefix()))
  }

  /** The prefix that a permission is checked against is the text before the first '=' of a flag
      and the key of any other claim; it is allowed exactly by an authority without restriction or
      with that prefix. */
  lemma PermissionExactly(registry: Registry, authority: string, prefix: string, claim: Claim)
    requires match claim
             case Flag(text) => '=' !in prefix && (text == prefix || prefix + "=" <= text)
             case Text(key, _) => key == prefix
             case Numeric(key, _, _) => key == prefix
    ensures CheckPermission(registry, authority, claim)
         == if authority !in registry then Some(UnknownAuthority(authority))
            else if registry[authority] == [] || prefix in registry[authority] then None
            else Some(NotPermitted(authority, prefix))
  {
    if claim.Flag? {
      var text := claim.text;
      if text == prefix {
        BeforeNone(text, '=');
      } else {
        BeforeFirst(prefix, '=', text[|prefix| + 1..]);
        assert text == prefix + ['='] + text[|prefix| + 1..];
      }
    }
  }

  lemma {:induction false} BeforeNone(s: string, c: char)
    requires c !in s
    ensures Before(s, c) == s
  {
    if s != [] {
      BeforeNone(s[1..], c);
    }
  }

  /** The attribute's text before its first '=' is a controlled prefix, or one with ">" appended. */
  ghost predicate Controlled(controls: seq<string>, attr: string) {
    exists c <- controls :: Before(attr, '=') == c || Before(attr, '=') == c + ">"
  }

  /** Keys of text and numeric claims contain no '='. */
  predicate Keyed(claim: Claim) {
    claim.Flag? || '=' !in claim.key
  }

  /** Whatever a restricted authority may claim resolves to attributes under its prefixes. */
  lemma PermittedIsControlled(registry: Registry, authority: string, claim: Claim)
    requires CheckPermission(registry, authority, claim).None? && Keyed(claim)
    requires registry[authority] != []
    ensures forall a <- claim.Resolve() :: Controlled(registry[authority], a)
  {
    var controls := registry[authority];
    match claim
    case Flag(_) =>
    case Text(k, v) =>
      BeforeFirst(k, '=', v);
    case Numeric(k, n, m) =>
      var names := claim.Resolve();
      forall i | 0 <= i < |names|
        ensures Controlled(controls, names[i])
      {
        assert names[i] == (k + ">") + ['='] + Decimal(i + 1);
        BeforeFirst(k + ">", '=', Decimal(i + 1));
        assert Before(names[i], '=') == k + ">";
      }
  }

  // ----- Parsing claims -----

  datatype ClaimError =
    | BadText(arg: string) | BadNumeric(arg: string) | BadNumericValue(arg: string) | BadNumericMax(arg: string)

  function ParseDigits(s: string): Option<nat> {
    if s == [] then
      None
    else if !IsDigit(s[|s| - 1]) then
      None
    else
      var d := s[|s| - 1] as int - '0' as int;
      if |s| == 1 then
        Some(d)
      else
        match ParseDigits(s[..|s| - 1])
        case None => None
        case Some(n) => Some(10 * n + d)
  }

  predicate InI64(n: int) {
    -0x8000_0000_0000_0000 <= n < 0x8000_0000_0000_0000
  }

  /** A signed 64-bit decimal number with an optional sign. */
  function ParseI64(s: string): (n: Option<int>)
    ensures n.Some? ==> InI64(n.value)
  {
    var negative := s != [] && s[0] == '-';
    var digits := if s != [] && (s[0] == '-' || s[0] == '+') then s[1..] else s;
    match ParseDigits(digits)
    case None => None
    case Some(n) =>
      var value: int := if negative then 0 - n else n;
      if InI64(value) then Some(value) else None
  }

  // ----- What numerals are read as -----

  function LeadingZeros(z: nat): (zeros: string)
    ensures |zeros| == z && forall c <- zeros :: c == '0'
  {
    seq(z, _ => '0')
  }

  /** The digits of n after any number of zeros. */
  ghost predicate Spelled(s: string, n: nat) {
    exists z: nat :: s == LeadingZeros(z) + Decimal(n)
  }

  lemma {:induction false} ParseZeros(z: nat)
    requires z > 0
    ensures ParseDigits(LeadingZeros(z)) == Some(0)
  {
    if z > 1 {
      assert LeadingZeros(z)[..z - 1] == LeadingZeros(z - 1);
      ParseZeros(z - 1);
    }
  }

  lemma {:induction false} SpelledParsed(s: string, z: nat, n: nat)
    requires s == LeadingZeros(z) + Decimal(n)
    ensures ParseDigits(s) == Some(n)
    decreases n
  {
    var init, last := s[..|s| - 1], s[|s| - 1];
    if n >= 10 {
      assert init == LeadingZeros(z) + Decimal(n / 10) && last == Digit(n % 10);
      SpelledParsed(init, z, n / 10);
    } else if z > 0 {
      assert init == LeadingZeros(z) && last == Digit(n);
      ParseZeros(z);
    }
  }

  lemma {:induction false} ParsedSpelled(s: string, n: nat)
    requires ParseDigits(s) == Some(n)
    ensures Spelled(s, n)
  {
    var init, d := s[..|s| - 1], s[|s| - 1] as int - '0' as int;
    if |s| == 1 {
      assert s == LeadingZeros(0) + Decimal(n);
    } else {
      var m := ParseDigits(init).value;
      ParsedSpelled(init, m);
      assert s == init + [Digit(d)];
      hide *;
      SpelledNext(init, m, d);
    }
  }

  lemma SpelledNext(s: string, m: nat, d: nat)
    requires Spelled(s, m) && d < 10
    ensures Spelled(s + [Digit(d)], 10 * m + d)
  {
    var z: nat :| s == LeadingZeros(z) + Decimal(m);
    if m == 0 {
      assert s + [Digit(d)] == LeadingZeros(z + 1) + Decimal(d);
    } else {
      assert Decimal(10 * m + d) == Decimal(m) + [Digit(d)];
      assert s + [Digit(d)] == LeadingZeros(z) + Decimal(10 * m + d);
    }
  }

  /** Digits are read exactly when they are a decimal numeral, leading zeros or not. */
  lemma ParseDigitsExactly(s: string, n: nat)
    ensures ParseDigits(s) == Some(n) <==> Spelled(s, n)
  {
    hide ParseDigits, Decimal, LeadingZeros;
    if ParseDigits(s) == Some(n) {
      ParsedSpelled(s, n);
    }
    if z: nat :| s == LeadingZeros(z) + Decimal(n) {
      SpelledParsed(s, z, n);
    }
  }

  /** The decimal numeral of n as people write it, without leading zeros. */
  predicate IsNumeral(d: string, n: nat) {
    ParseDigits(d) == Some(n) && (|d| == 1 || d[0] != '0')
  }

  lemma {:induction false} NoLeadingZero(n: nat)
    ensures |Decimal(n)| == 1 || Decimal(n)[0] != '0'
  {
    if n >= 10 {
      NoLeadingZero(n / 10);
      assert Decimal(n)[0] == Decimal(n / 10)[0];
      if n < 100 {
        assert Decimal(n / 10) == [Digit(n / 10)];
      }
    }
  }

  lemma ZerosLead(z: nat, n: nat)
    ensures var s := LeadingZeros(z) + Decimal(n); z > 0 ==> |s| > 1 && s[0] == '0'
    ensures z == 0 ==> LeadingZeros(z) + Decimal(n) == Decimal(n)
  {
    hide Decimal;
    assert z == 0 ==> LeadingZeros(z) == [];
  }

  /** Printing a number gives its one numeral. */
  lemma DecimalIsNumeral(d: string, n: nat)
    ensures IsNumeral(d, n) <==> d == Decimal(n)
  {
    hide ParseDigits, Decimal;
    ParseDigitsExactly(d, n);
    NoLeadingZero(n);
    if IsNumeral(d, n) {
      var z: nat :| d == LeadingZeros(z) + Decimal(n);
      ZerosLead(z, n);
    }
    assert Decimal(n) == LeadingZeros(0) + Decimal(n);
  }

  function Pow10(k: nat): nat {
    if k == 0 then 1 else 10 * Pow10(k - 1)
  }

  predicate AllDigits(s: string) {
    forall c <- s :: IsDigit(c)
  }

  function DigitValue(c: char): nat
    requires IsDigit(c)
  {
    c as int - '0' as int
  }

  /** The value of digits by their places, from the left. */
  function PlaceValue(s: string): nat
    requires AllDigits(s)
  {
    if s == [] then 0 else DigitValue(s[0]) * Pow10(|s| - 1) + PlaceValue(s[1..])
  }

  lemma PlaceValueFirst(s: string)
    requires s != "" && AllDigits(s)
    ensures AllDigits(s[1..]) && PlaceValue(s) == DigitValue(s[0]) * Pow10(|s| - 1) + PlaceValue(s[1..])
  {
  }

  lemma Tenfold(v: nat, p: nat, x: nat, d: nat)
    ensures v * (10 * p) + (10 * x + d) == 10 * (v * p + x) + d
  {
  }

  lemma {:induction false} PlaceValueLast(s: string, c: char)
    requires AllDigits(s) && IsDigit(c)
    ensures AllDigits(s + [c]) && PlaceValue(s + [c]) == 10 * PlaceValue(s) + DigitValue(c)
  {
    if s == [] {
      assert [c][1..] == [] && [] + [c] == [c];
    } else {
      assert Pow10(|s|) == 10 * Pow10(|s| - 1);
      assert AllDigits(s + [c]);
      hide *;
      PlaceValueFirst(s);
      PlaceValueFirst(s + [c]);
      PlaceValueLast(s[1..], c);
      assert (s + [c])[1..] == s[1..] + [c];
      Tenfold(DigitValue(s[0]), Pow10(|s| - 1), PlaceValue(s[1..]), DigitValue(c));
    }
  }

  /** Digits are read by their places. */
  lemma {:induction false} ParseDigitsByPlace(s: string)
    ensures ParseDigits(s) == if s != "" && AllDigits(s) then Some(PlaceValue(s)) else None
  {
    if s != "" {
      var init, last := s[..|s| - 1], s[|s| - 1];
      assert s == init + [last];
      if IsDigit(last) && |s| > 1 {
        ParseDigitsByPlace(init);
        if AllDigits(init) {
          PlaceValueLast(init, last);
        }
      } else if IsDigit(last) {
        assert s == [last] && s[1..] == [];
      }
    }
  }

  /** A policy leaf key>=n, as written, is satisfied by a numeric claim exactly when n is at
      least one and at most the claim's number and its maximum. */
  lemma NumericMeansAtLeast(key: string, number: int, max: int, d: string, n: nat)
    requires IsNumeral(d, n)
    ensures IsSatisfiedBy(Leaf(key + ">=" + d), set a <- Numeric(key, number, max).Resolve())
        <==> 1 <= n <= number && n <= max
  {
    var names := Numeric(key, number, max).Resolve();
    DecimalIsNumeral(d, n);
    hide IsNumeral, Decimal;
    if 1 <= n <= number && n <= max {
      assert names[n - 1] == key + ">=" + d;
    }
    forall i | 0 <= i < |names| && names[i] == key + ">=" + d
      ensures i + 1 == n
    {
      var p := |key + ">="|;
      assert AtLeastName(key, i + 1)[p..] == Decimal(i + 1) && (key + ">=" + d)[p..] == d;
      DecimalInjective(i + 1, n);
    }
  }

  /** A numeric claim resolves to the texts key>=1 up to key>=min(number, max) and to no other. */
  lemma NumericResolvesTo(key: string, number: int, max: int, a: string)
    ensures a in Numeric(key, number, max).Resolve()
        <==> exists d, n: nat :: a == key + ">=" + d && IsNumeral(d, n) && 1 <= n <= number && n <= max
  {
    var names := Numeric(key, number, max).Resolve();
    if a in names {
      var i :| 0 <= i < |names| && names[i] == a;
      DecimalIsNumeral(Decimal(i + 1), i + 1);
    }
    if d, n: nat :| a == key + ">=" + d && IsNumeral(d, n) && 1 <= n <= number && n <= max {
      DecimalIsNumeral(d, n);
      assert names[n - 1] == a;
    }
  }

  /** The numeral of n, at most one sign in front: a minus if n is below zero, any sign if it is zero. */
  ghost predicate SignedSpelled(s: string, n: int) {
    || (n >= 0 && Spelled(s, n))
    || (s != [] && s[0] == '+' && n >= 0 && Spelled(s[1..], n))
    || (s != [] && s[0] == '-' && n <= 0 && Spelled(s[1..], 0 - n))
  }

  /** A text is read as the number that it spells, exactly within the 64-bit range. */
  lemma ParseI64Exactly(s: string, n: int)
    ensures ParseI64(s) == Some(n) <==> InI64(n) && SignedSpelled(s, n)
  {
    var digits := if s != [] && (s[0] == '-' || s[0] == '+') then s[1..] else s;
    var abs := if n < 0 then 0 - n else n;
    ParseDigitsExactly(digits, abs);
    if Spelled(s, abs) {
      SpelledDigit(s, abs);
    }
    hide ParseDigits, Spelled;
  }

  lemma SpelledDigit(s: string, n: nat)
    requires Spelled(s, n)
    ensures s != [] && s[0] != '-' && s[0] != '+'
  {
    hide Decimal;
    var z: nat :| s == LeadingZeros(z) + Decimal(n);
    assert s[0] == if z > 0 then '0' else Decimal(n)[0];
    assert IsDigit(Decimal(n)[0]);
  }

  function ParseText(arg: string): (claim: Result<Claim, ClaimError>)
    ensures claim.Ok? ==> Keyed(claim.value)
  {
    match SplitOnce(arg, '=')
    case None => Err(BadText(arg))
    case Some((k, v)) => Ok(Text(k, v))
  }

  function ParseNumeric(arg: string): (claim: Result<Claim, ClaimError>)
    ensures claim.Ok? ==> Keyed(claim.value)
  {
    match SplitOnce(arg, ':')
    case None => Err(BadNumeric(arg))
    case Some((kv, max)) =>
      match SplitOnce(kv, '=')
      case None => Err(BadNumeric(arg))
      case Some((k, v)) =>
        match ParseI64(v)
        case None => Err(BadNumericValue(arg))
        case Some(number) =>
          match ParseI64(max)
          case None => Err(BadNumericMax(arg))
          case Some(m) => Ok(Numeric(k, number, m))
  }

  /** A text claim resolves to the very argument it was parsed from. */
  lemma TextResolvesToArgument(arg: string)
    ensures ParseText(arg).Ok? <==> '=' in arg
    ensures ParseText(arg).Err? ==> ParseText(arg).error == BadText(arg)
    ensures ParseText(arg).Ok? ==> ParseText(arg).value.Resolve() == [arg]
  {
  }

  function Signed(n: int): string {
    if n < 0 then "-" + Decimal(0 - n) else Decimal(n)
  }

  lemma ParseSigned(n: int)
    requires InI64(n)
    ensures ParseI64(Signed(n)) == Some(n)
    ensures ':' !in Signed(n)
  {
    hide ParseI64, Decimal;
    var abs := if n < 0 then 0 - n else n;
    assert Decimal(abs) == LeadingZeros(0) + Decimal(abs);
    assert n < 0 ==> Signed(n)[1..] == Decimal(abs);
    ParseI64Exactly(Signed(n), n);
  }

  /** A numeric claim written out parses back to itself exactly when its key has no '=' and
      no ':' and both its numbers are 64-bit numbers. */
  lemma NumericArgument(key: string, number: int, max: int)
    ensures ParseNumeric(key + "=" + Signed(number) + ":" + Signed(max)) == Ok(Numeric(key, number, max))
        <==> '=' !in key && ':' !in key && InI64(number) && InI64(max)
  {
    var v, m := Signed(number), Signed(max);
    var kv := key + "=" + v;
    if '=' !in key && ':' !in key && InI64(number) && InI64(max) {
      hide *;
      ParseSigned(number);
      ParseSigned(max);
      assert ':' !in kv;
      SplitFirst(kv, ':', m);
      SplitFirst(key, '=', v);
      assert key + ['='] + v == kv && kv + [':'] + m == key + "=" + v + ":" + m;
      ParsedNumeric(kv + [':'] + m, key, v, m, number, max);
    } else {
      hide ParseI64, SplitOnce, Signed;
    }
  }

  lemma ParsedNumeric(arg: string, key: string, v: string, m: string, number: int, max: int)
    requires SplitOnce(arg, ':') == Some((key + ['='] + v, m)) && SplitOnce(key + ['='] + v, '=') == Some((key, v))
    requires ParseI64(v) == Some(number) && ParseI64(m) == Some(max)
    ensures ParseNumeric(arg) == Ok(Numeric(key, number, max))
  {
    hide ParseI64, SplitOnce;
  }

  /** A numeric argument is read as a claim exactly when it has the form key=number:max with
      texts that spell the two numbers. */
  lemma ParseNumericExactly(arg: string, key: string, number: int, max: int)
    ensures ParseNumeric(arg) == Ok(Numeric(key, number, max))
        <==> exists v, m :: arg == key + "=" + v + ":" + m && '=' !in key && ':' !in key
                            && ReadsAs(v, number) && ReadsAs(m, max)
  {
    hide ParseI64, ReadsAs;
    if ParseNumeric(arg) == Ok(Numeric(key, number, max)) {
      var (kv, m) := SplitOnce(arg, ':').value;
      var (k, v) := SplitOnce(kv, '=').value;
      ParseI64Exactly(v, number);
      ParseI64Exactly(m, max);
      ReadsMeans(v, number);
      ReadsMeans(m, max);
      assert arg == key + "=" + v + ":" + m;
    }
    if v, m :| arg == key + "=" + v + ":" + m && '=' !in key && ':' !in key && ReadsAs(v, number) && ReadsAs(m, max) {
      hide *;
      ReadsMeans(v, number);
      ReadsMeans(m, max);
      ParseI64Exactly(v, number);
      ParseI64Exactly(m, max);
      var kv := key + "=" + v;
      assert ':' !in kv;
      SplitFirst(kv, ':', m);
      SplitFirst(key, '=', v);
      assert key + ['='] + v == kv && kv + [':'] + m == arg;
      ParsedNumeric(arg, key, v, m, number, max);
    }
  }

  ghost predicate ReadsAs(s: string, n: int) {
    InI64(n) && SignedSpelled(s, n)
  }

  lemma ReadsMeans(s: string, n: int)
    ensures ReadsAs(s, n) <==> InI64(n) && SignedSpelled(s, n)
    ensures ReadsAs(s, n) ==> ':' !in s
  {
    var abs := if n < 0 then 0 - n else n;
    if Spelled(s, abs) {
      SpelledInDigits(s, abs);
    }
    if s != "" && Spelled(s[1..], abs) {
      SpelledInDigits(s[1..], abs);
      assert s == [s[0]] + s[1..];
    }
    hide Spelled;
  }

  lemma SpelledInDigits(s: string, n: nat)
    requires Spelled(s, n)
    ensures forall c <- s :: IsDigit(c)
  {
    hide Decimal;
    var z: nat :| s == LeadingZeros(z) + Decimal(n);
  }

  /** Which part of a numeric argument is malformed. */
  lemma NumericErrors(arg: string)
    ensures ParseNumeric(arg).Err? ==>
      ParseNumeric(arg).error
      == if ':' !in arg || '=' !in Before(arg, ':') then BadNumeric(arg)
         else
           var kv := Before(arg, ':');
           var v := kv[|Before(kv, '=')| + 1..];
           if forall n :: !ReadsAs(v, n) then BadNumericValue(arg) else BadNumericMax(arg)
  {
    hide ParseI64, ReadsAs, Before;
    var parts := SplitOnce(arg, ':');
    if parts.Some? {
      var kv := parts.value.0;
      var inner := SplitOnce(kv, '=');
      if inner.Some? {
        var (k, v) := inner.value;
        assert v == kv[|k| + 1..];
        forall n
          ensures ReadsAs(v, n) <==> ParseI64(v) == Some(n)
        {
          ReadsMeans(v, n);
          ParseI64Exactly(v, n);
        }
      }
    }
  }

  /** The claims so far followed by the parsed arguments, or the first error. */
  function ParseEach(parse: string -> Result<Claim, ClaimError>, args: seq<string>, claims: seq<Claim>):
    Result<seq<Claim>, ClaimError>
    decreases args
  {
    if args == [] then
      Ok(claims)
    else
      match parse(args[0])
      case Err(e) => Err(e)
      case Ok(c) => ParseEach(parse, args[1..], claims + [c])
  }

  function FlagClaims(flags: seq<string>): (claims: seq<Claim>)
    ensures |claims| == |flags|
    ensures forall i :: 0 <= i < |flags| ==> claims[i] == Flag(flags[i])
  {
    seq(|flags|, i requires 0 <= i < |flags| => Flag(flags[i]))
  }

  /** Flags, then texts, then numerics; the first malformed argument is the error. */
  function ClaimsFrom(flags: seq<string>, texts: seq<string>, numerics: seq<string>):
    Result<seq<Claim>, ClaimError>
  {
    match ParseEach(ParseText, texts, FlagClaims(flags))
    case Err(e) => Err(e)
    case Ok(claims) => ParseEach(ParseNumeric, numerics, claims)
  }

  /** The arguments parse one by one: the claims so far stay in front, each argument adds its own. */
  lemma {:induction false} EachByIndex(parse: string -> Result<Claim, ClaimError>, args: seq<string>,
                                       claims: seq<Claim>)
    ensures var r := ParseEach(parse, args, claims);
      match r
      case Ok(all) => |all| == |claims| + |args| && claims <= all && ParsedInOrder(parse, args, all[|claims|..])
      case Err(e) => FirstMalformed(parse, args, e)
    decreases args
  {
    hide ParsedInOrder, FirstMalformed;
    if args == [] {
      NoneInOrder(parse);
      assert claims[|claims|..] == [];
    } else {
      match parse(args[0])
      case Err(e) => MalformedHead(parse, args, e);
      case Ok(c) =>
        EachByIndex(parse, args[1..], claims + [c]);
        match ParseEach(parse, args[1..], claims + [c])
        case Err(e) => MalformedTail(parse, args, e);
        case Ok(all) =>
          assert all[..|claims| + 1] == claims + [c];
          assert all[|claims|..] == [c] + all[|claims| + 1..];
          OneMoreInOrder(parse, args, c, all[|claims| + 1..]);
    }
  }

  predicate ParsedInOrder(parse: string -> Result<Claim, ClaimError>, args: seq<string>, claims: seq<Claim>) {
    |claims| == |args| && forall i :: 0 <= i < |args| ==> parse(args[i]) == Ok(claims[i])
  }

  /** The error is that of the first argument that does not parse. */
  ghost predicate FirstMalformed(parse: string -> Result<Claim, ClaimError>, args: seq<string>, e: ClaimError) {
    exists i | 0 <= i < |args| :: parse(args[i]) == Err(e) && forall j :: 0 <= j < i ==> parse(args[j]).Ok?
  }

  lemma NoneInOrder(parse: string -> Result<Claim, ClaimError>)
    ensures ParsedInOrder(parse, [], [])
  {
  }

  lemma MalformedHead(parse: string -> Result<Claim, ClaimError>, args: seq<string>, e: ClaimError)
    requires args != [] && parse(args[0]) == Err(e)
    ensures FirstMalformed(parse, args, e)
  {
  }

  lemma MalformedTail(parse: string -> Result<Claim, ClaimError>, args: seq<string>, e: ClaimError)
    requires args != [] && parse(args[0]).Ok? && FirstMalformed(parse, args[1..], e)
    ensures FirstMalformed(parse, args, e)
  {
    var rest := args[1..];
    var i :| 0 <= i < |rest| && parse(rest[i]) == Err(e) && forall j :: 0 <= j < i ==> parse(rest[j]).Ok?;
    assert args[i + 1] == rest[i];
    assert forall j :: 0 < j < i + 1 ==> args[j] == rest[j - 1];
  }

  lemma OneMoreInOrder(parse: string -> Result<Claim, ClaimError>, args: seq<string>, c: Claim, rest: seq<Claim>)
    requires args != [] && parse(args[0]) == Ok(c) && ParsedInOrder(parse, args[1..], rest)
    ensures ParsedInOrder(parse, args, [c] + rest)
  {
    forall i | 0 < i < |args|
      ensures parse(args[i]) == Ok(([c] + rest)[i])
    {
      assert args[i] == args[1..][i - 1];
    }
  }

  /** All arguments become claims, in order: first the flags, then the texts, then the numerics;
      otherwise the first malformed text, or else the first malformed numeric, is the error. */
  lemma ClaimsByIndex(flags: seq<string>, texts: seq<string>, numerics: seq<string>)
    ensures match ClaimsFrom(flags, texts, numerics)
      case Ok(claims) =>
        && |claims| == |flags| + |texts| + |numerics|
        && (forall i :: 0 <= i < |flags| ==> claims[i] == Flag(flags[i]))
        && ParsedInOrder(ParseText, texts, claims[|flags|..|flags| + |texts|])
        && ParsedInOrder(ParseNumeric, numerics, claims[|flags| + |texts|..])
      case Err(e) =>
        || FirstMalformed(ParseText, texts, e)
        || ((forall t <- texts :: ParseText(t).Ok?) && FirstMalformed(ParseNumeric, numerics, e))
  {
    hide ParseText, ParseNumeric, ParseEach, FirstMalformed;
    EachByIndex(ParseText, texts, FlagClaims(flags));
    match ParseEach(ParseText, texts, FlagClaims(flags))
    case Err(_) =>
    case Ok(claims) =>
      EachByIndex(ParseNumeric, numerics, claims);
      match ParseEach(ParseNumeric, numerics, claims)
      case Err(_) =>
      case Ok(all) => assert all[|flags|..|flags| + |texts|] == claims[|flags|..];
  }

  method ParseClaims(flags: seq<string>, texts: seq<string>, numerics: seq<string>)
    returns (r: Result<seq<Claim>, ClaimError>)
    ensures r == ClaimsFrom(flags, texts, numerics)
  {
    var claims: seq<Claim> := [];
    for i := 0 to |flags|
      invariant claims == FlagClaims(flags)[..i]
    {
      claims := claims + [Flag(flags[i])];
    }
    assert FlagClaims(flags)[..|flags|] == FlagClaims(flags);
    assert texts[0..] == texts && numerics[0..] == numerics;
    for i := 0 to |texts|
      invariant ParseEach(ParseText, texts[i..], claims) == ParseEach(ParseText, texts, FlagClaims(flags))
    {
      assert texts[i..][0] == texts[i] && texts[i..][1..] == texts[i + 1..];
      var parts := SplitOnce(texts[i], '=');
      if parts.None? {
        return Err(BadText(texts[i]));
      }
      claims := claims + [Text(parts.value.0, parts.value.1)];
    }
    for i := 0 to |numerics|
      invariant ParseEach(ParseNumeric, numerics[i..], claims) == ClaimsFrom(flags, texts, numerics)
    {
      assert numerics[i..][0] == numerics[i] && numerics[i..][1..] == numerics[i + 1..];
      var claim := ParseNumeric(numerics[i]);
      if claim.Err? {
        return Err(claim.error);
      }
      claims := claims + [claim.value];
    }
    return Ok(claims);
  }

  lemma {:induction false} ParsedAreKeyed(flags: seq<string>, texts: seq<string>, numerics: seq<string>)
    ensures var r := ClaimsFrom(flags, texts, numerics); r.Ok? ==> forall c <- r.value :: Keyed(c)
  {
    EachKeyed(ParseText, texts, FlagClaims(flags));
    var r := ParseEach(ParseText, texts, FlagClaims(flags));
    if r.Ok? {
      EachKeyed(ParseNumeric, numerics, r.value);
    }
  }

  lemma {:induction false} EachKeyed(parse: string -> Result<Claim, ClaimError>, args: seq<string>, claims: seq<Claim>)
    requires forall c <- claims :: Keyed(c)
    requires forall a :: parse(a).Ok? ==> Keyed(parse(a).value)
    ensures var r := ParseEach(parse, args, claims); r.Ok? ==> forall c <- r.value :: Keyed(c)
    decreases args
  {
    hide Keyed;
    if args != [] && parse(args[0]).Ok? {
      EachKeyed(parse, args[1..], claims + [parse(args[0]).value]);
    }
  }
}
