/** Attributes as they are issued against attributes as policies ask for them: only the policy
    side drops blanks and quotes. */
module IssuedNames {
  import opened Wrappers
  import opened Names
  import opened PolicyGrammar
  import opened PolicyParser
  import opened PolicyPrinter
  import opened Claims

  /** Any text is issued as it stands when given as a flag; some policy asks for what is issued
      exactly when it has no quote, no parenthesis and no white space. */
  lemma FlagIsIssuedRaw(flag: string)
    ensures ClaimsFrom([flag], [], []) == Ok([Flag(flag)]) && Flag(flag).Resolve() == [flag]
    ensures AskedFor(flag) <==> Clean(flag)
  {
    assert FlagClaims([flag]) == [Flag(flag)];
    hide Parsed, Clean, AskedFor;
    AskedForIffClean(flag);
  }

  /** The flag "role = admin" is issued, yet the leaf of every policy about it reads "role=admin". */
  lemma BlankFlag()
    ensures var flag := "role = admin";
      && ClaimsFrom([flag], [], []) == Ok([Flag(flag)]) && Flag(flag).Resolve() == [flag]
      && !AskedFor(flag) && Normalize(flag) == "role=admin" && AskedFor(Normalize(flag))
  {
    var flag, asked := "role = admin", "role=admin";
    hide *;
    FlagIsIssuedRaw(flag);
    FlagIsIssuedRaw(asked);
    BlankNotClean(flag, 4);
    AskedClean();
    BlanksDropped();
  }

  lemma BlankNotClean(s: string, i: nat)
    requires i < |s| && s[i] == ' '
    ensures !Clean(s)
  {
    assert !WordChar(s[i]);
  }

  lemma AskedClean()
    ensures Clean("role=admin")
  {
  }

  lemma AskedTrimmed()
    ensures Trim("role=admin") == "role=admin"
  {
    AskedClean();
    hide Trim;
    TrimClean("role=admin");
  }

  lemma BlanksDropped()
    ensures Normalize("role = admin") == "role=admin"
  {
    var flag, asked := "role = admin", "role=admin";
    hide Clean, Trim, Without;
    WithoutAbsent(flag, '\"');
    assert Without(flag, ' ') == asked by {
      DropBlank("role", "= admin");
      DropBlank("=", "admin");
      assert flag == "role" + " " + "= admin" && "= admin" == "=" + " " + "admin";
      WithoutAbsent("admin", ' ');
    }
    assert Trim(asked) == asked by {
      AskedTrimmed();
    }
  }

  lemma {:induction false} DropBlank(s: string, rest: string)
    requires ' ' !in s
    ensures Without(s + " " + rest, ' ') == s + Without(rest, ' ')
  {
    var whole := s + " " + rest;
    if s == [] {
      assert whole[1..] == rest;
    } else {
      DropBlank(s[1..], rest);
      assert whole[1..] == s[1..] + " " + rest;
    }
  }

  /** A tag is the attribute, the mark and the epoch's decimal numeral. */
  lemma TagAsWritten(base: string, d: string, n: nat)
    requires IsNumeral(d, n)
    ensures Tag(base, n) == base + "@epoch" + d
  {
    hide Decimal, IsNumeral;
    DecimalIsNumeral(d, n);
  }
}
