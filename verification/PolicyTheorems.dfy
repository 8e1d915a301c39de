/** The parser accepts exactly the grammar, with one derivation for each token sequence. */
module PolicyTheorems {
  import opened Wrappers
  import opened AccessTrees
  import opened PolicyGrammar
  import opened PolicyParser

  // ----- Soundness: what is parsed is a derivation of what was read -----

  lemma {:induction false} OrSound(ts: seq<Token>)
    requires ParsesOr(ts).Ok?
    ensures var (o, rest) := ParsesOr(ts).value;
      GoodOr(o) && ts == YieldOr(o) + rest && !StartsWith(rest, Or) && !StartsWith(rest, And)
    decreases |ts|, 4
  {
    FirstAnd(ts);
    hide ParsesOr, ParsesAnd, ParsesMoreAnds, YieldAnd, YieldMoreAnds;
    AndSound(ts);
    var (a, rest) := ParsesAnd(ts).value;
    MoreAndsSound(rest);
    var (more, rest') := ParsesMoreAnds(rest).value;
    assert ([a] + more)[1..] == more;
    Concat3(YieldAnd(a), YieldMoreAnds(more), rest');
  }

  lemma {:induction false} MoreAndsSound(ts: seq<Token>)
    requires ParsesMoreAnds(ts).Ok? && !StartsWith(ts, And)
    ensures var (more, rest) := ParsesMoreAnds(ts).value;
      && (forall a <- more :: GoodAnd(a)) && ts == YieldMoreAnds(more) + rest
      && !StartsWith(rest, Or) && !StartsWith(rest, And)
    decreases |ts|, 3
  {
    if StartsWith(ts, Or) {
      NextOfAnds(ts);
      hide ParsesAnd, ParsesMoreAnds, YieldAnd;
      AndSound(ts[1..]);
      var (a, rest) := ParsesAnd(ts[1..]).value;
      MoreAndsSound(rest);
      var (more, rest') := ParsesMoreAnds(rest).value;
      Headed(ts);
      assert ([a] + more)[1..] == more;
      hide *;
      Concat4([Or], YieldAnd(a), YieldMoreAnds(more), rest');
    }
  }

  lemma {:induction false} AndSound(ts: seq<Token>)
    requires ParsesAnd(ts).Ok?
    ensures var (a, rest) := ParsesAnd(ts).value;
      GoodAnd(a) && ts == YieldAnd(a) + rest && !StartsWith(rest, And)
    decreases |ts|, 2
  {
    FirstAtom(ts);
    hide ParsesAnd, ParsesAtom, ParsesMoreAtoms, YieldAtom, YieldMoreAtoms;
    AtomSound(ts);
    var (x, rest) := ParsesAtom(ts).value;
    MoreAtomsSound(rest);
    var (more, rest') := ParsesMoreAtoms(rest).value;
    assert ([x] + more)[1..] == more;
    Concat3(YieldAtom(x), YieldMoreAtoms(more), rest');
  }

  lemma {:induction false} MoreAtomsSound(ts: seq<Token>)
    requires ParsesMoreAtoms(ts).Ok?
    ensures var (more, rest) := ParsesMoreAtoms(ts).value;
      (forall x <- more :: GoodAtom(x)) && ts == YieldMoreAtoms(more) + rest && !StartsWith(rest, And)
    decreases |ts|, 1
  {
    if StartsWith(ts, And) {
      NextOfAtoms(ts);
      hide ParsesAtom, ParsesMoreAtoms, YieldAtom;
      AtomSound(ts[1..]);
      var (x, rest) := ParsesAtom(ts[1..]).value;
      MoreAtomsSound(rest);
      var (more, rest') := ParsesMoreAtoms(rest).value;
      Headed(ts);
      assert ([x] + more)[1..] == more;
      hide *;
      Concat4([And], YieldAtom(x), YieldMoreAtoms(more), rest');
    }
  }

  lemma {:induction false} AtomSound(ts: seq<Token>)
    requires ParsesAtom(ts).Ok?
    ensures var (x, rest) := ParsesAtom(ts).value; GoodAtom(x) && ts == YieldAtom(x) + rest
    decreases |ts|, 0
  {
    hide ParsesOr, YieldOr, GoodOr, Suffix;
    Headed(ts);
    if ts[0] == LParen {
      OrSound(ts[1..]);
      var (o, rest) := ParsesOr(ts[1..]).value;
      assert ParsesAtom(ts).value == (Paren(o), rest[1..]) && rest != [] && rest[0] == RParen;
      assert YieldAtom(Paren(o)) == [LParen] + YieldOr(o) + [RParen] && GoodAtom(Paren(o)) == GoodOr(o);
      hide *;
      Headed(rest);
      Concat4([LParen], YieldOr(o), [RParen], rest[1..]);
    }
  }

  lemma Headed(ts: seq<Token>)
    requires ts != []
    ensures ts == [ts[0]] + ts[1..]
  {
  }

  lemma Concat3<T>(a: seq<T>, b: seq<T>, c: seq<T>)
    ensures a + (b + c) == a + b + c
  {
  }

  lemma Concat4<T>(a: seq<T>, b: seq<T>, c: seq<T>, d: seq<T>)
    ensures a + (b + (c + d)) == a + b + c + d
  {
  }

  lemma Consed(t: Token, ts: seq<Token>)
    ensures ([t] + ts)[1..] == ts && StartsWith([t] + ts, t)
  {
  }

  lemma ContinuedOk<T>(read: seq<T>, more: seq<T>, rest: seq<Token>)
    ensures Continued(read, Ok((more, rest))) == Ok((read + more, rest))
  {
  }

  // ----- Completeness: every derivation is found -----

  lemma {:induction false} OrComplete(o: OrExpr, rest: seq<Token>)
    requires GoodOr(o) && !StartsWith(rest, Or) && !StartsWith(rest, And)
    ensures ParsesOr(YieldOr(o) + rest) == Ok((o, rest))
    decreases o
  {
    hide ParsesAnd, ParsesMoreAnds, YieldAnd, GoodAnd;
    var a, more := o.parts[0], o.parts[1..];
    var after := YieldMoreAnds(more) + rest;
    assert o.parts == [a] + more;
    Concat3(YieldAnd(a), YieldMoreAnds(more), rest);
    MoreAndsStart(more, rest);
    AndComplete(a, after);
    MoreAndsComplete(more, rest);
    FirstAnd(YieldOr(o) + rest);
  }

  lemma MoreAndsStart(parts: seq<AndExpr>, rest: seq<Token>)
    requires !StartsWith(rest, And)
    ensures !StartsWith(YieldMoreAnds(parts) + rest, And)
  {
    if parts == [] {
      assert [] + rest == rest;
    }
  }

  lemma {:induction false} MoreAndsComplete(parts: seq<AndExpr>, rest: seq<Token>)
    requires (forall a <- parts :: GoodAnd(a)) && !StartsWith(rest, Or) && !StartsWith(rest, And)
    ensures ParsesMoreAnds(YieldMoreAnds(parts) + rest) == Ok((parts, rest))
    decreases parts
  {
    if parts == [] {
      assert [] + rest == rest;
    } else {
      var a, more := parts[0], parts[1..];
      assert YieldMoreAnds(parts) == [Or] + YieldAnd(a) + YieldMoreAnds(more);
      assert parts == [a] + more;
      hide *;
      var after := YieldMoreAnds(more) + rest;
      MoreAndsStart(more, rest);
      MoreAndsComplete(more, rest);
      AndComplete(a, after);
      Concat4([Or], YieldAnd(a), YieldMoreAnds(more), rest);
      Consed(Or, YieldAnd(a) + after);
      NextOfAnds([Or] + (YieldAnd(a) + after));
      ContinuedOk([a], more, rest);
    }
  }

  lemma {:induction false} AndComplete(a: AndExpr, rest: seq<Token>)
    requires GoodAnd(a) && !StartsWith(rest, And)
    ensures ParsesAnd(YieldAnd(a) + rest) == Ok((a, rest))
    decreases a
  {
    hide ParsesAtom, ParsesMoreAtoms, YieldAtom, GoodAtom;
    var x, more := a.atoms[0], a.atoms[1..];
    assert a.atoms == [x] + more;
    Concat3(YieldAtom(x), YieldMoreAtoms(more), rest);
    AtomComplete(x, YieldMoreAtoms(more) + rest);
    MoreAtomsComplete(more, rest);
    FirstAtom(YieldAnd(a) + rest);
  }

  lemma {:induction false} MoreAtomsComplete(atoms: seq<Atom>, rest: seq<Token>)
    requires (forall x <- atoms :: GoodAtom(x)) && !StartsWith(rest, And)
    ensures ParsesMoreAtoms(YieldMoreAtoms(atoms) + rest) == Ok((atoms, rest))
    decreases atoms
  {
    if atoms == [] {
      assert [] + rest == rest;
    } else {
      var x, more := atoms[0], atoms[1..];
      assert YieldMoreAtoms(atoms) == [And] + YieldAtom(x) + YieldMoreAtoms(more);
      assert atoms == [x] + more;
      hide *;
      var after := YieldMoreAtoms(more) + rest;
      MoreAtomsComplete(more, rest);
      AtomComplete(x, after);
      Concat4([And], YieldAtom(x), YieldMoreAtoms(more), rest);
      Consed(And, YieldAtom(x) + after);
      NextOfAtoms([And] + (YieldAtom(x) + after));
      ContinuedOk([x], more, rest);
    }
  }

  lemma {:induction false} AtomComplete(x: Atom, rest: seq<Token>)
    requires GoodAtom(x)
    ensures ParsesAtom(YieldAtom(x) + rest) == Ok((x, rest))
    decreases x
  {
    hide ParsesOr, YieldOr, GoodOr;
    var ts := YieldAtom(x) + rest;
    match x
    case Paren(o) =>
      OrComplete(o, [RParen] + rest);
      assert ts[1..] == YieldOr(o) + ([RParen] + rest);
      assert ([RParen] + rest)[1..] == rest;
    case Name(s) =>
      assert ts[1..] == rest;
  }

  // ----- The parser is the grammar -----

  /** The grammar derives tree t from the tokens. */
  ghost predicate Derives(ts: seq<Token>, t: AccessTree) {
    exists o :: GoodOr(o) && YieldOr(o) == ts && TreeOfOr(o) == t
  }

  /** A token sequence has at most one derivation. */
  lemma DerivationUnique(o: OrExpr, o': OrExpr)
    requires GoodOr(o) && GoodOr(o') && YieldOr(o) == YieldOr(o')
    ensures o == o'
  {
    hide *;
    NothingStarts();
    OrComplete(o, []);
    OrComplete(o', []);
    assert YieldOr(o) + [] == YieldOr(o) && YieldOr(o') + [] == YieldOr(o');
  }

  lemma NothingStarts()
    ensures !StartsWith([], Or) && !StartsWith([], And)
  {
  }

  /** A policy parses to a derivation exactly when that is the derivation of its tokens. */
  lemma ParsesIffDerivation(ts: seq<Token>, o: OrExpr)
    ensures ParsesPolicy(ts) == Ok(o) <==> GoodOr(o) && YieldOr(o) == ts
  {
    hide ParsesOr, GoodOr, YieldOr;
    if ParsesPolicy(ts) == Ok(o) {
      OrSound(ts);
      assert YieldOr(o) + [] == YieldOr(o);
    }
    if GoodOr(o) && YieldOr(o) == ts {
      OrComplete(o, []);
      assert ts + [] == ts;
    }
  }

  /** The parser accepts a text with tree t exactly when the grammar derives t from its tokens. */
  lemma ParsedIffDerives(input: string, t: AccessTree)
    ensures Parsed(input) == Ok(t) <==> Derives(Lex("", input), t)
  {
    hide ParsesPolicy, GoodOr, YieldOr, TreeOfOr, Lex;
    var ts := Lex("", input);
    if Parsed(input) == Ok(t) {
      ParsesIffDerivation(ts, ParsesPolicy(ts).value);
    }
    if Derives(ts, t) {
      var o :| GoodOr(o) && YieldOr(o) == ts && TreeOfOr(o) == t;
      ParsesIffDerivation(ts, o);
      YieldNonEmpty(o);
    }
  }

  lemma YieldNonEmpty(o: OrExpr)
    requires GoodOr(o)
    ensures YieldOr(o) != []
  {
    var a := o.parts[0];
    assert GoodAnd(a);
    var x := a.atoms[0];
    assert YieldAtom(x) != [];
  }
}
