/** A printer for the trees that policies denote, inverse to the parser. */
module PolicyPrinter {
  import opened Wrappers
  import opened PrimeField
  import opened Names
  import opened AccessTrees
  import opened Sharing
  import opened PolicyGrammar
  import opened PolicyParser
  import opened PolicyTheorems

  /** An attribute without quotes, parentheses and white space. */
  predicate Clean(s: string) {
    AllWordChars(s) && '\"' !in s
  }

  /** Every gate is an AND or an OR of at least two children, and every leaf is clean. */
  predicate Printable(t: AccessTree)
    decreases t
  {
    match t
    case Leaf(a) => Clean(a)
    case Gate(k, cs) => |cs| >= 2 && (k == 1 || k == |cs|) && forall c <- cs :: Printable(c)
  }

  predicate IsOr(t: AccessTree) {
    t.Gate? && t.threshold == 1
  }

  // ----- The derivation to print -----

  /** The derivation of a tree as an orExpr; ORs are spelled out, anything else is one operand. */
  function OrOfTree(t: AccessTree): OrExpr
    decreases t, if t.Leaf? then 2 else if IsOr(t) then 0 else 1
  {
    if IsOr(t) then OrExpr(AndsOf(t.children)) else OrExpr([AndOfTree(t)])
  }

  function AndsOf(cs: seq<AccessTree>): (parts: seq<AndExpr>)
    ensures |parts| == |cs|
    ensures forall i :: 0 <= i < |cs| ==> parts[i] == AndOfTree(cs[i])
    decreases cs
  {
    if cs == [] then [] else [AndOfTree(cs[0])] + AndsOf(cs[1..])
  }

  /** As an andExpr: an AND is spelled out without parentheses. */
  function AndOfTree(t: AccessTree): AndExpr
    decreases t, if t.Leaf? then 1 else if IsOr(t) then 2 else 0
  {
    if t.Gate? && !IsOr(t) then AndExpr(AtomsOf(t.children)) else AndExpr([AtomOfTree(t)])
  }

  function AtomsOf(cs: seq<AccessTree>): (atoms: seq<Atom>)
    ensures |atoms| == |cs|
    ensures forall i :: 0 <= i < |cs| ==> atoms[i] == AtomOfTree(cs[i])
    decreases cs
  {
    if cs == [] then [] else [AtomOfTree(cs[0])] + AtomsOf(cs[1..])
  }

  /** As an atom: leaves are written as they are where possible, gates are parenthesised. */
  function AtomOfTree(t: AccessTree): Atom
    decreases t, if t.Leaf? then 0 else if IsOr(t) then 1 else 2
  {
    match t
    case Leaf(a) => Name(Literal(a))
    case Gate(_, _) => Paren(OrOfTree(t))
  }

  /** Only nothing at all and the keywords need quotes to be read as attributes. */
  function Literal(s: string): string {
    if s == "" || Word(s) != Attr(s) then Quoted(s) else s
  }

  function Quoted(s: string): string {
    "\"" + s + "\""
  }

  // ----- Its text -----

  function TokenText(t: Token): string {
    match t
    case LParen => "("
    case RParen => ")"
    case And => "AND"
    case Or => "OR"
    case Attr(s) => s
  }

  /** The tokens' texts, each followed by a blank. */
  function Render(ts: seq<Token>): string {
    if ts == [] then "" else TokenText(ts[0]) + " " + Render(ts[1..])
  }

  function Print(t: AccessTree): string {
    Render(YieldOr(OrOfTree(t)))
  }

  /** Tokens whose text is read back as themselves. */
  predicate Lexable(t: Token) {
    t.Attr? ==> t.text != "" && AllWordChars(t.text) && Word(t.text) == t
  }

  /** Nothing that could continue a word. */
  predicate EndsWord(rest: string) {
    rest == "" || !WordChar(rest[0])
  }

  lemma {:induction false} LexWord(current: string, word: string, rest: string)
    requires AllWordChars(word) && EndsWord(rest)
    ensures Lex(current, word + rest) == Flush(current + word) + Lex("", rest)
    decreases word
  {
    hide Word, IsWhitespace;
    var input := word + rest;
    if word == "" {
      assert input == rest && current + word == current;
    } else {
      assert WordChar(word[0]);
      assert input[0] == word[0] && input[1..] == word[1..] + rest;
      LexWord(current + [word[0]], word[1..], rest);
      assert current + [word[0]] + word[1..] == current + word;
    }
  }

  lemma LexSpace(c: char, rest: string)
    requires IsWhitespace(c)
    ensures Lex("", [c] + rest) == Lex("", rest)
  {
    assert ([c] + rest)[1..] == rest;
  }

  lemma LexParen(t: Token, rest: string)
    requires t == LParen || t == RParen
    ensures Lex("", TokenText(t) + " " + rest) == [t] + Lex("", rest)
  {
    var input := TokenText(t) + " " + rest;
    assert input[1..] == " " + rest;
    assert (" " + rest)[1..] == rest;
    assert Lex("", " " + rest) == Lex("", rest);
  }

  lemma Keywords()
    ensures Word("AND") == And && Word("OR") == Or && AllWordChars("AND") && AllWordChars("OR")
  {
    KeywordSpellings("AND");
    KeywordSpellings("OR");
    hide Word;
    assert WordChar('A') && WordChar('N') && WordChar('D') && WordChar('O') && WordChar('R');
  }

  /** The tokenizer reads a rendering back. */
  lemma {:induction false} LexRendered(ts: seq<Token>)
    requires forall t <- ts :: Lexable(t)
    ensures Lex("", Render(ts)) == ts
  {
    hide Lex, Word, AllWordChars;
    if ts == [] {
      LexNothing();
    } else {
      var t, rest := ts[0], Render(ts[1..]);
      LexRendered(ts[1..]);
      assert t in ts;
      if t == LParen || t == RParen {
        LexParen(t, rest);
      } else {
        Keywords();
        BlankIsSpace();
        LexWord("", TokenText(t), " " + rest);
        LexSpace(' ', rest);
        assert "" + TokenText(t) == TokenText(t) && TokenText(t) + (" " + rest) == TokenText(t) + " " + rest;
      }
    }
  }

  lemma LexNothing()
    ensures Lex("", "") == []
  {
  }

  // ----- Round trip -----

  lemma {:induction false} WithoutAbsent(s: string, c: char)
    requires c !in s
    ensures Without(s, c) == s
  {
    if s != [] {
      WithoutAbsent(s[1..], c);
    }
  }

  lemma {:induction false} WithoutLast(s: string, c: char)
    requires c !in s
    ensures Without(s + [c], c) == s
  {
    if s != [] {
      WithoutLast(s[1..], c);
      assert (s + [c])[1..] == s[1..] + [c];
    }
  }

  lemma TrimClean(s: string)
    requires AllWordChars(s)
    ensures Trim(s) == s
  {
    if s != [] {
      assert WordChar(s[0]) && WordChar(s[|s| - 1]);
    }
  }

  /** Quoting a clean attribute is undone by normalization. */
  lemma NormalizeQuoted(s: string)
    requires Clean(s)
    ensures Normalize(Quoted(s)) == s
  {
    hide Trim, IsWhitespace;
    var q := '\"';
    WithoutLast(s, q);
    assert Quoted(s)[1..] == s + [q];
    assert Without(Quoted(s), q) == s;
    BlankIsSpace();
    assert ' ' !in s;
    WithoutAbsent(s, ' ');
    TrimClean(s);
  }

  lemma BlankIsSpace()
    ensures IsWhitespace(' ') && !IsWhitespace('\"')
  {
  }

  lemma NormalizeLiteral(s: string)
    requires Clean(s)
    ensures Normalize(Literal(s)) == s
  {
    hide Word, Normalize, AllWordChars;
    NormalizeQuoted(s);
    NormalizeFixed(s);
  }

  /** The printed derivation is a derivation of the tree. */
  lemma {:induction false} OrOfTreeDerives(t: AccessTree)
    requires Printable(t)
    ensures GoodOr(OrOfTree(t)) && TreeOfOr(OrOfTree(t)) == t
    decreases t, if t.Leaf? then 2 else if IsOr(t) then 0 else 1
  {
    hide Clean, AndOfTree, TreeOfAnd, GoodAnd;
    if IsOr(t) {
      forall i | 0 <= i < |t.children|
        ensures GoodAnd(AndOfTree(t.children[i])) && TreeOfAnd(AndOfTree(t.children[i])) == t.children[i]
      {
        AndOfTreeDerives(t.children[i]);
      }
      assert TreesOfAnds(AndsOf(t.children)) == t.children;
    } else {
      AndOfTreeDerives(t);
    }
  }

  lemma {:induction false} AndOfTreeDerives(t: AccessTree)
    requires Printable(t)
    ensures GoodAnd(AndOfTree(t)) && TreeOfAnd(AndOfTree(t)) == t
    decreases t, if t.Leaf? then 1 else if IsOr(t) then 2 else 0
  {
    hide Clean, AtomOfTree, TreeOfAtom, GoodAtom;
    if t.Gate? && !IsOr(t) {
      forall i | 0 <= i < |t.children|
        ensures GoodAtom(AtomOfTree(t.children[i])) && TreeOfAtom(AtomOfTree(t.children[i])) == t.children[i]
      {
        AtomOfTreeDerives(t.children[i]);
      }
      assert TreesOfAtoms(AtomsOf(t.children)) == t.children;
    } else {
      AtomOfTreeDerives(t);
    }
  }

  lemma {:induction false} AtomOfTreeDerives(t: AccessTree)
    requires Printable(t)
    ensures GoodAtom(AtomOfTree(t)) && TreeOfAtom(AtomOfTree(t)) == t
    decreases t, if t.Leaf? then 0 else if IsOr(t) then 1 else 2
  {
    hide Clean, OrOfTree, TreeOfOr, GoodOr, Normalize, Word;
    match t
    case Leaf(a) => NormalizeLiteral(a);
    case Gate(_, _) => OrOfTreeDerives(t);
  }

  lemma LiteralLexable(s: string)
    requires Clean(s)
    ensures Lexable(Attr(Literal(s)))
  {
    BlankIsSpace();
    assert Upper(Quoted(s))[0] == '\"';
  }

  lemma {:induction false} OrLexable(t: AccessTree)
    requires Printable(t)
    ensures forall x <- YieldOr(OrOfTree(t)) :: Lexable(x)
    decreases t, if t.Leaf? then 2 else if IsOr(t) then 0 else 1
  {
    hide Lexable, Clean, YieldAnd, AndOfTree;
    if IsOr(t) {
      AndLexable(t.children[0]);
      MoreAndsLexable(t.children[1..]);
      assert AndsOf(t.children)[1..] == AndsOf(t.children[1..]);
    } else {
      AndLexable(t);
      assert [AndOfTree(t)][1..] == [];
    }
  }

  lemma {:induction false} MoreAndsLexable(cs: seq<AccessTree>)
    requires forall c <- cs :: Printable(c)
    ensures forall x <- YieldMoreAnds(AndsOf(cs)) :: Lexable(x)
    decreases cs
  {
    hide Clean, YieldAnd, AndOfTree, Word, AllWordChars;
    if cs != [] {
      AndLexable(cs[0]);
      MoreAndsLexable(cs[1..]);
      assert AndsOf(cs)[1..] == AndsOf(cs[1..]);
    }
  }

  lemma {:induction false} AndLexable(t: AccessTree)
    requires Printable(t)
    ensures forall x <- YieldAnd(AndOfTree(t)) :: Lexable(x)
    decreases t, if t.Leaf? then 1 else if IsOr(t) then 2 else 0
  {
    hide Lexable, Clean, YieldAtom, AtomOfTree;
    if t.Gate? && !IsOr(t) {
      AtomLexable(t.children[0]);
      MoreAtomsLexable(t.children[1..]);
      assert AtomsOf(t.children)[1..] == AtomsOf(t.children[1..]);
    } else {
      AtomLexable(t);
      assert [AtomOfTree(t)][1..] == [];
    }
  }

  lemma {:induction false} MoreAtomsLexable(cs: seq<AccessTree>)
    requires forall c <- cs :: Printable(c)
    ensures forall x <- YieldMoreAtoms(AtomsOf(cs)) :: Lexable(x)
    decreases cs
  {
    hide Clean, YieldAtom, AtomOfTree, Word, AllWordChars;
    if cs != [] {
      AtomLexable(cs[0]);
      MoreAtomsLexable(cs[1..]);
      assert AtomsOf(cs)[1..] == AtomsOf(cs[1..]);
    }
  }

  lemma {:induction false} AtomLexable(t: AccessTree)
    requires Printable(t)
    ensures forall x <- YieldAtom(AtomOfTree(t)) :: Lexable(x)
    decreases t, if t.Leaf? then 0 else if IsOr(t) then 1 else 2
  {
    hide Clean, YieldOr, OrOfTree, Word, AllWordChars, Literal;
    match t
    case Leaf(a) => LiteralLexable(a);
    case Gate(_, _) => OrLexable(t);
  }

  /** Parsing the printed text of a tree gives the tree back. */
  lemma PrintParse(t: AccessTree)
    requires Printable(t)
    ensures Parsed(Print(t)) == Ok(t)
  {
    assert Print(t) == Render(YieldOr(OrOfTree(t)));
    hide *;
    var o := OrOfTree(t);
    OrLexable(t);
    LexRendered(YieldOr(o));
    OrOfTreeDerives(t);
    DerivesMeans(YieldOr(o), t, o);
    ParsedIffDerives(Print(t), t);
  }

  lemma DerivesMeans(ts: seq<Token>, t: AccessTree, o: OrExpr)
    requires GoodOr(o) && YieldOr(o) == ts && TreeOfOr(o) == t
    ensures Derives(ts, t)
  {
    hide GoodOr, YieldOr, TreeOfOr;
  }

  // ----- Everything the parser accepts is printable -----

  predicate CleanTokens(ts: seq<Token>) {
    forall x <- ts | x.Attr? :: AllWordChars(x.text)
  }

  lemma {:induction false} WithoutKeeps(s: string, c: char)
    ensures c !in Without(s, c)
    ensures forall x <- Without(s, c) :: x in s
  {
    if s != [] {
      WithoutKeeps(s[1..], c);
    }
  }

  lemma NormalizedClean(raw: string)
    requires AllWordChars(raw)
    ensures Clean(Normalize(raw))
  {
    hide Trim, WordChar, Without;
    WithoutKeeps(raw, '\"');
    WithoutKeeps(Without(raw, '\"'), ' ');
    TrimClean(Without(Without(raw, '\"'), ' '));
  }

  lemma GatePrintable(k: nat, ts: seq<AccessTree>, fits: bool)
    requires |ts| >= 2 && (k == 1 || k == |ts|) && (fits ==> |ts| < P)
    requires forall i :: 0 <= i < |ts| ==> Printable(ts[i]) && (fits ==> Indexable(ts[i]))
    ensures Printable(Gate(k, ts)) && (fits ==> Indexable(Gate(k, ts)))
  {
    hide Clean;
  }

  /** The tree of a derivation over clean tokens is printable, and no gate has more children
      than there are tokens. */
  lemma {:induction false} TreeOfOrPrintable(o: OrExpr)
    requires GoodOr(o) && CleanTokens(YieldOr(o))
    ensures Printable(TreeOfOr(o)) && (|YieldOr(o)| < P ==> Indexable(TreeOfOr(o)))
    decreases o
  {
    hide TreeOfAnd, YieldAnd, GoodAnd, AllWordChars;
    var a, more := o.parts[0], o.parts[1..];
    assert GoodAnd(a);
    TreeOfAndPrintable(a);
    MoreAndsPrintable(more);
    hide Printable, Indexable;
    if |o.parts| > 1 {
      var ts := TreesOfAnds(o.parts);
      forall i | 0 <= i < |ts|
        ensures Printable(ts[i]) && (|YieldOr(o)| < P ==> Indexable(ts[i]))
      {
        assert i > 0 ==> o.parts[i] == more[i - 1] && more[i - 1] in more;
      }
      GatePrintable(1, ts, |YieldOr(o)| < P);
    }
  }

  lemma {:induction false} MoreAndsPrintable(parts: seq<AndExpr>)
    requires (forall a <- parts :: GoodAnd(a)) && CleanTokens(YieldMoreAnds(parts))
    ensures forall a <- parts ::
              Printable(TreeOfAnd(a)) && (|YieldMoreAnds(parts)| < P ==> Indexable(TreeOfAnd(a)))
    ensures |parts| <= |YieldMoreAnds(parts)|
    decreases parts
  {
    hide TreeOfAnd, YieldAnd, GoodAnd, AllWordChars;
    if parts != [] {
      TreeOfAndPrintable(parts[0]);
      MoreAndsPrintable(parts[1..]);
      assert parts == [parts[0]] + parts[1..];
    }
  }

  lemma {:induction false} TreeOfAndPrintable(a: AndExpr)
    requires GoodAnd(a) && CleanTokens(YieldAnd(a))
    ensures Printable(TreeOfAnd(a)) && (|YieldAnd(a)| < P ==> Indexable(TreeOfAnd(a)))
    ensures YieldAnd(a) != []
    decreases a
  {
    hide TreeOfAtom, YieldAtom, GoodAtom, AllWordChars;
    var x, more := a.atoms[0], a.atoms[1..];
    assert GoodAtom(x);
    TreeOfAtomPrintable(x);
    MoreAtomsPrintable(more);
    hide Printable, Indexable;
    if |a.atoms| > 1 {
      var ts := TreesOfAtoms(a.atoms);
      forall i | 0 <= i < |ts|
        ensures Printable(ts[i]) && (|YieldAnd(a)| < P ==> Indexable(ts[i]))
      {
        assert i > 0 ==> a.atoms[i] == more[i - 1] && more[i - 1] in more;
      }
      GatePrintable(|ts|, ts, |YieldAnd(a)| < P);
    }
  }

  lemma {:induction false} MoreAtomsPrintable(atoms: seq<Atom>)
    requires (forall x <- atoms :: GoodAtom(x)) && CleanTokens(YieldMoreAtoms(atoms))
    ensures forall x <- atoms ::
              Printable(TreeOfAtom(x)) && (|YieldMoreAtoms(atoms)| < P ==> Indexable(TreeOfAtom(x)))
    ensures |atoms| <= |YieldMoreAtoms(atoms)|
    decreases atoms
  {
    hide TreeOfAtom, YieldAtom, GoodAtom, AllWordChars;
    if atoms != [] {
      TreeOfAtomPrintable(atoms[0]);
      MoreAtomsPrintable(atoms[1..]);
      assert atoms == [atoms[0]] + atoms[1..];
    }
  }

  lemma {:induction false} TreeOfAtomPrintable(x: Atom)
    requires GoodAtom(x) && CleanTokens(YieldAtom(x))
    ensures Printable(TreeOfAtom(x)) && (|YieldAtom(x)| < P ==> Indexable(TreeOfAtom(x)))
    ensures YieldAtom(x) != []
    decreases x
  {
    hide TreeOfOr, YieldOr, GoodOr, AllWordChars, Clean, Normalize;
    match x
    case Paren(o) =>
      assert forall y <- YieldOr(o) :: y in YieldAtom(x);
      TreeOfOrPrintable(o);
    case Name(s) =>
      assert Attr(s) in YieldAtom(x);
      NormalizedClean(s);
  }

  /** An accepted text denotes a printable tree, whose gates index their children with
      distinct non-zero scalars when the text is shorter than the group order. */
  lemma ParsedPrintable(input: string, t: AccessTree)
    requires Parsed(input) == Ok(t)
    ensures Printable(t) && (|input| < P ==> Indexable(t))
  {
    hide GoodOr, YieldOr, TreeOfOr, Lex, Printable, Indexable, ParsesPolicy, AllWordChars, Parsed;
    ParsedIffDerives(input, t);
    var o :| GoodOr(o) && YieldOr(o) == Lex("", input) && TreeOfOr(o) == t;
    assert AllWordChars("") by {
      NothingDirty();
    }
    LexedWords("", input);
    TreeOfOrPrintable(o);
  }

  lemma NothingDirty()
    ensures AllWordChars("")
  {
  }

  /** The trees that policies denote are exactly the printable ones. */
  lemma AcceptedIffPrintable(t: AccessTree)
    ensures (exists input :: Parsed(input) == Ok(t)) <==> Printable(t)
  {
    hide Parsed, Printable, Print;
    if Printable(t) {
      PrintParse(t);
    }
    if input :| Parsed(input) == Ok(t) {
      ParsedPrintable(input, t);
    }
  }

  /** Printable trees ask for at least one and at most all children at every gate. */
  lemma {:induction false} PrintableWellFormed(t: AccessTree)
    requires Printable(t)
    ensures Proper(t) && WellFormed(t)
    decreases t
  {
    if t.Gate? {
      forall c | c in t.children
        ensures Proper(c) && WellFormed(c)
      {
        PrintableWellFormed(c);
      }
    }
  }

  /** No policy names an attribute with quotes, parentheses or white space. */
  lemma PolicyLeavesClean(input: string, t: AccessTree)
    requires Parsed(input) == Ok(t)
    ensures forall a <- Leaves(t) :: Clean(a)
  {
    ParsedPrintable(input, t);
    PrintableLeaves(t);
  }

  /** Some policy has a leaf for the attribute. */
  ghost predicate AskedFor(a: string) {
    exists input, t :: Parsed(input) == Ok(t) && a in Leaves(t)
  }

  /** The attributes that some policy asks for are exactly the clean ones. */
  lemma AskedForIffClean(a: string)
    ensures AskedFor(a) <==> Clean(a)
  {
    hide Parsed, Clean, Print;
    if Clean(a) {
      PrintParse(Leaf(a));
      assert a in Leaves(Leaf(a));
    }
    if input, t :| Parsed(input) == Ok(t) && a in Leaves(t) {
      PolicyLeavesClean(input, t);
    }
  }

  /** A literal of a policy asks for the attribute as written exactly when it has no quote. */
  lemma NormalizeFixed(word: string)
    requires AllWordChars(word)
    ensures Normalize(word) == word <==> Clean(word)
  {
    hide Trim, IsWhitespace, Without;
    if Clean(word) {
      BlankIsSpace();
      assert ' ' !in word;
      WithoutAbsent(word, '\"');
      WithoutAbsent(word, ' ');
      TrimClean(word);
    } else {
      NormalizedClean(word);
    }
  }

  lemma {:induction false} PrintableLeaves(t: AccessTree)
    requires Printable(t)
    ensures forall a <- Leaves(t) :: Clean(a)
    decreases t
  {
    hide Clean;
    if t.Gate? {
      PrintableLeavesOf(t.children);
    }
  }

  lemma {:induction false} PrintableLeavesOf(cs: seq<AccessTree>)
    requires forall c <- cs :: Printable(c)
    ensures forall a <- LeavesOf(cs) :: Clean(a)
    decreases cs
  {
    hide Clean;
    if cs != [] {
      PrintableLeaves(cs[0]);
      PrintableLeavesOf(cs[1..]);
    }
  }
}
