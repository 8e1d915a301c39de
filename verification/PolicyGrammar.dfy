/** The policy language: its tokens, its grammar and the access tree of each derivation. */
module PolicyGrammar {
  import opened Names
  import opened AccessTrees

  datatype Token = LParen | RParen | And | Or | Attr(text: string)

  // ----- Lexing -----

  function Upper(s: string): (u: string)
    ensures |u| == |s|
    ensures forall i :: 0 <= i < |s| ==> u[i] == UpperChar(s[i])
  {
    if s == [] then [] else [UpperChar(s[0])] + Upper(s[1..])
  }

  function UpperChar(c: char): char {
    if 'a' <= c <= 'z' then (c as int - 32) as char else c
  }

  /** Keywords are recognised in any letter case; every other word is an attribute. */
  function Word(word: string): Token {
    if Upper(word) == "AND" then And else if Upper(word) == "OR" then Or else Attr(word)
  }

  /** Exactly the spellings of AND and OR in any mix of cases are keywords. */
  lemma KeywordSpellings(word: string)
    ensures Word(word) == And <==>
      |word| == 3 && word[0] in {'A', 'a'} && word[1] in {'N', 'n'} && word[2] in {'D', 'd'}
    ensures Word(word) == Or <==> |word| == 2 && word[0] in {'O', 'o'} && word[1] in {'R', 'r'}
  {
    var u := Upper(word);
    assert u == "AND" <==> |u| == 3 && u[0] == 'A' && u[1] == 'N' && u[2] == 'D';
    assert u == "OR" <==> |u| == 2 && u[0] == 'O' && u[1] == 'R';
  }

  function Flush(current: string): seq<Token> {
    if current == "" then [] else [Word(current)]
  }

  /** The tokens of `input` when the word `current` has just been read. */
  function Lex(current: string, input: string): seq<Token>
    decreases input
  {
    if input == "" then
      Flush(current)
    else
      var c, rest := input[0], input[1..];
      if c == '(' then Flush(current) + [LParen] + Lex("", rest)
      else if c == ')' then Flush(current) + [RParen] + Lex("", rest)
      else if IsWhitespace(c) then Flush(current) + Lex("", rest)
      else Lex(current + [c], rest)
  }

  /** Reading the character at position i. */
  lemma LexNext(current: string, input: string, i: nat)
    requires i < |input|
    ensures var c, rest := input[i], input[i + 1..];
      Lex(current, input[i..])
      == if c == '(' then Flush(current) + [LParen] + Lex("", rest)
         else if c == ')' then Flush(current) + [RParen] + Lex("", rest)
         else if IsWhitespace(c) then Flush(current) + Lex("", rest)
         else Lex(current + [c], rest)
  {
    hide Flush, IsWhitespace;
    assert input[i..][1..] == input[i + 1..];
  }

  lemma LexEnd(current: string)
    ensures Lex(current, "") == Flush(current)
  {
  }

  method Tokenize(input: string) returns (tokens: seq<Token>)
    ensures tokens == Lex("", input)
  {
    hide Lex, Flush, IsWhitespace;
    tokens := [];
    var current := "";
    assert input[0..] == input;
    for i := 0 to |input|
      invariant tokens + Lex(current, input[i..]) == Lex("", input)
    {
      var c := input[i];
      LexNext(current, input, i);
      if c == '(' {
        tokens := tokens + Flush(current) + [LParen];
        current := "";
      } else if c == ')' {
        tokens := tokens + Flush(current) + [RParen];
        current := "";
      } else if IsWhitespace(c) {
        tokens := tokens + Flush(current);
        current := "";
      } else {
        current := current + [c];
      }
    }
    LexEnd(current);
    assert input[|input|..] == "";
    tokens := tokens + Flush(current);
  }

  /** Characters that can occur inside a word. */
  predicate WordChar(c: char) {
    c != '(' && c != ')' && !IsWhitespace(c)
  }

  predicate AllWordChars(s: string) {
    forall c <- s :: WordChar(c)
  }

  /** Attribute tokens are non-empty words, and there are no more tokens than characters. */
  lemma {:induction false} LexedWords(current: string, input: string)
    requires AllWordChars(current)
    ensures forall t <- Lex(current, input) | t.Attr? :: t.text != "" && AllWordChars(t.text)
    ensures |Lex(current, input)| <= (if current == "" then 0 else 1) + |input|
    decreases input
  {
    hide IsWhitespace;
    if input != "" {
      var c := input[0];
      if WordChar(c) {
        LexedWords(current + [c], input[1..]);
      } else {
        LexedWords("", input[1..]);
      }
    }
  }

  // ----- Grammar -----

  /** orExpr: one or more andExpr separated by OR. */
  datatype OrExpr = OrExpr(parts: seq<AndExpr>)

  /** andExpr: one or more atoms separated by AND. */
  datatype AndExpr = AndExpr(atoms: seq<Atom>)

  /** atom: a parenthesised orExpr or a non-empty attribute. */
  datatype Atom = Paren(inner: OrExpr) | Name(text: string)

  predicate GoodOr(o: OrExpr)
    decreases o
  {
    o.parts != [] && forall a <- o.parts :: GoodAnd(a)
  }

  predicate GoodAnd(a: AndExpr)
    decreases a
  {
    a.atoms != [] && forall x <- a.atoms :: GoodAtom(x)
  }

  predicate GoodAtom(x: Atom)
    decreases x
  {
    match x
    case Paren(o) => GoodOr(o)
    case Name(s) => s != ""
  }

  /** The token sequence that a derivation spells. */
  function YieldOr(o: OrExpr): seq<Token>
    decreases o
  {
    if o.parts == [] then [] else YieldAnd(o.parts[0]) + YieldMoreAnds(o.parts[1..])
  }

  function YieldMoreAnds(parts: seq<AndExpr>): seq<Token>
    decreases parts
  {
    if parts == [] then [] else [Or] + YieldAnd(parts[0]) + YieldMoreAnds(parts[1..])
  }

  function YieldAnd(a: AndExpr): seq<Token>
    decreases a
  {
    if a.atoms == [] then [] else YieldAtom(a.atoms[0]) + YieldMoreAtoms(a.atoms[1..])
  }

  function YieldMoreAtoms(atoms: seq<Atom>): seq<Token>
    decreases atoms
  {
    if atoms == [] then [] else [And] + YieldAtom(atoms[0]) + YieldMoreAtoms(atoms[1..])
  }

  function YieldAtom(x: Atom): seq<Token>
    decreases x
  {
    match x
    case Paren(o) => [LParen] + YieldOr(o) + [RParen]
    case Name(s) => [Attr(s)]
  }

  // ----- Meaning -----

  function Without(s: string, c: char): string {
    if s == [] then [] else (if s[0] == c then [] else [s[0]]) + Without(s[1..], c)
  }

  /** Drops quotes and blanks and trims the ends of an attribute literal. */
  function Normalize(raw: string): string {
    Trim(Without(Without(raw, '\"'), ' '))
  }

  /** The access tree of a derivation: a single operand stands for itself. */
  function TreeOfOr(o: OrExpr): AccessTree
    decreases o
  {
    if |o.parts| == 1 then TreeOfAnd(o.parts[0]) else OrGate(TreesOfAnds(o.parts))
  }

  function TreesOfAnds(parts: seq<AndExpr>): (ts: seq<AccessTree>)
    ensures |ts| == |parts|
    ensures forall i :: 0 <= i < |parts| ==> ts[i] == TreeOfAnd(parts[i])
    decreases parts
  {
    if parts == [] then [] else [TreeOfAnd(parts[0])] + TreesOfAnds(parts[1..])
  }

  function TreeOfAnd(a: AndExpr): AccessTree
    decreases a
  {
    if |a.atoms| == 1 then TreeOfAtom(a.atoms[0]) else AndGate(TreesOfAtoms(a.atoms))
  }

  function TreesOfAtoms(atoms: seq<Atom>): (ts: seq<AccessTree>)
    ensures |ts| == |atoms|
    ensures forall i :: 0 <= i < |atoms| ==> ts[i] == TreeOfAtom(atoms[i])
    decreases atoms
  {
    if atoms == [] then [] else [TreeOfAtom(atoms[0])] + TreesOfAtoms(atoms[1..])
  }

  function TreeOfAtom(x: Atom): AccessTree
    decreases x
  {
    match x
    case Paren(o) => TreeOfOr(o)
    case Name(s) => Leaf(Normalize(s))
  }
}
