/** Policies as people write them: any layout of the tokens, and what the text means. */
module PolicyText {
  import opened Wrappers
  import opened Names
  import opened AccessTrees
  import opened PolicyGrammar
  import opened PolicyParser
  import opened PolicyTheorems
  import opened PolicyPrinter

  // ----- Layout -----

  predicate SpellsAnd(w: string) {
    |w| == 3 && w[0] in {'A', 'a'} && w[1] in {'N', 'n'} && w[2] in {'D', 'd'}
  }

  predicate SpellsOr(w: string) {
    |w| == 2 && w[0] in {'O', 'o'} && w[1] in {'R', 'r'}
  }

  /** The word is an attribute written as it is. */
  predicate SpellsName(w: string) {
    w != "" && AllWordChars(w) && !SpellsAnd(w) && !SpellsOr(w)
  }

  /** The word is a way to write the token. */
  predicate Spells(w: string, t: Token) {
    match t
    case LParen => w == "("
    case RParen => w == ")"
    case And => SpellsAnd(w)
    case Or => SpellsOr(w)
    case Attr(s) => w == s && SpellsName(w)
  }

  /** White space, then a way to write the token; a word is followed by white space, a
      parenthesis or nothing. */
  predicate Begins(text: string, t: Token, gap: string, word: string, rest: string) {
    && text == gap + word + rest && AllSpace(gap) && Spells(word, t)
    && (t == LParen || t == RParen || EndsWord(rest))
  }

  /** The text writes the tokens one after another, with any white space around them. */
  ghost predicate Writes(text: string, ts: seq<Token>)
    decreases ts
  {
    if ts == [] then AllSpace(text)
    else exists gap, word, rest :: Begins(text, ts[0], gap, word, rest) && Writes(rest, ts[1..])
  }

  lemma WriteToken(text: string, t: Token, gap: string, word: string, rest: string, ts: seq<Token>)
    requires Begins(text, t, gap, word, rest) && Writes(rest, ts)
    ensures Writes(text, [t] + ts)
  {
    hide Begins;
    var all := [t] + ts;
    assert all[0] == t && all[1..] == ts;
  }

  lemma {:induction false} LexGap(gap: string, rest: string)
    requires AllSpace(gap)
    ensures Lex("", gap + rest) == Lex("", rest)
  {
    if gap == "" {
      assert gap + rest == rest;
    } else {
      LexGap(gap[1..], rest);
      LexSpace(gap[0], gap[1..] + rest);
      assert gap + rest == [gap[0]] + (gap[1..] + rest);
    }
  }

  lemma SpelledWord(word: string, t: Token)
    requires Spells(word, t) && t != LParen && t != RParen
    ensures AllWordChars(word) && Flush(word) == [t]
  {
    KeywordSpellings(word);
    hide Upper;
    if t == And || t == Or {
      assert forall i :: 0 <= i < |word| ==> WordChar(word[i]);
    }
  }

  lemma LexToken(t: Token, word: string, rest: string)
    requires Spells(word, t) && (t == LParen || t == RParen || EndsWord(rest))
    ensures Lex("", word + rest) == [t] + Lex("", rest)
  {
    if t == LParen || t == RParen {
      assert (word + rest)[0] == word[0] && (word + rest)[1..] == rest;
      assert Flush("") == [];
    } else {
      hide *;
      SpelledWord(word, t);
      LexWord("", word, rest);
      assert "" + word == word;
    }
  }

  lemma {:induction false} LexOfWriting(text: string, ts: seq<Token>)
    requires Writes(text, ts)
    ensures Lex("", text) == ts
    decreases ts
  {
    if ts == [] {
      LexGap(text, "");
      assert text + "" == text;
      LexNothing();
    } else {
      var gap, word, rest :| Begins(text, ts[0], gap, word, rest) && Writes(rest, ts[1..]);
      hide Lex, Writes, Spells, AllSpace;
      assert text == gap + (word + rest);
      LexGap(gap, word + rest);
      LexToken(ts[0], word, rest);
      LexOfWriting(rest, ts[1..]);
    }
  }

  lemma SpaceBefore(c: char, text: string, ts: seq<Token>)
    requires IsWhitespace(c) && Writes(text, ts)
    ensures Writes([c] + text, ts)
  {
    if ts != [] {
      var gap, word, rest :| Begins(text, ts[0], gap, word, rest) && Writes(rest, ts[1..]);
      assert [c] + text == [c] + gap + word + rest;
      assert Begins([c] + text, ts[0], [c] + gap, word, rest);
    }
  }

  /** Any word is written for the token that it becomes. */
  lemma WordBefore(current: string, rest: string, ts: seq<Token>)
    requires AllWordChars(current) && EndsWord(rest) && Writes(rest, ts)
    ensures Writes(current + rest, Flush(current) + ts)
  {
    hide Writes;
    if current == "" {
      assert current + rest == rest && [] + ts == ts;
    } else {
      KeywordSpellings(current);
      assert current + rest == "" + current + rest;
      assert Begins(current + rest, Word(current), "", current, rest);
      WriteToken(current + rest, Word(current), "", current, rest, ts);
    }
  }

  /** Every text writes the tokens read from it. */
  lemma {:induction false} WritingOfLex(current: string, input: string)
    requires AllWordChars(current)
    ensures Writes(current + input, Lex(current, input))
    decreases input
  {
    hide Writes, Flush, Spells;
    if input == "" {
      assert Writes("", []) by {
        NothingWritten();
      }
      WordBefore(current, "", []);
      assert Flush(current) + [] == Flush(current);
    } else {
      var c, rest := input[0], input[1..];
      assert input == [c] + rest;
      if WordChar(c) {
        WritingOfLex(current + [c], rest);
        assert current + [c] + rest == current + input;
      } else {
        WritingOfLex("", rest);
        assert "" + rest == rest;
        BreakWritten(c, rest);
        WordBefore(current, input, Lex("", input));
        LexBreak(current, input);
      }
    }
  }

  lemma NothingWritten()
    ensures Writes("", [])
  {
  }

  function BreakTokens(c: char): seq<Token> {
    if c == '(' then [LParen] else if c == ')' then [RParen] else []
  }

  lemma LexAtBreak(current: string, input: string)
    requires input != "" && !WordChar(input[0])
    ensures Lex(current, input) == Flush(current) + BreakTokens(input[0]) + Lex("", input[1..])
  {
    hide Flush, IsWhitespace;
    assert Flush(current) + [] == Flush(current);
  }

  lemma LexBreak(current: string, input: string)
    requires input != "" && !WordChar(input[0])
    ensures Lex(current, input) == Flush(current) + Lex("", input)
  {
    assert Flush("") == [];
    hide *;
    LexAtBreak(current, input);
    LexAtBreak("", input);
    var mark, rest := BreakTokens(input[0]), Lex("", input[1..]);
    assert [] + mark == mark;
    JoinThree(Flush(current), mark, rest);
  }

  lemma BreakWritten(c: char, rest: string)
    requires !WordChar(c) && Writes(rest, Lex("", rest))
    ensures Writes([c] + rest, Lex("", [c] + rest))
  {
    hide Writes;
    var text := [c] + rest;
    if c == '(' || c == ')' {
      var t := if c == '(' then LParen else RParen;
      LexToken(t, [c], rest);
      assert text == "" + [c] + rest;
      assert Begins(text, t, "", [c], rest);
      WriteToken(text, t, "", [c], rest, Lex("", rest));
    } else {
      LexSpace(c, rest);
      SpaceBefore(c, rest, Lex("", rest));
    }
  }

  /** The tokenizer reads exactly the tokens that a text writes. */
  lemma LexExactly(text: string, ts: seq<Token>)
    ensures Lex("", text) == ts <==> Writes(text, ts)
  {
    hide *;
    WritingOfLex("", text) by {
      NothingDirty();
    }
    assert "" + text == text;
    if Writes(text, ts) {
      LexOfWriting(text, ts);
    }
  }

  // ----- Policies -----

  /** A text is accepted with a tree exactly when it writes a derivation of the tree. */
  lemma ParsedIffWritten(text: string, t: AccessTree)
    ensures Parsed(text) == Ok(t) <==> exists ts :: Writes(text, ts) && Derives(ts, t)
  {
    hide *;
    ParsedIffDerives(text, t);
    LexExactly(text, Lex("", text));
    forall ts | Writes(text, ts)
      ensures ts == Lex("", text)
    {
      LexExactly(text, ts);
    }
  }

  /** Every layout of a printable tree is read back, not only the one that is printed. */
  lemma AnyLayout(t: AccessTree, text: string)
    requires Printable(t) && Writes(text, YieldOr(OrOfTree(t)))
    ensures Parsed(text) == Ok(t)
  {
    hide *;
    OrOfTreeDerives(t);
    DerivesMeans(YieldOr(OrOfTree(t)), t, OrOfTree(t));
    ParsedIffWritten(text, t);
  }

  /** A clean word that is no keyword is a policy: it asks for the attribute as written. */
  lemma WordPolicy(w: string)
    requires Clean(w) && SpellsName(w)
    ensures Parsed(w) == Ok(Leaf(w))
  {
    hide Parsed, Clean, Writes, Derives, GoodOr, YieldOr;
    NameDerives(w);
    assert w == "" + w + "";
    NothingWritten();
    assert Begins(w, Attr(w), "", w, "");
    WriteToken(w, Attr(w), "", w, "", []);
    assert [Attr(w)] + [] == [Attr(w)];
    ParsedIffWritten(w, Leaf(w));
  }

  lemma NameDerives(w: string)
    requires Clean(w) && w != ""
    ensures Derives([Attr(w)], Leaf(w))
  {
    hide Normalize, AllWordChars;
    NormalizeFixed(w);
    var atom := Name(w);
    var all := AndExpr([atom]);
    var o := OrExpr([all]);
    assert o.parts[1..] == [] && all.atoms[1..] == [];
    assert YieldMoreAtoms([]) == [] && YieldMoreAnds([]) == [];
    assert YieldAtom(atom) == [Attr(w)] && TreeOfAtom(atom) == Leaf(w) && GoodAtom(atom);
    assert YieldAnd(all) == [Attr(w)] && TreeOfAnd(all) == Leaf(w) && GoodAnd(all);
    assert YieldOr(o) == [Attr(w)] && TreeOfOr(o) == Leaf(w) && GoodOr(o);
  }

  /** (a AND b) OR c, parentheses tight against the words, any white space around the operators. */
  lemma TypicalPolicy(a: string, b: string, c: string, g1: string, g2: string, g3: string, g4: string)
    requires Clean(a) && SpellsName(a) && Clean(b) && SpellsName(b) && Clean(c) && SpellsName(c)
    requires AllSpace(g1) && AllSpace(g2) && AllSpace(g3) && AllSpace(g4) && g1 != "" && g2 != "" && g4 != ""
    ensures Parsed("(" + a + g1 + "AND" + g2 + b + ")" + g3 + "OR" + g4 + c)
         == Ok(Gate(1, [Gate(2, [Leaf(a), Leaf(b)]), Leaf(c)]))
  {
    assert a != "" && b != "" && c != "";
    hide *;
    var tail := WriteTail(c, g3, g4);
    var text := WriteGroup(a, b, g1, g2, tail, [Or, Attr(c)]);
    assert text == "(" + a + g1 + "AND" + g2 + b + ")" + g3 + "OR" + g4 + c;
    TypicalDerives(a, b, c);
    ParsedIffWritten(text, Gate(1, [Gate(2, [Leaf(a), Leaf(b)]), Leaf(c)]));
  }

  lemma WriteTail(c: string, g3: string, g4: string) returns (text: string)
    requires SpellsName(c) && AllSpace(g3) && AllSpace(g4) && g4 != ""
    ensures text == g3 + "OR" + g4 + c && Writes(text, [Or, Attr(c)])
  {
    assert Spells("OR", Or) && Spells(c, Attr(c)) && EndsWord("");
    hide *;
    NothingWritten();
    var name := WriteNext(Attr(c), g4, c, "", []);
    GapEndsWord(g4, c + "");
    assert g4 + (c + "") == name && [Attr(c)] + [] == [Attr(c)];
    text := WriteNext(Or, g3, "OR", name, [Attr(c)]);
    assert text == g3 + "OR" + g4 + c && [Or] + [Attr(c)] == [Or, Attr(c)];
  }

  lemma WriteGroup(a: string, b: string, g1: string, g2: string, tail: string, ts: seq<Token>) returns (text: string)
    requires SpellsName(a) && SpellsName(b) && AllSpace(g1) && AllSpace(g2) && g1 != "" && g2 != ""
    requires Writes(tail, ts)
    ensures text == "(" + a + g1 + "AND" + g2 + b + ")" + tail
    ensures Writes(text, [LParen, Attr(a), And, Attr(b), RParen] + ts)
  {
    assert AllSpace("") && Spells("(", LParen) && Spells(")", RParen) && Spells("AND", And);
    assert Spells(a, Attr(a)) && Spells(b, Attr(b));
    hide *;
    var close := WriteNext(RParen, "", ")", tail, ts);
    ParenEndsWord(close);
    var second := WriteNext(Attr(b), g2, b, close, [RParen] + ts);
    GapEndsWord(g2, b + close);
    assert g2 + (b + close) == second;
    var and := WriteNext(And, g1, "AND", second, [Attr(b)] + ([RParen] + ts));
    GapEndsWord(g1, "AND" + second);
    assert g1 + ("AND" + second) == and;
    var first := WriteNext(Attr(a), "", a, and, [And] + ([Attr(b)] + ([RParen] + ts)));
    text := WriteNext(LParen, "", "(", first, [Attr(a)] + ([And] + ([Attr(b)] + ([RParen] + ts))));
    GroupTokens(Attr(a), Attr(b), ts);
    GroupText(a, b, g1, g2, tail);
  }

  lemma GroupTokens(a: Token, b: Token, ts: seq<Token>)
    ensures [LParen] + ([a] + ([And] + ([b] + ([RParen] + ts)))) == [LParen, a, And, b, RParen] + ts
  {
  }

  lemma GroupText(a: string, b: string, g1: string, g2: string, tail: string)
    ensures "" + "(" + ("" + a + (g1 + "AND" + (g2 + b + ("" + ")" + tail))))
         == "(" + a + g1 + "AND" + g2 + b + ")" + tail
  {
  }

  lemma WriteNext(t: Token, gap: string, word: string, rest: string, ts: seq<Token>) returns (text: string)
    requires AllSpace(gap) && Spells(word, t) && (t == LParen || t == RParen || EndsWord(rest)) && Writes(rest, ts)
    ensures text == gap + word + rest && Writes(text, [t] + ts)
  {
    hide Writes, Spells, AllSpace, EndsWord;
    text := gap + word + rest;
    WriteToken(text, t, gap, word, rest, ts);
  }

  lemma GapEndsWord(gap: string, rest: string)
    requires AllSpace(gap) && gap != ""
    ensures EndsWord(gap + rest)
  {
    assert (gap + rest)[0] == gap[0];
  }

  lemma ParenEndsWord(text: string)
    requires text != "" && text[0] == ')'
    ensures EndsWord(text)
  {
  }

  lemma TypicalDerives(a: string, b: string, c: string)
    requires Clean(a) && Clean(b) && Clean(c) && a != "" && b != "" && c != ""
    ensures Derives([LParen, Attr(a), And, Attr(b), RParen] + [Or, Attr(c)],
                    Gate(1, [Gate(2, [Leaf(a), Leaf(b)]), Leaf(c)]))
  {
    NormalizeClean(a);
    NormalizeClean(b);
    NormalizeClean(c);
    hide *;
    var o := OrExpr([AndExpr([Paren(OrExpr([AndExpr([Name(a), Name(b)])]))]), AndExpr([Name(c)])]);
    TypicalGood(a, b, c);
    TypicalYield(a, b, c);
    TypicalTree(a, b, c);
    DerivesMeans(YieldOr(o), TreeOfOr(o), o);
  }

  lemma TypicalGood(a: string, b: string, c: string)
    requires a != "" && b != "" && c != ""
    ensures GoodOr(OrExpr([AndExpr([Paren(OrExpr([AndExpr([Name(a), Name(b)])]))]), AndExpr([Name(c)])]))
  {
    var ab, only := AndExpr([Name(a), Name(b)]), AndExpr([Name(c)]);
    assert GoodAtom(Name(a)) && GoodAtom(Name(b)) && GoodAtom(Name(c));
    assert GoodAnd(ab) && GoodAnd(only);
    assert GoodOr(OrExpr([ab])) && GoodAtom(Paren(OrExpr([ab]))) && GoodAnd(AndExpr([Paren(OrExpr([ab]))]));
  }

  lemma YieldOne(x: Atom)
    ensures YieldAnd(AndExpr([x])) == YieldAtom(x)
  {
    assert [x][1..] == [];
    hide YieldAtom;
  }

  lemma TypicalYield(a: string, b: string, c: string)
    ensures YieldOr(OrExpr([AndExpr([Paren(OrExpr([AndExpr([Name(a), Name(b)])]))]), AndExpr([Name(c)])]))
         == [LParen, Attr(a), And, Attr(b), RParen] + [Or, Attr(c)]
  {
    var ab, only := AndExpr([Name(a), Name(b)]), AndExpr([Name(c)]);
    var group := Paren(OrExpr([ab]));
    YieldOne(group);
    YieldOne(Name(c));
    YieldTwo(Name(a), Name(b));
    assert YieldAtom(Name(a)) == [Attr(a)] && YieldAtom(Name(b)) == [Attr(b)] && YieldAtom(Name(c)) == [Attr(c)];
    assert YieldOr(OrExpr([ab])) == YieldAnd(ab) by {
      YieldOnly(ab);
    }
    assert YieldAtom(group) == [LParen] + YieldOr(OrExpr([ab])) + [RParen];
    hide *;
    YieldPair(AndExpr([group]), only);
  }

  lemma YieldOnly(a: AndExpr)
    ensures YieldOr(OrExpr([a])) == YieldAnd(a)
  {
    assert [a][1..] == [];
    hide YieldAnd;
  }

  lemma YieldTwo(x: Atom, y: Atom)
    ensures YieldAnd(AndExpr([x, y])) == YieldAtom(x) + ([And] + YieldAtom(y))
  {
    hide YieldAtom;
    assert [x, y][1..] == [y] && [y][1..] == [];
    assert YieldMoreAtoms([y]) == [And] + YieldAtom(y) + YieldMoreAtoms([]);
  }

  lemma YieldPair(a: AndExpr, b: AndExpr)
    ensures YieldOr(OrExpr([a, b])) == YieldAnd(a) + ([Or] + YieldAnd(b))
  {
    hide YieldAnd;
    assert [a, b][1..] == [b] && [b][1..] == [];
    assert YieldMoreAnds([b]) == [Or] + YieldAnd(b) + YieldMoreAnds([]);
  }

  lemma TypicalTree(a: string, b: string, c: string)
    requires Normalize(a) == a && Normalize(b) == b && Normalize(c) == c
    ensures var group := AndExpr([Paren(OrExpr([AndExpr([Name(a), Name(b)])]))]);
      TreeOfOr(OrExpr([group, AndExpr([Name(c)])])) == Gate(1, [Gate(2, [Leaf(a), Leaf(b)]), Leaf(c)])
  {
    hide Normalize;
    var ab := AndExpr([Name(a), Name(b)]);
    var inner := OrExpr([ab]);
    var group, only := AndExpr([Paren(inner)]), AndExpr([Name(c)]);
    assert TreeOfAnd(ab) == Gate(2, TreesOfAtoms(ab.atoms)) && TreesOfAtoms(ab.atoms) == [Leaf(a), Leaf(b)];
    assert TreeOfAnd(group) == TreeOfAtom(Paren(inner)) == TreeOfOr(inner) == TreeOfAnd(ab);
    assert TreeOfAnd(only) == Leaf(c);
    assert TreesOfAnds([group, only]) == [TreeOfAnd(group), TreeOfAnd(only)];
  }

  // ----- Attribute literals -----

  lemma {:induction false} WithoutConcat(a: string, b: string, c: char)
    ensures Without(a + b, c) == Without(a, c) + Without(b, c)
  {
    if a == "" {
      assert a + b == b;
    } else {
      WithoutFirst(a[0], a[1..], c);
      WithoutFirst(a[0], a[1..] + b, c);
      hide *;
      WithoutConcat(a[1..], b, c);
      FirstConcat(a, b);
      JoinThree(if a[0] == c then [] else [a[0]], Without(a[1..], c), Without(b, c));
    }
  }

  lemma WithoutFirst(x: char, rest: string, c: char)
    ensures Without([x] + rest, c) == (if x == c then [] else [x]) + Without(rest, c)
  {
    assert ([x] + rest)[1..] == rest;
  }

  lemma FirstConcat(a: string, b: string)
    requires a != ""
    ensures a == [a[0]] + a[1..] && a + b == [a[0]] + (a[1..] + b)
  {
  }

  lemma JoinThree<T>(a: seq<T>, b: seq<T>, c: seq<T>)
    ensures a + b + c == a + (b + c)
  {
  }

  /** A quote anywhere in a literal makes no difference.  With NormalizeFixed this says which
      attribute every word asks for: the word without its quotes. */
  lemma NormalizeDropsQuote(a: string, b: string)
    ensures Normalize(a + "\"" + b) == Normalize(a + b)
  {
    hide Trim;
    var q := '\"';
    WithoutConcat(a + [q], b, q);
    WithoutConcat(a, [q], q);
    WithoutConcat(a, b, q);
    assert Without([q], q) == [] by {
      assert [q][1..] == [];
    }
    assert Without(a + "\"" + b, q) == Without(a + b, q);
  }

  /** A quoted value: key="value" asks for key=value. */
  lemma QuotedValue(key: string, value: string)
    requires Clean(key + "=" + value)
    ensures Normalize(key + "=\"" + value + "\"") == key + "=" + value
  {
    hide Normalize, Clean;
    var name := key + "=" + value;
    NormalizeDropsQuote(key + "=\"" + value, "");
    assert key + "=\"" + value + "\"" == (key + "=\"" + value) + "\"" + "";
    assert key + "=\"" + value + "" == key + "=" + "\"" + value;
    NormalizeDropsQuote(key + "=", value);
    NormalizeClean(name);
  }

  lemma NormalizeClean(name: string)
    requires Clean(name)
    ensures Normalize(name) == name
  {
    hide Normalize;
    NormalizeFixed(name);
  }

  // ----- Meaning -----

  /** What an orExpr says, read as a formula: one of its operands holds. */
  predicate HoldsOr(o: OrExpr, held: set<string>)
    decreases o
  {
    exists a <- o.parts :: HoldsAnd(a, held)
  }

  /** All atoms of an andExpr hold. */
  predicate HoldsAnd(a: AndExpr, held: set<string>)
    decreases a
  {
    forall x <- a.atoms :: HoldsAtom(x, held)
  }

  predicate HoldsAtom(x: Atom, held: set<string>)
    decreases x
  {
    match x
    case Paren(o) => HoldsOr(o, held)
    case Name(s) => Normalize(s) in held
  }

  lemma {:induction false} CountAnd(ts: seq<AccessTree>, held: set<string>)
    ensures CountSatisfied(ts, held) == |ts| <==> forall t <- ts :: IsSatisfiedBy(t, held)
  {
    if ts != [] {
      CountAnd(ts[1..], held);
      assert ts[0] in ts && forall t :: t in ts <==> t == ts[0] || t in ts[1..];
      assert CountSatisfied(ts, held) == (if IsSatisfiedBy(ts[0], held) then 1 else 0) + CountSatisfied(ts[1..], held);
    }
  }

  lemma {:induction false} CountOr(ts: seq<AccessTree>, held: set<string>)
    ensures CountSatisfied(ts, held) >= 1 <==> exists t <- ts :: IsSatisfiedBy(t, held)
  {
    if ts != [] {
      CountOr(ts[1..], held);
      assert ts[0] in ts && forall t :: t in ts <==> t == ts[0] || t in ts[1..];
      assert CountSatisfied(ts, held) == (if IsSatisfiedBy(ts[0], held) then 1 else 0) + CountSatisfied(ts[1..], held);
    }
  }

  /** The tree of a derivation is satisfied exactly when the formula holds. */
  lemma {:induction false} OrMeans(o: OrExpr, held: set<string>)
    requires GoodOr(o)
    ensures IsSatisfiedBy(TreeOfOr(o), held) <==> HoldsOr(o, held)
    decreases o
  {
    hide GoodAnd, HoldsAnd, TreeOfAnd, CountSatisfied;
    var ts := TreesOfAnds(o.parts);
    forall i | 0 <= i < |o.parts|
      ensures IsSatisfiedBy(ts[i], held) <==> HoldsAnd(o.parts[i], held)
    {
      assert o.parts[i] in o.parts;
      AndMeans(o.parts[i], held);
    }
    CountOr(ts, held);
    if HoldsOr(o, held) {
      var a :| a in o.parts && HoldsAnd(a, held);
      var i :| 0 <= i < |o.parts| && o.parts[i] == a;
      assert ts[i] in ts;
    }
    if t :| t in ts && IsSatisfiedBy(t, held) {
      var i :| 0 <= i < |ts| && ts[i] == t;
      assert o.parts[i] in o.parts;
    }
    assert |o.parts| == 1 ==> o.parts == [o.parts[0]] && ts == [ts[0]];
  }

  lemma {:induction false} AndMeans(a: AndExpr, held: set<string>)
    requires GoodAnd(a)
    ensures IsSatisfiedBy(TreeOfAnd(a), held) <==> HoldsAnd(a, held)
    decreases a
  {
    hide GoodAtom, HoldsAtom, TreeOfAtom, CountSatisfied;
    var ts := TreesOfAtoms(a.atoms);
    forall i | 0 <= i < |a.atoms|
      ensures IsSatisfiedBy(ts[i], held) <==> HoldsAtom(a.atoms[i], held)
    {
      assert a.atoms[i] in a.atoms;
      AtomMeans(a.atoms[i], held);
    }
    CountAnd(ts, held);
    if !HoldsAnd(a, held) {
      var x :| x in a.atoms && !HoldsAtom(x, held);
      var i :| 0 <= i < |a.atoms| && a.atoms[i] == x;
      assert ts[i] in ts;
    }
    if t :| t in ts && !IsSatisfiedBy(t, held) {
      var i :| 0 <= i < |ts| && ts[i] == t;
      assert a.atoms[i] in a.atoms;
    }
    assert |a.atoms| == 1 ==> a.atoms == [a.atoms[0]] && ts == [ts[0]];
  }

  lemma {:induction false} AtomMeans(x: Atom, held: set<string>)
    requires GoodAtom(x)
    ensures IsSatisfiedBy(TreeOfAtom(x), held) <==> HoldsAtom(x, held)
    decreases x
  {
    hide HoldsOr, TreeOfOr, GoodOr, Normalize;
    if x.Paren? {
      OrMeans(x.inner, held);
    }
  }

  /** A text that writes a derivation is accepted with a tree that is satisfied exactly when the
      derivation, read as a formula, holds. */
  lemma PolicyMeans(text: string, o: OrExpr, held: set<string>)
    requires GoodOr(o) && Writes(text, YieldOr(o))
    ensures Parsed(text).Ok?
    ensures IsSatisfiedBy(Parsed(text).value, held) <==> HoldsOr(o, held)
  {
    hide *;
    DerivesMeans(YieldOr(o), TreeOfOr(o), o);
    ParsedIffWritten(text, TreeOfOr(o));
    OrMeans(o, held);
  }
}
