/** The recursive-descent parser, and its agreement with the grammar. */
module PolicyParser {
  import opened Wrappers
  import opened AccessTrees
  import opened PolicyGrammar

  datatype PolicyError = UnexpectedEof | UnexpectedToken(found: Option<Token>) | EmptyAttribute | Unbalanced

  /** A parsed phrase and the tokens after it. */
  type Parse<T> = Result<(T, seq<Token>), PolicyError>

  // ----- What the parser computes: the derivation of the longest phrase at the front -----

  predicate StartsWith(ts: seq<Token>, t: Token) {
    ts != [] && ts[0] == t
  }

  /** The phrases read so far followed by what the rest of a list parses to. */
  function Continued<T>(read: seq<T>, more: Parse<seq<T>>): Parse<seq<T>> {
    match more
    case Err(e) => Err(e)
    case Ok((xs, rest)) => Ok((read + xs, rest))
  }

  function OrOf(parts: Parse<seq<AndExpr>>): Parse<OrExpr> {
    match parts
    case Err(e) => Err(e)
    case Ok((ps, rest)) => Ok((OrExpr(ps), rest))
  }

  function AndOf(atoms: Parse<seq<Atom>>): Parse<AndExpr> {
    match atoms
    case Err(e) => Err(e)
    case Ok((xs, rest)) => Ok((AndExpr(xs), rest))
  }

  predicate Suffix(rest: seq<Token>, ts: seq<Token>) {
    |rest| <= |ts| && rest == ts[|ts| - |rest|..]
  }

  lemma SuffixTail(rest: seq<Token>, ts: seq<Token>)
    requires ts != [] && Suffix(rest, ts[1..])
    ensures Suffix(rest, ts)
  {
  }

  lemma SuffixTransitive(a: seq<Token>, b: seq<Token>, c: seq<Token>)
    requires Suffix(a, b) && Suffix(b, c)
    ensures Suffix(a, c)
  {
  }

  function ParsesOr(ts: seq<Token>): (r: Parse<OrExpr>)
    ensures r.Ok? ==> |r.value.1| < |ts| && Suffix(r.value.1, ts)
    decreases |ts|, 4
  {
    match ParsesAnd(ts)
    case Err(e) => Err(e)
    case Ok((a, rest)) =>
      var more := ParsesMoreAnds(rest);
      assert more.Ok? ==> Suffix(more.value.1, ts) by { if more.Ok? { SuffixTransitive(more.value.1, rest, ts); } }
      OrOf(Continued([a], more))
  }

  function ParsesMoreAnds(ts: seq<Token>): (r: Parse<seq<AndExpr>>)
    ensures r.Ok? ==> Suffix(r.value.1, ts)
    decreases |ts|, 3
  {
    if !StartsWith(ts, Or) then
      Ok(([], ts))
    else
      match ParsesAnd(ts[1..])
      case Err(e) => Err(e)
      case Ok((a, rest)) =>
        var more := ParsesMoreAnds(rest);
        assert more.Ok? ==> Suffix(more.value.1, ts) by {
          if more.Ok? {
            SuffixTransitive(more.value.1, rest, ts[1..]);
            SuffixTail(more.value.1, ts);
          }
        }
        Continued([a], more)
  }

  function ParsesAnd(ts: seq<Token>): (r: Parse<AndExpr>)
    ensures r.Ok? ==> |r.value.1| < |ts| && Suffix(r.value.1, ts)
    decreases |ts|, 2
  {
    match ParsesAtom(ts)
    case Err(e) => Err(e)
    case Ok((x, rest)) =>
      var more := ParsesMoreAtoms(rest);
      assert more.Ok? ==> Suffix(more.value.1, ts) by { if more.Ok? { SuffixTransitive(more.value.1, rest, ts); } }
      AndOf(Continued([x], more))
  }

  function ParsesMoreAtoms(ts: seq<Token>): (r: Parse<seq<Atom>>)
    ensures r.Ok? ==> Suffix(r.value.1, ts)
    decreases |ts|, 1
  {
    if !StartsWith(ts, And) then
      Ok(([], ts))
    else
      match ParsesAtom(ts[1..])
      case Err(e) => Err(e)
      case Ok((x, rest)) =>
        var more := ParsesMoreAtoms(rest);
        assert more.Ok? ==> Suffix(more.value.1, ts) by {
          if more.Ok? {
            SuffixTransitive(more.value.1, rest, ts[1..]);
            SuffixTail(more.value.1, ts);
          }
        }
        Continued([x], more)
  }

  function ParsesAtom(ts: seq<Token>): (r: Parse<Atom>)
    ensures r.Ok? ==> |r.value.1| < |ts| && Suffix(r.value.1, ts)
    decreases |ts|, 0
  {
    if ts == [] then
      Err(UnexpectedEof)
    else
      match ts[0]
      case LParen =>
        (match ParsesOr(ts[1..])
         case Err(e) => Err(e)
         case Ok((o, rest)) => if StartsWith(rest, RParen) then Ok((Paren(o), rest[1..])) else Err(Unbalanced))
      case Attr(a) => if a == "" then Err(EmptyAttribute) else Ok((Name(a), ts[1..]))
      case _ => Err(UnexpectedToken(Some(ts[0])))
  }

  function ParsesPolicy(ts: seq<Token>): Result<OrExpr, PolicyError> {
    match ParsesOr(ts)
    case Err(e) => Err(e)
    case Ok((o, rest)) => if rest == [] then Ok(o) else Err(UnexpectedToken(Some(rest[0])))
  }

  /** The tree of a policy text. */
  function Parsed(input: string): Result<AccessTree, PolicyError> {
    var ts := Lex("", input);
    if ts == [] then
      Err(UnexpectedEof)
    else
      match ParsesPolicy(ts)
      case Err(e) => Err(e)
      case Ok(o) => Ok(TreeOfOr(o))
  }

  // ----- The parser object -----

  class Parser {
    const tokens: seq<Token>
    var pos: nat

    constructor (tokens: seq<Token>)
      ensures this.tokens == tokens && pos == 0
    {
      this.tokens := tokens;
      pos := 0;
    }

    /** The cursor stands before these tokens. */
    predicate Before(rest: seq<Token>)
      reads this
    {
      pos <= |tokens| && tokens[pos..] == rest
    }

    function Peek(): Option<Token>
      reads this
    {
      if pos < |tokens| then Some(tokens[pos]) else None
    }

    /** The next token; the cursor advances even past the end. */
    method Next() returns (t: Option<Token>)
      modifies this
      ensures t == old(Peek()) && pos == old(pos) + 1
    {
      t := Peek();
      pos := pos + 1;
    }

    method ParsePolicy() returns (r: Result<AccessTree, PolicyError>)
      requires pos <= |tokens|
      modifies this
      ensures var o := ParsesPolicy(tokens[old(pos)..]);
        r == if o.Ok? then Ok(TreeOfOr(o.value)) else Err(o.error)
    {
      hide ParsesOr, TreeOfOr;
      var tree := ParseOr();
      if tree.Err? {
        return tree;
      }
      if pos != |tokens| {
        return Err(UnexpectedToken(Peek()));
      }
      return tree;
    }

    method ParseOr() returns (r: Result<AccessTree, PolicyError>)
      requires pos <= |tokens|
      modifies this
      ensures var p := ParsesOr(tokens[old(pos)..]);
        if p.Ok? then r == Ok(TreeOfOr(p.value.0)) && Before(p.value.1) && pos > old(pos)
        else r == Err(p.error) && old(pos) <= pos <= |tokens| + 1
      decreases |tokens| - pos, 2
    {
      hide ParsesOr, ParsesMoreAnds, ParsesAnd, TreeOfOr, TreesOfAnds, TreeOfAnd, Continued, OrOf;
      FirstAnd(tokens[pos..]);
      ghost var all := tokens[pos..];
      var first := ParseAnd();
      if first.Err? {
        return first;
      }
      var children := [first.value];
      ghost var parts := [ParsesAnd(all).value.0];
      SingleAnd(parts[0]);
      while Peek() == Some(Or)
        invariant old(pos) < pos <= |tokens|
        invariant parts != [] && children == TreesOfAnds(parts)
        invariant ParsesOr(all) == OrOf(Continued(parts, ParsesMoreAnds(tokens[pos..])))
        decreases |tokens| - pos
      {
        ghost var rest := tokens[pos..];
        NextOfAnds(rest);
        var _ := Next();
        assert rest[1..] == tokens[pos..];
        var child := ParseAnd();
        if child.Err? {
          ContinuedErr(parts, child.error);
          return child;
        }
        ghost var a := ParsesAnd(rest[1..]).value.0;
        AppendAnd(parts, a);
        ContinueOne(parts, a, ParsesMoreAnds(tokens[pos..]));
        parts := parts + [a];
        children := children + [child.value];
      }
      NoMoreAnds(parts, tokens[pos..]);
      if |children| == 1 {
        return Ok(children[0]);
      } else {
        return Ok(OrGate(children));
      }
    }

    method ParseAnd() returns (r: Result<AccessTree, PolicyError>)
      requires pos <= |tokens|
      modifies this
      ensures var p := ParsesAnd(tokens[old(pos)..]);
        if p.Ok? then r == Ok(TreeOfAnd(p.value.0)) && Before(p.value.1) && pos > old(pos)
        else r == Err(p.error) && old(pos) <= pos <= |tokens| + 1
      decreases |tokens| - pos, 1
    {
      hide ParsesAnd, ParsesMoreAtoms, ParsesAtom, TreeOfAnd, TreesOfAtoms, TreeOfAtom, Continued, AndOf;
      FirstAtom(tokens[pos..]);
      ghost var all := tokens[pos..];
      var first := ParseAtom();
      if first.Err? {
        return first;
      }
      var children := [first.value];
      ghost var atoms := [ParsesAtom(all).value.0];
      SingleAtom(atoms[0]);
      while Peek() == Some(And)
        invariant old(pos) < pos <= |tokens|
        invariant atoms != [] && children == TreesOfAtoms(atoms)
        invariant ParsesAnd(all) == AndOf(Continued(atoms, ParsesMoreAtoms(tokens[pos..])))
        decreases |tokens| - pos
      {
        ghost var rest := tokens[pos..];
        NextOfAtoms(rest);
        var _ := Next();
        assert rest[1..] == tokens[pos..];
        var child := ParseAtom();
        if child.Err? {
          ContinuedErr(atoms, child.error);
          return child;
        }
        ghost var x := ParsesAtom(rest[1..]).value.0;
        AppendAtom(atoms, x);
        ContinueOne(atoms, x, ParsesMoreAtoms(tokens[pos..]));
        atoms := atoms + [x];
        children := children + [child.value];
      }
      NoMoreAtoms(atoms, tokens[pos..]);
      if |children| == 1 {
        return Ok(children[0]);
      } else {
        return Ok(AndGate(children));
      }
    }

    method ParseAtom() returns (r: Result<AccessTree, PolicyError>)
      requires pos <= |tokens|
      modifies this
      ensures var x := ParsesAtom(tokens[old(pos)..]);
        if x.Ok? then r == Ok(TreeOfAtom(x.value.0)) && Before(x.value.1) && pos > old(pos)
        else r == Err(x.error) && old(pos) <= pos <= |tokens| + 1
      decreases |tokens| - pos, 0
    {
      hide ParsesOr, TreeOfOr, Normalize;
      ghost var all := tokens[pos..];
      var t := Next();
      match t
      case Some(LParen) =>
        assert all[1..] == tokens[pos..];
        var inner := ParseOr();
        if inner.Err? {
          return inner;
        }
        ghost var rest := tokens[pos..];
        var close := Next();
        if close == Some(RParen) {
          assert rest[1..] == tokens[pos..];
          return inner;
        } else {
          return Err(Unbalanced);
        }
      case Some(Attr(a)) =>
        assert all[1..] == tokens[pos..];
        if a == "" {
          return Err(EmptyAttribute);
        } else {
          return Ok(Leaf(Normalize(a)));
        }
      case Some(other) =>
        return Err(UnexpectedToken(Some(other)));
      case None =>
        return Err(UnexpectedEof);
    }
  }

  // ----- Unfolding the list of parts -----

  lemma FirstAnd(ts: seq<Token>)
    ensures var p := ParsesAnd(ts);
      ParsesOr(ts) == if p.Err? then Err(p.error) else OrOf(Continued([p.value.0], ParsesMoreAnds(p.value.1)))
  {
    hide ParsesAnd, ParsesMoreAnds, Continued, OrOf;
  }

  lemma NextOfAnds(ts: seq<Token>)
    requires StartsWith(ts, Or)
    ensures var p := ParsesAnd(ts[1..]);
      ParsesMoreAnds(ts) == if p.Err? then Err(p.error) else Continued([p.value.0], ParsesMoreAnds(p.value.1))
  {
    hide ParsesAnd, Continued;
  }

  lemma NoMoreAnds(parts: seq<AndExpr>, ts: seq<Token>)
    requires !StartsWith(ts, Or) && parts != []
    ensures OrOf(Continued(parts, ParsesMoreAnds(ts))) == Ok((OrExpr(parts), ts))
    ensures var children := TreesOfAnds(parts);
      TreeOfOr(OrExpr(parts)) == if |children| == 1 then children[0] else OrGate(children)
  {
    hide TreeOfAnd;
    assert parts + [] == parts;
  }

  lemma SingleAnd(a: AndExpr)
    ensures TreesOfAnds([a]) == [TreeOfAnd(a)]
  {
    hide TreeOfAnd, TreesOfAnds;
  }

  lemma AppendAnd(parts: seq<AndExpr>, a: AndExpr)
    ensures TreesOfAnds(parts + [a]) == TreesOfAnds(parts) + [TreeOfAnd(a)]
  {
    hide TreeOfAnd, TreesOfAnds;
  }

  // ----- Unfolding the list of atoms -----

  lemma FirstAtom(ts: seq<Token>)
    ensures var p := ParsesAtom(ts);
      ParsesAnd(ts) == if p.Err? then Err(p.error) else AndOf(Continued([p.value.0], ParsesMoreAtoms(p.value.1)))
  {
    hide ParsesAtom, ParsesMoreAtoms, Continued, AndOf;
  }

  lemma NextOfAtoms(ts: seq<Token>)
    requires StartsWith(ts, And)
    ensures var p := ParsesAtom(ts[1..]);
      ParsesMoreAtoms(ts) == if p.Err? then Err(p.error) else Continued([p.value.0], ParsesMoreAtoms(p.value.1))
  {
    hide ParsesAtom, Continued;
  }

  lemma NoMoreAtoms(atoms: seq<Atom>, ts: seq<Token>)
    requires !StartsWith(ts, And) && atoms != []
    ensures AndOf(Continued(atoms, ParsesMoreAtoms(ts))) == Ok((AndExpr(atoms), ts))
    ensures var children := TreesOfAtoms(atoms);
      TreeOfAnd(AndExpr(atoms)) == if |children| == 1 then children[0] else AndGate(children)
  {
    hide TreeOfAtom;
    assert atoms + [] == atoms;
  }

  lemma SingleAtom(x: Atom)
    ensures TreesOfAtoms([x]) == [TreeOfAtom(x)]
  {
    hide TreeOfAtom, TreesOfAtoms;
  }

  lemma AppendAtom(atoms: seq<Atom>, x: Atom)
    ensures TreesOfAtoms(atoms + [x]) == TreesOfAtoms(atoms) + [TreeOfAtom(x)]
  {
    hide TreeOfAtom, TreesOfAtoms;
  }

  lemma ContinueOne<T>(read: seq<T>, x: T, more: Parse<seq<T>>)
    ensures Continued(read + [x], more) == Continued(read, Continued([x], more))
  {
    if more.Ok? {
      assert read + [x] + more.value.0 == read + ([x] + more.value.0);
    }
  }

  lemma ContinuedErr<T>(read: seq<T>, e: PolicyError)
    ensures Continued(read, Err(e)) == Err(e)
    ensures forall p: Parse<seq<AndExpr>> | p == Err(e) :: OrOf(p) == Err(e)
    ensures forall p: Parse<seq<Atom>> | p == Err(e) :: AndOf(p) == Err(e)
  {
  }

  /** Parses a policy text. */
  method ParseText(input: string) returns (r: Result<AccessTree, PolicyError>)
    ensures r == Parsed(input)
  {
    hide ParsesPolicy, TreeOfOr;
    var tokens := Tokenize(input);
    if tokens == [] {
      return Err(UnexpectedEof);
    }
    var parser := new Parser(tokens);
    assert tokens[0..] == tokens;
    r := parser.ParsePolicy();
  }
}
