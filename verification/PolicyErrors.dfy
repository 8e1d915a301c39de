/** Which error the parser reports: the recursive descent fails exactly where one scan with a
    counter of open parentheses does. */
module PolicyErrors {
  import opened Wrappers
  import opened PolicyGrammar
  import opened PolicyParser
  import opened PolicyTheorems

  /** Reads the tokens from left to right, `depth` parentheses being open, at a place for an
      operand or for what follows one; the first token that does not fit is the error. */
  function Scan(ts: seq<Token>, depth: nat, operand: bool): Option<PolicyError> {
    if operand then
      if ts == [] then Some(UnexpectedEof)
      else
        match ts[0]
        case LParen => Scan(ts[1..], depth + 1, true)
        case Attr(a) => if a == "" then Some(EmptyAttribute) else Scan(ts[1..], depth, false)
        case _ => Some(UnexpectedToken(Some(ts[0])))
    else if ts != [] && (ts[0] == And || ts[0] == Or) then
      Scan(ts[1..], depth, true)
    else if depth > 0 then
      if ts != [] && ts[0] == RParen then Scan(ts[1..], depth - 1, false) else Some(Unbalanced)
    else if ts == [] then
      None
    else
      Some(UnexpectedToken(Some(ts[0])))
  }

  /** The scan after a phrase, or the phrase's own error. */
  function ScanAfter<T>(p: Parse<T>, depth: nat): Option<PolicyError> {
    match p
    case Err(e) => Some(e)
    case Ok((_, rest)) => Scan(rest, depth, false)
  }

  lemma {:induction false} ScanOr(ts: seq<Token>, depth: nat)
    ensures Scan(ts, depth, true) == ScanAfter(ParsesOr(ts), depth)
    decreases |ts|, 4
  {
    FirstAnd(ts);
    hide Scan, ParsesOr, ParsesAnd, ParsesMoreAnds;
    ScanAnd(ts, depth);
    var p := ParsesAnd(ts);
    if p.Ok? {
      AndSound(ts);
      ScanMoreAnds(p.value.1, depth);
    }
  }

  lemma {:induction false} ScanMoreAnds(ts: seq<Token>, depth: nat)
    ensures Scan(ts, depth, false) == ScanAfter(ParsesMoreAnds(ts), depth)
    decreases |ts|, 3
  {
    if StartsWith(ts, Or) {
      NextOfAnds(ts);
      assert Scan(ts, depth, false) == Scan(ts[1..], depth, true);
      hide Scan, ParsesOr, ParsesAnd, ParsesMoreAnds;
      ScanAnd(ts[1..], depth);
      var p := ParsesAnd(ts[1..]);
      if p.Ok? {
        ScanMoreAnds(p.value.1, depth);
      }
    }
  }

  lemma {:induction false} ScanAnd(ts: seq<Token>, depth: nat)
    ensures Scan(ts, depth, true) == ScanAfter(ParsesAnd(ts), depth)
    decreases |ts|, 2
  {
    FirstAtom(ts);
    hide Scan, ParsesAnd, ParsesAtom, ParsesMoreAtoms;
    ScanAtom(ts, depth);
    var p := ParsesAtom(ts);
    if p.Ok? {
      ScanMoreAtoms(p.value.1, depth);
    }
  }

  lemma {:induction false} ScanMoreAtoms(ts: seq<Token>, depth: nat)
    ensures Scan(ts, depth, false) == ScanAfter(ParsesMoreAtoms(ts), depth)
    decreases |ts|, 1
  {
    if StartsWith(ts, And) {
      NextOfAtoms(ts);
      assert Scan(ts, depth, false) == Scan(ts[1..], depth, true);
      hide Scan, ParsesAtom, ParsesMoreAtoms;
      ScanAtom(ts[1..], depth);
      var p := ParsesAtom(ts[1..]);
      if p.Ok? {
        ScanMoreAtoms(p.value.1, depth);
      }
    }
  }

  lemma {:induction false} ScanAtom(ts: seq<Token>, depth: nat)
    ensures Scan(ts, depth, true) == ScanAfter(ParsesAtom(ts), depth)
    decreases |ts|, 0
  {
    hide ParsesOr;
    if ts != [] && ts[0] == LParen {
      ScanOr(ts[1..], depth + 1);
      var p := ParsesOr(ts[1..]);
      if p.Ok? {
        OrSound(ts[1..]);
        assert !StartsWith(p.value.1, RParen) ==> Scan(p.value.1, depth + 1, false) == Some(Unbalanced);
      }
    }
  }

  /** A text is refused with an error exactly when the scan of its tokens ends in that error. */
  lemma ErrorsExactly(input: string)
    ensures Scan(Lex("", input), 0, true) == match Parsed(input) case Err(e) => Some(e) case Ok(_) => None
  {
    hide Lex, ParsesOr;
    var ts := Lex("", input);
    ScanOr(ts, 0);
    if ParsesOr(ts).Ok? {
      OrSound(ts);
    }
  }

  /** No text is refused for an empty attribute: the tokenizer makes no empty word. */
  lemma NeverEmptyAttribute(input: string)
    ensures Parsed(input) != Err(EmptyAttribute)
  {
    hide Parsed, Lex, AllWordChars;
    ErrorsExactly(input);
    assert AllWordChars("") by {
      NothingRead();
    }
    LexedWords("", input);
    NoEmptyWord(Lex("", input), 0, true);
  }

  lemma NothingRead()
    ensures AllWordChars("")
  {
  }

  lemma {:induction false} NoEmptyWord(ts: seq<Token>, depth: nat, operand: bool)
    requires forall t <- ts | t.Attr? :: t.text != ""
    ensures Scan(ts, depth, operand) != Some(EmptyAttribute)
    decreases ts
  {
    if ts != [] {
      var rest := ts[1..];
      assert forall t <- rest :: t in ts;
      NoEmptyWord(rest, depth, true);
      NoEmptyWord(rest, depth + 1, true);
      NoEmptyWord(rest, depth, false);
      if depth > 0 {
        NoEmptyWord(rest, depth - 1, false);
      }
    }
  }
}
