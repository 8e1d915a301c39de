/** How the comma-separated prefixes of an authority are read. */
module ControlTexts {
  import opened Names
  import opened Deployment

  /** A prefix with white space around it. */
  ghost predicate Padded(piece: string, control: string) {
    control != "" && Trimmed(control) && exists a, b :: Pads(piece, control, a, b)
  }

  /** The pieces are the prefixes in order, padded, with any blank pieces among them. */
  ghost predicate Lists(pieces: seq<string>, controls: seq<string>)
    decreases pieces
  {
    if pieces == [] then
      controls == []
    else
      var n, m := |pieces| - 1, |controls| - 1;
      || (AllSpace(pieces[n]) && Lists(pieces[..n], controls))
      || (controls != [] && Padded(pieces[n], controls[m]) && Lists(pieces[..n], controls[..m]))
  }

  /** The text is these pieces with commas between them. */
  ghost predicate Separated(text: string, pieces: seq<string>) {
    pieces != [] && (forall p <- pieces :: ',' !in p) && text == Joined(pieces)
  }

  lemma TrimBlank(s: string)
    ensures Trim(s) == "" <==> AllSpace(s)
  {
    hide Trim, IsWhitespace;
    TrimExactly(s, "");
    if AllSpace(s) {
      assert Pads(s, "", s, "");
    }
  }

  lemma TrimPadded(piece: string, control: string)
    ensures Trim(piece) == control && control != "" <==> Padded(piece, control)
  {
    hide Trim, Trimmed, Pads;
    TrimExactly(piece, control);
  }

  lemma {:induction false} KeptExactly(pieces: seq<string>, controls: seq<string>)
    ensures NonEmpty(pieces) == controls <==> Lists(pieces, controls)
    decreases pieces
  {
    hide Trim, AllSpace, Padded;
    if pieces != [] {
      var n, m := |pieces| - 1, |controls| - 1;
      TrimBlank(pieces[n]);
      KeptExactly(pieces[..n], controls);
      if controls != [] {
        TrimPadded(pieces[n], controls[m]);
        KeptExactly(pieces[..n], controls[..m]);
        assert controls == controls[..m] + [controls[m]];
      }
      TrimPadded(pieces[n], Trim(pieces[n]));
    }
  }

  lemma {:induction false} SplitSeparated(text: string)
    ensures Separated(text, SplitOn(text, ','))
    decreases |text|
  {
    var parts := SplitOnce(text, ',');
    if parts.Some? {
      SplitSeparated(parts.value.1);
      assert SplitOn(text, ',')[1..] == SplitOn(parts.value.1, ',');
    }
  }

  /** A text is read as a list of prefixes exactly when it is a comma-separated writing of them. */
  lemma ControlListExactly(text: string, controls: seq<string>)
    ensures ControlList(text) == controls <==> exists pieces :: Separated(text, pieces) && Lists(pieces, controls)
  {
    hide NonEmpty, Lists, Joined, SplitOn;
    SplitSeparated(text);
    KeptExactly(SplitOn(text, ','), controls);
    if pieces :| Separated(text, pieces) && Lists(pieces, controls) {
      SplitJoined(pieces);
    }
  }

  /** The empty text, and any text of blanks, restricts to nothing. */
  lemma NoControls(text: string)
    requires AllSpace(text) && ',' !in text
    ensures ControlList(text) == []
  {
    hide AllSpace;
    assert [text][..0] == [];
    assert Separated(text, [text]) && Lists([text], []);
    ControlListExactly(text, []);
  }
}
