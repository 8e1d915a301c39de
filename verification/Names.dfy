/** Text helpers: white space, splitting, decimal numerals and epoch tags. */
module Names {
  import opened Wrappers

  /** Unicode white space. */
  predicate IsWhitespace(c: char) {
    var n := c as int;
    || 0x09 <= n <= 0x0D || n == 0x20 || n == 0x85 || n == 0xA0 || n == 0x1680
    || 0x2000 <= n <= 0x200A || n == 0x2028 || n == 0x2029 || n == 0x202F || n == 0x205F || n == 0x3000
  }

  const WHITE_SPACE := {
    '\t', '\n', '\U{0B}', '\U{0C}', '\r', ' ', '\U{85}', '\U{A0}', '\U{1680}', '\U{2000}', '\U{2001}', '\U{2002}',
    '\U{2003}', '\U{2004}', '\U{2005}', '\U{2006}', '\U{2007}', '\U{2008}', '\U{2009}', '\U{200A}', '\U{2028}',
    '\U{2029}', '\U{202F}', '\U{205F}', '\U{3000}' }

  /** These are the 25 characters with Unicode's White_Space property. */
  lemma WhitespaceExactly(c: char)
    ensures IsWhitespace(c) <==> c in WHITE_SPACE
  {
  }

  predicate AllSpace(s: string) {
    forall c <- s :: IsWhitespace(c)
  }

  // ----- Splitting -----

  /** The text before the first c, or all of it. */
  function Before(s: string, c: char): string {
    if s == [] || s[0] == c then [] else [s[0]] + Before(s[1..], c)
  }

  /** The texts before and after the first c, if there is one. */
  function SplitOnce(s: string, c: char): (parts: Option<(string, string)>)
    ensures parts.None? <==> c !in s
    ensures parts.Some? ==>
              s == parts.value.0 + [c] + parts.value.1 && c !in parts.value.0 && parts.value.0 == Before(s, c)
  {
    if s == [] then None
    else if s[0] == c then Some(([], s[1..]))
    else
      match SplitOnce(s[1..], c)
      case None => None
      case Some((a, b)) => Some(([s[0]] + a, b))
  }

  /** Nothing is cut from a text followed by a c if the text itself has none. */
  lemma {:induction false} BeforeFirst(s: string, c: char, rest: string)
    requires c !in s
    ensures Before(s + [c] + rest, c) == s
  {
    if s == [] {
      assert s + [c] + rest == [c] + rest;
    } else {
      BeforeFirst(s[1..], c, rest);
      assert (s + [c] + rest)[1..] == s[1..] + [c] + rest;
    }
  }

  /** A text without c, then c, splits right there. */
  lemma {:induction false} SplitFirst(s: string, c: char, rest: string)
    requires c !in s
    ensures SplitOnce(s + [c] + rest, c) == Some((s, rest))
  {
    var whole := s + [c] + rest;
    BeforeFirst(s, c, rest);
    assert whole[|s|] == c;
    var parts := SplitOnce(whole, c).value;
    assert whole[|s| + 1..] == rest && whole[|parts.0| + 1..] == parts.1;
  }

  /** The pieces between the occurrences of c, always at least one. */
  function SplitOn(s: string, c: char): (pieces: seq<string>)
    ensures pieces != []
    decreases |s|
  {
    match SplitOnce(s, c)
    case None => [s]
    case Some((a, b)) => [a] + SplitOn(b, c)
  }

  function Trim(s: string): string {
    TrimEnd(TrimStart(s))
  }

  function TrimStart(s: string): string {
    if s != [] && IsWhitespace(s[0]) then TrimStart(s[1..]) else s
  }

  function TrimEnd(s: string): string {
    if s != [] && IsWhitespace(s[|s| - 1]) then TrimEnd(s[..|s| - 1]) else s
  }

  /** No white space at either end. */
  predicate Trimmed(s: string) {
    s == "" || (!IsWhitespace(s[0]) && !IsWhitespace(s[|s| - 1]))
  }

  /** The text is t with white space around it. */
  predicate Pads(s: string, t: string, a: string, b: string) {
    s == a + t + b && AllSpace(a) && AllSpace(b)
  }

  lemma {:induction false} TrimStartParts(s: string) returns (a: string)
    ensures s == a + TrimStart(s) && AllSpace(a)
    ensures TrimStart(s) == "" || !IsWhitespace(TrimStart(s)[0])
  {
    hide IsWhitespace;
    a := "";
    if s != "" && IsWhitespace(s[0]) {
      a := TrimStartParts(s[1..]);
      assert s == [s[0]] + s[1..];
      a := [s[0]] + a;
    }
  }

  lemma {:induction false} TrimEndParts(s: string) returns (b: string)
    ensures s == TrimEnd(s) + b && AllSpace(b)
    ensures TrimEnd(s) == "" || !IsWhitespace(TrimEnd(s)[|TrimEnd(s)| - 1])
  {
    hide IsWhitespace;
    b := "";
    if s != "" && IsWhitespace(s[|s| - 1]) {
      b := TrimEndParts(s[..|s| - 1]);
      assert s == s[..|s| - 1] + [s[|s| - 1]];
      b := b + [s[|s| - 1]];
    }
  }

  lemma {:induction false} TrimStartSkips(a: string, rest: string)
    requires AllSpace(a)
    ensures TrimStart(a + rest) == TrimStart(rest)
  {
    hide IsWhitespace;
    if a == "" {
      assert a + rest == rest;
    } else {
      TrimStartSkips(a[1..], rest);
      assert (a + rest)[1..] == a[1..] + rest;
    }
  }

  lemma {:induction false} TrimEndSkips(rest: string, b: string)
    requires AllSpace(b)
    ensures TrimEnd(rest + b) == TrimEnd(rest)
  {
    hide *;
    if b == "" {
      assert rest + b == rest;
    } else {
      var init, c := b[..|b| - 1], b[|b| - 1];
      SpaceLast(b);
      TrimEndSkips(rest, init);
      TrimEndLast(rest + init, c);
      assert rest + b == rest + init + [c];
    }
  }

  lemma SpaceLast(b: string)
    requires b != "" && AllSpace(b)
    ensures AllSpace(b[..|b| - 1]) && IsWhitespace(b[|b| - 1])
  {
  }

  lemma TrimEndLast(s: string, c: char)
    requires IsWhitespace(c)
    ensures TrimEnd(s + [c]) == TrimEnd(s)
  {
    hide IsWhitespace;
    assert (s + [c])[..|s|] == s;
  }

  /** Trimming removes all white space at both ends and nothing else. */
  lemma TrimExactly(s: string, t: string)
    ensures Trim(s) == t <==> Trimmed(t) && exists a, b :: Pads(s, t, a, b)
  {
    if Trim(s) == t {
      var a := TrimStartParts(s);
      var b := TrimEndParts(TrimStart(s));
      assert s == a + t + b;
      assert Pads(s, t, a, b);
      assert t != "" ==> t[0] == TrimStart(s)[0];
    }
    if a, b :| Trimmed(t) && Pads(s, t, a, b) {
      hide IsWhitespace;
      assert s == a + (t + b);
      TrimStartSkips(a, t + b);
      if t == "" {
        assert t + b == b + "";
        TrimStartSkips(b, "");
      } else {
        TrimEndSkips(t, b);
      }
    }
  }

  // ----- Decimal numerals -----

  predicate IsDigit(c: char) {
    '0' <= c <= '9'
  }

  function Digit(d: nat): (c: char)
    requires d < 10
    ensures IsDigit(c)
  {
    ('0' as int + d) as char
  }

  function Decimal(n: nat): (s: string)
    ensures s != [] && forall c <- s :: IsDigit(c)
  {
    if n < 10 then [Digit(n)] else Decimal(n / 10) + [Digit(n % 10)]
  }

  lemma {:induction false} DecimalInjective(m: nat, n: nat)
    ensures Decimal(m) == Decimal(n) ==> m == n
  {
    var a, b := Decimal(m), Decimal(n);
    if a == b {
      assert a[|a| - 1] == Digit(m % 10) && b[|b| - 1] == Digit(n % 10);
      if m >= 10 && n >= 10 {
        assert a[..|a| - 1] == Decimal(m / 10) && b[..|b| - 1] == Decimal(n / 10);
        DecimalInjective(m / 10, n / 10);
      } else if m >= 10 {
        LongDecimal(m);
      } else if n >= 10 {
        LongDecimal(n);
      }
    }
  }

  lemma LongDecimal(n: nat)
    requires n >= 10
    ensures |Decimal(n)| >= 2
  {
  }

  // ----- Epoch tags -----

  const EPOCH_MARK := "@epoch"

  function Tag(base: string, epoch: nat): string {
    base + EPOCH_MARK + Decimal(epoch)
  }

  /** The last 'h' of a tag ends its mark: only digits follow. */
  lemma TagLayout(base: string, n: nat)
    ensures var s, i := Tag(base, n), |base| + |EPOCH_MARK|;
      && i < |s| && s[..|base|] == base && s[i..] == Decimal(n)
      && s[i - 1] == 'h' && forall k :: i <= k < |s| ==> IsDigit(s[k])
  {
    var s, i, d := Tag(base, n), |base| + |EPOCH_MARK|, Decimal(n);
    forall k | i <= k < |s|
      ensures IsDigit(s[k])
    {
      assert s[k] == d[k - i];
    }
  }

  /** No two attributes or epochs share a tag, whatever the attribute's own text contains. */
  lemma TagInjective(a: string, m: nat, b: string, n: nat)
    requires Tag(a, m) == Tag(b, n)
    ensures a == b && m == n
  {
    hide Tag, IsDigit, Decimal;
    TagLayout(a, m);
    TagLayout(b, n);
    assert !IsDigit('h') by {
      NotADigit();
    }
    assert |a| == |b|;
    DecimalInjective(m, n);
  }

  lemma NotADigit()
    ensures !IsDigit('h')
  {
  }
}
