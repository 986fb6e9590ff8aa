/** The fragment of Python's `re` that the resume parser's phone and degree
    patterns use: character classes, `\b`, concatenation, greedy `?` and
    alternation (a bounded repeat `{m,n}` is written out with them). A
    pattern tried at a position yields its possible end positions in the
    order Python's backtracking tries them; the first one is the match. */
module Regex {
  import opened Text

  /** A bracketed or escaped character class. */
  datatype CharClass = Digit | Space | OneOf(chars: string) | Either(a: CharClass, b: CharClass)

  predicate InClass(c: char, k: CharClass) {
    match k
    case Digit => IsDigit(c)
    case Space => IsSpace(c)
    case OneOf(chars) => c in chars
    case Either(a, b) => InClass(c, a) || InClass(c, b)
  }

  datatype Re =
    | Empty                 // matches the empty string
    | Char(k: CharClass)    // one character of the class
    | WordBoundary          // `\b`
    | Then(a: Re, b: Re)    // `ab`
    | Opt(a: Re)            // `a?`, greedy
    | Or(a: Re, b: Re)      // `a|b`, left first

  /** `\b`: a word character on exactly one side of `i`. */
  predicate AtBoundary(t: string, i: nat)
    requires i <= |t|
  {
    (i > 0 && IsWordChar(t[i - 1])) != (i < |t| && IsWordChar(t[i]))
  }

  /** The end positions of the matches of `r` starting at `i`, in the order
      the backtracking matcher tries them. */
  function Ends(r: Re, t: string, i: nat): (es: seq<nat>)
    requires i <= |t|
    ensures forall k | 0 <= k < |es| :: i <= es[k] <= |t|
    decreases r, 0
  {
    match r
    case Empty => [i]
    case Char(k) => if i < |t| && InClass(t[i], k) then [i + 1] else []
    case WordBoundary => if AtBoundary(t, i) then [i] else []
    case Then(a, b) => EndsAfter(b, t, Ends(a, t, i), i)
    case Opt(a) => Ends(a, t, i) + [i]
    case Or(a, b) => Ends(a, t, i) + Ends(b, t, i)
  }

  /** The ends of `b` tried from each of `mids` in turn. */
  function EndsAfter(b: Re, t: string, mids: seq<nat>, lo: nat): (es: seq<nat>)
    requires forall k | 0 <= k < |mids| :: lo <= mids[k] <= |t|
    ensures forall k | 0 <= k < |es| :: lo <= es[k] <= |t|
    decreases b, 1, |mids|
  {
    if |mids| == 0 then []
    else Ends(b, t, mids[0]) + EndsAfter(b, t, mids[1..], lo)
  }

  /** The language of `r`, as a relation between start and end: the
      reference meaning, free of any order. */
  ghost predicate Matches(r: Re, t: string, i: nat, j: nat)
    requires i <= j <= |t|
  {
    match r
    case Empty => j == i
    case Char(k) => j == i + 1 && InClass(t[i], k)
    case WordBoundary => j == i && AtBoundary(t, i)
    case Then(a, b) => exists m | i <= m <= j :: Matches(a, t, i, m) && Matches(b, t, m, j)
    case Opt(a) => j == i || Matches(a, t, i, j)
    case Or(a, b) => Matches(a, t, i, j) || Matches(b, t, i, j)
  }

  lemma {:induction false} EndsAfterMembers(b: Re, t: string, mids: seq<nat>, lo: nat, j: nat)
    requires forall k | 0 <= k < |mids| :: lo <= mids[k] <= |t|
    ensures j in EndsAfter(b, t, mids, lo) <==> exists k | 0 <= k < |mids| :: j in Ends(b, t, mids[k])
    decreases |mids|
  {
    if |mids| > 0 {
      EndsAfterMembers(b, t, mids[1..], lo, j);
      if exists k | 1 <= k < |mids| :: j in Ends(b, t, mids[k]) {
        var k :| 1 <= k < |mids| && j in Ends(b, t, mids[k]);
        assert mids[1..][k - 1] == mids[k];
      }
      if exists k | 0 <= k < |mids| - 1 :: j in Ends(b, t, mids[1..][k]) {
        var k :| 0 <= k < |mids| - 1 && j in Ends(b, t, mids[1..][k]);
        assert mids[k + 1] == mids[1..][k];
      }
    }
  }

  /** The ordered ends are exactly the language: nothing the matcher tries
      is outside it and nothing in it is skipped. */
  lemma {:induction false} EndsExact(r: Re, t: string, i: nat, j: nat)
    requires i <= j <= |t|
    ensures j in Ends(r, t, i) <==> Matches(r, t, i, j)
    decreases r
  {
    match r
    case Empty =>
    case Char(k) =>
    case WordBoundary =>
    case Then(a, b) =>
      forall m | i <= m <= j
        ensures m in Ends(a, t, i) <==> Matches(a, t, i, m)
        ensures j in Ends(b, t, m) <==> Matches(b, t, m, j)
      {
        EndsExact(a, t, i, m);
        EndsExact(b, t, m, j);
      }
      ThenExact(a, b, t, i, j);
    case Opt(a) =>
      EndsExact(a, t, i, j);
    case Or(a, b) =>
      EndsExact(a, t, i, j);
      EndsExact(b, t, i, j);
  }

  /** The concatenation step of EndsExact, given the fact for both parts. */
  lemma ThenExact(a: Re, b: Re, t: string, i: nat, j: nat)
    requires i <= j <= |t|
    requires forall m | i <= m <= j :: m in Ends(a, t, i) <==> Matches(a, t, i, m)
    requires forall m | i <= m <= j :: j in Ends(b, t, m) <==> Matches(b, t, m, j)
    ensures j in Ends(Then(a, b), t, i) <==> Matches(Then(a, b), t, i, j)
  {
    if j in Ends(Then(a, b), t, i) {
      ThenSound(a, b, t, i, j);
    }
    if Matches(Then(a, b), t, i, j) {
      ThenWitness(a, b, t, i, j);
      EndsAfterMembers(b, t, Ends(a, t, i), i, j);
    }
  }

  lemma ThenSound(a: Re, b: Re, t: string, i: nat, j: nat)
    requires i <= j <= |t| && j in Ends(Then(a, b), t, i)
    requires forall m | i <= m <= j :: m in Ends(a, t, i) <==> Matches(a, t, i, m)
    requires forall m | i <= m <= j :: j in Ends(b, t, m) <==> Matches(b, t, m, j)
    ensures Matches(Then(a, b), t, i, j)
  {
    var mids := Ends(a, t, i);
    EndsAfterMembers(b, t, mids, i, j);
    var k :| 0 <= k < |mids| && j in Ends(b, t, mids[k]);
    var m := mids[k];
    assert m in mids;
    assert Matches(a, t, i, m) && Matches(b, t, m, j);
  }

  lemma ThenWitness(a: Re, b: Re, t: string, i: nat, j: nat)
    requires i <= j <= |t| && Matches(Then(a, b), t, i, j)
    requires forall m | i <= m <= j :: m in Ends(a, t, i) <==> Matches(a, t, i, m)
    requires forall m | i <= m <= j :: j in Ends(b, t, m) <==> Matches(b, t, m, j)
    ensures exists k | 0 <= k < |Ends(a, t, i)| :: j in Ends(b, t, Ends(a, t, i)[k])
  {
    var m :| i <= m <= j && Matches(a, t, i, m) && Matches(b, t, m, j);
    var mids := Ends(a, t, i);
    var k :| 0 <= k < |mids| && mids[k] == m;
    assert j in Ends(b, t, mids[k]);
  }

  // ----- pattern building blocks -----

  /** A literal string. */
  function Lit(s: string): Re
    decreases |s|
  {
    if |s| == 0 then Empty else Then(Char(OneOf([s[0]])), Lit(s[1..]))
  }

  /** `r{n}` */
  function Times(r: Re, n: nat): Re {
    if n == 0 then Empty else Then(r, Times(r, n - 1))
  }

  /** `r{0,n}`, greedy: as many as possible first. */
  function UpTo(r: Re, n: nat): Re {
    if n == 0 then Empty else Opt(Then(r, UpTo(r, n - 1)))
  }

  /** `r{m,n}` for m <= n, greedy. */
  function Between(r: Re, m: nat, n: nat): Re
    requires m <= n
  {
    Then(Times(r, m), UpTo(r, n - m))
  }

  /** A concatenation matches through some middle point. */
  lemma ThenSplit(a: Re, b: Re, t: string, i: nat, j: nat)
    requires i <= j <= |t| && Matches(Then(a, b), t, i, j)
    ensures exists m | i <= m <= j :: Matches(a, t, i, m) && Matches(b, t, m, j)
  {
  }

  // ----- shape of a match -----

  /** The least and greatest number of characters a match can span. */
  function MinLen(r: Re): nat {
    match r
    case Empty => 0
    case Char(_) => 1
    case WordBoundary => 0
    case Then(a, b) => MinLen(a) + MinLen(b)
    case Opt(_) => 0
    case Or(a, b) => if MinLen(a) < MinLen(b) then MinLen(a) else MinLen(b)
  }

  function MaxLen(r: Re): nat {
    match r
    case Empty => 0
    case Char(_) => 1
    case WordBoundary => 0
    case Then(a, b) => MaxLen(a) + MaxLen(b)
    case Opt(a) => MaxLen(a)
    case Or(a, b) => if MaxLen(a) < MaxLen(b) then MaxLen(b) else MaxLen(a)
  }

  /** Whether a character can appear in a match at all. */
  predicate CanHold(r: Re, c: char) {
    match r
    case Empty => false
    case Char(k) => InClass(c, k)
    case WordBoundary => false
    case Then(a, b) => CanHold(a, c) || CanHold(b, c)
    case Opt(a) => CanHold(a, c)
    case Or(a, b) => CanHold(a, c) || CanHold(b, c)
  }

  /** Every match spans between MinLen and MaxLen characters, each of
      which the pattern can hold. */
  lemma {:induction false} MatchShape(r: Re, t: string, i: nat, j: nat)
    requires i <= j <= |t| && Matches(r, t, i, j)
    ensures MinLen(r) <= j - i <= MaxLen(r)
    ensures forall k | i <= k < j :: CanHold(r, t[k])
    decreases r
  {
    match r
    case Empty =>
    case Char(_) =>
    case WordBoundary =>
    case Then(a, b) =>
      var m :| i <= m <= j && Matches(a, t, i, m) && Matches(b, t, m, j);
      MatchShape(a, t, i, m);
      MatchShape(b, t, m, j);
    case Opt(a) =>
      if j != i {
        MatchShape(a, t, i, j);
      }
    case Or(a, b) =>
      if Matches(a, t, i, j) {
        MatchShape(a, t, i, j);
      } else {
        MatchShape(b, t, i, j);
      }
  }

  /** An optional single character: nothing, or one character of the class. */
  lemma OptCharShape(k: CharClass, t: string, i: nat, j: nat)
    requires i <= j <= |t| && Matches(Opt(Char(k)), t, i, j)
    ensures j == i || (j == i + 1 && InClass(t[i], k))
  {
  }

  /** `\d{n}` matches exactly n digits. */
  lemma {:induction false} DigitsShape(n: nat, t: string, i: nat, j: nat)
    requires i <= j <= |t| && Matches(Times(Char(Digit), n), t, i, j)
    ensures j == i + n
    ensures forall k | i <= k < j :: IsDigit(t[k])
    decreases n
  {
    if n > 0 {
      ThenSplit(Char(Digit), Times(Char(Digit), n - 1), t, i, j);
      var m :| i <= m <= j && Matches(Char(Digit), t, i, m) && Matches(Times(Char(Digit), n - 1), t, m, j);
      DigitsShape(n - 1, t, m, j);
    }
  }

  /** `\d{n}` matches any n digits: the converse of `DigitsShape`. */
  lemma {:induction false} DigitsMatch(n: nat, t: string, i: nat)
    requires i + n <= |t| && forall k | i <= k < i + n :: IsDigit(t[k])
    ensures Matches(Times(Char(Digit), n), t, i, i + n)
    decreases n
  {
    if n > 0 {
      DigitsMatch(n - 1, t, i + 1);
      assert Matches(Char(Digit), t, i, i + 1);
    }
  }

  /** `\d{0,n}` matches at most n digits. */
  lemma {:induction false} UpToDigitsShape(n: nat, t: string, i: nat, j: nat)
    requires i <= j <= |t| && Matches(UpTo(Char(Digit), n), t, i, j)
    ensures j <= i + n
    ensures forall k | i <= k < j :: IsDigit(t[k])
    decreases n
  {
    if n > 0 && j != i {
      assert Matches(Then(Char(Digit), UpTo(Char(Digit), n - 1)), t, i, j);
      ThenSplit(Char(Digit), UpTo(Char(Digit), n - 1), t, i, j);
      var m :| i <= m <= j && Matches(Char(Digit), t, i, m) && Matches(UpTo(Char(Digit), n - 1), t, m, j);
      UpToDigitsShape(n - 1, t, m, j);
    }
  }

  /** A literal matches exactly its own text. */
  lemma {:induction false} LitShape(s: string, t: string, i: nat, j: nat)
    requires i <= j <= |t| && Matches(Lit(s), t, i, j)
    ensures j == i + |s| && t[i..j] == s
    ensures forall k | 0 <= k < |s| :: t[i + k] == s[k]
    decreases |s|
  {
    if |s| > 0 {
      ThenSplit(Char(OneOf([s[0]])), Lit(s[1..]), t, i, j);
      var m :| i <= m <= j && Matches(Char(OneOf([s[0]])), t, i, m) && Matches(Lit(s[1..]), t, m, j);
      LitShape(s[1..], t, m, j);
      assert t[i..j] == [t[i]] + t[m..j];
      assert s == [s[0]] + s[1..];
    }
  }

  // ----- search -----

  datatype Span = Span(start: nat, end: nat)

  predicate MatchesAt(r: Re, t: string, p: nat)
    requires p <= |t|
  {
    |Ends(r, t, p)| > 0
  }

  /** `re.search(r, t)`: the leftmost start with a match, and there the
      first end the matcher reaches. */
  function Search(r: Re, t: string): (m: Option<Span>)
    ensures m.Some? ==> m.value.start <= m.value.end <= |t|
    ensures m.Some? ==> Matches(r, t, m.value.start, m.value.end)
    ensures m.Some? ==> forall p, j | 0 <= p < m.value.start && p <= j <= |t| :: !Matches(r, t, p, j)
    ensures m.None? ==> forall p, j | 0 <= p <= j <= |t| :: !Matches(r, t, p, j)
  {
    var at := (p: nat) => p <= |t| && MatchesAt(r, t, p);
    assert forall p: nat :: at(p) == (p <= |t| && MatchesAt(r, t, p));
    var first := Leftmost(0, |t|, at);
    NoMatchWhereNoEnds(r, t);
    match first
    case None => None
    case Some(p) =>
      var j := Ends(r, t, p)[0];
      EndsExact(r, t, p, j);
      Some(Span(p, j))
  }

  lemma NoMatchWhereNoEnds(r: Re, t: string)
    ensures forall p, j | 0 <= p <= j <= |t| && !MatchesAt(r, t, p) :: !Matches(r, t, p, j)
  {
    forall p, j | 0 <= p <= j <= |t| && !MatchesAt(r, t, p)
      ensures !Matches(r, t, p, j)
    {
      EndsExact(r, t, p, j);
    }
  }

  /** The text of the match, as `m.group(0)`. */
  function Group(t: string, s: Span): (g: string)
    requires s.start <= s.end <= |t|
    ensures |g| == s.end - s.start
  {
    t[s.start..s.end]
  }
}
