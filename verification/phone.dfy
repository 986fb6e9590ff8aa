/** The phone number extraction of `parse_resume_text` in core/views.py: an
    Indian mobile number pattern first, a generic pattern only when it
    finds nothing, and the text of the first match. */
module Phone {
  import opened Text
  import opened Regex

  /** `[\s-]?` */
  const PlusSep: Re := Opt(Char(Either(Space, OneOf("-"))))

  /** `[-. ]?` */
  const Sep: Re := Opt(Char(OneOf("-. ")))

  /** `\b(?:\+91[\s-]?)?[6789]\d{9}\b` */
  const IndianPattern: Re := Then(WordBoundary, Then(IndianPrefix, IndianDigits))

  /** `\b(?:\+?\d{1,3}[-. ]?)?\(?\d{3}\)?[-. ]?\d{3}[-. ]?\d{4}\b` */
  const GenericPattern: Re :=
    Then(WordBoundary,
    Then(Opt(CountryCode),
    Then(Opt(Char(OneOf("("))),
    LocalNumber)))

  /** The phone number stored on the profile: the first Indian match, else
      the first generic match, else "". */
  function PhoneNumber(t: string): (r: string)
    ensures Search(IndianPattern, t).Some? ==> r == Group(t, Search(IndianPattern, t).value)
    ensures Search(IndianPattern, t).None? && Search(GenericPattern, t).Some? ==>
      r == Group(t, Search(GenericPattern, t).value)
    ensures r == "" <==> Search(IndianPattern, t).None? && Search(GenericPattern, t).None?
  {
    match Search(IndianPattern, t)
    case Some(m) =>
      IndianShape(t, m.start, m.end);
      Group(t, m)
    case None =>
      match Search(GenericPattern, t)
      case Some(m) =>
        GenericShape(t, m.start, m.end);
        Group(t, m)
      case None => ""
  }

  // ----- what a match looks like -----

  /** `[6789]\d{9}\b`: ten digits, the first 6 to 9, then a boundary. */
  const IndianDigits: Re := Then(Char(OneOf("6789")), Then(Times(Char(Digit), 9), WordBoundary))

  /** `(?:\+91[\s-]?)?` */
  const IndianPrefix: Re := Opt(Then(Lit("+91"), PlusSep))

  lemma IndianDigitsShape(t: string, i: nat, j: nat)
    requires i <= j <= |t| && Matches(IndianDigits, t, i, j)
    ensures j == i + 10 && t[i] in "6789"
    ensures forall k | i + 1 <= k < j :: IsDigit(t[k])
    ensures AtBoundary(t, j)
  {
    var rest := Then(Times(Char(Digit), 9), WordBoundary);
    ThenSplit(Char(OneOf("6789")), rest, t, i, j);
    var m :| i <= m <= j && Matches(Char(OneOf("6789")), t, i, m) && Matches(rest, t, m, j);
    ThenSplit(Times(Char(Digit), 9), WordBoundary, t, m, j);
    var m' :| m <= m' <= j && Matches(Times(Char(Digit), 9), t, m, m') && Matches(WordBoundary, t, m', j);
    DigitsShape(9, t, m, m');
  }

  lemma IndianPrefixShape(t: string, i: nat, j: nat)
    requires i <= j <= |t| && Matches(IndianPrefix, t, i, j)
    ensures j == i || j == i + 3 || j == i + 4
    ensures j > i ==> t[i] == '+' && t[i + 1] == '9' && t[i + 2] == '1'
    ensures j == i + 4 ==> IsSpace(t[i + 3]) || t[i + 3] == '-'
  {
    if j != i {
      ThenSplit(Lit("+91"), PlusSep, t, i, j);
      var m :| i <= m <= j && Matches(Lit("+91"), t, i, m) && Matches(PlusSep, t, m, j);
      LitShape("+91", t, i, m);
      var plus := "+91";
      assert t[i] == plus[0] && t[i + 1] == plus[1] && t[i + 2] == plus[2];
      OptCharShape(Either(Space, OneOf("-")), t, m, j);
    }
  }

  /** An Indian match is ten digits, the first of them 6 to 9, with word
      boundaries on both sides, optionally preceded by "+91" and one space
      or hyphen: 10, 13 or 14 characters. */
  lemma IndianShape(t: string, i: nat, j: nat)
    requires i <= j <= |t| && Matches(IndianPattern, t, i, j)
    ensures j - i == 10 || j - i == 13 || j - i == 14
    ensures t[j - 10] in "6789"
    ensures forall k | j - 9 <= k < j :: IsDigit(t[k])
    ensures AtBoundary(t, i) && AtBoundary(t, j)
    ensures j - i > 10 ==> t[i] == '+' && t[i + 1] == '9' && t[i + 2] == '1'
    ensures j - i == 14 ==> IsSpace(t[i + 3]) || t[i + 3] == '-'
  {
    ThenSplit(WordBoundary, Then(IndianPrefix, IndianDigits), t, i, j);
    var m1 :| i <= m1 <= j && Matches(WordBoundary, t, i, m1) && Matches(Then(IndianPrefix, IndianDigits), t, m1, j);
    ThenSplit(IndianPrefix, IndianDigits, t, m1, j);
    var m2 :| m1 <= m2 <= j && Matches(IndianPrefix, t, m1, m2) && Matches(IndianDigits, t, m2, j);
    assert m1 == i;
    IndianPrefixShape(t, m1, m2);
    IndianDigitsShape(t, m2, j);
    assert j - 10 == m2;
  }

  /** A '+' opens an Indian match only right after a word character: `\b`
      does not hold before a '+' at the start of the text or after a space,
      so there the match starts at the ten digits and leaves "+91" out. */
  lemma IndianPlusNeedsWordBefore(t: string, i: nat, j: nat)
    requires i <= j <= |t| && Matches(IndianPattern, t, i, j)
    requires i < |t| && t[i] == '+'
    ensures i > 0 && IsWordChar(t[i - 1])
  {
    IndianShape(t, i, j);
  }

  /** What `IndianShape` says of an Indian match from `i` to `j`. */
  predicate IndianShaped(t: string, i: nat, j: nat) {
    && i + 10 <= j <= |t|
    && (j - i == 10 || j - i == 13 || j - i == 14)
    && t[j - 10] in "6789"
    && (forall k | j - 9 <= k < j :: IsDigit(t[k]))
    && AtBoundary(t, i) && AtBoundary(t, j)
    && (j - i > 10 ==> t[i] == '+' && t[i + 1] == '9' && t[i + 2] == '1')
  }

  lemma IndianMatchesShaped(t: string)
    ensures forall i: nat, j: nat | i <= j <= |t| && Matches(IndianPattern, t, i, j) :: IndianShaped(t, i, j)
  {
    forall i: nat, j: nat | i <= j <= |t| && Matches(IndianPattern, t, i, j)
      ensures IndianShaped(t, i, j)
    {
      IndianShape(t, i, j);
    }
  }

  /** The converse of `IndianShape` without a prefix: ten digits, the first
      6 to 9, between two word boundaries, match. */
  lemma IndianDigitsMatch(t: string, i: nat)
    requires i + 10 <= |t| && t[i] in "6789" && forall k | i + 1 <= k < i + 10 :: IsDigit(t[k])
    requires AtBoundary(t, i) && AtBoundary(t, i + 10)
    ensures Matches(IndianPattern, t, i, i + 10)
  {
    DigitsMatch(9, t, i + 1);
    assert Matches(WordBoundary, t, i + 10, i + 10) && Matches(WordBoundary, t, i, i);
    assert Matches(Then(Times(Char(Digit), 9), WordBoundary), t, i + 1, i + 10);
    assert Matches(Char(OneOf("6789")), t, i, i + 1);
    assert Matches(IndianDigits, t, i, i + 10);
    assert Matches(IndianPrefix, t, i, i);
    assert Matches(Then(IndianPrefix, IndianDigits), t, i, i + 10);
  }

  /** When the first start with an Indian match holds ten digits and no '+',
      the number is those ten digits. */
  lemma IndianFirstAt(t: string, i: nat)
    requires i + 10 <= |t| && Matches(IndianPattern, t, i, i + 10) && t[i] != '+'
    requires forall p: nat, j: nat | p < i && p <= j <= |t| :: !IndianShaped(t, p, j)
    ensures PhoneNumber(t) == t[i..i + 10]
  {
    IndianMatchesShaped(t);
    var m := Search(IndianPattern, t).value;
    assert m.start == i;
    IndianShape(t, m.start, m.end);
  }

  /** A number written with its country code and a space. */
  const PlusNumber: string := "+91 9876543210"

  lemma PlusNumberChars()
    ensures |PlusNumber| == 14 && PlusNumber[4] == '9' && PlusNumber[4] != '+'
    ensures forall k | 5 <= k < 14 :: IsDigit(PlusNumber[k])
    ensures AtBoundary(PlusNumber, 4) && AtBoundary(PlusNumber, 14)
    ensures PlusNumber[4..14] == "9876543210"
  {
  }

  /** No start before the ten digits has the shape of an Indian match: the
      '+' has no word character before it, so `\b` fails there. */
  lemma PlusNumberNotShapedBefore()
    ensures forall p: nat, j: nat | p < 4 && p <= j <= |PlusNumber| :: !IndianShaped(PlusNumber, p, j)
  {
    var t := PlusNumber;
    assert !AtBoundary(t, 0);
    assert !IsDigit(t[3]) && t[2] !in "6789" && t[3] !in "6789";
    assert t[1] != '+' && t[2] != '+' && t[3] != '+';
  }

  /** "+91 9876543210" gives "9876543210": the match cannot start at the
      '+', so the country code is left out. */
  lemma PlusNumberExample()
    ensures PhoneNumber("+91 9876543210") == "9876543210"
  {
    PlusNumberChars();
    IndianDigitsMatch(PlusNumber, 4);
    PlusNumberNotShapedBefore();
    IndianFirstAt(PlusNumber, 4);
  }

  /** `\+?`, one to three digits and an optional separator: a country code. */
  const CountryCode: Re := Then(Opt(Char(OneOf("+"))), Then(Between(Char(Digit), 1, 3), Sep))

  /** Characters a phone match may hold: digits, white space and "+-.()". */
  predicate PhoneChar(c: char) {
    IsDigit(c) || IsSpace(c) || c in "+-.()"
  }

  /** Characters a generic match may hold. */
  predicate GenericChar(c: char) {
    IsDigit(c) || c in "+-. ()"
  }

  /** Every character of `t[i..j]` may occur in a generic match. */
  predicate GenericSpan(t: string, i: nat, j: nat)
    requires i <= j <= |t|
  {
    forall k | i <= k < j :: GenericChar(t[k])
  }

  lemma GenericSpanJoin(t: string, i: nat, m: nat, j: nat)
    requires i <= m <= j <= |t| && GenericSpan(t, i, m) && GenericSpan(t, m, j)
    ensures GenericSpan(t, i, j)
  {
  }

  /** A run of digits may occur in a generic match. */
  lemma DigitsGeneric(t: string, i: nat, j: nat)
    requires i <= j <= |t| && forall k | i <= k < j :: IsDigit(t[k])
    ensures GenericSpan(t, i, j)
  {
  }

  /** An optional character from `chars`, all allowed in a generic match. */
  lemma OptCharGeneric(chars: string, t: string, i: nat, j: nat)
    requires forall k | 0 <= k < |chars| :: GenericChar(chars[k])
    requires i <= j <= |t| && Matches(Opt(Char(OneOf(chars))), t, i, j)
    ensures j <= i + 1 && GenericSpan(t, i, j)
  {
    OptCharShape(OneOf(chars), t, i, j);
    if j == i + 1 {
      assert t[i] in chars;
    }
  }

  lemma CountryCodeShape(t: string, i: nat, j: nat)
    requires i <= j <= |t| && Matches(CountryCode, t, i, j)
    ensures 1 <= j - i <= 5
    ensures GenericSpan(t, i, j)
  {
    var d := Char(Digit);
    ThenSplit(Opt(Char(OneOf("+"))), Then(Between(d, 1, 3), Sep), t, i, j);
    var p1 :| i <= p1 <= j && Matches(Opt(Char(OneOf("+"))), t, i, p1) && Matches(Then(Between(d, 1, 3), Sep), t, p1, j);
    OptCharGeneric("+", t, i, p1);
    ThenSplit(Between(d, 1, 3), Sep, t, p1, j);
    var p2 :| p1 <= p2 <= j && Matches(Between(d, 1, 3), t, p1, p2) && Matches(Sep, t, p2, j);
    OptCharGeneric("-. ", t, p2, j);
    ThenSplit(Times(d, 1), UpTo(d, 2), t, p1, p2);
    var p3 :| p1 <= p3 <= p2 && Matches(Times(d, 1), t, p1, p3) && Matches(UpTo(d, 2), t, p3, p2);
    DigitsShape(1, t, p1, p3);
    UpToDigitsShape(2, t, p3, p2);
    DigitsGeneric(t, p1, p3);
    DigitsGeneric(t, p3, p2);
    GenericSpanJoin(t, p1, p3, p2);
    GenericSpanJoin(t, p1, p2, j);
    GenericSpanJoin(t, i, p1, j);
  }

  /** `\d{3}[-. ]?\d{4}\b`: the last seven digits of a generic match. */
  const LastSeven: Re :=
    Then(Times(Char(Digit), 3),
    Then(Sep,
    Then(Times(Char(Digit), 4),
    WordBoundary)))

  /** The part of a generic match after the country code and the opening
      parenthesis. */
  const LocalNumber: Re :=
    Then(Times(Char(Digit), 3),
    Then(Opt(Char(OneOf(")"))),
    Then(Sep,
    LastSeven)))

  lemma LastSevenShape(t: string, i: nat, j: nat)
    requires i <= j <= |t| && Matches(LastSeven, t, i, j)
    ensures 7 <= j - i <= 8
    ensures GenericSpan(t, i, j)
  {
    var d := Char(Digit);
    var r8 := Then(Sep, Then(Times(d, 4), WordBoundary));
    ThenSplit(Times(d, 3), r8, t, i, j);
    var m7 :| i <= m7 <= j && Matches(Times(d, 3), t, i, m7) && Matches(r8, t, m7, j);
    DigitsShape(3, t, i, m7);
    DigitsGeneric(t, i, m7);
    ThenSplit(Sep, Then(Times(d, 4), WordBoundary), t, m7, j);
    var m8 :| m7 <= m8 <= j && Matches(Sep, t, m7, m8) && Matches(Then(Times(d, 4), WordBoundary), t, m8, j);
    OptCharGeneric("-. ", t, m7, m8);
    ThenSplit(Times(d, 4), WordBoundary, t, m8, j);
    var m9 :| m8 <= m9 <= j && Matches(Times(d, 4), t, m8, m9) && Matches(WordBoundary, t, m9, j);
    DigitsShape(4, t, m8, m9);
    DigitsGeneric(t, m8, m9);
    assert m9 == j;
    GenericSpanJoin(t, m7, m8, j);
    GenericSpanJoin(t, i, m7, j);
  }

  lemma LocalNumberShape(t: string, i: nat, j: nat)
    requires i <= j <= |t| && Matches(LocalNumber, t, i, j)
    ensures 10 <= j - i <= 13
    ensures GenericSpan(t, i, j)
  {
    var d := Char(Digit);
    var r6 := Then(Sep, LastSeven);
    var r5 := Then(Opt(Char(OneOf(")"))), r6);
    ThenSplit(Times(d, 3), r5, t, i, j);
    var m4 :| i <= m4 <= j && Matches(Times(d, 3), t, i, m4) && Matches(r5, t, m4, j);
    DigitsShape(3, t, i, m4);
    DigitsGeneric(t, i, m4);
    ThenSplit(Opt(Char(OneOf(")"))), r6, t, m4, j);
    var m5 :| m4 <= m5 <= j && Matches(Opt(Char(OneOf(")"))), t, m4, m5) && Matches(r6, t, m5, j);
    OptCharGeneric(")", t, m4, m5);
    ThenSplit(Sep, LastSeven, t, m5, j);
    var m6 :| m5 <= m6 <= j && Matches(Sep, t, m5, m6) && Matches(LastSeven, t, m6, j);
    OptCharGeneric("-. ", t, m5, m6);
    LastSevenShape(t, m6, j);
    GenericSpanJoin(t, m5, m6, j);
    GenericSpanJoin(t, m4, m5, j);
    GenericSpanJoin(t, i, m4, j);
  }

  /** A generic match spans 10 to 19 characters, all digits or one of
      "+-. ()". */
  lemma GenericShape(t: string, i: nat, j: nat)
    requires i <= j <= |t| && Matches(GenericPattern, t, i, j)
    ensures 10 <= j - i <= 19
    ensures GenericSpan(t, i, j)
  {
    var r3 := Then(Opt(Char(OneOf("("))), LocalNumber);
    var r2 := Then(Opt(CountryCode), r3);
    ThenSplit(WordBoundary, r2, t, i, j);
    var m1 :| i <= m1 <= j && Matches(WordBoundary, t, i, m1) && Matches(r2, t, m1, j);
    assert m1 == i;
    ThenSplit(Opt(CountryCode), r3, t, m1, j);
    var m2 :| m1 <= m2 <= j && Matches(Opt(CountryCode), t, m1, m2) && Matches(r3, t, m2, j);
    if m2 != m1 {
      assert Matches(CountryCode, t, m1, m2);
      CountryCodeShape(t, m1, m2);
    }
    ThenSplit(Opt(Char(OneOf("("))), LocalNumber, t, m2, j);
    var m3 :| m2 <= m3 <= j && Matches(Opt(Char(OneOf("("))), t, m2, m3) && Matches(LocalNumber, t, m3, j);
    OptCharGeneric("(", t, m2, m3);
    LocalNumberShape(t, m3, j);
    GenericSpanJoin(t, m2, m3, j);
    GenericSpanJoin(t, m1, m2, j);
  }

  /** Every character of an Indian match is a digit, a white space, '+' or
      '-'. */
  lemma IndianChars(t: string, i: nat, j: nat)
    requires i <= j <= |t| && Matches(IndianPattern, t, i, j)
    ensures forall k | i <= k < j :: PhoneChar(t[k])
  {
    IndianShape(t, i, j);
  }

  /** A number found by the Indian pattern is 10, 13 or 14 characters and
      ends in ten digits. */
  lemma IndianNumberShape(t: string)
    requires Search(IndianPattern, t).Some?
    ensures var r := PhoneNumber(t);
      && (|r| == 10 || |r| == 13 || |r| == 14)
      && (forall k | 0 <= k < |r| :: PhoneChar(r[k]))
      && (forall k | |r| - 10 <= k < |r| && 0 <= k :: IsDigit(r[k]))
  {
    var m := Search(IndianPattern, t).value;
    IndianGroupShape(t, m.start, m.end);
  }

  lemma IndianGroupShape(t: string, i: nat, j: nat)
    requires i <= j <= |t| && Matches(IndianPattern, t, i, j)
    ensures var r := t[i..j];
      && (|r| == 10 || |r| == 13 || |r| == 14)
      && (forall k | 0 <= k < |r| :: PhoneChar(r[k]))
      && (forall k | |r| - 10 <= k < |r| && 0 <= k :: IsDigit(r[k]))
  {
    IndianShape(t, i, j);
    IndianChars(t, i, j);
  }

  /** A number found by the generic pattern is 10 to 19 characters. */
  lemma GenericNumberShape(t: string)
    requires Search(IndianPattern, t).None? && Search(GenericPattern, t).Some?
    ensures var r := PhoneNumber(t);
      && 10 <= |r| <= 19
      && (forall k | 0 <= k < |r| :: GenericChar(r[k]))
  {
    var m := Search(GenericPattern, t).value;
    GenericShape(t, m.start, m.end);
    assert PhoneNumber(t) == t[m.start..m.end];
  }
}
