/** `parse_resume_text` of core/views.py: the fields read out of a resume's
    text. The CGPA and backlog patterns are scanned by hand in the order
    Python's `re.search` tries them; the phone number comes from the Phone
    module; named entities and sentences come from the language model and
    are inputs here. */
module Resume {
  import opened Text
  import opened Regex
  import opened Phone
  import opened Skills

  // ----- keywords -----

  /** The index of the first of `words[k..]` that starts at `p` when case is
      ignored: the alternatives of a group tried left to right. */
  function WordFrom(t: string, p: nat, words: seq<string>, k: nat): (r: Option<nat>)
    requires k <= |words|
    ensures r.Some? ==> k <= r.value < |words| && StartsAtIgnoringCase(t, p, words[r.value])
    ensures r.Some? ==> forall q | k <= q < r.value :: !StartsAtIgnoringCase(t, p, words[q])
    ensures r.None? ==> forall q | k <= q < |words| :: !StartsAtIgnoringCase(t, p, words[q])
    decreases |words| - k
  {
    if k == |words| then None
    else if StartsAtIgnoringCase(t, p, words[k]) then Some(k)
    else WordFrom(t, p, words, k + 1)
  }

  // ----- CGPA: (cgpa|gpa|score|percentage)\D*(\d\.\d{1,2}|\d{2,3}) -----

  const CgpaWords: seq<string> := ["cgpa", "gpa", "score", "percentage"]

  /** The number group `\d\.\d{1,2}|\d{2,3}` at `j`: "d.d" or "d.dd" first,
      else two or three digits, each repeat as long as it can be. */
  function CgpaGroup(t: string, j: nat): (g: Option<string>)
    requires j <= |t|
    ensures g.Some? ==> j + |g.value| <= |t| && t[j..j + |g.value|] == g.value
    ensures g.Some? ==> IsCgpaNumber(g.value)
    ensures g.None? <==> !(j + 1 < |t| && IsDigit(t[j]) && (IsDigit(t[j + 1]) || (t[j + 1] == '.' && j + 2 < |t| && IsDigit(t[j + 2]))))
  {
    if j + 2 < |t| && IsDigit(t[j]) && t[j + 1] == '.' && IsDigit(t[j + 2]) then
      if j + 3 < |t| && IsDigit(t[j + 3]) then Some(t[j..j + 4]) else Some(t[j..j + 3])
    else if j + 1 < |t| && IsDigit(t[j]) && IsDigit(t[j + 1]) then
      if j + 2 < |t| && IsDigit(t[j + 2]) then Some(t[j..j + 3]) else Some(t[j..j + 2])
    else None
  }

  /** The shapes the group can take. */
  predicate IsCgpaNumber(g: string) {
    || (|g| in {3, 4} && IsDigit(g[0]) && g[1] == '.' && AllDigits(g[2..]))
    || (|g| in {2, 3} && AllDigits(g))
  }

  /** The group's value in hundredths, as the source converts it: a group
      without a point and longer than two characters is divided by ten
      ("850" is 85.0), any other is read as written ("85" is 85.0, "8.5" is
      8.5). */
  function CgpaGroupValue(g: string): (v: nat)
    requires IsCgpaNumber(g)
    ensures '.' !in g && |g| == 3 ==> v == 10 * DigitsValue(g)
    ensures '.' !in g && |g| == 2 ==> v == 100 * DigitsValue(g)
    ensures '.' in g ==> v == 100 * DigitValue(g[0]) + (if |g| == 3 then 10 * DigitValue(g[2]) else DigitsValue(g[2..]))
  {
    if '.' !in g && |g| > 2 then 10 * DigitsValue(g)
    else if '.' in g then
      assert g[1] == '.';
      100 * DigitValue(g[0]) + (if |g| == 3 then 10 * DigitValue(g[2]) else DigitsValue(g[2..]))
    else
      100 * DigitsValue(g)
  }

  /** The group the CGPA pattern captures when tried at `p`, if it matches
      there: a keyword, then everything up to the first digit, then the
      number group at that digit. */
  function CgpaMatchAt(t: string, p: nat): (g: Option<string>)
    requires p <= |t|
  {
    match WordFrom(t, p, CgpaWords, 0)
    case None => None
    case Some(k) => CgpaGroup(t, SkipNonDigits(t, p + |CgpaWords[k]|))
  }

  /** Where `re.search` finds the CGPA pattern. */
  function FirstCgpaMatch(t: string): (r: Option<nat>)
    ensures r.Some? ==> r.value <= |t| && CgpaMatchAt(t, r.value).Some?
    ensures r.Some? ==> forall p | 0 <= p < r.value :: CgpaMatchAt(t, p).None?
    ensures r.None? ==> forall p | 0 <= p <= |t| :: CgpaMatchAt(t, p).None?
  {
    var at := (p: nat) => p <= |t| && CgpaMatchAt(t, p).Some?;
    assert forall p: nat :: at(p) == (p <= |t| && CgpaMatchAt(t, p).Some?);
    Leftmost(0, |t|, at)
  }

  /** The CGPA read from a resume, in hundredths: the first match decides,
      and a value outside 0..10 gives nothing, even when a later match
      would have been in range. */
  function ResumeCgpa(t: string): (c: Option<int>)
    ensures c.Some? ==> 0 <= c.value <= 1000
    ensures c.Some? <==> FirstCgpaMatch(t).Some? && CgpaGroupValue(CgpaMatchAt(t, FirstCgpaMatch(t).value).value) <= 1000
    ensures c.Some? ==> c.value == CgpaGroupValue(CgpaMatchAt(t, FirstCgpaMatch(t).value).value)
  {
    match FirstCgpaMatch(t)
    case None => None
    case Some(p) =>
      var v := CgpaGroupValue(CgpaMatchAt(t, p).value);
      if v <= 1000 then Some(v) else None
  }

  /** The four keywords begin with four different letters, so at most one
      of them starts at any position and the order of the alternatives never
      matters. */
  lemma CgpaKeywordsExclusive(t: string, p: nat, a: nat, b: nat)
    requires a < 4 && b < 4
    requires StartsAtIgnoringCase(t, p, CgpaWords[a]) && StartsAtIgnoringCase(t, p, CgpaWords[b])
    ensures a == b
  {
    assert CgpaWords[a][0] == Lower(t[p]) == CgpaWords[b][0];
  }

  /** A two-digit number is kept as it is, so only 00 to 10 survive the
      range check; "85" is not read as 8.5. */
  lemma TwoDigitsNotScaled(g: string)
    requires |g| == 2 && AllDigits(g)
    ensures CgpaGroupValue(g) <= 1000 <==> DigitsValue(g) <= 10
  {
  }

  /** A three-digit number is divided by ten, so 000 to 100 survive. */
  lemma ThreeDigitsScaled(g: string)
    requires |g| == 3 && AllDigits(g)
    ensures CgpaGroupValue(g) <= 1000 <==> DigitsValue(g) <= 100
  {
  }

  /** A decimal "d.d" or "d.dd" always passes the range check. */
  lemma DecimalAlwaysInRange(g: string)
    requires IsCgpaNumber(g) && '.' in g
    ensures CgpaGroupValue(g) <= 999
  {
    assert g[1] == '.';
    if |g| == 4 {
      assert DigitsValue(g[2..]) < Pow10(2);
    }
  }

  // ----- backlogs: (backlogs|arrears|backlog|arrear)\D*(\d+) -----

  const BacklogWords: seq<string> := ["backlogs", "arrears", "backlog", "arrear"]

  /** The count the backlog pattern captures when tried at `p`: a keyword,
      then everything up to the first digit, then the run of digits there. */
  function BacklogMatchAt(t: string, p: nat): (n: Option<nat>)
    requires p <= |t|
  {
    match WordFrom(t, p, BacklogWords, 0)
    case None => None
    case Some(k) =>
      var j := SkipNonDigits(t, p + |BacklogWords[k]|);
      if j < |t| then Some(DigitsValue(t[j..SkipDigits(t, j)])) else None
  }

  /** The plural alternatives come first, but the singular one matching at
      the same place finds the same first digit: trying "backlog" and
      "arrear" alone gives the same count. */
  lemma {:induction false} BacklogSingularSuffices(t: string, p: nat, k: nat)
    requires p <= |t| && k < 4
    requires WordFrom(t, p, BacklogWords, 0) == Some(k)
    ensures var w := if k == 0 || k == 2 then "backlog" else "arrear";
      && StartsAtIgnoringCase(t, p, w)
      && SkipNonDigits(t, p + |BacklogWords[k]|) == SkipNonDigits(t, p + |w|)
  {
    var word := BacklogWords[k];
    var w := if k == 0 || k == 2 then "backlog" else "arrear";
    BacklogStems(k);
    PrefixIgnoringCase(t, p, word, |w|);
    if k == 0 || k == 1 {
      assert Lower(t[p + |w|]) == word[|w|];
      SkipNonDigitsFrom(t, p + |w|, p + |w| + 1);
    }
  }

  /** Each keyword is its singular stem, with an 's' after it for the
      plurals. */
  lemma BacklogStems(k: nat)
    requires k < 4
    ensures var w := if k == 0 || k == 2 then "backlog" else "arrear";
      && |w| <= |BacklogWords[k]| && BacklogWords[k][..|w|] == w
      && (k < 2 ==> |BacklogWords[k]| == |w| + 1 && BacklogWords[k][|w|] == 's')
  {
  }

  /** A prefix of a word that starts somewhere starts there too. */
  lemma PrefixIgnoringCase(t: string, p: nat, word: string, n: nat)
    requires n <= |word| && StartsAtIgnoringCase(t, p, word)
    ensures StartsAtIgnoringCase(t, p, word[..n])
  {
  }

  /** Skipping non-digits from `i` lands where it lands from any later
      point before the first digit. */
  lemma SkipNonDigitsFrom(t: string, i: nat, m: nat)
    requires i <= m <= |t|
    requires forall q | i <= q < m :: !IsDigit(t[q])
    ensures SkipNonDigits(t, i) == SkipNonDigits(t, m)
  {
  }

  /** Where `re.search` finds the backlog pattern. */
  function FirstBacklogMatch(t: string): (r: Option<nat>)
    ensures r.Some? ==> r.value <= |t| && BacklogMatchAt(t, r.value).Some?
    ensures r.Some? ==> forall p | 0 <= p < r.value :: BacklogMatchAt(t, p).None?
    ensures r.None? ==> forall p | 0 <= p <= |t| :: BacklogMatchAt(t, p).None?
  {
    var at := (p: nat) => p <= |t| && BacklogMatchAt(t, p).Some?;
    assert forall p: nat :: at(p) == (p <= |t| && BacklogMatchAt(t, p).Some?);
    Leftmost(0, |t|, at)
  }

  /** The backlog count read from a resume. */
  function ResumeBacklogs(t: string): (n: Option<int>)
    ensures n.Some? <==> FirstBacklogMatch(t).Some?
    ensures n.Some? ==> n.value >= 0 && Some(n.value as nat) == BacklogMatchAt(t, FirstBacklogMatch(t).value)
  {
    match FirstBacklogMatch(t)
    case None => None
    case Some(p) => Some(BacklogMatchAt(t, p).value)
  }

  /** A keyword with no digit anywhere after it: the count must follow the
      keyword, so "2 backlogs" gives nothing. */
  predicate BacklogWordAt(t: string, p: nat) {
    exists k | 0 <= k < 4 :: StartsAtIgnoringCase(t, p, BacklogWords[k])
  }

  lemma {:induction false} CountMustFollowKeyword(t: string)
    requires forall p, q | 0 <= p <= q < |t| :: BacklogWordAt(t, p) ==> !IsDigit(t[q])
    ensures ResumeBacklogs(t).None?
  {
    forall p | 0 <= p <= |t|
      ensures BacklogMatchAt(t, p).None?
    {
      match WordFrom(t, p, BacklogWords, 0)
      case None =>
      case Some(k) =>
        assert BacklogWordAt(t, p);
        assert forall q | p <= q < |t| :: !IsDigit(t[q]);
    }
  }

  // ----- education and experience -----

  /** A named entity found by the language model. */
  datatype Entity = Entity(text: string, kind: string)

  /** `\b(b\.?tech|m\.?tech|bachelor|master|ph\.?d)\b`, matched against
      lower-cased text, which is what IGNORECASE does for these letters. */
  const DegreePattern: Re :=
    Then(WordBoundary,
    Then(Or(Then(Lit("b"), Then(Opt(Lit(".")), Lit("tech"))),
         Or(Then(Lit("m"), Then(Opt(Lit(".")), Lit("tech"))),
         Or(Lit("bachelor"),
         Or(Lit("master"),
            Then(Lit("ph"), Then(Opt(Lit(".")), Lit("d"))))))),
    WordBoundary))

  /** An organisation that names a university or college, or a degree. */
  predicate IsEducation(e: Entity) {
    var lower := LowerStr(e.text);
    e.kind == "ORG" && (Contains(lower, "university") || Contains(lower, "college") || Search(DegreePattern, lower).Some?)
  }

  function Education(entities: seq<Entity>): (r: seq<string>)
    ensures forall s :: s in r <==> exists e | e in entities :: IsEducation(e) && s == e.text
  {
    if |entities| == 0 then []
    else
      var rest := Education(entities[1..]);
      assert forall e :: e in entities[1..] ==> e in entities;
      assert forall e :: e in entities ==> e == entities[0] || e in entities[1..];
      if IsEducation(entities[0]) then [entities[0].text] + rest else rest
  }

  const ExperiencePhrases: seq<string> := ["experience", "worked at", "software engineer", "project"]

  predicate IsExperience(sentence: string) {
    exists k | 0 <= k < 4 :: Contains(LowerStr(sentence), ExperiencePhrases[k])
  }

  function Experience(sentences: seq<string>): (r: seq<string>)
    ensures forall s :: s in r <==> s in sentences && IsExperience(s)
  {
    if |sentences| == 0 then []
    else
      var rest := Experience(sentences[1..]);
      assert forall s :: s in sentences <==> s == sentences[0] || s in sentences[1..];
      if IsExperience(sentences[0]) then [sentences[0]] + rest else rest
  }

  // ----- joining -----

  /** The distinct items of `xs`, each once, in order of first occurrence
      (the order `list(set(xs))` gives is left to the hash function). */
  function Distinct(xs: seq<string>): (r: seq<string>)
    ensures forall x :: x in r <==> x in xs
    ensures forall i, j | 0 <= i < j < |r| :: r[i] != r[j]
  {
    if |xs| == 0 then []
    else
      var rest := Distinct(xs[..|xs| - 1]);
      var last := xs[|xs| - 1];
      assert forall x :: x in xs <==> x in xs[..|xs| - 1] || x == last;
      if last in rest then rest else rest + [last]
  }

  /** `sep.join(list(set(xs)))` is empty exactly when no item is non-empty. */
  lemma {:induction false} JoinEmpty(sep: string, xs: seq<string>)
    requires forall i | 0 <= i < |xs| :: xs[i] != ""
    ensures Join(sep, Distinct(xs)) == "" <==> |xs| == 0
  {
    var d := Distinct(xs);
    if |xs| > 0 {
      assert xs[0] in d;
      assert d[0] in xs;
    }
  }

  /** A sentence kept as experience holds one of the phrases, so it is
      never empty. */
  lemma ExperienceNotEmpty(sentences: seq<string>)
    ensures forall i | 0 <= i < |Experience(sentences)| :: Experience(sentences)[i] != ""
  {
    var experience := Experience(sentences);
    forall i | 0 <= i < |experience|
      ensures experience[i] != ""
    {
      assert experience[i] in experience;
      var k :| 0 <= k < 4 && Contains(LowerStr(experience[i]), ExperiencePhrases[k]);
    }
  }

  /** The joined skills are empty exactly when no vocabulary term occurs. */
  lemma SkillsField(text: string)
    ensures Join(", ", Distinct(FoundSkills(text))) != "" <==> exists w | w in SkillVocabulary :: Contains(LowerStr(text), w)
  {
    SomeSkillFound(text);
    JoinEmpty(", ", FoundSkills(text));
  }

  /** The joined experience is empty exactly when no sentence is kept. */
  lemma ExperienceField(sentences: seq<string>)
    ensures Join("\n", Distinct(Experience(sentences))) != "" <==> exists s | s in sentences :: IsExperience(s)
  {
    var experience := Experience(sentences);
    ExperienceNotEmpty(sentences);
    JoinEmpty("\n", experience);
    if exists s | s in sentences :: IsExperience(s) {
      var s :| s in sentences && IsExperience(s);
      assert s in experience;
    }
  }

  // ----- the whole parse -----

  datatype ParsedResume = ParsedResume(
    skills: string,
    education: string,
    experience: string,
    phone: string,
    cgpa: Option<int>,
    backlogs: Option<int>)

  /** `parse_resume_text`. Without the language model nothing is read, not
      even the fields found by plain patterns. */
  function ParseResumeText(text: string, entities: seq<Entity>, sentences: seq<string>, modelLoaded: bool): (r: ParsedResume)
    ensures !modelLoaded ==> r == ParsedResume("", "", "", "", None, None)
    ensures modelLoaded ==> r.cgpa == ResumeCgpa(text) && r.backlogs == ResumeBacklogs(text) && r.phone == PhoneNumber(text)
    ensures r.cgpa.Some? ==> 0 <= r.cgpa.value <= 1000
    ensures r.skills != "" <==> modelLoaded && exists w | w in SkillVocabulary :: Contains(LowerStr(text), w)
    ensures r.experience != "" <==> modelLoaded && exists s | s in sentences :: IsExperience(s)
  {
    if !modelLoaded then ParsedResume("", "", "", "", None, None)
    else
      SkillsField(text);
      ExperienceField(sentences);
      ParsedResume(
        Join(", ", Distinct(FoundSkills(text))),
        Join("\n", Distinct(Education(entities))),
        Join("\n", Distinct(Experience(sentences))),
        PhoneNumber(text),
        ResumeCgpa(text),
        ResumeBacklogs(text))
  }

  // ----- worked examples -----

  /** A resume whose text opens with a CGPA match is read from that match. */
  lemma CgpaAtStart(t: string, g: string)
    requires CgpaMatchAt(t, 0) == Some(g)
    ensures ResumeCgpa(t) == if CgpaGroupValue(g) <= 1000 then Some(CgpaGroupValue(g)) else None
  {
  }

  /** A resume whose text opens with a backlog match is read from it. */
  lemma BacklogsAtStart(t: string, n: nat)
    requires BacklogMatchAt(t, 0) == Some(n)
    ensures ResumeBacklogs(t) == Some(n)
  {
  }

  /** The keyword found at `p` when the earlier alternatives begin with
      other letters. */
  lemma KeywordByFirstLetter(t: string, p: nat, words: seq<string>, k: nat)
    requires p < |t| && k < |words| && StartsAtIgnoringCase(t, p, words[k])
    requires forall q | 0 <= q < k :: |words[q]| > 0 && words[q][0] != Lower(t[p])
    ensures WordFrom(t, p, words, 0) == Some(k)
  {
    forall q | 0 <= q < k
      ensures !StartsAtIgnoringCase(t, p, words[q])
    {
      assert words[q][0] != Lower(t[p + 0]);
    }
  }

  /** A two-digit group "ab" at `j`. */
  lemma TwoDigitGroup(t: string, j: nat)
    requires j + 2 <= |t| && IsDigit(t[j]) && IsDigit(t[j + 1])
    requires j + 2 == |t| || !IsDigit(t[j + 2])
    ensures CgpaGroup(t, j) == Some(t[j..j + 2])
  {
  }

  /** A three-digit group "abc" at `j`. */
  lemma ThreeDigitGroup(t: string, j: nat)
    requires j + 3 <= |t| && IsDigit(t[j]) && IsDigit(t[j + 1]) && IsDigit(t[j + 2])
    ensures CgpaGroup(t, j) == Some(t[j..j + 3])
  {
  }

  const CgpaDecimal: string := "CGPA: 8.5"

  lemma CgpaDecimalKeyword()
    ensures WordFrom(CgpaDecimal, 0, CgpaWords, 0) == Some(0)
    ensures SkipNonDigits(CgpaDecimal, 4) == 6
  {
    var t := CgpaDecimal;
    assert Lower(t[0]) == 'c' && Lower(t[1]) == 'g' && Lower(t[2]) == 'p' && Lower(t[3]) == 'a';
    assert StartsAtIgnoringCase(t, 0, CgpaWords[0]);
    KeywordByFirstLetter(t, 0, CgpaWords, 0);
    assert !IsDigit(t[4]) && !IsDigit(t[5]) && IsDigit(t[6]);
  }

  lemma CgpaDecimalNumber()
    ensures CgpaGroup(CgpaDecimal, 6) == Some("8.5")
    ensures IsCgpaNumber("8.5") && CgpaGroupValue("8.5") == 850
  {
    var t := CgpaDecimal;
    assert IsDigit(t[6]) && t[7] == '.' && IsDigit(t[8]) && |t| == 9;
    assert t[6..9] == "8.5";
    assert "8.5"[1] == '.';
  }

  /** A decimal group is read as written: "CGPA: 8.5" reads as 8.5. */
  lemma CgpaDecimalExample()
    ensures ResumeCgpa("CGPA: 8.5") == Some(850)
  {
    CgpaDecimalKeyword();
    CgpaDecimalNumber();
    CgpaAtStart(CgpaDecimal, "8.5");
  }

  const ScoreThenCgpa: string := "Score 85, CGPA 8.5"

  lemma ScoreKeyword()
    ensures WordFrom(ScoreThenCgpa, 0, CgpaWords, 0) == Some(2)
  {
    var t := ScoreThenCgpa;
    assert Lower(t[0]) == 's' && Lower(t[1]) == 'c' && Lower(t[2]) == 'o' && Lower(t[3]) == 'r' && Lower(t[4]) == 'e';
    assert StartsAtIgnoringCase(t, 0, CgpaWords[2]);
    KeywordByFirstLetter(t, 0, CgpaWords, 2);
  }

  lemma ScoreNumber()
    ensures SkipNonDigits(ScoreThenCgpa, 5) == 6
    ensures CgpaGroup(ScoreThenCgpa, 6) == Some("85")
  {
    var t := ScoreThenCgpa;
    assert !IsDigit(t[5]) && IsDigit(t[6]) && IsDigit(t[7]) && !IsDigit(t[8]);
    TwoDigitGroup(t, 6);
    assert t[6..8] == "85";
  }

  /** "Score 85" is read as 85, out of range, and the first match decides,
      so the valid "CGPA 8.5" after it is never looked at. */
  lemma CgpaFirstMatchDecides()
    ensures ResumeCgpa("Score 85, CGPA 8.5") == None
  {
    ScoreKeyword();
    ScoreNumber();
    assert DigitsValue("85") == 85;
    CgpaAtStart(ScoreThenCgpa, "85");
  }

  const PercentageHundred: string := "Percentage: 100"

  lemma PercentageKeyword()
    ensures WordFrom(PercentageHundred, 0, CgpaWords, 0) == Some(3)
  {
    var t := PercentageHundred;
    assert Lower(t[0]) == 'p' && Lower(t[1]) == 'e' && Lower(t[2]) == 'r' && Lower(t[3]) == 'c' && Lower(t[4]) == 'e';
    assert Lower(t[5]) == 'n' && Lower(t[6]) == 't' && Lower(t[7]) == 'a' && Lower(t[8]) == 'g' && Lower(t[9]) == 'e';
    assert StartsAtIgnoringCase(t, 0, CgpaWords[3]);
    KeywordByFirstLetter(t, 0, CgpaWords, 3);
  }

  lemma PercentageNumber()
    ensures SkipNonDigits(PercentageHundred, 10) == 12
    ensures CgpaGroup(PercentageHundred, 12) == Some("100")
  {
    var t := PercentageHundred;
    assert !IsDigit(t[10]) && !IsDigit(t[11]) && IsDigit(t[12]) && IsDigit(t[13]) && IsDigit(t[14]);
    ThreeDigitGroup(t, 12);
    assert t[12..15] == "100";
  }

  lemma HundredValue()
    ensures IsCgpaNumber("100") && CgpaGroupValue("100") == 1000
  {
    assert DigitsValue("100") == 100;
  }

  /** A three-digit group is divided by ten: "Percentage: 100" reads as 10. */
  lemma CgpaThreeDigitsExample()
    ensures ResumeCgpa("Percentage: 100") == Some(1000)
  {
    PercentageKeyword();
    PercentageNumber();
    HundredValue();
    CgpaAtStart(PercentageHundred, "100");
  }

  /** "Backlogs: 0" reads as no backlogs. */
  lemma BacklogExample()
    ensures ResumeBacklogs("Backlogs: 0") == Some(0)
  {
    var t := "Backlogs: 0";
    assert StartsAtIgnoringCase(t, 0, BacklogWords[0]);
    assert !IsDigit(t[8]) && !IsDigit(t[9]) && IsDigit(t[10]);
    assert SkipNonDigits(t, 8) == 10;
    assert SkipDigits(t, 10) == 11;
    assert t[10..11] == "0";
    BacklogsAtStart(t, 0);
  }

  /** The count must come after the keyword: "2 backlogs" reads as nothing. */
  lemma BacklogCountBeforeKeyword()
    ensures ResumeBacklogs("2 backlogs") == None
  {
    var t := "2 backlogs";
    assert Lower(t[0]) == '2';
    assert forall k | 0 <= k < 4 :: BacklogWords[k][0] != '2';
    assert !BacklogWordAt(t, 0);
    assert forall q | 1 <= q < |t| :: !IsDigit(t[q]);
    CountMustFollowKeyword(t);
  }
}
