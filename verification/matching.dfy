/** The three hand-copied evaluations of a job's criteria against a student
    in placement/views.py: the admin's soft scoring (`score_application`),
    the student job listing's scoring with its hard-eligibility flag (the
    loop in `student_job_list`) and the application gate (`apply_for_job`).
    Each is written here as the source writes it; the lemmas state where the
    three agree and where they differ. */
module Matching {
  import opened Text
  import opened Criteria
  import opened Profile

  /** `match_score` out of `max_possible_match_score`. */
  datatype Tally = Tally(score: nat, max: nat)

  /** One more criterion counted, and met or not. */
  function Count(t: Tally, met: bool): (r: Tally)
    ensures r.max == t.max + 1
    ensures r.score == if met then t.score + 1 else t.score
  {
    Tally(if met then t.score + 1 else t.score, t.max + 1)
  }

  /** `float(student.cgpa) >= required_cgpa`, CGPA in hundredths. */
  predicate CgpaMet(cgpa: int, bound: real) {
    cgpa as real / 100.0 >= bound
  }

  /** `is_backlog_match`: the "no backlogs" branch, else the "max backlogs N"
      branch; with no rule the flag keeps its initial `True`. */
  predicate BacklogMet(rule: BacklogRule, backlogs: int) {
    match rule
    case NoneAllowed => !(backlogs > 0)
    case AtMost(n) => !(backlogs > n)
    case Unstated => true
  }

  /** Admin scoring: a CGPA or backlog criterion whose student value is
      unknown is left out of both the score and the maximum. */
  function AdminScore(c: Criteria, s: StudentProfile): (r: Tally)
    ensures r.score ==
      (if c.branchStated && BranchMet(c.text, s.branch) then 1 else 0)
      + (if c.minCgpa.Some? && s.cgpa.Some? && CgpaMet(s.cgpa.value, c.minCgpa.value) then 1 else 0)
      + (if c.backlogRule != Unstated && s.backlogs.Some? && BacklogMet(c.backlogRule, s.backlogs.value) then 1 else 0)
    ensures r.max ==
      (if c.branchStated then 1 else 0)
      + (if c.minCgpa.Some? && s.cgpa.Some? then 1 else 0)
      + (if c.backlogRule != Unstated && s.backlogs.Some? then 1 else 0)
    ensures r.score <= r.max <= 3
    ensures r.max == 0 <==> !c.branchStated && (c.minCgpa.None? || s.cgpa.None?) && (c.backlogRule == Unstated || s.backlogs.None?)
    ensures s.cgpa.Some? && s.backlogs.Some? ==> r == ListingScore(c, s).tally
  {
    var t0 := Tally(0, 0);
    var t1 := if c.branchStated then Count(t0, BranchMet(c.text, s.branch)) else t0;
    var t2 := if c.minCgpa.Some? && s.cgpa.Some? then Count(t1, CgpaMet(s.cgpa.value, c.minCgpa.value)) else t1;
    var t3 := if c.backlogRule != Unstated && s.backlogs.Some? then Count(t2, BacklogMet(c.backlogRule, s.backlogs.value)) else t2;
    t3
  }

  /** The listing's tally and its hard-eligibility flag. */
  datatype Verdict = Verdict(tally: Tally, hardEligible: bool)

  /** Counts a criterion; an unmet one is also a hard failure. */
  function Judge(v: Verdict, met: bool): (r: Verdict)
    ensures r.tally == Count(v.tally, met)
    ensures r.hardEligible <==> v.hardEligible && met
  {
    Verdict(Count(v.tally, met), v.hardEligible && met)
  }

  /** The listing's three checks in order: a criterion that is stated is
      counted, and when it is not met the job fails hard. */
  function JudgeThree(branchStated: bool, branchOk: bool, cgpaStated: bool, cgpaOk: bool, backlogStated: bool, backlogOk: bool): (r: Verdict)
    ensures r.tally.max == (if branchStated then 1 else 0) + (if cgpaStated then 1 else 0) + (if backlogStated then 1 else 0)
    ensures r.tally.score ==
      (if branchStated && branchOk then 1 else 0) + (if cgpaStated && cgpaOk then 1 else 0) + (if backlogStated && backlogOk then 1 else 0)
    ensures r.tally.score <= r.tally.max
    ensures r.hardEligible <==> (branchStated ==> branchOk) && (cgpaStated ==> cgpaOk) && (backlogStated ==> backlogOk)
    ensures r.hardEligible <==> r.tally.score == r.tally.max
  {
    var v0 := Verdict(Tally(0, 0), true);
    var v1 := if branchStated then Judge(v0, branchOk) else v0;
    var v2 := if cgpaStated then Judge(v1, cgpaOk) else v1;
    if backlogStated then Judge(v2, backlogOk) else v2
  }

  /** Student listing: every stated criterion is counted; one the student
      does not meet, or cannot show because the value is unknown, fails the
      job hard. */
  function ListingScore(c: Criteria, s: StudentProfile): (r: Verdict)
    ensures r.tally.score <= r.tally.max <= 3
    ensures r.tally.max == (if c.branchStated then 1 else 0) + (if c.minCgpa.Some? then 1 else 0) + (if c.backlogRule != Unstated then 1 else 0)
    ensures r.tally.score ==
      (if c.branchStated && BranchMet(c.text, s.branch) then 1 else 0)
      + (if c.minCgpa.Some? && s.cgpa.Some? && CgpaMet(s.cgpa.value, c.minCgpa.value) then 1 else 0)
      + (if c.backlogRule != Unstated && s.backlogs.Some? && BacklogMet(c.backlogRule, s.backlogs.value) then 1 else 0)
    ensures r.hardEligible <==> r.tally.score == r.tally.max
    ensures r.hardEligible == MayApply(c, s)
  {
    JudgeThree(
      c.branchStated, BranchMet(c.text, s.branch),
      c.minCgpa.Some?, c.minCgpa.Some? && s.cgpa.Some? && CgpaMet(s.cgpa.value, c.minCgpa.value),
      c.backlogRule != Unstated, s.backlogs.Some? && BacklogMet(c.backlogRule, s.backlogs.value))
  }

  /** The application gate: starts eligible and turns ineligible on each
      failed check, in the order the source checks them. */
  function MayApply(c: Criteria, s: StudentProfile): (eligible: bool)
    ensures eligible ==> (c.minCgpa.Some? ==> s.cgpa.Some?) && (c.backlogRule != Unstated ==> s.backlogs.Some?)
    ensures !c.branchStated && c.minCgpa.None? && c.backlogRule == Unstated ==> eligible
  {
    var branchFails := c.branchStated && !BranchMet(c.text, s.branch);
    var cgpaFails := c.minCgpa.Some? && (s.cgpa.None? || s.cgpa.value as real / 100.0 < c.minCgpa.value);
    var backlogFails := c.backlogRule != Unstated && (s.backlogs.None? || !BacklogMet(c.backlogRule, s.backlogs.value));
    !branchFails && !cgpaFails && !backlogFails
  }

  /** How many stated CGPA/backlog criteria the student has no value for. */
  function UnknownCount(c: Criteria, s: StudentProfile): nat {
    (if c.minCgpa.Some? && s.cgpa.None? then 1 else 0) + (if c.backlogRule != Unstated && s.backlogs.None? then 1 else 0)
  }

  /** The two scorers agree on the score; the listing's maximum is larger by
      exactly the criteria whose student value is unknown, which the admin
      scoring skips and the listing counts as failed. */
  lemma ScorersDifferOnlyOnUnknowns(c: Criteria, s: StudentProfile)
    ensures ListingScore(c, s).tally.score == AdminScore(c, s).score
    ensures ListingScore(c, s).tally.max == AdminScore(c, s).max + UnknownCount(c, s)
    ensures UnknownCount(c, s) > 0 ==> !ListingScore(c, s).hardEligible
  {
  }

  // ----- percentage and recommendation -----

  /** `round(match / max * 100)`, and 0 when no criterion is stated. The
      result is the integer nearest to 100 * score / max (ties upward). */
  function MatchPercentage(t: Tally): (p: int)
    requires t.score <= t.max
    ensures t.max == 0 ==> p == 0
    ensures t.max > 0 ==> 0 <= p <= 100
    ensures t.max > 0 ==> 2 * p * t.max - t.max <= 200 * t.score < 2 * p * t.max + t.max
  {
    if t.max == 0 then 0
    else
      NearestPercent(t.score, t.max);
      (200 * t.score + t.max) / (2 * t.max)
  }

  lemma NearestPercent(score: nat, max: nat)
    requires 0 < max && score <= max
    ensures var p := (200 * score + max) / (2 * max);
      && 0 <= p <= 100
      && 2 * p * max - max <= 200 * score < 2 * p * max + max
  {
    var n := 200 * score + max;
    var d := 2 * max;
    var p := n / d;
    var r := n % d;
    assert n == d * p + r && 0 <= r < d;
    assert 200 * score == 2 * p * max + r - max;
    assert d * p <= n < d * 101;
  }

  /** With at most three criteria, 100 * score / max is never halfway
      between two integers, so the nearest integer is unambiguous and
      Python's round-half-to-even agrees with the model; the reachable
      percentages are exactly 0, 33, 50, 67 and 100. */
  lemma {:induction false} PercentageValues(t: Tally)
    requires t.score <= t.max <= 3
    ensures t.max > 0 ==> 200 * t.score != 2 * MatchPercentage(t) * t.max - t.max
    ensures MatchPercentage(t) in {0, 33, 50, 67, 100}
    ensures t.max > 0 ==> (MatchPercentage(t) == 100 <==> t.score == t.max)
    ensures MatchPercentage(t) == 0 <==> t.score == 0
  {
    var p := MatchPercentage(t);
    if t.max == 1 {
      assert p == 100 * t.score;
    } else if t.max == 2 {
      assert p == 50 * t.score;
    } else if t.max == 3 {
      assert t.score == 0 || t.score == 1 || t.score == 2 || t.score == 3;
      if t.score == 1 {
        assert p == 33;
      } else if t.score == 2 {
        assert p == 67;
      }
    }
  }

  /** Multiplying by a positive number keeps the order. */
  lemma MulMono(a: int, b: int, m: int)
    requires m > 0
    ensures a <= b ==> a * m <= b * m
  {
  }

  /** All met rounds to 100; fewer than half met rounds to at most 50. */
  lemma PercentageExtremes(t: Tally)
    requires 0 < t.max && t.score <= t.max
    ensures t.score == t.max ==> MatchPercentage(t) == 100
    ensures 2 * t.score < t.max ==> MatchPercentage(t) <= 50
  {
    var p := MatchPercentage(t);
    MulMono(2 * p, 198, t.max);
    MulMono(202, 2 * p, t.max);
    MulMono(102, 2 * p, t.max);
  }

  datatype Recommendation = NoCriteria | StrongFit | AverageMatch | LowMatch | DataMissing

  /** The tag text the templates show. */
  function Label(r: Recommendation): string {
    match r
    case NoCriteria => "No Criteria"
    case StrongFit => "Strong Fit"
    case AverageMatch => "Average Match"
    case LowMatch => "Low Match"
    case DataMissing => "Data Missing"
  }

  /** The admin's recommendation band, inclusive at 90 and at 60. A stated
      criterion makes the tag one of the three bands, even when nothing is
      met. */
  function Recommend(t: Tally): (r: Recommendation)
    requires t.score <= t.max
    ensures r == NoCriteria <==> t.max == 0
    ensures r != DataMissing
    ensures t.max > 0 && t.score == t.max ==> r == StrongFit
    ensures t.max > 0 && 2 * t.score < t.max ==> r == LowMatch
  {
    if t.max == 0 then NoCriteria
    else
      PercentageExtremes(t);
      var p := MatchPercentage(t);
      if p >= 90 then StrongFit
      else if p >= 60 then AverageMatch
      else LowMatch
  }

  /** For the tallies the scorers produce: all met is a strong fit, two of
      three an average match, anything else with a criterion a low match. */
  lemma {:induction false} RecommendationTable(t: Tally)
    requires t.score <= t.max <= 3
    ensures Recommend(t) == StrongFit <==> t.max > 0 && t.score == t.max
    ensures Recommend(t) == AverageMatch <==> t.score == 2 && t.max == 3
    ensures Recommend(t) == LowMatch <==> t.max > 0 && t.score < t.max && !(t.score == 2 && t.max == 3)
  {
    PercentageValues(t);
    if t.max == 3 && t.score == 2 {
      assert MatchPercentage(t) == 67;
    } else if t.max == 3 && t.score == 1 {
      assert MatchPercentage(t) == 33;
    } else if t.max == 2 && t.score == 1 {
      assert MatchPercentage(t) == 50;
    }
  }

  /** The admin's view of one application: percentage and tag. */
  datatype AdminView = AdminView(percentage: int, recommendation: Recommendation)

  /** `score_application`, whole. */
  function ScoreApplication(eligibility: string, s: StudentProfile): (v: AdminView)
    ensures 0 <= v.percentage <= 100
    ensures v.recommendation == NoCriteria <==> AdminScore(Parse(eligibility), s).max == 0
    ensures v.recommendation == NoCriteria ==> v.percentage == 0
    ensures v.recommendation == StrongFit ==> v.percentage == 100
  {
    var t := AdminScore(Parse(eligibility), s);
    PercentageValues(t);
    AdminView(MatchPercentage(t), Recommend(t))
  }

  // ----- the example in the job form's help text -----

  /** "Min CGPA 7.0, CSE/IT branches, No backlogs", in the pieces that
      lower-casing changes and those it keeps. */
  const HelpText: string := "Min CGPA" + " 7.0, " + "CSE/IT" + " branches, " + "No" + " backlogs"
  const HelpTextLower: string := "min cgpa" + " 7.0, " + "cse/it" + " branches, " + "no" + " backlogs"

  lemma HelpTextLowered()
    ensures LowerStr(HelpText) == HelpTextLower
  {
    LowerStrAppend("Min CGPA" + " 7.0, " + "CSE/IT" + " branches, " + "No", " backlogs");
    LowerStrAppend("Min CGPA" + " 7.0, " + "CSE/IT" + " branches, ", "No");
    LowerStrAppend("Min CGPA" + " 7.0, " + "CSE/IT", " branches, ");
    LowerStrAppend("Min CGPA" + " 7.0, ", "CSE/IT");
    LowerStrAppend("Min CGPA", " 7.0, ");
    LowerStrNoUpper(" 7.0, ");
    LowerStrNoUpper(" branches, ");
    LowerStrNoUpper(" backlogs");
    HelpTextCapitals();
  }

  lemma HelpTextCapitals()
    ensures LowerStr("Min CGPA") == "min cgpa" && LowerStr("CSE/IT") == "cse/it" && LowerStr("No") == "no"
  {
  }

  /** A "cgpa" followed by a number, with no 'c' before it, is the first. */
  lemma FirstCgpaWithoutEarlierC(t: string, i: nat)
    requires i <= |t| && CgpaAt(t, i)
    requires forall k | 0 <= k < i :: t[k] != 'c'
    ensures FirstCgpa(t) == Some(i)
  {
    forall k | 0 <= k < i
      ensures !CgpaAt(t, k)
    {
      assert "cgpa"[0] == 'c';
    }
  }

  lemma HelpTextCgpaWord()
    ensures StartsAt(HelpTextLower, 4, "cgpa")
    ensures forall k | 0 <= k < 4 :: HelpTextLower[k] != 'c'
  {
    var t := HelpTextLower;
    assert t[4] == 'c' && t[5] == 'g' && t[6] == 'p' && t[7] == 'a';
  }

  lemma HelpTextSpaces()
    ensures SkipSpaces(HelpTextLower, 8) == 9 && IsDigit(HelpTextLower[9])
  {
    var t := HelpTextLower;
    assert IsSpace(t[8]) && !IsSpace(t[9]);
  }

  lemma HelpTextFirstCgpa()
    ensures FirstCgpa(HelpTextLower) == Some(4)
  {
    HelpTextCgpaWord();
    HelpTextSpaces();
    FirstCgpaWithoutEarlierC(HelpTextLower, 4);
  }

  lemma HelpTextDigitRuns()
    ensures SkipDigits(HelpTextLower, 9) == 10 && HelpTextLower[10] == '.'
    ensures SkipDigits(HelpTextLower, 11) == 12
  {
    var t := HelpTextLower;
    assert t[9] == '7' && t[10] == '.' && t[11] == '0' && t[12] == ',';
  }

  lemma HelpTextDigitSlices()
    ensures HelpTextLower[9..10] == "7" && HelpTextLower[11..12] == "0"
  {
    var t := HelpTextLower;
    assert t[9] == '7' && t[11] == '0';
  }

  lemma HelpTextNumber()
    ensures NumberAt(HelpTextLower, 9) == 7.0
  {
    HelpTextDigitRuns();
    HelpTextDigitSlices();
    assert DigitsValue("7") == 7;
    assert DigitsValue("0") == 0;
  }

  /** The bound is the number after the first "cgpa" and its white space. */
  lemma MinCgpaOfFirst(t: string, i: nat, j: nat, v: real)
    requires FirstCgpa(t) == Some(i)
    requires SkipSpaces(t, i + 4) == j
    requires j < |t| && IsDigit(t[j]) && NumberAt(t, j) == v
    ensures MinCgpa(t) == Some(v)
  {
  }

  lemma HelpTextCgpa()
    ensures MinCgpa(HelpTextLower) == Some(7.0)
  {
    HelpTextFirstCgpa();
    HelpTextNumber();
    HelpTextSpaces();
    MinCgpaOfFirst(HelpTextLower, 4, 9, 7.0);
  }

  lemma HelpTextNoDoubleL()
    ensures forall i | 0 <= i < |HelpTextLower| - 1 :: HelpTextLower[i] != 'l' || HelpTextLower[i + 1] != 'l'
  {
  }

  lemma HelpTextNoY()
    ensures forall i | 0 <= i < |HelpTextLower| :: HelpTextLower[i] != 'y'
  {
  }

  lemma HelpTextCse()
    ensures StartsAt(HelpTextLower, 14, "cse")
  {
    var t := HelpTextLower;
    assert t[14] == 'c' && t[15] == 's' && t[16] == 'e';
  }

  lemma HelpTextBranches()
    ensures BranchStated(HelpTextLower)
  {
    var t := HelpTextLower;
    HelpTextNoDoubleL();
    HelpTextNoY();
    AbsentByPair(t, "all branches", 1);
    AbsentByChar(t, "any branch", 2);
    HelpTextCse();
    assert Contains(t, BranchCodes[0]);
  }

  lemma HelpTextNoBacklogsWords()
    ensures StartsAt(HelpTextLower, 31, "no")
    ensures StartsAt(HelpTextLower, 34, "backlogs")
  {
    var t := HelpTextLower;
    assert t[31] == 'n' && t[32] == 'o';
    assert t[34] == 'b' && t[35] == 'a' && t[36] == 'c' && t[37] == 'k';
    assert t[38] == 'l' && t[39] == 'o' && t[40] == 'g' && t[41] == 's';
  }

  lemma HelpTextNoBacklogsSpace()
    ensures SkipSpaces(HelpTextLower, 33) == 34
  {
    var t := HelpTextLower;
    assert IsSpace(t[33]) && !IsSpace(t[34]);
  }

  lemma HelpTextBacklogs()
    ensures BacklogRuleOf(HelpTextLower) == NoneAllowed
  {
    HelpTextNoBacklogsWords();
    HelpTextNoBacklogsSpace();
    assert NoBacklogsAt(HelpTextLower, 31);
  }

  /** The help text states all three criteria. */
  lemma HelpTextParses()
    ensures Parse(HelpText) == Criteria(HelpTextLower, true, Some(7.0), NoneAllowed)
  {
    HelpTextLowered();
    HelpTextCgpa();
    HelpTextBranches();
    HelpTextBacklogs();
  }

  const HelpCriteria: Criteria := Criteria(HelpTextLower, true, Some(7.0), NoneAllowed)

  lemma CseMeetsHelpCriteria(s: StudentProfile)
    requires s.branch == "cse" && s.cgpa == Some(820) && s.backlogs == Some(0)
    ensures AdminScore(HelpCriteria, s) == Tally(3, 3)
  {
    assert LowerStr("cse") == "cse";
    assert StartsAt(HelpTextLower, 14, "cse");
    assert BranchMet(HelpTextLower, s.branch);
    assert CgpaMet(820, 7.0);
  }

  lemma MechMissesHelpCriteria(s: StudentProfile)
    requires s.branch == "mech" && s.cgpa == Some(820) && s.backlogs == Some(0)
    ensures AdminScore(HelpCriteria, s) == Tally(2, 3)
  {
    assert LowerStr("mech") == "mech";
    HelpTextNoMe();
    AbsentByPair(HelpTextLower, "mech", 0);
    assert !BranchMet(HelpTextLower, s.branch);
    assert CgpaMet(820, 7.0);
  }

  lemma HelpTextNoMe()
    ensures forall i | 0 <= i < |HelpTextLower| - 1 :: HelpTextLower[i] != 'm' || HelpTextLower[i + 1] != 'e'
  {
  }

  /** A "cse" student with CGPA 8.2 and no backlogs meets all three criteria:
      100%, a strong fit, and eligible to apply. */
  lemma HelpTextCseStudent(s: StudentProfile)
    requires s.branch == "cse" && s.cgpa == Some(820) && s.backlogs == Some(0)
    ensures AdminScore(Parse(HelpText), s) == Tally(3, 3)
    ensures ScoreApplication(HelpText, s) == AdminView(100, StrongFit)
    ensures ListingScore(Parse(HelpText), s).hardEligible
  {
    HelpTextParses();
    CseMeetsHelpCriteria(s);
  }

  /** A "mech" student with the same record misses only the branch: 67%, an
      average match for the admin, but not eligible to apply. */
  lemma HelpTextMechStudent(s: StudentProfile)
    requires s.branch == "mech" && s.cgpa == Some(820) && s.backlogs == Some(0)
    ensures AdminScore(Parse(HelpText), s) == Tally(2, 3)
    ensures ScoreApplication(HelpText, s) == AdminView(67, AverageMatch)
    ensures !ListingScore(Parse(HelpText), s).hardEligible
    ensures !MayApply(Parse(HelpText), s)
  {
    HelpTextParses();
    MechMissesHelpCriteria(s);
    RecommendationTable(Tally(2, 3));
    PercentageValues(Tally(2, 3));
    assert MatchPercentage(Tally(2, 3)) == 67;
  }
}
