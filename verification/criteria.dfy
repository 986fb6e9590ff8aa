/** The eligibility-criteria parser shared by the three scoring call sites of
    placement/views.py. It reads a job's free-text criteria, lower-cased, and
    finds at most three constraints: a branch restriction, a minimum CGPA and
    a backlog policy. Each is absent unless the text states it. */
module Criteria {
  import opened Text

  /** The branch vocabulary, in the order the source scans it. */
  const BranchCodes: seq<string> := ["cse", "it", "ece", "eee", "mech", "civil"]

  /** "all branches" or "any branch" lifts every branch restriction. */
  predicate OpenToAllBranches(t: string) {
    Contains(t, "all branches") || Contains(t, "any branch")
  }

  /** The scan over the vocabulary: does any of `codes` occur in `t`? */
  function AnyCodeIn(t: string, codes: seq<string>): (found: bool)
    ensures found <==> exists k | 0 <= k < |codes| :: Contains(t, codes[k])
  {
    if |codes| == 0 then false
    else if Contains(t, codes[0]) then true
    else
      var rest := AnyCodeIn(t, codes[1..]);
      assert forall k | 1 <= k < |codes| :: codes[k] == codes[1..][k - 1];
      rest
  }

  /** The branch criterion is stated when the text is not open to all
      branches and names one of the codes, anywhere, even inside a word
      ("it" occurs in "criteria"). */
  function BranchStated(t: string): (stated: bool)
    ensures stated <==> !OpenToAllBranches(t) && exists k | 0 <= k < 6 :: Contains(t, BranchCodes[k])
  {
    !OpenToAllBranches(t) && AnyCodeIn(t, BranchCodes)
  }

  /** The branch criterion is met when the student's lower-cased branch is a
      substring of the whole criteria text, not of the code that was found;
      an empty branch therefore always meets it. */
  predicate BranchMet(t: string, branch: string) {
    Contains(t, LowerStr(branch))
  }

  // ----- minimum CGPA: (?:min(?:imum)?\s*)?cgpa\s*(\d+\.?\d*) -----

  /** "cgpa", optional white space, then a digit, starting at `i`. */
  predicate CgpaAt(t: string, i: nat) {
    StartsAt(t, i, "cgpa") && SkipSpaces(t, i + 4) < |t| && IsDigit(t[SkipSpaces(t, i + 4)])
  }

  /** `frac / 10^places` for a fraction written with `places` digits. */
  function Fraction(frac: nat, places: nat): (f: real)
    requires frac < Pow10(places)
    ensures 0.0 <= f < 1.0
  {
    QuotientBelowOne(frac as real, Pow10(places) as real);
    frac as real / Pow10(places) as real
  }

  lemma QuotientBelowOne(a: real, d: real)
    requires 0.0 <= a < d
    ensures 0.0 <= a / d < 1.0
  {
    assert (a / d) * d == a;
  }

  /** The number `\d+\.?\d*` starting at the digit `t[j]`, read as Python's
      `float()` reads it. Its integer part is the maximal digit run at `j`. */
  function NumberAt(t: string, j: nat): (v: real)
    requires j < |t| && IsDigit(t[j])
    ensures v.Floor == DigitsValue(t[j..SkipDigits(t, j)])
  {
    var intEnd := SkipDigits(t, j);
    var whole := DigitsValue(t[j..intEnd]);
    if intEnd < |t| && t[intEnd] == '.' then
      var fracEnd := SkipDigits(t, intEnd + 1);
      whole as real + Fraction(DigitsValue(t[intEnd + 1..fracEnd]), fracEnd - intEnd - 1)
    else
      whole as real
  }

  /** The first "cgpa" that a number follows. */
  function FirstCgpa(t: string): (r: Option<nat>)
    ensures r.Some? ==> CgpaAt(t, r.value) && forall k | 0 <= k < r.value :: !CgpaAt(t, k)
    ensures r.None? <==> forall k | 0 <= k <= |t| :: !CgpaAt(t, k)
  {
    var at := (i: nat) => CgpaAt(t, i);
    assert forall k: nat :: at(k) == CgpaAt(t, k);
    Leftmost(0, |t|, at)
  }

  /** The minimum CGPA is the number after the first "cgpa" that a number
      follows. The capture always parses, so there is no malformed case. */
  function MinCgpa(t: string): (r: Option<real>)
    ensures r.Some? <==> exists i | 0 <= i <= |t| :: CgpaAt(t, i)
    ensures r.Some? ==> r.value >= 0.0
  {
    match FirstCgpa(t)
    case None => None
    case Some(i) => Some(NumberAt(t, SkipSpaces(t, i + 4)))
  }

  /** Where the regular expression, tried at `p` with its optional
      "min"/"minimum" prefix, finds the word "cgpa": the prefix with "imum"
      first, then without, then no prefix, in Python's backtracking order. */
  function PrefixedCgpaAt(t: string, p: nat): (r: Option<nat>)
    ensures r.Some? ==> p <= r.value && CgpaAt(t, r.value)
  {
    if StartsAt(t, p, "minimum") && CgpaAt(t, SkipSpaces(t, p + 7)) then Some(SkipSpaces(t, p + 7))
    else if StartsAt(t, p, "min") && CgpaAt(t, SkipSpaces(t, p + 3)) then Some(SkipSpaces(t, p + 3))
    else if CgpaAt(t, p) then Some(p)
    else None
  }

  /** The leftmost start position of the full pattern. */
  function FirstPrefixedCgpa(t: string): (r: Option<nat>)
    ensures r.Some? ==> PrefixedCgpaAt(t, r.value).Some? && forall k | 0 <= k < r.value :: PrefixedCgpaAt(t, k).None?
    ensures r.None? <==> forall k | 0 <= k <= |t| :: PrefixedCgpaAt(t, k).None?
  {
    var at := (p: nat) => PrefixedCgpaAt(t, p).Some?;
    assert forall k: nat :: at(k) == PrefixedCgpaAt(t, k).Some?;
    Leftmost(0, |t|, at)
  }

  /** The characters a "min"/"minimum" prefix and its white space consist of. */
  predicate PrefixChar(c: char) {
    c == 'm' || c == 'i' || c == 'n' || c == 'u' || IsSpace(c)
  }

  lemma PrefixSpanHasNoC(t: string, p: nat, q: nat)
    requires PrefixedCgpaAt(t, p) == Some(q)
    ensures forall k | p <= k < q :: PrefixChar(t[k])
  {
    if StartsAt(t, p, "minimum") && CgpaAt(t, SkipSpaces(t, p + 7)) {
      forall k | p <= k < p + 7 ensures PrefixChar(t[k]) {
        assert t[k] == "minimum"[k - p];
      }
    } else if StartsAt(t, p, "min") && CgpaAt(t, SkipSpaces(t, p + 3)) {
      forall k | p <= k < p + 3 ensures PrefixChar(t[k]) {
        assert t[k] == "min"[k - p];
      }
    }
  }

  lemma CgpaStartsWithC(t: string, i: nat)
    requires CgpaAt(t, i)
    ensures t[i] == 'c'
    ensures PrefixedCgpaAt(t, i) == Some(i)
  {
    assert t[i] == 'c' by { assert "cgpa"[0] == 'c'; }
    assert !StartsAt(t, i, "min") by { assert "min"[0] == 'm'; }
    assert !StartsAt(t, i, "minimum") by { assert "minimum"[0] == 'm'; }
  }

  /** A prefixed match at `p` reading "cgpa" at `q` leaves no other "cgpa"
      between `p` and `q`. */
  lemma NoCgpaInsidePrefix(t: string, p: nat, q: nat, q0: nat)
    requires PrefixedCgpaAt(t, p) == Some(q)
    requires p <= q0 < q
    ensures !CgpaAt(t, q0)
  {
    PrefixSpanHasNoC(t, p, q);
    assert PrefixChar(t[q0]);
    assert !StartsAt(t, q0, "cgpa") by { assert "cgpa"[0] == 'c'; }
  }

  /** The optional prefix never changes the outcome: the leftmost match of
      the full pattern exists exactly when some "cgpa" is followed by a
      number, and it reads its number after the first such "cgpa". */
  lemma {:induction false} PrefixIsHarmless(t: string)
    ensures FirstPrefixedCgpa(t).Some? <==> FirstCgpa(t).Some?
    ensures FirstPrefixedCgpa(t).Some? ==> PrefixedCgpaAt(t, FirstPrefixedCgpa(t).value) == FirstCgpa(t)
  {
    var m := FirstPrefixedCgpa(t);
    var f := FirstCgpa(t);
    if f.Some? {
      CgpaStartsWithC(t, f.value);
      assert m.Some?;
    }
    if m.Some? {
      var p := m.value;
      var q := PrefixedCgpaAt(t, p).value;
      assert CgpaAt(t, q);
      assert f.Some?;
      var q0 := f.value;
      assert q0 <= q;
      assert p <= q0 by {
        if q0 < p {
          CgpaStartsWithC(t, q0);
        }
      }
      assert q0 == q by {
        if q0 < q {
          NoCgpaInsidePrefix(t, p, q, q0);
        }
      }
    }
  }

  // ----- backlogs: (no\s+backlogs|max(?:imum)?\s+backlogs\s+(\d+)) -----

  /** "no", at least one white-space character, "backlogs". */
  predicate NoBacklogsAt(t: string, i: nat) {
    StartsAt(t, i, "no") && SkipSpaces(t, i + 2) > i + 2 && StartsAt(t, SkipSpaces(t, i + 2), "backlogs")
  }

  /** After "max" or "maximum" ending at `k`: white space, "backlogs", white
      space, and the digits whose value is the limit. */
  function LimitAfter(t: string, k: nat): (r: Option<nat>)
    requires k <= |t|
  {
    var j := SkipSpaces(t, k);
    if j > k && StartsAt(t, j, "backlogs") then
      var m := SkipSpaces(t, j + 8);
      if m > j + 8 && m < |t| && IsDigit(t[m]) then Some(DigitsValue(t[m..SkipDigits(t, m)]))
      else None
    else None
  }

  /** The limit that `max(?:imum)?\s+backlogs\s+(\d+)` captures when tried at
      `p`: "maximum" first, then "max". */
  function MaxBacklogsAt(t: string, p: nat): (r: Option<nat>)
    ensures r.Some? ==> StartsAt(t, p, "max")
  {
    if StartsAt(t, p, "maximum") && LimitAfter(t, p + 7).Some? then
      assert StartsAt(t, p, "max") by { assert forall k | 0 <= k < 3 :: "max"[k] == "maximum"[k]; }
      LimitAfter(t, p + 7)
    else if StartsAt(t, p, "max") then LimitAfter(t, p + 3)
    else None
  }

  /** Whether the combined backlog pattern of the source matches anywhere. */
  predicate BacklogPatternFound(t: string) {
    exists i | 0 <= i <= |t| :: NoBacklogsAt(t, i) || MaxBacklogsAt(t, i).Some?
  }

  datatype BacklogRule = Unstated | NoneAllowed | AtMost(limit: nat)

  /** "no backlogs" anywhere takes precedence; otherwise the limit of the
      leftmost "max[imum] backlogs N"; otherwise no backlog criterion. */
  function BacklogRuleOf(t: string): (r: BacklogRule)
    ensures r == NoneAllowed <==> exists i | 0 <= i <= |t| :: NoBacklogsAt(t, i)
    ensures r.AtMost? ==> exists p | 0 <= p <= |t| ::
      MaxBacklogsAt(t, p) == Some(r.limit) && forall q | 0 <= q < p :: MaxBacklogsAt(t, q).None?
    ensures r == Unstated <==> !BacklogPatternFound(t)
  {
    var noneAt := (i: nat) => NoBacklogsAt(t, i);
    var maxAt := (p: nat) => MaxBacklogsAt(t, p).Some?;
    assert forall k: nat :: noneAt(k) == NoBacklogsAt(t, k);
    assert forall k: nat :: maxAt(k) == MaxBacklogsAt(t, k).Some?;
    if Leftmost(0, |t|, noneAt).Some? then NoneAllowed
    else
      match Leftmost(0, |t|, maxAt)
      case Some(p) => AtMost(MaxBacklogsAt(t, p).value)
      case None => Unstated
  }

  /** The constraints stated by one job's criteria text. `text` is the
      lower-cased text, which the branch test searches. */
  datatype Criteria = Criteria(text: string, branchStated: bool, minCgpa: Option<real>, backlogRule: BacklogRule)

  /** Parses a job's eligibility text, case-insensitively. */
  function Parse(eligibility: string): (c: Criteria)
    ensures c.text == LowerStr(eligibility)
    ensures c.branchStated <==> !OpenToAllBranches(c.text) && exists k | 0 <= k < 6 :: Contains(c.text, BranchCodes[k])
    ensures c.minCgpa.Some? <==> exists i | 0 <= i <= |c.text| :: CgpaAt(c.text, i)
    ensures c.backlogRule == Unstated <==> !BacklogPatternFound(c.text)
  {
    var t := LowerStr(eligibility);
    Criteria(t, BranchStated(t), MinCgpa(t), BacklogRuleOf(t))
  }

  /** A text that names no branch code, no "cgpa" followed by a number and
      no backlog phrase states no criterion at all. */
  lemma NothingStatedNothingParsed(eligibility: string)
    requires var t := LowerStr(eligibility);
      && (forall k | 0 <= k < 6 :: !Contains(t, BranchCodes[k]))
      && (forall i | 0 <= i <= |t| :: !CgpaAt(t, i))
      && !BacklogPatternFound(t)
    ensures Parse(eligibility) == Criteria(LowerStr(eligibility), false, None, Unstated)
  {
  }
}
