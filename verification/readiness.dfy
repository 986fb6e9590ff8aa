/** The placement readiness score of core/views.py
    (`calculate_readiness_score`): a 0-100 profile-completeness score, kept
    here in hundredths of a point (0..10000). */
module Readiness {
  import opened Text
  import opened Profile

  /** Highest score, in hundredths. */
  const MaxScore: int := 10000

  /** CGPA: 30 points at a CGPA of 10, proportionally less below it and no
      more above it; nothing when the CGPA is unknown. With the CGPA in
      hundredths, 30 * (cgpa / 100) / 10 points are 3 * cgpa hundredths. */
  function CgpaPoints(cgpa: Option<int>): (pts: int)
    ensures cgpa.None? ==> pts == 0
    ensures cgpa.Some? && cgpa.value <= 1000 ==> 10 * pts == 30 * cgpa.value
    ensures cgpa.Some? && cgpa.value >= 1000 ==> pts == 3000
    ensures pts <= 3000
  {
    match cgpa
    case None => 0
    case Some(c) => if 3 * c < 3000 then 3 * c else 3000
  }

  /** Backlogs: 30 points for none, half of that for one, a tenth of it for
      any other count (negative counts included), nothing when unknown. */
  function BacklogPoints(backlogs: Option<int>): (pts: int)
    ensures backlogs.None? ==> pts == 0
    ensures backlogs.Some? ==> pts in {300, 1500, 3000}
    ensures backlogs == Some(0) <==> pts == 3000
    ensures backlogs == Some(1) <==> pts == 1500
    ensures backlogs.Some? && backlogs != Some(0) && backlogs != Some(1) <==> pts == 300
  {
    match backlogs
    case None => 0
    case Some(b) => if b == 0 then 3000 else if b == 1 then 1500 else 300
  }

  /** 20, 10 and 10 points for a non-empty skills text, an uploaded resume
      and a non-empty experience text. */
  function PresencePoints(p: StudentProfile): (pts: int)
    ensures 0 <= pts <= 4000
    ensures pts == 4000 <==> p.skills != "" && p.resumeFile != "" && p.experience != ""
  {
    (if p.skills != "" then 2000 else 0)
    + (if p.resumeFile != "" then 1000 else 0)
    + (if p.experience != "" then 1000 else 0)
  }

  /** The score before the cap at 100. */
  function RawScore(p: StudentProfile): int {
    CgpaPoints(p.cgpa) + BacklogPoints(p.backlogs) + PresencePoints(p)
  }

  /** The whole score: the raw sum capped at 100. The cap never changes the
      sum, since the parts are capped at 30 + 30 + 40; the score is never
      negative unless the CGPA is; it is the full 100 exactly for a CGPA of
      at least 10, no backlogs and all three items present. */
  function ReadinessScore(p: StudentProfile): (r: int)
    ensures r == RawScore(p)
    ensures r <= MaxScore
    ensures (p.cgpa.None? || p.cgpa.value >= 0) ==> 0 <= r
    ensures r == MaxScore <==>
      && p.cgpa.Some? && p.cgpa.value >= 1000
      && p.backlogs == Some(0)
      && p.skills != "" && p.resumeFile != "" && p.experience != ""
  {
    var raw := RawScore(p);
    if raw < MaxScore then raw else MaxScore
  }

  /** `calculate_readiness_score`: stores the score in the readiness field
      and touches nothing else. */
  function Recalculate(p: StudentProfile): (q: StudentProfile)
    ensures q.readiness == Some(ReadinessScore(p))
    ensures q.readiness.Some? && q.readiness.value <= MaxScore
    ensures q.(readiness := p.readiness) == p
  {
    p.(readiness := Some(ReadinessScore(p)))
  }

  /** The score reads only CGPA, backlogs, skills, resume and experience. */
  predicate SameScoredFields(p: StudentProfile, q: StudentProfile) {
    && p.cgpa == q.cgpa && p.backlogs == q.backlogs
    && (p.skills == "" <==> q.skills == "")
    && (p.resumeFile == "" <==> q.resumeFile == "")
    && (p.experience == "" <==> q.experience == "")
  }

  lemma ScoreReadsOnlyScoredFields(p: StudentProfile, q: StudentProfile)
    requires SameScoredFields(p, q)
    ensures ReadinessScore(p) == ReadinessScore(q)
  {
  }

  /** Recomputing without a change in between gives the same value and does
      not count anything twice. */
  lemma RecalculateIdempotent(p: StudentProfile)
    ensures Recalculate(Recalculate(p)) == Recalculate(p)
  {
    ScoreReadsOnlyScoredFields(p, Recalculate(p));
  }

  /** A higher CGPA never lowers the score. */
  lemma ScoreMonotoneInCgpa(p: StudentProfile, c1: int, c2: int)
    requires c1 <= c2
    ensures ReadinessScore(p.(cgpa := Some(c1))) <= ReadinessScore(p.(cgpa := Some(c2)))
  {
    assert CgpaPoints(Some(c1)) <= CgpaPoints(Some(c2));
  }

  /** Fewer backlogs never lower the score, for counts that are not negative. */
  lemma ScoreAntitoneInBacklogs(p: StudentProfile, b1: int, b2: int)
    requires 0 <= b1 <= b2
    ensures ReadinessScore(p.(backlogs := Some(b2))) <= ReadinessScore(p.(backlogs := Some(b1)))
  {
  }

  /** Filling in the skills adds exactly 20 points. */
  lemma SkillsAddTwenty(p: StudentProfile, skills: string)
    requires p.skills == "" && skills != ""
    ensures ReadinessScore(p.(skills := skills)) == ReadinessScore(p) + 2000
  {
  }

  /** Uploading a resume adds exactly 10 points. */
  lemma ResumeAddsTen(p: StudentProfile, resumeFile: string)
    requires p.resumeFile == "" && resumeFile != ""
    ensures ReadinessScore(p.(resumeFile := resumeFile)) == ReadinessScore(p) + 1000
  {
  }

  /** Filling in the experience adds exactly 10 points. */
  lemma ExperienceAddsTen(p: StudentProfile, experience: string)
    requires p.experience == "" && experience != ""
    ensures ReadinessScore(p.(experience := experience)) == ReadinessScore(p) + 1000
  {
  }
}
