/** The views of placement/views.py that rank and gate: the admin's
    ranked application lists, the student's job listing, applying for a
    job, and the deadline flags on the admin's job list. Dates are day
    numbers, so `(a - b).days` is `a - b`; the current day is an input. */
module Listing {
  import opened Text
  import opened Criteria
  import opened Profile
  import opened Matching
  import opened Readiness
  import opened Resume
  import opened ResumeUpdate
  import opened Sorting

  /** The fields of a job posting the core reads. */
  datatype Job = Job(id: nat, eligibility: string, deadline: int)

  // ----- deadline flags -----

  datatype DeadlineFlags = DeadlineFlags(expired: bool, upcoming: bool)

  /** Past its deadline, or due within a week and not past it. */
  function Flags(deadline: int, today: int): (f: DeadlineFlags)
    ensures f.expired <==> deadline < today
    ensures f.upcoming <==> today <= deadline <= today + 7
    ensures !(f.expired && f.upcoming)
  {
    var expired := deadline < today;
    DeadlineFlags(expired, deadline - today <= 7 && !expired)
  }

  /** As the days pass a job is flagged upcoming during the last week before
      its deadline, then expired, and it stays expired. */
  lemma FlagsOverTime(deadline: int, d1: int, d2: int)
    requires d1 <= d2
    ensures Flags(deadline, d1).expired ==> Flags(deadline, d2).expired
    ensures Flags(deadline, d2).upcoming ==> Flags(deadline, d1).upcoming || deadline > d1 + 7
    ensures Flags(deadline, deadline).upcoming && Flags(deadline, deadline + 1).expired
  {
  }

  // ----- the admin's ranked applications -----

  /** An application as the admin list reads it: the job and the student
      may be missing when the data is inconsistent. */
  datatype Application = Application(job: Option<Job>, student: Option<StudentProfile>)

  datatype RankedApplication = RankedApplication(application: Application, view: AdminView)

  /** Scores one application; one without its job or its student shows 0%
      and "Data Missing". */
  function ScoreListed(a: Application): (r: RankedApplication)
    ensures r.application == a
    ensures r.view.recommendation == DataMissing <==> a.job.None? || a.student.None?
    ensures a.job.Some? && a.student.Some? ==> r.view == ScoreApplication(a.job.value.eligibility, a.student.value)
    ensures 0 <= r.view.percentage <= 100
  {
    if a.job.Some? && a.student.Some? then RankedApplication(a, ScoreApplication(a.job.value.eligibility, a.student.value))
    else RankedApplication(a, AdminView(0, DataMissing))
  }

  function ScoreAll(apps: seq<Application>): (r: seq<RankedApplication>)
    ensures |r| == |apps|
    ensures forall i | 0 <= i < |apps| :: r[i] == ScoreListed(apps[i])
  {
    if |apps| == 0 then [] else [ScoreListed(apps[0])] + ScoreAll(apps[1..])
  }

  function ByPercentage(r: RankedApplication): int {
    r.view.percentage
  }

  /** The ranked list of both admin views: every application scored, best
      first, ties in the order the database returned them. */
  function RankApplications(apps: seq<Application>): (r: seq<RankedApplication>)
    ensures |r| == |apps|
  {
    SortDescending(ScoreAll(apps), ByPercentage)
  }

  /** The ranking holds every application once, scored, best first, and
      keeps the database order among equal percentages. */
  lemma RankApplicationsSound(apps: seq<Application>, v: int)
    ensures Descending(RankApplications(apps), ByPercentage)
    ensures multiset(RankApplications(apps)) == multiset(ScoreAll(apps))
    ensures Select(RankApplications(apps), KeyIs(ByPercentage, v)) == Select(ScoreAll(apps), KeyIs(ByPercentage, v))
  {
    SortDescendingIsSorted(ScoreAll(apps), ByPercentage);
    SortDescendingIsStable(ScoreAll(apps), ByPercentage, v);
  }

  /** Every application with a "Data Missing" tag sorts at or below every
      other application, since it shows 0%. */
  lemma {:induction false} DataMissingRanksLast(apps: seq<Application>, i: nat, j: nat)
    requires i < j < |apps|
    requires RankApplications(apps)[i].view.recommendation == DataMissing
    ensures RankApplications(apps)[j].view.percentage == 0
  {
    var ranked := RankApplications(apps);
    SortDescendingIsSorted(ScoreAll(apps), ByPercentage);
    assert ranked[i] in multiset(ScoreAll(apps));
    assert ranked[j] in multiset(ScoreAll(apps));
    assert ByPercentage(ranked[i]) >= ByPercentage(ranked[j]);
  }

  // ----- the student's job listing -----

  /** A job as the student sees it in the listing. */
  datatype ListedJob = ListedJob(job: Job, percentage: int, hardEligible: bool)

  predicate IsHardEligible(l: ListedJob) {
    l.hardEligible
  }

  /** Scores one job for the student. */
  function ScoreJob(j: Job, s: StudentProfile): (r: ListedJob)
    ensures r.job == j
    ensures r.hardEligible == MayApply(Parse(j.eligibility), s)
    ensures 0 <= r.percentage <= 100
    ensures r.hardEligible ==> r.percentage == 100 || ListingScore(Parse(j.eligibility), s).tally.max == 0
  {
    var v := ListingScore(Parse(j.eligibility), s);
    PercentageValues(v.tally);
    ListedJob(j, MatchPercentage(v.tally), v.hardEligible)
  }

  function ScoreJobs(jobs: seq<Job>, s: StudentProfile): (r: seq<ListedJob>)
    ensures |r| == |jobs|
    ensures forall i | 0 <= i < |jobs| :: r[i] == ScoreJob(jobs[i], s)
  {
    if |jobs| == 0 then [] else [ScoreJob(jobs[0], s)] + ScoreJobs(jobs[1..], s)
  }

  /** The jobs whose deadline is today or later, in their order. */
  function OpenJobs(jobs: seq<Job>, today: int): (r: seq<Job>)
    ensures forall j :: j in r <==> j in jobs && j.deadline >= today
  {
    Select(jobs, (j: Job) => j.deadline >= today)
  }

  function ByMatch(l: ListedJob): int {
    l.percentage
  }

  /** The listing for an already prepared profile: the open jobs scored,
      only the hard-eligible ones when asked, best match first. */
  function RankJobs(jobs: seq<Job>, today: int, s: StudentProfile, eligibleOnly: bool): (r: seq<ListedJob>)
  {
    var scored := ScoreJobs(OpenJobs(jobs, today), s);
    var shown := if eligibleOnly then Select(scored, IsHardEligible) else scored;
    SortDescending(shown, ByMatch)
  }

  /** The profile the listing scores against: a readiness of exactly 0
      triggers a resume parse and a recount first. The parse stops the
      request with an error when the resume has an unsupported type, as
      its error message call is missing the request argument. */
  function PrepareProfile(s: StudentProfile, text: string, entities: seq<Entity>, sentences: seq<string>, modelLoaded: bool): (r: Option<StudentProfile>)
    ensures s.readiness != Some(0) ==> r == Some(s)
    ensures r.None? <==> s.readiness == Some(0) && s.resumeFile != "" && KindOf(s.resumeFile) == Unsupported
    ensures r.Some? && s.readiness == Some(0) ==> r.value.readiness == Some(ReadinessScore(r.value))
    ensures r.Some? ==> r.value.branch == s.branch && r.value.resumeFile == s.resumeFile
  {
    if s.readiness != Some(0) then Some(s)
    else
      var (q, outcome) := ParseResumeForStudent(s, text, entities, sentences, modelLoaded);
      if outcome == UnsupportedFile then None
      else
        ScoreReadsOnlyScoredFields(q, Recalculate(q));
        Some(Recalculate(q))
  }

  /** `student_job_list`: the profile it scored against and the jobs it
      shows, or nothing when the request fails. The search box is not
      modelled. */
  function StudentJobList(jobs: seq<Job>, today: int, s: StudentProfile, eligibleOnly: bool,
                          text: string, entities: seq<Entity>, sentences: seq<string>, modelLoaded: bool): (r: Option<(StudentProfile, seq<ListedJob>)>)
    ensures r.None? <==> PrepareProfile(s, text, entities, sentences, modelLoaded).None?
    ensures r.Some? ==> r.value.0 == PrepareProfile(s, text, entities, sentences, modelLoaded).value
  {
    match PrepareProfile(s, text, entities, sentences, modelLoaded)
    case None => None
    case Some(p) => Some((p, RankJobs(jobs, today, p, eligibleOnly)))
  }

  /** What the listing shows: exactly the open jobs (only the eligible ones
      when asked), each once, scored against the profile, best first, ties
      in posting order. */
  lemma {:induction false} RankJobsSound(jobs: seq<Job>, today: int, s: StudentProfile, eligibleOnly: bool, j: Job)
    ensures Descending(RankJobs(jobs, today, s, eligibleOnly), ByMatch)
    ensures ScoreJob(j, s) in RankJobs(jobs, today, s, eligibleOnly) <==>
      j in jobs && j.deadline >= today && (!eligibleOnly || MayApply(Parse(j.eligibility), s))
    ensures forall l | l in RankJobs(jobs, today, s, eligibleOnly) :: l == ScoreJob(l.job, s) && !Flags(l.job.deadline, today).expired
  {
    var open := OpenJobs(jobs, today);
    var scored := ScoreJobs(open, s);
    var shown := if eligibleOnly then Select(scored, IsHardEligible) else scored;
    SortDescendingIsSorted(shown, ByMatch);
    SortDescendingMembers(shown, ByMatch);
    ScoredMembers(open, s, j);
  }

  /** A job's entry is among the scored jobs exactly when the job is, and
      every entry there is the score of its own job. */
  lemma ScoredMembers(jobs: seq<Job>, s: StudentProfile, j: Job)
    ensures ScoreJob(j, s) in ScoreJobs(jobs, s) <==> j in jobs
    ensures forall l | l in ScoreJobs(jobs, s) :: l == ScoreJob(l.job, s) && l.job in jobs
  {
    var scored := ScoreJobs(jobs, s);
    forall l | l in scored
      ensures l == ScoreJob(l.job, s) && l.job in jobs
    {
      var i :| 0 <= i < |scored| && scored[i] == l;
    }
    if j in jobs {
      var i :| 0 <= i < |jobs| && jobs[i] == j;
      assert scored[i] == ScoreJob(j, s);
    }
  }

  /** The eligible-only listing is the full listing with the ineligible
      jobs struck out, in the same order. */
  lemma EligibleListingIsFiltered(jobs: seq<Job>, today: int, s: StudentProfile)
    ensures RankJobs(jobs, today, s, true) == Select(RankJobs(jobs, today, s, false), IsHardEligible)
  {
    SelectThenSort(ScoreJobs(OpenJobs(jobs, today), s), ByMatch, IsHardEligible);
  }

  // ----- applying -----

  datatype ApplyOutcome = AlreadyApplied | NotEligible | Applied

  /** `apply_for_job`: `applications` holds the (student, job) pairs already
      applied for. A second application is refused, so each pair is held at
      most once; the deadline is not checked here. */
  function ApplyForJob(applications: set<(nat, nat)>, student: nat, j: Job, s: StudentProfile): (r: (ApplyOutcome, set<(nat, nat)>))
    ensures (student, j.id) in applications ==> r == (AlreadyApplied, applications)
    ensures r.0 == Applied <==> (student, j.id) !in applications && MayApply(Parse(j.eligibility), s)
    ensures r.1 == if r.0 == Applied then applications + {(student, j.id)} else applications
  {
    if (student, j.id) in applications then (AlreadyApplied, applications)
    else if !MayApply(Parse(j.eligibility), s) then (NotEligible, applications)
    else (Applied, applications + {(student, j.id)})
  }

  /** Applying twice in a row never adds a second application. */
  lemma ApplyTwice(applications: set<(nat, nat)>, student: nat, j: Job, s: StudentProfile)
    ensures var first := ApplyForJob(applications, student, j, s);
      var second := ApplyForJob(first.1, student, j, s);
      second.1 == first.1 && (first.0 == Applied ==> second.0 == AlreadyApplied)
  {
  }

  /** The listing's "eligible" flag and the application gate agree: a job
      the listing marks eligible can be applied for, and one it does not
      is refused. */
  lemma ListingAgreesWithApply(applications: set<(nat, nat)>, student: nat, j: Job, s: StudentProfile)
    requires (student, j.id) !in applications
    ensures ScoreJob(j, s).hardEligible <==> ApplyForJob(applications, student, j, s).0 == Applied
  {
  }

  /** The gate does not look at the deadline: an expired job that the
      listing hides can still be applied for. */
  lemma ApplyIgnoresDeadline(applications: set<(nat, nat)>, student: nat, j: Job, s: StudentProfile, today: int)
    requires (student, j.id) !in applications && MayApply(Parse(j.eligibility), s)
    requires j.deadline < today
    ensures ApplyForJob(applications, student, j, s).0 == Applied
    ensures forall jobs :: ScoreJob(j, s) !in RankJobs(jobs, today, s, false)
  {
    forall jobs
      ensures ScoreJob(j, s) !in RankJobs(jobs, today, s, false)
    {
      RankJobsSound(jobs, today, s, false, j);
    }
  }
}
