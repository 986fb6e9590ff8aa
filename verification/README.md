# Campus placement portal: the scoring and parsing core in Dafny

This project models the decision logic of a campus placement portal, a
Django application. Django plumbing is left aside. The logic falls into
four groups:

- **Eligibility and matching** (placement/views.py). One parser reads a
  job's eligibility text into a branch rule, a minimum CGPA and a backlog
  rule. Three evaluators apply it to a student:
  - the admin's soft score, `score_application`;
  - the student listing's score with its hard-eligibility flag;
  - the gate in `apply_for_job`.

  The module also holds the match percentage and the recommendation band,
  the stable best-first sort of both admin lists and of the student
  listing, the "eligible" filter, the "Data Missing" rows and the
  expired/upcoming deadline flags.
- **Readiness and resume parsing** (core/views.py):
  - the readiness score, a weighted sum;
  - the fields read out of a resume's text: CGPA, backlog count, skills,
    education, experience and phone number;
  - the merge of those fields into the student profile.
- **Predictions** (placement/ml_service.py): two rescalings of the
  readiness score and of a match percentage.
- **Template filters** (core/templatetags/core_filters.py): `startswith`,
  `replace` and `recommendation_slugify`.

## Numbers and text

The model stores numbers as exact scaled integers:

- CGPA, readiness and the overall prediction are kept in hundredths. A CGPA
  of 8.25 is 825; a readiness of 94.5 is 9450.
- The CGPA bound read from an eligibility text is an exact `real`.

Strings are sequences of characters. Lower-casing, `\d` and `\w` are the
ASCII cases. `\s` is the full set of characters for which Python's
`str.isspace()` holds, Unicode white space included (`Text.IsSpace`).

## Regular expressions

The simple patterns are written as hand scanners that try each start
position in turn, the way `re.search` does. These are the criteria CGPA
and backlog patterns and the resume CGPA and backlog patterns.

The backtracking patterns run through a small regex interpreter
(`Regex.Ends`). These are the two phone patterns and the degree pattern.
The interpreter lists a match's possible end positions in the order
Python's engine tries them. Its lemma `Regex.EndsExact` ties that list to
a plain set-based meaning of the pattern.

## Modules

| file | module | models |
|---|---|---|
| text.dfy | Text | characters, case, substring search, number scanning, join |
| profile.dfy | Profile | the student record the core reads and writes |
| criteria.dfy | Criteria | the eligibility-text parser |
| matching.dfy | Matching | the three evaluators, percentage, band, worked example |
| readiness.dfy | Readiness | `calculate_readiness_score` |
| prediction.dfy | Prediction | both predictions |
| filters.dfy | Filters | the three template filters |
| regex.dfy | Regex | the regex interpreter and `re.search` |
| phone.dfy | Phone | the two phone patterns |
| skills.dfy | Skills | the skill vocabulary |
| resume.dfy | Resume | `parse_resume_text` |
| resume_update.dfy | ResumeUpdate | `parse_resume_for_student` |
| sorting.dfy | Sorting | the stable descending sort and filtering |
| listing.dfy | Listing | the ranked lists, student listing, applying, deadline flags |

## Behaviour worth knowing

- A resume's "Score 85" gives no CGPA. The comments at core/views.py:413-414
  say a number like 85 is read as 8.5, but the code divides by ten only a
  group of three digits or more. So 85 stays 85.0 and fails the 0..10 range
  check. The model follows the code (`Resume.CgpaFirstMatchDecides`).
- "2 backlogs" gives no backlog count, because the digits must follow the
  keyword, as the comment at core/views.py:425 says
  (`Resume.BacklogCountBeforeKeyword`).
- A parsed resume overwrites skills, education, experience and phone even
  when they come back empty. Only the CGPA and the backlog count are kept
  when nothing is found (core/views.py:491-500, `ResumeUpdate.ApplyParsed`).

## Model

| member | source | states |
|---|---|---|
| Criteria.BranchStated | placement/views.py:28-33 | the branch criterion exists exactly when neither "all branches" nor "any branch" occurs and one of the six codes does |
| Criteria.MinCgpa | placement/views.py:41-47 | a bound is read exactly when some "cgpa" is followed by optional spaces and a digit; the bound is never negative |
| Criteria.PrefixIsHarmless | placement/views.py:41 | the optional "min"/"minimum" prefix of the CGPA pattern never changes which "cgpa" supplies the bound |
| Criteria.BacklogRuleOf | placement/views.py:53-65 | "no backlogs" anywhere wins; otherwise a "max[imum] backlogs N" gives a limit of N; otherwise there is no rule |
| Criteria.Parse | placement/views.py:24-65 | the parsed criteria read the lower-cased text; each part is present exactly when its pattern occurs |
| Criteria.NothingStatedNothingParsed | placement/views.py:28-54 | a text with no branch code, no CGPA and no backlog phrase parses to no criteria at all |
| Matching.AdminScore | placement/views.py:35-71 | the score is the number of applicable criteria the student meets and max the number of applicable criteria, where a CGPA or backlog criterion applies only when the student's value is known; so score ≤ max ≤ 3, max is 0 exactly when nothing applies, and with both values known it equals the listing's tally |
| Matching.ListingScore | placement/views.py:296-352 | the score is the number of stated criteria the student meets (an unknown value meets none) and max the number stated; the job is hard-eligible exactly when all are met, which is the apply gate's verdict |
| Matching.MayApply | placement/views.py:404-448 | the gate passes with no criteria stated, and never passes a stated CGPA or backlog rule with the value unknown |
| Matching.ScorersDifferOnlyOnUnknowns | placement/views.py:306-352 | admin and listing scores agree; the listing's max exceeds the admin's by the unknown values, and an unknown value makes the job ineligible |
| Matching.MatchPercentage | placement/views.py:74-78 | the percentage is the integer nearest to 100·score/max, and 0 when max is 0 |
| Matching.PercentageValues | placement/views.py:78 | with max at most 3 no rounding tie occurs; the percentage is one of 0, 33, 50, 67, 100; it is 100 exactly when all are met |
| Matching.RecommendationTable | placement/views.py:80-87 | all met is "Strong Fit", two of three "Average Match", any other stated case "Low Match", even with nothing met |
| Matching.ScoreApplication | placement/views.py:18-91 | percentage within 0..100; "No Criteria" exactly when the admin max is 0, and then 0% |
| Matching.HelpTextParses | placement/models.py:12-14 | the form's example text parses to a branch rule, a minimum CGPA of 7.0 and no backlogs allowed |
| Matching.HelpTextCseStudent | placement/views.py:18-91 | a cse student with CGPA 8.2 and no backlogs scores 3 of 3, 100%, "Strong Fit", and is hard-eligible |
| Matching.HelpTextMechStudent | placement/views.py:18-91 | a mech student with the same record scores 2 of 3, 67%, "Average Match", is not hard-eligible and cannot apply |
| Readiness.CgpaPoints | core/views.py:53-57 | CGPA points are 3·cgpa hundredths up to a CGPA of 10, then 30 points flat, and nothing when unknown |
| Readiness.BacklogPoints | core/views.py:59-66 | 30 points exactly for no backlogs, 15 exactly for one, 3 exactly for any other known count, nothing when unknown |
| Readiness.PresencePoints | core/views.py:68-80 | 0 to 40 points; all 40 exactly when skills, resume and experience are all present (the separate weights are in the three lemmas below) |
| Readiness.ReadinessScore | core/views.py:39-83 | the cap at 100 never binds; the score is not negative for a non-negative CGPA and is 100 exactly for a CGPA of at least 10, no backlogs and all three items |
| Readiness.Recalculate | core/views.py:82-88 | recounting stores the readiness score of the profile as it was, at most 100, and changes no other field |
| Readiness.RecalculateIdempotent | core/views.py:39-88 | recounting twice gives the same profile as recounting once |
| Readiness.ScoreMonotoneInCgpa | core/views.py:53-57 | a higher CGPA never lowers the score |
| Readiness.ScoreAntitoneInBacklogs | core/views.py:59-66 | fewer backlogs never lower the score |
| Readiness.SkillsAddTwenty | core/views.py:68-71 | filling in the skills adds exactly 20 points |
| Readiness.ResumeAddsTen | core/views.py:73-75 | uploading a resume adds exactly 10 points |
| Readiness.ExperienceAddsTen | core/views.py:77-79 | filling in the experience adds exactly 10 points |
| Prediction.OverallPrediction | placement/ml_service.py:7-20 | unknown readiness predicts 0; otherwise the result is 0.95·readiness to the nearest hundredth, and exactly 100 once that reaches 100 |
| Prediction.OverallRange | placement/ml_service.py:18-20 | readiness in 0..100 predicts 0..95, and 100 predicts exactly 95 |
| Prediction.OverallMonotone | placement/ml_service.py:18-20 | a higher readiness never predicts less |
| Prediction.JobPrediction | placement/ml_service.py:22-36 | 98 from 100 up, 0.9m + 10 from 75, 0.7m + 10 from 50, 0.5m below |
| Prediction.JobPredictionShape | placement/ml_service.py:29-36 | for m in 0..100 the result is in 0..99.1 and never falls as m grows below 100, but 99 predicts more than 100 does |
| Prediction.JobPredictionOnScorerValues | placement/ml_service.py:22-36 | the percentages 0, 33, 50, 67, 100 map to 0, 16.5, 45, 56.9 and 98 |
| Filters.StartsWith | core/templatetags/core_filters.py:28-34 | true exactly when the argument is a prefix of the value |
| Filters.ReplaceFilter | core/templatetags/core_filters.py:36-46 | an argument that is not a string, or one without a comma, leaves the value unchanged |
| Filters.ReplaceFilterSplits | core/templatetags/core_filters.py:43-45 | the argument splits at its first comma only, so "a,b,c" replaces "a" by "b,c" |
| Filters.ReplaceAbsent | core/templatetags/core_filters.py:45 | replacing a non-empty substring that does not occur is the identity |
| Filters.ReplaceBySelf | core/templatetags/core_filters.py:45 | replacing a substring by itself is the identity |
| Filters.ReplaceShrinks | core/templatetags/core_filters.py:45 | replacing a non-empty substring by one no longer never lengthens the text, and adds no capital to a text without capitals |
| Filters.Slugify | core/templatetags/core_filters.py:49-61 | a non-string gives ""; a slug is never longer than its input and has no capitals |
| Filters.SlugOfStrongFit | core/templatetags/core_filters.py:58-61 | "Strong Fit" becomes "strong" |
| Filters.SlugOfAverageMatch | core/templatetags/core_filters.py:58-61 | "Average Match" becomes "average" |
| Filters.SlugOfLowMatch | core/templatetags/core_filters.py:58-61 | "Low Match" becomes "low" |
| Filters.SlugOfNoCriteria | core/templatetags/core_filters.py:58-61 | "No Criteria" becomes "no criteria" |
| Filters.SlugOfDataMissing | core/templatetags/core_filters.py:58-61 | "Data Missing" becomes "data missing" |
| Regex.EndsExact | core/views.py:457-459 | the interpreter's end positions are exactly the ends at which the pattern matches |
| Regex.Search | core/views.py:457-459 | the search returns the leftmost start at which the pattern matches; nothing exactly when no start matches |
| Phone.PhoneNumber | core/views.py:457-462 | the Indian pattern's first match wins; the generic pattern is tried only when it finds nothing; "" exactly when neither matches |
| Phone.IndianShape | core/views.py:457 | an Indian match has 10, 13 or 14 characters, ends in a 6-9 digit then nine digits, and has "+91" before a longer number |
| Phone.IndianPlusNeedsWordBefore | core/views.py:457 | a match cannot start at "+" unless a word character precedes it, so a "+91 " prefix after a space is not captured |
| Phone.IndianDigitsMatch | core/views.py:457 | ten digits, the first 6 to 9, between two word boundaries always match the Indian pattern |
| Phone.IndianFirstAt | core/views.py:457-462 | when the first start with an Indian match holds ten digits and no "+", the stored number is those ten digits |
| Phone.PlusNumberExample | core/views.py:457-462 | "+91 9876543210" gives "9876543210" |
| Phone.GenericShape | core/views.py:459 | a generic match has 10 to 19 characters, all digits or "+-. ()" |
| Phone.IndianNumberShape | core/views.py:457-462 | a number found by the Indian pattern has 10, 13 or 14 characters and ends in ten digits |
| Phone.GenericNumberShape | core/views.py:458-462 | a number found by the generic pattern has 10 to 19 digits and separators |
| Resume.CgpaGroup | core/views.py:408 | the captured group is "d.d", "d.dd" or two or three digits, taken greedily at the first digit |
| Resume.CgpaGroupValue | core/views.py:412-416 | only a three-digit group without a point is divided by ten |
| Resume.ResumeCgpa | core/views.py:408-420 | only the first match is used, and its value is kept only within 0..10 |
| Resume.CgpaKeywordsExclusive | core/views.py:408 | at most one of the four keywords starts at any position |
| Resume.TwoDigitsNotScaled | core/views.py:413-419 | a two-digit group survives the range check only up to 10 |
| Resume.ThreeDigitsScaled | core/views.py:413-419 | a three-digit group survives the range check up to 100 |
| Resume.DecimalAlwaysInRange | core/views.py:416-419 | a decimal group always passes the range check |
| Resume.CgpaDecimalExample | core/views.py:408-420 | "CGPA: 8.5" reads as 8.5 |
| Resume.CgpaFirstMatchDecides | core/views.py:408-420 | "Score 85, CGPA 8.5" gives no CGPA: the out-of-range first match hides the valid one |
| Resume.CgpaThreeDigitsExample | core/views.py:408-420 | "Percentage: 100" reads as 10.0 |
| Resume.BacklogSingularSuffices | core/views.py:426 | where a plural keyword matches, the singular one matches too and finds the same first digit |
| Resume.ResumeBacklogs | core/views.py:426-429 | the count is read exactly when the pattern matches, from the first match, and is never negative |
| Resume.CountMustFollowKeyword | core/views.py:426-429 | with no digit after any keyword there is no count |
| Resume.BacklogExample | core/views.py:426-429 | "Backlogs: 0" reads as no backlogs |
| Resume.BacklogCountBeforeKeyword | core/views.py:426-429 | "2 backlogs" reads as nothing |
| Resume.Education | core/views.py:447-451 | education holds exactly the texts of ORG entities naming a university, a college or a degree |
| Resume.Experience | core/views.py:453-455 | experience holds exactly the sentences that contain one of the four phrases |
| Resume.Distinct | core/views.py:466-468 | joined lists hold each item once, and exactly the items found |
| Resume.ParseResumeText | core/views.py:392-473 | without the language model every field is empty; a found CGPA lies in 0..10; skills and experience are non-empty exactly when something qualifies |
| Skills.CapitalizeRoundTrip | core/views.py:444 | lower-casing a capitalized term gives back the vocabulary term |
| Skills.FoundSkills | core/views.py:434-444 | the skills are exactly the capitalized vocabulary terms that occur in the lower-cased text |
| Skills.NestedSkill | core/views.py:442-444 | a term inside a longer term is credited whenever the longer one is |
| Skills.OverlappingSkills | core/views.py:434-444 | JavaScript brings Java along, and REST API brings API |
| Skills.SomeSkillFound | core/views.py:441-444 | some skill is found exactly when some vocabulary term occurs |
| ResumeUpdate.ExtensionShape | core/views.py:478 | stem and extension rejoin to the path; an extension is a dot then no dot or slash; no dot means no extension |
| ResumeUpdate.KindOf | core/views.py:478-487 | the extractor is chosen by ".pdf" or ".docx" compared without case |
| ResumeUpdate.ApplyParsed | core/views.py:491-500 | the four text fields are always overwritten; CGPA and backlogs change only when a value was found |
| ResumeUpdate.ParseResumeForStudent | core/views.py:475-506 | no resume or an unsupported type leaves the profile unchanged; otherwise the parsed fields are merged |
| ResumeUpdate.ParsedCgpaInRange | core/views.py:496-500 | a CGPA within 0..10 stays within 0..10 after a parse |
| ResumeUpdate.ParseTwiceSameAsOnce | core/views.py:489-500 | parsing the same resume again changes nothing more |
| Sorting.SortDescendingIsSorted | placement/views.py:190 | the sorted list is in non-increasing key order and holds the same items |
| Sorting.SortDescendingIsStable | placement/views.py:379 | items with equal keys keep their original order |
| Sorting.SelectThenSort | placement/views.py:373-379 | filtering after sorting equals sorting after filtering |
| Listing.Flags | placement/views.py:103-106 | expired exactly when the deadline is past; upcoming exactly when it is today or within seven days; never both |
| Listing.FlagsOverTime | placement/views.py:103-106 | over the days a job is upcoming in the week before its deadline (the deadline day included), expired from the day after, and never un-expires |
| Listing.ScoreListed | placement/views.py:234-243 | "Data Missing" exactly when the job or the student is missing; otherwise the admin score |
| Listing.RankApplicationsSound | placement/views.py:234-246 | the ranking holds every scored application, best first, ties in database order |
| Listing.DataMissingRanksLast | placement/views.py:239-246 | everything ranked after a "Data Missing" row shows 0% |
| Listing.ScoreJob | placement/views.py:282-358 | a job is flagged eligible exactly when the apply gate passes, and then it shows 100% unless nothing is stated |
| Listing.PrepareProfile | placement/views.py:270-273 | a readiness of exactly 0 triggers a resume parse and a recount; only an unsupported file stops the request |
| Listing.RankJobsSound | placement/views.py:262-379 | the listing shows exactly the open jobs, or the open eligible ones, each scored, best first, none expired |
| Listing.EligibleListingIsFiltered | placement/views.py:373-379 | the eligible-only listing is the full listing with the ineligible jobs struck out |
| Listing.ApplyForJob | placement/views.py:392-454 | an application is added exactly when none exists and the gate passes; otherwise nothing changes |
| Listing.ApplyTwice | placement/views.py:396-398 | applying twice never adds a second application |
| Listing.ListingAgreesWithApply | placement/views.py:400-448 | the listing's eligible flag is exactly the apply gate's verdict |
| Listing.ApplyIgnoresDeadline | placement/views.py:392-454 | an expired job hidden from the listing can still be applied for |

## Left out

- Django views, querysets, authentication, messages and rendering are not
  modelled. This includes the admin list filters by CGPA, branch,
  backlogs, skills and status (placement/views.py:168-181), the listing's
  search box `q`, and the email sent on a status change.
- PDF and DOCX text extraction is taken as an input string. The language
  model's named entities, sentences and loaded state are also inputs.
- Resume.Distinct: `list(set(xs))` has an order left to string hashing; the
  model joins in first-occurrence order, so only the set of items and their
  uniqueness are stated, not the order.
- Prediction.OverallPrediction: rounding to hundredths is half-up on the
  exact value. Python rounds the binary float, which differs only on ties.
- Matching.AdminScore, Matching.ListingScore, Matching.MayApply: Python 3.11
  and later refuse `int()` on a run of more than 4300 digits with ValueError.
  The handlers at placement/views.py:66-68 and 344-346 then take one off the
  maximum and still count the criterion as met, so the score can exceed the
  maximum (200% for a CSE student under "cse, max backlogs" and such a
  number). The handler at placement/views.py:445-446 leaves the gate open.
  The model reads any digit run as an unbounded integer, so these contracts
  (score ≤ max, and a percentage of at most 100) hold only for counts of at
  most 4300 digits. The `float()` handlers at placement/views.py:49-50 and
  321-322 and core/views.py:421-422 cannot fire, since their input is always
  a digit string, so they are not modelled.
- Resume.ResumeBacklogs: for a count of more than 4300 digits the source's
  `int()` raises and backlogs stay unknown (core/views.py:427-431); the model
  returns the number.
- Filters.StartsWith: the value is a string in the model. In the source a
  value that is not a string raises AttributeError at
  core/templatetags/core_filters.py:34; that error is not modelled.
- Filters.ReplaceFilter: the value is a string in the model. In the source,
  a value that is not a string with a comma argument raises AttributeError
  at core/templatetags/core_filters.py:45; that error is not modelled.
- Binary floating point is not modelled. CGPA, readiness and predictions
  are exact scaled integers.
- Unicode case folding, Unicode digits and Unicode word characters are not
  modelled. The model covers ASCII only.
- The unsupported-file branch's error message call lacks its request
  argument, so the request stops with an error. The profile is unchanged
  either way. In the listing's pre-step this appears as no listing
  (`Listing.PrepareProfile`).
- The resume file's storage path is modelled by its name. The media
  directory prefix ends in a slash, so it does not change the extension.
- The widget filters `add_class`, `add_placeholder` and `is_checkbox` are
  wrappers over Django form internals and are not modelled.
- Concurrent requests and last-write-wins saves are not modelled.
