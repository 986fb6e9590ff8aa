/** The string filters of core/templatetags/core_filters.py that the admin
    and student pages apply to scoring output: `startswith`, `replace` and
    `recommendation_slugify`. */
module Filters {
  import opened Text
  import opened Matching

  /** A template variable: a string, or any other Python object. */
  datatype TemplateValue = Str(s: string) | NotStr

  /** `value.startswith(arg)`. */
  function StartsWith(value: string, arg: string): (r: bool)
    ensures r <==> exists rest: string :: value == arg + rest
  {
    if |arg| <= |value| && value[..|arg|] == arg then
      assert value == arg + value[|arg|..];
      true
    else
      false
  }

  /** Python's `s.replace(pat, rep)` for a non-empty `pat`: occurrences are
      replaced from left to right, none overlapping the previous one. */
  function ReplaceNonEmpty(s: string, pat: string, rep: string): (r: string)
    requires pat != ""
    decreases |s|
  {
    if |s| == 0 then ""
    else if StartsAt(s, 0, pat) then rep + ReplaceNonEmpty(s[|pat|..], pat, rep)
    else [s[0]] + ReplaceNonEmpty(s[1..], pat, rep)
  }

  /** Python's `s.replace("", rep)`: `rep` before every character and at the
      end. */
  function InsertEverywhere(s: string, rep: string): (r: string)
    ensures |r| == |s| + (|s| + 1) * |rep|
    ensures forall i | 0 <= i < |s| :: r[|rep| + i * (|rep| + 1)] == s[i]
  {
    if |s| == 0 then rep
    else
      var rest := InsertEverywhere(s[1..], rep);
      assert forall i | 1 <= i < |s| :: rest[|rep| + (i - 1) * (|rep| + 1)] == s[i];
      rep + [s[0]] + rest
  }

  /** Python's `s.replace(pat, rep)`. */
  function ReplaceAll(s: string, pat: string, rep: string): (r: string) {
    if pat == "" then InsertEverywhere(s, rep) else ReplaceNonEmpty(s, pat, rep)
  }

  /** A string without `pat` comes back unchanged. */
  lemma {:induction false} ReplaceAbsent(s: string, pat: string, rep: string)
    requires pat != "" && !Contains(s, pat)
    ensures ReplaceAll(s, pat, rep) == s
    decreases |s|
  {
    if |s| > 0 {
      assert !StartsAt(s, 0, pat);
      forall i: nat | i + |pat| <= |s| - 1
        ensures !StartsAt(s[1..], i, pat)
      {
        assert !StartsAt(s, i + 1, pat);
      }
      ReplaceAbsent(s[1..], pat, rep);
      assert s == [s[0]] + s[1..];
    }
  }

  /** Replacing a non-empty string by itself changes nothing. */
  lemma {:induction false} ReplaceBySelf(s: string, w: string)
    requires w != ""
    ensures ReplaceAll(s, w, w) == s
    decreases |s|
  {
    if |s| > 0 {
      if StartsAt(s, 0, w) {
        ReplaceBySelf(s[|w|..], w);
        assert s == s[..|w|] + s[|w|..];
        assert s[..|w|] == w;
      } else {
        ReplaceBySelf(s[1..], w);
        assert s == [s[0]] + s[1..];
      }
    }
  }

  /** Replacing by something no longer than `pat` never lengthens the text,
      and a replacement without upper-case letters adds none. */
  lemma {:induction false} ReplaceShrinks(s: string, pat: string, rep: string)
    requires pat != "" && |rep| <= |pat|
    ensures |ReplaceAll(s, pat, rep)| <= |s|
    ensures NoUpper(s) && NoUpper(rep) ==> NoUpper(ReplaceAll(s, pat, rep))
    decreases |s|
  {
    if |s| > 0 {
      var r := ReplaceAll(s, pat, rep);
      if StartsAt(s, 0, pat) {
        var tail := ReplaceNonEmpty(s[|pat|..], pat, rep);
        ReplaceShrinks(s[|pat|..], pat, rep);
        assert r == rep + tail;
        if NoUpper(s) && NoUpper(rep) {
          assert NoUpper(s[|pat|..]);
          assert forall i | 0 <= i < |r| :: r[i] == if i < |rep| then rep[i] else tail[i - |rep|];
        }
      } else {
        var tail := ReplaceNonEmpty(s[1..], pat, rep);
        ReplaceShrinks(s[1..], pat, rep);
        assert r == [s[0]] + tail;
        if NoUpper(s) && NoUpper(rep) {
          assert NoUpper(s[1..]);
          assert forall i | 0 <= i < |r| :: r[i] == if i < 1 then s[0] else tail[i - 1];
        }
      }
    }
  }

  /** The first occurrence is the one replaced: when the text before an
      occurrence of `pat` never holds the first character of `pat`, the text
      before is kept and the scan resumes after the occurrence. */
  lemma {:induction false} ReplaceFirst(u: string, pat: string, rep: string, v: string)
    requires pat != ""
    requires forall k | 0 <= k < |u| :: u[k] != pat[0]
    ensures ReplaceAll(u + pat + v, pat, rep) == u + rep + ReplaceAll(v, pat, rep)
    decreases |u|
  {
    var s := u + pat + v;
    if |u| == 0 {
      assert s == pat + v;
      assert StartsAt(s, 0, pat);
      ReplaceAtMatch(s, pat, rep);
      assert s[|pat|..] == v;
    } else {
      ReplaceFirst(u[1..], pat, rep, v);
      ReplaceAfterMiss(u, pat, rep, v);
    }
  }

  /** The step of ReplaceFirst past one character of `u`. */
  lemma ReplaceAfterMiss(u: string, pat: string, rep: string, v: string)
    requires pat != "" && |u| > 0 && u[0] != pat[0]
    requires ReplaceAll(u[1..] + pat + v, pat, rep) == u[1..] + rep + ReplaceAll(v, pat, rep)
    ensures ReplaceAll(u + pat + v, pat, rep) == u + rep + ReplaceAll(v, pat, rep)
  {
    var s := u + pat + v;
    var w := ReplaceAll(v, pat, rep);
    TailOfAppend(u, pat);
    TailOfAppend(u + pat, v);
    assert s[0] == u[0];
    ReplaceAtMiss(s, pat, rep);
    AppendAssoc([u[0]], u[1..] + rep, w);
    AppendAssoc([u[0]], u[1..], rep);
    assert [u[0]] + u[1..] == u;
  }

  lemma TailOfAppend(a: string, b: string)
    requires |a| > 0
    ensures (a + b)[1..] == a[1..] + b
  {
  }

  lemma AppendAssoc(a: string, b: string, c: string)
    ensures a + (b + c) == (a + b) + c
  {
  }

  /** One step of the scan at an occurrence. */
  lemma ReplaceAtMatch(s: string, pat: string, rep: string)
    requires pat != "" && StartsAt(s, 0, pat)
    ensures ReplaceAll(s, pat, rep) == rep + ReplaceAll(s[|pat|..], pat, rep)
  {
  }

  /** One step of the scan where no occurrence starts. */
  lemma ReplaceAtMiss(s: string, pat: string, rep: string)
    requires pat != "" && |s| > 0 && s[0] != pat[0]
    ensures ReplaceAll(s, pat, rep) == [s[0]] + ReplaceAll(s[1..], pat, rep)
  {
    assert !StartsAt(s, 0, pat);
  }

  /** `replace`: with a string argument holding a comma, the text before the
      first comma is replaced by the text after it; any other argument leaves
      the value as it is. */
  function ReplaceFilter(value: string, arg: TemplateValue): (r: string)
    ensures arg.NotStr? || ',' !in arg.s ==> r == value
  {
    if arg.Str? && ',' in arg.s then
      var i := FirstComma(arg.s);
      ReplaceAll(value, arg.s[..i], arg.s[i + 1..])
    else
      value
  }

  /** Index of the first comma. */
  function FirstComma(s: string): (i: nat)
    requires ',' in s
    ensures i < |s| && s[i] == ',' && ',' !in s[..i]
  {
    if s[0] == ',' then 0 else FirstComma(s[1..]) + 1
  }

  /** The argument `pat + "," + rep` with no comma in `pat` replaces `pat`
      by `rep`, whatever commas `rep` holds. */
  lemma ReplaceFilterSplits(value: string, pat: string, rep: string)
    requires ',' !in pat
    ensures ReplaceFilter(value, Str(pat + "," + rep)) == ReplaceAll(value, pat, rep)
  {
    var a := pat + "," + rep;
    assert a[|pat|] == ',';
    var i := FirstComma(a);
    assert a[..i] == pat && a[i + 1..] == rep;
  }

  /** `recommendation_slugify`: lower case, with " fit" and then " match"
      removed; anything but a string becomes "". */
  function Slugify(value: TemplateValue): (r: string)
    ensures value.NotStr? ==> r == ""
    ensures value.Str? ==> |r| <= |value.s|
    ensures NoUpper(r)
  {
    match value
    case NotStr => ""
    case Str(s) =>
      var lower := LowerStr(s);
      var noFit := ReplaceAll(lower, " fit", "");
      ReplaceShrinks(lower, " fit", "");
      ReplaceShrinks(noFit, " match", "");
      ReplaceAll(noFit, " match", "")
  }

  /** The lower-cased tags, split where the filter cuts them. */
  lemma LoweredStrongFit()
    ensures LowerStr("Strong Fit") == "strong" + " fit" + ""
  {
    LowerStrAppend("Strong", " Fit");
    assert LowerStr("Strong") == "strong" && LowerStr(" Fit") == " fit";
    assert "Strong" + " Fit" == "Strong Fit";
  }

  lemma LoweredAverageMatch()
    ensures LowerStr("Average Match") == "average" + " match" + ""
  {
    LowerStrAppend("Average", " Match");
    assert LowerStr("Average") == "average" && LowerStr(" Match") == " match";
    assert "Average" + " Match" == "Average Match";
  }

  lemma LoweredLowMatch()
    ensures LowerStr("Low Match") == "low" + " match" + ""
  {
    LowerStrAppend("Low", " Match");
    assert LowerStr("Low") == "low" && LowerStr(" Match") == " match";
    assert "Low" + " Match" == "Low Match";
  }

  lemma LoweredPlainTags()
    ensures LowerStr("No Criteria") == "no criteria"
    ensures LowerStr("Data Missing") == "data missing"
  {
  }

  /** Which tags hold which of the two removed words. */
  lemma TagWords()
    ensures !Contains("strong", " match")
    ensures !Contains("average" + " match" + "", " fit")
    ensures !Contains("low" + " match" + "", " fit")
    ensures !Contains("no criteria", " fit") && !Contains("no criteria", " match")
    ensures !Contains("data missing", " fit") && !Contains("data missing", " match")
  {
    AbsentByChar("strong", " match", 0);
    AbsentByChar("average" + " match" + "", " fit", 1);
    AbsentByChar("low" + " match" + "", " fit", 1);
    AbsentByChar("no criteria", " fit", 1);
    AbsentByChar("no criteria", " match", 1);
    AbsentByChar("data missing", " fit", 1);
    AbsentByChar("data missing", " match", 4);
  }

  /** The five tags slug to the CSS class names the pages style: the two
      words of "Strong Fit", "Average Match" and "Low Match" lose their
      second word, while "No Criteria" and "Data Missing" keep theirs. */
  lemma SlugOfStrongFit()
    ensures Slugify(Str(Label(StrongFit))) == "strong"
  {
    LoweredStrongFit();
    TagWords();
    ReplaceFirst("strong", " fit", "", "");
    assert ReplaceAll("", " fit", "") == "";
    assert ReplaceAll(LowerStr("Strong Fit"), " fit", "") == "strong";
    ReplaceAbsent("strong", " match", "");
  }

  lemma SlugOfAverageMatch()
    ensures Slugify(Str(Label(AverageMatch))) == "average"
  {
    LoweredAverageMatch();
    TagWords();
    ReplaceAbsent("average" + " match" + "", " fit", "");
    ReplaceFirst("average", " match", "", "");
  }

  lemma SlugOfLowMatch()
    ensures Slugify(Str(Label(LowMatch))) == "low"
  {
    LoweredLowMatch();
    TagWords();
    ReplaceAbsent("low" + " match" + "", " fit", "");
    ReplaceFirst("low", " match", "", "");
  }

  /** A text without " fit" and " match" only loses its capitals. */
  lemma SlugOfPlainText(s: string)
    requires !Contains(LowerStr(s), " fit") && !Contains(LowerStr(s), " match")
    ensures Slugify(Str(s)) == LowerStr(s)
  {
    ReplaceAbsent(LowerStr(s), " fit", "");
    ReplaceAbsent(LowerStr(s), " match", "");
  }

  lemma SlugOfNoCriteria()
    ensures Slugify(Str(Label(NoCriteria))) == "no criteria"
  {
    LoweredPlainTags();
    TagWords();
    SlugOfPlainText("No Criteria");
  }

  lemma SlugOfDataMissing()
    ensures Slugify(Str(Label(DataMissing))) == "data missing"
  {
    LoweredPlainTags();
    TagWords();
    SlugOfPlainText("Data Missing");
  }
}
