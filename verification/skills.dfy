/** The skills step of `parse_resume_text` in core/views.py: a fixed
    vocabulary of terms, each credited when it occurs anywhere in the
    lower-cased resume text. */
module Skills {
  import opened Text

  /** The vocabulary in the order the source lists it, in three parts so
      that facts about the literal terms stay small. */
  const SkillVocabulary: seq<string> := VocabularyHead + VocabularyMiddle + VocabularyTail

  const VocabularyHead: seq<string> := [
    "python", "java", "django", "react", "sql", "data analysis", "machine learning",
    "web development", "javascript", "html", "css", "c++", "aws", "git"]

  const VocabularyMiddle: seq<string> := [
    "full stack", "node js", "mongodb", "azure", "docker", "kubernetes",
    "tableau", "power bi", "spring boot", "rest api", "api", "testing", "ai/ml"]

  const VocabularyTail: seq<string> := [
    "neural networks", "devops", "cloud computing", "r programming", "linux", "typescript"]

  /** `str.capitalize()`: the first character in upper case, the rest in
      lower case. */
  function Capitalize(w: string): (r: string)
    ensures |r| == |w|
    ensures |w| > 0 ==> r[0] == Upper(w[0])
    ensures forall i | 1 <= i < |w| :: r[i] == Lower(w[i])
  {
    if |w| == 0 then "" else [Upper(w[0])] + LowerStr(w[1..])
  }

  /** Capitalizing a word without capitals is undone by lower-casing it. */
  lemma CapitalizeRoundTrip(w: string)
    requires NoUpper(w)
    ensures LowerStr(Capitalize(w)) == w
  {
    var r := LowerStr(Capitalize(w));
    forall i | 0 <= i < |w|
      ensures r[i] == w[i]
    {
      if i == 0 && IsLowerLetter(w[0]) {
        assert Lower(Upper(w[0])) == w[0];
      }
    }
  }

  /** The terms of `vocab`, in order, that occur in the lower-cased text,
      each capitalized. */
  function SkillsIn(lower: string, vocab: seq<string>): (r: seq<string>)
    ensures forall s :: s in r <==> exists w | w in vocab :: Contains(lower, w) && s == Capitalize(w)
    ensures forall i | 0 <= i < |r| :: |r[i]| > 0 || "" in vocab
  {
    if |vocab| == 0 then []
    else
      var rest := SkillsIn(lower, vocab[1..]);
      assert forall w :: w in vocab <==> w == vocab[0] || w in vocab[1..];
      if Contains(lower, vocab[0]) then [Capitalize(vocab[0])] + rest else rest
  }

  function FoundSkills(text: string): (r: seq<string>)
    ensures forall s :: s in r <==> exists w | w in SkillVocabulary :: Contains(LowerStr(text), w) && s == Capitalize(w)
  {
    SkillsIn(LowerStr(text), SkillVocabulary)
  }

  lemma ContainsTransitive(t: string, u: string, w: string)
    requires Contains(t, u) && Contains(u, w)
    ensures Contains(t, w)
  {
    var i: nat :| i + |u| <= |t| && StartsAt(t, i, u);
    var j: nat :| j + |w| <= |u| && StartsAt(u, j, w);
    assert StartsAt(t, i + j, w);
  }

  /** When one term of a vocabulary without capitals occurs inside another,
      any text credited with the longer one is credited with the shorter one
      as well. */
  lemma {:induction false} NestedSkill(lower: string, vocab: seq<string>, short: string, long: string)
    requires short in vocab && long in vocab
    requires forall w | w in vocab :: NoUpper(w)
    requires Contains(long, short)
    ensures Capitalize(long) in SkillsIn(lower, vocab) ==> Capitalize(short) in SkillsIn(lower, vocab)
  {
    if Capitalize(long) in SkillsIn(lower, vocab) {
      var w :| w in vocab && Contains(lower, w) && Capitalize(long) == Capitalize(w);
      CapitalizeRoundTrip(long);
      CapitalizeRoundTrip(w);
      ContainsTransitive(lower, long, short);
    }
  }

  /** A vocabulary term: non-empty and written without capitals. */
  predicate IsTerm(w: string) {
    |w| > 0 && NoUpper(w)
  }

  /** Every term of `part` is a vocabulary term. */
  predicate AllTerms(part: seq<string>) {
    forall i | 0 <= i < |part| :: IsTerm(part[i])
  }

  lemma HeadTerms()
    ensures AllTerms(VocabularyHead)
  {
    forall i | 0 <= i < |VocabularyHead|
      ensures IsTerm(VocabularyHead[i])
    {
      var w := VocabularyHead[i];
      forall k | 0 <= k < |w|
        ensures !IsUpper(w[k])
      {
      }
    }
  }

  lemma MiddleTerms()
    ensures AllTerms(VocabularyMiddle)
  {
    forall i | 0 <= i < |VocabularyMiddle|
      ensures IsTerm(VocabularyMiddle[i])
    {
      var w := VocabularyMiddle[i];
      forall k | 0 <= k < |w|
        ensures !IsUpper(w[k])
      {
      }
    }
  }

  lemma TailTerms()
    ensures AllTerms(VocabularyTail)
  {
    forall i | 0 <= i < |VocabularyTail|
      ensures IsTerm(VocabularyTail[i])
    {
      var w := VocabularyTail[i];
      forall k | 0 <= k < |w|
        ensures !IsUpper(w[k])
      {
      }
    }
  }

  lemma VocabularyLowerCase()
    ensures forall w | w in SkillVocabulary :: IsTerm(w)
  {
    HeadTerms();
    MiddleTerms();
    TailTerms();
    var v := SkillVocabulary;
    forall w | w in v
      ensures IsTerm(w)
    {
      var i :| 0 <= i < |v| && v[i] == w;
      if i < |VocabularyHead| {
        assert w == VocabularyHead[i];
      } else if i < |VocabularyHead| + |VocabularyMiddle| {
        assert w == VocabularyMiddle[i - |VocabularyHead|];
      } else {
        assert w == VocabularyTail[i - |VocabularyHead| - |VocabularyMiddle|];
      }
    }
  }

  /** Terms overlap: a resume that mentions JavaScript is also credited with
      Java, and one that mentions a REST API with API. */
  lemma OverlappingSkills(text: string)
    ensures Capitalize("javascript") in FoundSkills(text) ==> Capitalize("java") in FoundSkills(text)
    ensures Capitalize("rest api") in FoundSkills(text) ==> Capitalize("api") in FoundSkills(text)
  {
    VocabularyLowerCase();
    assert SkillVocabulary[1] == "java" && SkillVocabulary[8] == "javascript";
    assert SkillVocabulary[23] == "rest api" && SkillVocabulary[24] == "api";
    assert StartsAt("javascript", 0, "java");
    assert StartsAt("rest api", 5, "api");
    NestedSkill(LowerStr(text), SkillVocabulary, "java", "javascript");
    NestedSkill(LowerStr(text), SkillVocabulary, "api", "rest api");
  }

  /** Skills are found exactly when some vocabulary term occurs. */
  lemma SomeSkillFound(text: string)
    ensures |FoundSkills(text)| > 0 <==> exists w | w in SkillVocabulary :: Contains(LowerStr(text), w)
    ensures forall i | 0 <= i < |FoundSkills(text)| :: FoundSkills(text)[i] != ""
  {
    var found := FoundSkills(text);
    if exists w | w in SkillVocabulary :: Contains(LowerStr(text), w) {
      var w :| w in SkillVocabulary && Contains(LowerStr(text), w);
      assert Capitalize(w) in found;
    }
    if |found| > 0 {
      assert found[0] in found;
    }
    VocabularyLowerCase();
  }
}
