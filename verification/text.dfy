/** Character classes, case mapping and substring search over `string`
    (a sequence of characters), with the meaning the portal's Python code
    gives them: `str.lower()`, the `in` operator on strings, and the regular
    expression classes `\s`, `\d`, `\w`, restricted to the ASCII range
    (plus the Unicode white space that `\s` accepts). */
module Text {

  datatype Option<+T> = None | Some(value: T)

  /** `\d` */
  predicate IsDigit(c: char) {
    '0' <= c <= '9'
  }

  /** `\s`: the characters for which Python's `str.isspace()` holds. */
  predicate IsSpace(c: char) {
    || c == ' ' || '\t' <= c <= '\r' || '\U{1c}' <= c <= '\U{1f}'
    || c == '\U{85}' || c == '\U{a0}' || c == '\U{1680}' || '\U{2000}' <= c <= '\U{200a}'
    || c == '\U{2028}' || c == '\U{2029}' || c == '\U{202f}' || c == '\U{205f}' || c == '\U{3000}'
  }

  predicate IsUpper(c: char) {
    'A' <= c <= 'Z'
  }

  predicate IsLowerLetter(c: char) {
    'a' <= c <= 'z'
  }

  /** `\w`: letters, digits and the underscore. */
  predicate IsWordChar(c: char) {
    IsUpper(c) || IsLowerLetter(c) || IsDigit(c) || c == '_'
  }

  function Lower(c: char): (r: char)
    ensures !IsUpper(r)
    ensures IsWordChar(r) <==> IsWordChar(c)
    ensures IsDigit(r) <==> IsDigit(c)
    ensures IsSpace(r) <==> IsSpace(c)
    ensures !IsUpper(c) ==> r == c
  {
    if IsUpper(c) then (c as int + 32) as char else c
  }

  function Upper(c: char): (r: char)
    ensures !IsLowerLetter(r)
    ensures IsLowerLetter(c) ==> Lower(r) == c
    ensures !IsLowerLetter(c) ==> r == c
  {
    if IsLowerLetter(c) then (c as int - 32) as char else c
  }

  /** `s.lower()` */
  function LowerStr(s: string): (r: string)
    ensures |r| == |s|
    ensures forall i | 0 <= i < |s| :: r[i] == Lower(s[i])
  {
    seq(|s|, i requires 0 <= i < |s| => Lower(s[i]))
  }

  predicate NoUpper(s: string) {
    forall i | 0 <= i < |s| :: !IsUpper(s[i])
  }

  lemma LowerStrIdempotent(s: string)
    ensures LowerStr(LowerStr(s)) == LowerStr(s)
    ensures NoUpper(LowerStr(s))
  {
  }

  /** Lower-casing works character by character. */
  lemma LowerStrAppend(a: string, b: string)
    ensures LowerStr(a + b) == LowerStr(a) + LowerStr(b)
  {
  }

  /** A text without capitals is its own lower case. */
  lemma LowerStrNoUpper(s: string)
    requires NoUpper(s)
    ensures LowerStr(s) == s
  {
  }

  /** `w` occurs in `t` at index `i`. */
  predicate StartsAt(t: string, i: nat, w: string) {
    i + |w| <= |t| && forall k | 0 <= k < |w| :: t[i + k] == w[k]
  }

  /** `w` occurs in `t` at index `i` when letters are compared without case;
      `w` is written in lower case. */
  predicate StartsAtIgnoringCase(t: string, i: nat, w: string) {
    i + |w| <= |t| && forall k | 0 <= k < |w| :: Lower(t[i + k]) == w[k]
  }

  /** Python's `w in t`. The empty string occurs in every string. */
  predicate Contains(t: string, w: string) {
    exists i: nat | i + |w| <= |t| :: StartsAt(t, i, w)
  }

  lemma StartsAtSlice(t: string, i: nat, w: string)
    requires i + |w| <= |t|
    ensures StartsAt(t, i, w) <==> t[i..i + |w|] == w
  {
    if StartsAt(t, i, w) {
      assert t[i..i + |w|] == w;
    }
  }

  lemma EmptyIsContained(t: string)
    ensures Contains(t, "")
  {
    assert StartsAt(t, 0, "");
  }

  lemma ContainedInItself(t: string)
    ensures Contains(t, t)
  {
    assert StartsAt(t, 0, t);
  }

  /** A word with a character that `t` lacks does not occur in `t`. */
  lemma AbsentByChar(t: string, w: string, k: nat)
    requires k < |w|
    requires forall i | 0 <= i < |t| :: t[i] != w[k]
    ensures !Contains(t, w)
  {
    forall i: nat | i + |w| <= |t|
      ensures !StartsAt(t, i, w)
    {
      assert t[i + k] != w[k];
    }
  }

  /** A word with two adjacent characters that never stand side by side in
      `t` does not occur in `t`. */
  lemma AbsentByPair(t: string, w: string, k: nat)
    requires k + 1 < |w|
    requires forall i | 0 <= i < |t| - 1 :: t[i] != w[k] || t[i + 1] != w[k + 1]
    ensures !Contains(t, w)
  {
    forall i: nat | i + |w| <= |t|
      ensures !StartsAt(t, i, w)
    {
      assert t[i + k] != w[k] || t[i + k + 1] != w[k + 1];
    }
  }

  /** The leftmost index in `from..last` where `at` holds: the order in which
      Python's `re.search` tries start positions. */
  function Leftmost(from: nat, last: nat, at: nat -> bool): (r: Option<nat>)
    ensures r.Some? ==> from <= r.value <= last && at(r.value)
    ensures r.Some? ==> forall k | from <= k < r.value :: !at(k)
    ensures r.None? ==> forall k | from <= k <= last :: !at(k)
    decreases last + 1 - from
  {
    if from > last then None
    else if at(from) then Some(from)
    else Leftmost(from + 1, last, at)
  }

  /** The first index at or after `i` whose character does not satisfy `p`
      (or the end of `t`): a greedy `p*`. */
  function SkipWhile(t: string, i: nat, p: char -> bool): (j: nat)
    requires i <= |t|
    ensures i <= j <= |t|
    ensures forall k | i <= k < j :: p(t[k])
    ensures j == |t| || !p(t[j])
    decreases |t| - i
  {
    if i == |t| || !p(t[i]) then i else SkipWhile(t, i + 1, p)
  }

  /** End of the maximal run of white space starting at `i`. */
  function SkipSpaces(t: string, i: nat): (j: nat)
    requires i <= |t|
    ensures i <= j <= |t|
    ensures forall k | i <= k < j :: IsSpace(t[k])
    ensures j == |t| || !IsSpace(t[j])
  {
    SkipWhile(t, i, IsSpace)
  }

  /** End of the maximal run of digits starting at `i`. */
  function SkipDigits(t: string, i: nat): (j: nat)
    requires i <= |t|
    ensures i <= j <= |t|
    ensures forall k | i <= k < j :: IsDigit(t[k])
    ensures j == |t| || !IsDigit(t[j])
  {
    SkipWhile(t, i, IsDigit)
  }

  /** The first digit at or after `i` (or the end): a greedy `\D*`. */
  function SkipNonDigits(t: string, i: nat): (j: nat)
    requires i <= |t|
    ensures i <= j <= |t|
    ensures forall k | i <= k < j :: !IsDigit(t[k])
    ensures j == |t| || IsDigit(t[j])
  {
    SkipWhile(t, i, c => !IsDigit(c))
  }

  predicate AllDigits(s: string) {
    forall i | 0 <= i < |s| :: IsDigit(s[i])
  }

  function DigitValue(c: char): (d: nat)
    requires IsDigit(c)
    ensures d <= 9
  {
    c as int - '0' as int
  }

  function Pow10(n: nat): (p: nat)
    ensures p >= 1
  {
    if n == 0 then 1 else 10 * Pow10(n - 1)
  }

  /** Python's `int(s)` on a string of decimal digits (leading zeros allowed). */
  function DigitsValue(s: string): (v: nat)
    requires AllDigits(s)
    ensures v < Pow10(|s|)
  {
    if |s| == 0 then 0 else 10 * DigitsValue(s[..|s| - 1]) + DigitValue(s[|s| - 1])
  }

  /** Joins `parts` with `sep` between consecutive elements, as Python's
      `sep.join(parts)`. */
  function Join(sep: string, parts: seq<string>): (r: string)
    ensures |parts| == 0 ==> r == ""
    ensures |parts| > 0 && parts[0] != "" ==> r != ""
    ensures |parts| > 0 ==> |r| >= |parts[0]|
  {
    if |parts| == 0 then ""
    else if |parts| == 1 then parts[0]
    else parts[0] + sep + Join(sep, parts[1..])
  }
}
