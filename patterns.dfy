/**
 * The regular expressions of the table interpreter, each as a predicate or a
 * function on the string it is searched in.  A regex search succeeds when the
 * pattern matches at some position; where a `\d+`, `\d{1,3}` or `\s*` is followed
 * by something it cannot itself match, only its longest run can lead to a match,
 * so the models below take that run instead of searching over its lengths.
 */
module Patterns {
  import opened Wrappers
  import opened Text

  // ---------------------------------------------------------------------------
  // `\d+(?:\.\d+)?`: the points of a cell (try_parse_grading_table, line 115)
  // ---------------------------------------------------------------------------

  lemma DigitSlice(s: string, i: nat, k: nat)
    requires i + k <= |s|
    requires forall m :: i <= m < i + k ==> IsDigit(s[m])
    ensures AllDigits(s[i..i + k])
  {
    var t := s[i..i + k];
    forall m | 0 <= m < k ensures IsDigit(t[m]) {
      assert t[m] == s[i + m];
    }
  }

  /**
   * `float(m.group(0))` for the greedy match of `\d+(?:\.\d+)?` at a digit:
   * the whole digit run, plus a fraction when a '.' and at least one digit follow it.
   */
  function NumberAt(s: string, i: nat): (v: real)
    requires i < |s| && IsDigit(s[i])
    ensures v >= 0.0
  {
    var k := DigitRun(s, i);
    DigitSlice(s, i, k);
    var whole := DigitsValue(s[i..i + k]) as real;
    if i + k + 1 < |s| && s[i + k] == '.' && IsDigit(s[i + k + 1]) then
      var f := DigitRun(s, i + k + 1);
      DigitSlice(s, i + k + 1, f);
      whole + (DigitsValue(s[i + k + 1..i + k + 1 + f]) as real) / (Pow10(f) as real)
    else
      whole
  }

  function FirstNumberFrom(s: string, i: nat): (r: Option<real>)
    requires i <= |s|
    ensures r.None? <==> forall k :: i <= k < |s| ==> !IsDigit(s[k])
    ensures r.Some? ==> exists k :: (i <= k < |s| && IsDigit(s[k]) && r.value == NumberAt(s, k)
                                     && forall m :: i <= m < k ==> !IsDigit(s[m]))
    decreases |s| - i
  {
    if i == |s| then None
    else if IsDigit(s[i]) then Some(NumberAt(s, i))
    else FirstNumberFrom(s, i + 1)
  }

  /**
   * `re.search(r"\d+(?:\.\d+)?", cell)` converted by `float`: the number that starts
   * at the first digit of the cell, or None when the cell has no digit.
   */
  function FirstNumber(s: string): (r: Option<real>)
    ensures r.None? <==> forall k :: 0 <= k < |s| ==> !IsDigit(s[k])
    ensures r.Some? ==> r.value >= 0.0
  {
    FirstNumberFrom(s, 0)
  }

  // ---------------------------------------------------------------------------
  // `\b\d{1,3}\s*-\s*\d{1,3}\b`: a percentage range (line 125)
  // ---------------------------------------------------------------------------

  /**
   * The range pattern matches at `i`: `i` starts a run of one to three digits that
   * is not preceded by a word character, then optional whitespace, '-', optional
   * whitespace, and a run of one to three digits not followed by a word character.
   */
  predicate RangeAt(s: string, i: nat) {
    i < |s| && IsDigit(s[i]) && Boundary(s, i) &&
    var k1 := DigitRun(s, i);
    k1 <= 3 &&
    var dash := SkipSpaces(s, i + k1);
    dash < |s| && s[dash] == '-' &&
    var j := SkipSpaces(s, dash + 1);
    var k2 := DigitRun(s, j);
    1 <= k2 <= 3 && Boundary(s, j + k2)
  }

  predicate HasRange(s: string) {
    exists i :: 0 <= i < |s| && RangeAt(s, i)
  }

  // ---------------------------------------------------------------------------
  // guess_scale_from_tokens (lines 73-84), on the lower-cased joined tokens
  // ---------------------------------------------------------------------------

  /** `w` occurs at `i` (a plain substring test anchored at `i`). */
  predicate At(s: string, i: int, w: string) {
    0 <= i <= |s| && StartsWith(s[i..], w)
  }

  /** `o\s*grade` at `i`, ending in a word boundary. */
  predicate OGradeAt(s: string, i: int) {
    0 <= i < |s| && s[i] == 'o' &&
    var e := SkipSpaces(s, i + 1);
    At(s, e, "grade") && Boundary(s, e + 5)
  }

  /** `\b(outstanding|o\s*grade)\b` */
  predicate HasOutstanding(s: string) {
    exists i :: 0 <= i <= |s| && Boundary(s, i) && ((At(s, i, "outstanding") && Boundary(s, i + 11)) || OGradeAt(s, i))
  }

  /** `\bsgpa|cgpa\b`, which Python reads as `(\bsgpa)|(cgpa\b)`. */
  predicate HasGpa(s: string) {
    (exists i :: 0 <= i <= |s| && Boundary(s, i) && At(s, i, "sgpa"))
    || (exists i :: 0 <= i <= |s| && At(s, i, "cgpa") && Boundary(s, i + 4))
  }

  /** `n\s*point` */
  predicate HasNPoint(s: string, n: string) {
    exists i :: 0 <= i <= |s| - |n| && At(s, i, n) && At(s, SkipSpaces(s, i + |n|), "point")
  }

  /** `\b/n\b`: the '/' follows a word character and `n` is not followed by one. */
  predicate HasSlash(s: string, n: string) {
    exists i :: 0 <= i <= |s| && Boundary(s, i) && At(s, i, "/" + n) && Boundary(s, i + 1 + |n|)
  }

  /** `n\s*point|n-point|\b/n\b` */
  predicate HasPointScale(s: string, n: string) {
    HasNPoint(s, n) || Contains(s, n + "-point") || HasSlash(s, n)
  }

  /** `\b/4\b|4\.0\s*scale` */
  predicate HasFourScale(s: string) {
    HasSlash(s, "4") || exists i :: 0 <= i <= |s| - 3 && At(s, i, "4.0") && At(s, SkipSpaces(s, i + 3), "scale")
  }

  /** `" ".join(tokens).lower()` */
  function JoinedLower(tokens: seq<string>): string {
    Lower(Join(" ", tokens))
  }

  /** The four rules of guess_scale_from_tokens, in their order. */
  predicate TenByOutstanding(j: string) { HasOutstanding(j) && Contains(j, "10") }
  predicate TenByGpa(j: string) { HasGpa(j) && HasPointScale(j, "10") }
  predicate SevenPoint(j: string) { HasPointScale(j, "7") }
  predicate FourPoint(j: string) { HasFourScale(j) }

  /**
   * The first rule that fires decides the scale: 10, 10, 7 or 4; None when none fires.
   */
  function GuessScale(tokens: seq<string>): (r: Option<real>)
    ensures var j := JoinedLower(tokens);
      && (r == Some(10.0) <==> TenByOutstanding(j) || TenByGpa(j))
      && (r == Some(7.0) <==> !TenByOutstanding(j) && !TenByGpa(j) && SevenPoint(j))
      && (r == Some(4.0) <==> !TenByOutstanding(j) && !TenByGpa(j) && !SevenPoint(j) && FourPoint(j))
      && (r == None <==> !TenByOutstanding(j) && !TenByGpa(j) && !SevenPoint(j) && !FourPoint(j))
  {
    var j := JoinedLower(tokens);
    if TenByOutstanding(j) then Some(10.0)
    else if TenByGpa(j) then Some(10.0)
    else if SevenPoint(j) then Some(7.0)
    else if FourPoint(j) then Some(4.0)
    else None
  }
}
