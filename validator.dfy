/**
 * is_valid_indian_system: the plausibility test an "India" system must pass to
 * enter the catalog, with its label test looks_like_grade_label.
 */
module Validator {
  import opened Wrappers
  import opened Text
  import opened Schema

  /** The scales an Indian system may have. */
  const AllowedScales: set<real> := {10.0, 9.0, 8.0, 7.0, 6.0, 5.0, 4.33, 4.0, 100.0}

  /** The slack allowed above the scale: the float literal 1e-6, taken as the exact decimal. */
  const Tolerance: real := 0.000001

  // ---------------------------------------------------------------------------
  // looks_like_grade_label (lines 302-313), on ASCII labels
  // ---------------------------------------------------------------------------

  predicate IsLetterGrade(c: char) {
    c == 'O' || c == 'S' || c == 'A' || c == 'U' || c == 'B' || c == 'C' || c == 'D' || c == 'F' || c == 'E' || c == 'P'
  }

  predicate IsSign(c: char) {
    c == '+' || c == '-'
  }

  /** `[OSAUBCDFEP]{1,2}[+-]?` as a full match. */
  predicate LettersThenSign(l: string) {
    || (|l| == 1 && IsLetterGrade(l[0]))
    || (|l| == 2 && IsLetterGrade(l[0]) && IsLetterGrade(l[1]))
    || (|l| == 2 && IsLetterGrade(l[0]) && IsSign(l[1]))
    || (|l| == 3 && IsLetterGrade(l[0]) && IsLetterGrade(l[1]) && IsSign(l[2]))
  }

  /** `[A-D][+-]?` as a full match. */
  predicate AToDThenSign(l: string) {
    (|l| == 1 && 'A' <= l[0] <= 'D') || (|l| == 2 && 'A' <= l[0] <= 'D' && IsSign(l[1]))
  }

  /** `re.fullmatch(r"[OSAUBCDFEP]{1,2}[+-]?|[A-D][+-]?|HD|D|C|P|F|First|Pass|Fail", label)` */
  predicate LetterPattern(l: string) {
    LettersThenSign(l) || AToDThenSign(l)
    || l == "HD" || l == "D" || l == "C" || l == "P" || l == "F"
    || l == "First" || l == "Pass" || l == "Fail"
  }

  /** `re.fullmatch(r"\d{1,3}(?:L)?", label)` */
  predicate NumericPattern(l: string) {
    (1 <= |l| <= 3 && AllDigits(l)) || (2 <= |l| <= 4 && AllDigits(l[..|l| - 1]) && l[|l| - 1] == 'L')
  }

  const KnownLabels: set<string> := {"O", "A+", "A", "A-", "B+", "B", "B-", "C+", "C", "C-", "D", "E", "P", "F", "HD"}

  /** The three tests of looks_like_grade_label, in their order, on the stripped label. */
  predicate LooksLikeGradeLabel(raw: string) {
    var l := Strip(raw);
    && l != [] && |l| <= 20
    && (LetterPattern(l) || NumericPattern(l) || l in KnownLabels)
  }

  /**
   * The label shapes the test admits, stated once: one or two of the letters
   * O S A U B C D F E P with an optional sign, "HD", "First", "Pass", "Fail", or one
   * to three digits with an optional 'L'.
   */
  predicate GradeLabelShape(l: string) {
    LettersThenSign(l) || l == "HD" || l == "First" || l == "Pass" || l == "Fail" || NumericPattern(l)
  }

  /**
   * The label test accepts exactly the stripped labels of those shapes: the [A-D]
   * alternative, the single letters and the known-label set add nothing, and no such
   * label is longer than 20 characters.
   */
  lemma LooksLikeGradeLabelShape(raw: string)
    ensures LooksLikeGradeLabel(raw) <==> GradeLabelShape(Strip(raw))
  {
    var l := Strip(raw);
    if l in KnownLabels {
      KnownLabelShape(l);
    }
    if LetterPattern(l) {
      LetterPatternShape(l);
    }
    if GradeLabelShape(l) {
      ShapeLength(l);
    }
  }

  /** The [A-D] alternative and the single letters of the regex are letter grades already. */
  lemma LetterPatternShape(l: string)
    requires LetterPattern(l)
    ensures GradeLabelShape(l)
  {
    if AToDThenSign(l) || l == "D" || l == "C" || l == "P" || l == "F" {
      assert IsLetterGrade(l[0]);
    }
  }

  /** A label of grade shape has one to five characters and matches the regex tests. */
  lemma ShapeLength(l: string)
    requires GradeLabelShape(l)
    ensures 1 <= |l| <= 5 && (LetterPattern(l) || NumericPattern(l))
  {
  }

  /** Every known label is one or two grade characters: a letter grade with an optional sign, or "HD". */
  lemma KnownLabelShape(l: string)
    requires l in KnownLabels
    ensures LettersThenSign(l) || l == "HD"
  {
    assert l == "O" || l == "A+" || l == "A" || l == "A-" || l == "B+" || l == "B" || l == "B-" || l == "C+"
      || l == "C" || l == "C-" || l == "D" || l == "E" || l == "P" || l == "F" || l == "HD";
  }

  // ---------------------------------------------------------------------------
  // is_valid_indian_system (lines 291-329)
  // ---------------------------------------------------------------------------

  /** The per-row tests of the loop: an object, numeric points within the scale, a string label of grade shape. */
  predicate RowOk(r: Row, scale: real) {
    && r.Row?
    && r.points.Some?
    && 0.0 <= r.points.value <= scale + Tolerance
    && r.grade.Some?
    && LooksLikeGradeLabel(r.grade.value)
  }

  /** The raw "grade" of a row; None for a row that is not an object or has no string label. */
  function LabelOf(r: Row): Option<string> {
    if r.Row? then r.grade else None
  }

  /** No two rows carry the same raw (unstripped) label. */
  predicate LabelsDistinct(rows: seq<Row>) {
    forall i, j :: 0 <= i < j < |rows| ==> LabelOf(rows[i]) != LabelOf(rows[j])
  }

  /** An Indian system is valid when its scale is allowed, it has at least three rows, every row passes, and labels are unique. */
  predicate ValidIndian(s: System) {
    && s.scale.Some?
    && s.scale.value in AllowedScales
    && s.grades.Some?
    && |s.grades.value| >= 3
    && (forall k :: 0 <= k < |s.grades.value| ==> RowOk(s.grades.value[k], s.scale.value))
    && LabelsDistinct(s.grades.value)
  }

  /** The rows pass one by one, as the loop checks them. */
  predicate RowsOk(rows: seq<Row>, scale: real) {
    rows == [] || (RowsOk(rows[..|rows| - 1], scale) && RowOk(rows[|rows| - 1], scale))
  }

  lemma {:induction false} RowsOkAll(rows: seq<Row>, scale: real)
    ensures RowsOk(rows, scale) <==> forall k :: 0 <= k < |rows| ==> RowOk(rows[k], scale)
  {
    if rows != [] {
      var init := rows[..|rows| - 1];
      RowsOkAll(init, scale);
      assert forall k :: 0 <= k < |init| ==> init[k] == rows[k];
    }
  }

  lemma RowsOkStep(rows: seq<Row>, i: nat, scale: real)
    requires i < |rows|
    ensures RowsOk(rows[..i + 1], scale) <==> RowsOk(rows[..i], scale) && RowOk(rows[i], scale)
  {
    assert rows[..i + 1][..i] == rows[..i];
  }

  /** The labels of the rows, as the loop's seen_labels set collects them. */
  function SeenLabels(rows: seq<Row>): set<string> {
    if rows == [] then {}
    else
      SeenLabels(rows[..|rows| - 1])
      + (match LabelOf(rows[|rows| - 1]) case Some(l) => {l} case None => {})
  }

  lemma {:induction false} SeenLabelsMember(rows: seq<Row>)
    ensures forall x :: x in SeenLabels(rows) <==> exists k :: 0 <= k < |rows| && LabelOf(rows[k]) == Some(x)
  {
    if rows != [] {
      var init := rows[..|rows| - 1];
      SeenLabelsMember(init);
      assert forall k :: 0 <= k < |init| ==> init[k] == rows[k];
    }
  }

  /** One turn of the loop: the label joins the seen set, and labels stay distinct when it was not seen. */
  lemma SeenStep(rows: seq<Row>, i: nat)
    requires i < |rows| && LabelOf(rows[i]).Some?
    ensures SeenLabels(rows[..i + 1]) == SeenLabels(rows[..i]) + {LabelOf(rows[i]).value}
    ensures LabelsDistinct(rows[..i]) && LabelOf(rows[i]).value !in SeenLabels(rows[..i]) ==> LabelsDistinct(rows[..i + 1])
  {
    assert rows[..i + 1][..i] == rows[..i];
    if LabelsDistinct(rows[..i]) && LabelOf(rows[i]).value !in SeenLabels(rows[..i]) {
      SeenLabelsMember(rows[..i]);
      var next := rows[..i + 1];
      forall a, b | 0 <= a < b < i + 1 ensures LabelOf(next[a]) != LabelOf(next[b]) {
        if b == i {
          assert rows[..i][a] == rows[a];
        } else {
          assert rows[..i][a] == rows[a] && rows[..i][b] == rows[b];
        }
      }
    }
  }

  /** A label already seen makes the system invalid. */
  lemma SeenLabelRejected(s: System, i: nat)
    requires s.grades.Some? && i < |s.grades.value| && LabelOf(s.grades.value[i]).Some?
    requires LabelOf(s.grades.value[i]).value in SeenLabels(s.grades.value[..i])
    ensures !ValidIndian(s)
  {
    var rows := s.grades.value;
    SeenLabelsMember(rows[..i]);
    var k :| 0 <= k < i && LabelOf(rows[..i][k]) == LabelOf(rows[i]);
    assert rows[..i][k] == rows[k];
  }

  /** The `for row in grades` loop with its seen_labels set. */
  method IsValidIndianSystem(system: System) returns (valid: bool)
    ensures valid == ValidIndian(system)
  {
    if system.scale.None? {
      return false;
    }
    var scale := system.scale.value;
    if scale !in AllowedScales {
      return false;
    }
    if system.grades.None? || |system.grades.value| < 3 {
      return false;
    }
    var grades := system.grades.value;
    var seenLabels: set<string> := {};
    for i := 0 to |grades|
      invariant RowsOk(grades[..i], scale)
      invariant LabelsDistinct(grades[..i])
      invariant seenLabels == SeenLabels(grades[..i])
    {
      RowsOkStep(grades, i, scale);
      var row := grades[i];
      if row.NotAnObject? {
        BadRowRejected(system, i);
        return false;
      }
      var gradeLabel := row.grade;
      var points := row.points;
      if points.None? {
        BadRowRejected(system, i);
        return false;
      }
      if points.value < 0.0 || points.value > scale + Tolerance {
        BadRowRejected(system, i);
        return false;
      }
      if gradeLabel.None? || !LooksLikeGradeLabel(gradeLabel.value) {
        BadRowRejected(system, i);
        return false;
      }
      SeenStep(grades, i);
      if gradeLabel.value in seenLabels {
        SeenLabelRejected(system, i);
        return false;
      }
      seenLabels := seenLabels + {gradeLabel.value};
    }
    assert grades[..|grades|] == grades;
    RowsOkAll(grades, scale);
    return true;
  }

  /**
   * What a valid system has: an allowed scale, at least three rows, and in every row
   * points in [0, scale + 1e-6] and a stripped label of 1 to 20 characters of a grade
   * shape, no raw label repeated.
   */
  lemma ValidIndianRows(s: System)
    requires ValidIndian(s)
    ensures s.scale.value in AllowedScales && |s.grades.value| >= 3
    ensures forall k :: 0 <= k < |s.grades.value| ==>
      var r := s.grades.value[k];
      && 0.0 <= r.points.value <= s.scale.value + Tolerance
      && 1 <= |Strip(r.grade.value)| <= 20
      && GradeLabelShape(Strip(r.grade.value))
  {
    forall k | 0 <= k < |s.grades.value| ensures GradeLabelShape(Strip(s.grades.value[k].grade.value)) {
      LooksLikeGradeLabelShape(s.grades.value[k].grade.value);
    }
  }

  /** A missing scale, or one outside the allowed set, is never accepted, whatever the rows. */
  lemma ScaleRejected(s: System)
    requires s.scale.None? || s.scale.value !in AllowedScales
    ensures !ValidIndian(s)
  {
  }

  /** A 3-point scale, for instance, is outside the allowed set. */
  lemma ScaleThreeRejected(s: System)
    requires s.scale == Some(3.0)
    ensures !ValidIndian(s)
  {
    assert 3.0 !in AllowedScales;
    ScaleRejected(s);
  }

  /** A row that fails one of the row tests makes the system invalid. */
  lemma BadRowRejected(s: System, i: nat)
    requires s.scale.Some? && s.grades.Some? && i < |s.grades.value|
    requires !RowOk(s.grades.value[i], s.scale.value)
    ensures !ValidIndian(s)
  {
  }

  /** Two rows with the same raw label make the system invalid. */
  lemma RepeatedLabelRejected(s: System, i: nat, j: nat)
    requires s.grades.Some? && i < j < |s.grades.value|
    requires s.grades.value[i].Row? && s.grades.value[j].Row?
    requires s.grades.value[i].grade.Some? && s.grades.value[i].grade == s.grades.value[j].grade
    ensures !ValidIndian(s)
  {
  }
}
