/**
 * The table interpreter (try_parse_grading_table): pick the tables whose header
 * names a grading column, read (label, points, percentage) rows out of them,
 * infer the scale, reject implausible tables, and return the first table that
 * survives.  A table is given pre-extracted: the texts of its `th` cells,
 * the `td` texts of each of its `tr` rows, and the text of each of its elements.
 */
module Tables {
  import opened Wrappers
  import opened Text
  import opened Patterns

  datatype Table = Table(headers: seq<string>, rows: seq<seq<string>>, tokens: seq<string>)

  /** A grade dictionary: "grade", "points", and "percentage" when a range was found. */
  datatype Grade = Grade(name: string, points: real, percentage: Option<string>)

  /** What a successful parse returns: the scale and the grades. */
  datatype Parsed = Parsed(scale: real, grades: seq<Grade>)

  const HeaderKeywords: seq<string> := ["grade", "letter", "points", "credit", "percentage", "marks"]

  /** Line 91: the `th` texts joined by single spaces. */
  function HeaderText(t: Table): string {
    Join(" ", t.headers)
  }

  /** Lines 92-95: a non-empty header text that names a grading column. */
  predicate IsCandidate(t: Table) {
    HeaderText(t) != [] && ContainsAny(Lower(HeaderText(t)), HeaderKeywords)
  }

  // ---------------------------------------------------------------------------
  // One row
  // ---------------------------------------------------------------------------

  /** Lines 114-122: the number of the first cell that holds one. */
  function PointsOf(cells: seq<string>): Option<real> {
    if cells == [] then None
    else if FirstNumber(cells[0]).Some? then FirstNumber(cells[0])
    else PointsOf(cells[1..])
  }

  /** Lines 124-127: the first cell holding a range, with all whitespace removed. */
  function PercentageOf(cells: seq<string>): Option<string> {
    if cells == [] then None
    else if HasRange(cells[0]) then Some(RemoveSpaces(cells[0]))
    else PercentageOf(cells[1..])
  }

  /** The points are None exactly when no cell holds a number. */
  lemma {:induction false} PointsOfNone(cells: seq<string>)
    ensures PointsOf(cells).None? <==> forall k :: 0 <= k < |cells| ==> FirstNumber(cells[k]).None?
  {
    if cells != [] && FirstNumber(cells[0]).None? {
      PointsOfNone(cells[1..]);
      assert forall k :: 0 <= k < |cells| - 1 ==> cells[1..][k] == cells[k + 1];
    }
  }

  /** Otherwise they are those of the first cell holding a number, at index `k`. */
  lemma {:induction false} PointsOfFirst(cells: seq<string>) returns (k: nat)
    ensures PointsOf(cells).Some? ==> k < |cells| && FirstNumber(cells[k]) == PointsOf(cells)
    ensures PointsOf(cells).Some? ==> forall m :: 0 <= m < k ==> FirstNumber(cells[m]).None?
  {
    k := 0;
    if cells != [] && FirstNumber(cells[0]).None? {
      var t := cells[1..];
      var j := PointsOfFirst(t);
      k := j + 1;
      if PointsOf(cells).Some? {
        assert cells[k] == t[j];
        assert forall m :: 1 <= m < k ==> cells[m] == t[m - 1];
      }
    }
  }

  /** The percentage is None exactly when no cell holds a range. */
  lemma {:induction false} PercentageOfNone(cells: seq<string>)
    ensures PercentageOf(cells).None? <==> forall k :: 0 <= k < |cells| ==> !HasRange(cells[k])
  {
    if cells != [] && !HasRange(cells[0]) {
      PercentageOfNone(cells[1..]);
      assert forall k :: 0 <= k < |cells| - 1 ==> cells[1..][k] == cells[k + 1];
    }
  }

  /** Otherwise it is the first cell holding a range, at index `k`, whitespace removed. */
  lemma {:induction false} PercentageOfFirst(cells: seq<string>) returns (k: nat)
    ensures PercentageOf(cells).Some? ==> k < |cells| && HasRange(cells[k]) && PercentageOf(cells).value == RemoveSpaces(cells[k])
    ensures PercentageOf(cells).Some? ==> forall m :: 0 <= m < k ==> !HasRange(cells[m])
  {
    k := 0;
    if cells != [] && !HasRange(cells[0]) {
      var t := cells[1..];
      var j := PercentageOfFirst(t);
      k := j + 1;
      if PercentageOf(cells).Some? {
        assert cells[k] == t[j];
        assert forall m :: 1 <= m < k ==> cells[m] == t[m - 1];
      }
    }
  }

  /** Lines 110-130: a row of at least two cells gives a grade when it has a label and a number. */
  function GradeOfRow(cells: seq<string>): Option<Grade>
    requires |cells| >= 2
  {
    var points := PointsOf(cells[1..]);
    if cells[0] == [] || points.None? then None
    else Some(Grade(cells[0], points.value, PercentageOf(cells[1..])))
  }

  lemma PointsOfStep(cells: seq<string>, k: nat)
    requires k < |cells|
    ensures PointsOf(cells[k..]) == if FirstNumber(cells[k]).Some? then FirstNumber(cells[k]) else PointsOf(cells[k + 1..])
  {
    assert cells[k..][1..] == cells[k + 1..];
  }

  lemma PercentageOfStep(cells: seq<string>, k: nat)
    requires k < |cells|
    ensures PercentageOf(cells[k..]) == if HasRange(cells[k]) then Some(RemoveSpaces(cells[k])) else PercentageOf(cells[k + 1..])
  {
    assert cells[k..][1..] == cells[k + 1..];
  }

  /** The row loop for one `tr`: the two cell scans of lines 114-127. */
  method ParseRow(cells: seq<string>) returns (g: Option<Grade>)
    requires |cells| >= 2
    ensures g == GradeOfRow(cells)
  {
    var gradeLabel := cells[0];
    var rest := cells[1..];
    var points: Option<real> := None;
    var percentage: Option<string> := None;
    for k := 0 to |rest|
      invariant points.None? ==> PointsOf(rest) == PointsOf(rest[k..])
      invariant points.Some? ==> PointsOf(rest) == points
    {
      if points.None? {
        PointsOfStep(rest, k);
        var m := FirstNumber(rest[k]);
        if m.Some? {
          points := m;
        }
      }
    }
    for k := 0 to |rest|
      invariant percentage.None? ==> PercentageOf(rest) == PercentageOf(rest[k..])
      invariant percentage.Some? ==> PercentageOf(rest) == percentage
    {
      if percentage.None? {
        PercentageOfStep(rest, k);
        if HasRange(rest[k]) {
          percentage := Some(RemoveSpaces(rest[k]));
        }
      }
    }
    if gradeLabel == [] || points.None? {
      return None;
    }
    g := Some(Grade(gradeLabel, points.value, percentage));
  }

  // ---------------------------------------------------------------------------
  // One table
  // ---------------------------------------------------------------------------

  /** Lines 98-102: the rows of at least two `td` cells. */
  function DataRows(rows: seq<seq<string>>): (r: seq<seq<string>>)
    ensures forall k :: 0 <= k < |r| ==> |r[k]| >= 2
  {
    if rows == [] then []
    else DataRows(rows[..|rows| - 1]) + (if |rows[|rows| - 1]| >= 2 then [rows[|rows| - 1]] else [])
  }

  /** Lines 109-130: the grades of the data rows, in order. */
  function GradesOf(rows: seq<seq<string>>): seq<Grade>
    requires forall k :: 0 <= k < |rows| ==> |rows[k]| >= 2
  {
    if rows == [] then []
    else
      GradesOf(rows[..|rows| - 1])
      + (match GradeOfRow(rows[|rows| - 1]) case Some(g) => [g] case None => [])
  }

  /** Line 134: the largest points value. */
  function MaxPoints(grades: seq<Grade>): (m: real)
    requires grades != []
    ensures forall k :: 0 <= k < |grades| ==> grades[k].points <= m
    ensures exists k :: 0 <= k < |grades| && grades[k].points == m
  {
    if |grades| == 1 then grades[0].points
    else
      var m := MaxPoints(grades[1..]);
      assert forall k :: 1 <= k < |grades| ==> grades[k] == grades[1..][k - 1];
      if grades[0].points >= m then grades[0].points else m
  }

  /** Line 136: the token guess, or else the largest points value. */
  function ScaleOf(t: Table, grades: seq<Grade>): real
    requires grades != []
  {
    match GuessScale(t.tokens)
    case Some(s) => s
    case None => MaxPoints(grades)
  }

  /** Line 140: some points exceed 10 while the scale is at most 10. */
  predicate Implausible(grades: seq<Grade>, scale: real) {
    (exists k :: 0 <= k < |grades| && grades[k].points > 10.0) && scale <= 10.0
  }

  /** Lines 97-143 for one candidate table. */
  function ParseTable(t: Table): Option<Parsed> {
    var rows := DataRows(t.rows);
    if |rows| < 2 then None
    else
      var grades := GradesOf(rows);
      if grades == [] then None
      else
        var scale := ScaleOf(t, grades);
        if Implausible(grades, scale) then None else Some(Parsed(scale, grades))
  }

  /** Lines 89-95: the candidate tables, in document order. */
  function CandidateTables(tables: seq<Table>): (r: seq<Table>)
    ensures forall k :: 0 <= k < |r| ==> IsCandidate(r[k])
  {
    if tables == [] then []
    else
      CandidateTables(tables[..|tables| - 1])
      + (if IsCandidate(tables[|tables| - 1]) then [tables[|tables| - 1]] else [])
  }

  /** Lines 96-144: the first candidate that parses. */
  function FirstParse(candidates: seq<Table>): Option<Parsed> {
    if candidates == [] then None
    else if ParseTable(candidates[0]).Some? then ParseTable(candidates[0])
    else FirstParse(candidates[1..])
  }

  /** try_parse_grading_table on a page's tables. */
  function ParseTables(tables: seq<Table>): Option<Parsed> {
    FirstParse(CandidateTables(tables))
  }

  lemma DataRowsStep(rows: seq<seq<string>>, i: nat)
    requires i < |rows|
    ensures DataRows(rows[..i + 1]) == DataRows(rows[..i]) + (if |rows[i]| >= 2 then [rows[i]] else [])
  {
    assert rows[..i + 1][..i] == rows[..i];
  }

  lemma GradesStep(rows: seq<seq<string>>, i: nat)
    requires i < |rows| && forall k :: 0 <= k < |rows| ==> |rows[k]| >= 2
    ensures GradesOf(rows[..i + 1]) == GradesOf(rows[..i])
      + (match GradeOfRow(rows[i]) case Some(g) => [g] case None => [])
  {
    assert rows[..i + 1][..i] == rows[..i];
  }

  lemma CandidatesStep(tables: seq<Table>, i: nat)
    requires i < |tables|
    ensures CandidateTables(tables[..i + 1]) == CandidateTables(tables[..i]) + (if IsCandidate(tables[i]) then [tables[i]] else [])
  {
    assert tables[..i + 1][..i] == tables[..i];
  }

  /** The body of the outer `for table in candidate_tables` loop, for one table. */
  method ParseCandidate(t: Table) returns (r: Option<Parsed>)
    ensures r == ParseTable(t)
  {
    var rows: seq<seq<string>> := [];
    for i := 0 to |t.rows|
      invariant rows == DataRows(t.rows[..i])
    {
      DataRowsStep(t.rows, i);
      var cells := t.rows[i];
      if |cells| < 2 {
        continue;
      }
      rows := rows + [cells];
    }
    assert t.rows[..|t.rows|] == t.rows;
    if |rows| < 2 {
      return None;
    }
    var grades: seq<Grade> := [];
    for i := 0 to |rows|
      invariant grades == GradesOf(rows[..i])
    {
      GradesStep(rows, i);
      var g := ParseRow(rows[i]);
      if g.None? {
        continue;
      }
      grades := grades + [g.value];
    }
    assert rows[..|rows|] == rows;
    if grades == [] {
      return None;
    }
    var scaleGuess := ScaleOf(t, grades);
    if Implausible(grades, scaleGuess) {
      return None;
    }
    r := Some(Parsed(scaleGuess, grades));
  }

  /** try_parse_grading_table: collect the candidate tables, then return the first that parses. */
  method TryParseGradingTable(tables: seq<Table>) returns (r: Option<Parsed>)
    ensures r == ParseTables(tables)
  {
    var candidateTables: seq<Table> := [];
    for i := 0 to |tables|
      invariant candidateTables == CandidateTables(tables[..i])
    {
      CandidatesStep(tables, i);
      var headerText := Join(" ", tables[i].headers);
      if headerText == [] {
        continue;
      }
      if ContainsAny(Lower(headerText), HeaderKeywords) {
        candidateTables := candidateTables + [tables[i]];
      }
    }
    assert tables[..|tables|] == tables;
    for i := 0 to |candidateTables|
      invariant FirstParse(candidateTables) == FirstParse(candidateTables[i..])
    {
      assert candidateTables[i..][1..] == candidateTables[i + 1..];
      var parsed := ParseCandidate(candidateTables[i]);
      if parsed.Some? {
        return parsed;
      }
    }
    return None;
  }

  // ---------------------------------------------------------------------------
  // What the interpreter promises
  // ---------------------------------------------------------------------------

  /** Every grade comes from a data row of at least two cells, in which it is the row's reading. */
  lemma {:induction false} GradesFromRows(rows: seq<seq<string>>)
    requires forall k :: 0 <= k < |rows| ==> |rows[k]| >= 2
    ensures forall g :: g in GradesOf(rows) ==> exists k :: 0 <= k < |rows| && GradeOfRow(rows[k]) == Some(g)
  {
    if rows != [] {
      var init := rows[..|rows| - 1];
      GradesFromRows(init);
      forall g | g in GradesOf(rows) ensures exists k :: 0 <= k < |rows| && GradeOfRow(rows[k]) == Some(g) {
        if g in GradesOf(init) {
          var k :| 0 <= k < |init| && GradeOfRow(init[k]) == Some(g);
          assert rows[k] == init[k];
        } else {
          assert GradeOfRow(rows[|rows| - 1]) == Some(g);
        }
      }
    }
  }

  /** Every data row that has a label and a number gives its grade. */
  lemma {:induction false} RowsGiveGrades(rows: seq<seq<string>>, k: nat)
    requires forall j :: 0 <= j < |rows| ==> |rows[j]| >= 2
    requires k < |rows| && GradeOfRow(rows[k]).Some?
    ensures GradeOfRow(rows[k]).value in GradesOf(rows)
  {
    if k < |rows| - 1 {
      RowsGiveGrades(rows[..|rows| - 1], k);
    }
  }

  /** The data rows are exactly the rows of the table with at least two cells. */
  lemma {:induction false} DataRowsFromRows(rows: seq<seq<string>>)
    ensures forall r :: r in DataRows(rows) ==> r in rows && |r| >= 2
    ensures forall r :: r in rows && |r| >= 2 ==> r in DataRows(rows)
  {
    if rows != [] {
      var init := rows[..|rows| - 1];
      DataRowsFromRows(init);
      assert rows == init + [rows[|rows| - 1]];
    }
  }

  /** When every row has two or more cells, every row is a data row. */
  lemma {:induction false} DataRowsKeepAll(rows: seq<seq<string>>)
    requires forall k :: 0 <= k < |rows| ==> |rows[k]| >= 2
    ensures DataRows(rows) == rows
  {
    if rows != [] {
      var init := rows[..|rows| - 1];
      assert forall k :: 0 <= k < |init| ==> init[k] == rows[k];
      DataRowsKeepAll(init);
      assert init + [rows[|rows| - 1]] == rows;
    }
  }

  /** A grade's label is non-empty, its points are not negative, and a percentage is whitespace-free and non-empty. */
  lemma GradeOfRowShape(cells: seq<string>)
    requires |cells| >= 2 && GradeOfRow(cells).Some?
    ensures var g := GradeOfRow(cells).value;
      && g.name == cells[0] && g.name != []
      && g.points >= 0.0
      && (exists k :: 1 <= k < |cells| && FirstNumber(cells[k]) == Some(g.points))
      && (g.percentage.Some? <==> exists k :: 1 <= k < |cells| && HasRange(cells[k]))
      && (g.percentage.Some? ==> g.percentage.value != [] && forall m :: 0 <= m < |g.percentage.value| ==> !IsSpace(g.percentage.value[m]))
  {
    GradeOfRowPoints(cells);
    GradeOfRowPercentage(cells);
  }

  lemma GradeOfRowPoints(cells: seq<string>)
    requires |cells| >= 2 && GradeOfRow(cells).Some?
    ensures var g := GradeOfRow(cells).value;
      && g.name == cells[0] && g.name != []
      && g.points >= 0.0
      && (exists k :: 1 <= k < |cells| && FirstNumber(cells[k]) == Some(g.points))
  {
    var rest := cells[1..];
    var k := PointsOfFirst(rest);
    assert cells[k + 1] == rest[k];
  }

  lemma GradeOfRowPercentage(cells: seq<string>)
    requires |cells| >= 2 && GradeOfRow(cells).Some?
    ensures var g := GradeOfRow(cells).value;
      && (g.percentage.Some? <==> exists k :: 1 <= k < |cells| && HasRange(cells[k]))
      && (g.percentage.Some? ==> g.percentage.value != [] && forall m :: 0 <= m < |g.percentage.value| ==> !IsSpace(g.percentage.value[m]))
  {
    var rest := cells[1..];
    var p := PercentageOf(rest);
    assert GradeOfRow(cells).value.percentage == p;
    if p.Some? {
      var j := PercentageOfFirst(rest);
      assert cells[j + 1] == rest[j];
      var i :| 0 <= i < |rest[j]| && RangeAt(rest[j], i);
      RemoveSpacesKeepsDigit(rest[j], i);
    } else {
      PercentageOfNone(rest);
      forall j | 1 <= j < |cells| ensures !HasRange(cells[j]) {
        assert cells[j] == rest[j - 1];
      }
    }
  }

  lemma {:induction false} RemoveSpacesKeepsDigit(s: string, i: nat)
    requires i < |s| && IsDigit(s[i])
    ensures RemoveSpaces(s) != []
  {
    if i > 0 && IsSpace(s[0]) {
      RemoveSpacesKeepsDigit(s[1..], i - 1);
    }
  }

  /**
   * What a successful parse of one table promises: at least two data rows, non-empty
   * grades that each come from a data row, every data row with a label and a number
   * giving its grade, the scale is the token guess or else the largest points, and no
   * points above 10 under a scale of at most 10.
   */
  lemma ParseTableSound(t: Table)
    requires ParseTable(t).Some?
    ensures var p := ParseTable(t).value;
      && |DataRows(t.rows)| >= 2
      && p.grades != []
      && (forall g :: g in p.grades ==> exists r :: r in t.rows && |r| >= 2 && GradeOfRow(r) == Some(g))
      && (forall r :: r in t.rows && |r| >= 2 && GradeOfRow(r).Some? ==> GradeOfRow(r).value in p.grades)
      && (forall g :: g in p.grades ==> g.name != [] && g.points >= 0.0)
      && (GuessScale(t.tokens).Some? ==> p.scale == GuessScale(t.tokens).value)
      && (GuessScale(t.tokens).None? ==> p.scale == MaxPoints(p.grades))
      && !(exists k :: 0 <= k < |p.grades| && p.grades[k].points > 10.0 && p.scale <= 10.0)
  {
    var rows := DataRows(t.rows);
    var p := ParseTable(t).value;
    GradesFromRows(rows);
    DataRowsFromRows(t.rows);
    forall g | g in p.grades ensures g.name != [] && g.points >= 0.0 {
      var k :| 0 <= k < |rows| && GradeOfRow(rows[k]) == Some(g);
      GradeOfRowShape(rows[k]);
    }
    forall g | g in p.grades ensures exists r :: r in t.rows && |r| >= 2 && GradeOfRow(r) == Some(g) {
      var k :| 0 <= k < |rows| && GradeOfRow(rows[k]) == Some(g);
      assert rows[k] in rows;
    }
    forall r | r in t.rows && |r| >= 2 && GradeOfRow(r).Some? ensures GradeOfRow(r).value in p.grades {
      var k :| 0 <= k < |rows| && rows[k] == r;
      RowsGiveGrades(rows, k);
    }
  }

  /**
   * Table selection: only candidate tables are tried, in document order; the result is
   * the parse of the first candidate that parses, and None exactly when none does.
   */
  lemma {:induction false} FirstParseSpec(cs: seq<Table>)
    ensures FirstParse(cs).None? <==> forall k :: 0 <= k < |cs| ==> ParseTable(cs[k]).None?
    ensures FirstParse(cs).Some? ==> exists k :: (0 <= k < |cs| && ParseTable(cs[k]) == FirstParse(cs)
                                                  && forall m :: 0 <= m < k ==> ParseTable(cs[m]).None?)
  {
    if cs != [] && ParseTable(cs[0]).None? {
      FirstParseSpec(cs[1..]);
      assert forall k :: 1 <= k < |cs| ==> cs[k] == cs[1..][k - 1];
      if FirstParse(cs).Some? {
        var k :| 0 <= k < |cs[1..]| && ParseTable(cs[1..][k]) == FirstParse(cs[1..])
          && forall m :: 0 <= m < k ==> ParseTable(cs[1..][m]).None?;
        assert ParseTable(cs[k + 1]) == FirstParse(cs);
      }
    }
  }

  lemma {:induction false} CandidateTablesFrom(tables: seq<Table>)
    ensures forall t :: t in CandidateTables(tables) ==> t in tables
    ensures forall t :: t in tables && IsCandidate(t) ==> t in CandidateTables(tables)
  {
    if tables != [] {
      CandidateTablesFrom(tables[..|tables| - 1]);
      assert tables == tables[..|tables| - 1] + [tables[|tables| - 1]];
    }
  }

  /** The interpreter returns None exactly when no candidate table parses; a result is some candidate's parse. */
  lemma ParseTablesSpec(tables: seq<Table>)
    ensures ParseTables(tables).None? <==> forall t :: t in tables && IsCandidate(t) ==> ParseTable(t).None?
    ensures ParseTables(tables).Some? ==> exists t :: t in tables && IsCandidate(t) && ParseTable(t) == ParseTables(tables)
  {
    var cs := CandidateTables(tables);
    FirstParseSpec(cs);
    CandidateTablesFrom(tables);
    if ParseTables(tables).Some? {
      var k :| 0 <= k < |cs| && ParseTable(cs[k]) == FirstParse(cs);
      assert cs[k] in cs;
    } else {
      forall t | t in tables && IsCandidate(t) ensures ParseTable(t).None? {
        var k :| 0 <= k < |cs| && cs[k] == t;
      }
    }
  }

  /** A table without a non-empty grading header is never what the interpreter returns. */
  lemma {:induction false} NoHeaderNoParse(tables: seq<Table>)
    requires forall k :: 0 <= k < |tables| ==> !IsCandidate(tables[k])
    ensures CandidateTables(tables) == []
    ensures ParseTables(tables) == None
  {
    if tables != [] {
      NoHeaderNoParse(tables[..|tables| - 1]);
    }
  }
}
