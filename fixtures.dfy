/**
 * Concrete cases of the pipeline: the version bump, the slug of a university name,
 * a merge into an empty catalog, and a table the plausibility filter rejects.
 */
module Fixtures {
  import opened Wrappers
  import opened Text
  import opened Patterns
  import opened Tables
  import opened Schema
  import opened Slug
  import opened Validator
  import opened Merger

  /** "1.0.3" becomes "1.0.4". */
  lemma BumpExample()
    ensures BumpVersion("1.0.3") == "1.0.4"
  {
    BumpVersionSpec("1.0.3");
    assert LastSegmentStart("1.0.3") == 4;
    assert "1.0.3"[4..] == "3";
    assert DigitsValue("3") == 3;
  }

  /** A last segment that is not a digit string leaves the version as it is. */
  lemma BumpUnparsedExample()
    ensures BumpVersion("2.0.beta") == "2.0.beta"
  {
    var v := "2.0.beta";
    assert LastSegmentStart("2.0.") == 4;
    assert LastSegmentStart("2.0.b") == 4 by { assert "2.0.b"[..4] == "2.0."; }
    assert LastSegmentStart("2.0.be") == 4 by { assert "2.0.be"[..5] == "2.0.b"; }
    assert LastSegmentStart("2.0.bet") == 4 by { assert "2.0.bet"[..6] == "2.0.be"; }
    assert LastSegmentStart(v) == 4 by { assert v[..7] == "2.0.bet"; }
    BumpVersionSpec(v);
    assert v[4..][0] == 'b';
  }

  /** A run of letters and digits is copied by the substitution. */
  lemma {:induction false} SubstKeepsAlnums(a: string, r: string)
    requires forall k :: 0 <= k < |a| ==> IsLowerAlnum(a[k])
    ensures Subst(a + r) == a + Subst(r)
  {
    if a != [] {
      SubstKeepsAlnums(a[1..], r);
      assert (a + r)[1..] == a[1..] + r;
    } else {
      assert a + r == r;
    }
  }

  lemma LowerExample()
    ensures Lower("Anna University") == "anna university"
  {
    var l := Lower("Anna University");
    var t := "anna university";
    assert LowerChar('A') == 'a' && LowerChar('U') == 'u';
    forall k | 0 <= k < |t| ensures l[k] == t[k] { }
  }

  /** Two words of letters and digits separated by one space become two words joined by '_'. */
  lemma SubstTwoWords(a: string, b: string)
    requires forall k :: 0 <= k < |a| ==> IsLowerAlnum(a[k])
    requires forall k :: 0 <= k < |b| ==> IsLowerAlnum(b[k])
    ensures Subst(a + (" " + b)) == a + ("_" + b)
  {
    SpaceThenWord(b);
    SubstKeepsAlnums(a, " " + b);
  }

  lemma SpaceThenWord(b: string)
    requires forall k :: 0 <= k < |b| ==> IsLowerAlnum(b[k])
    ensures Subst(" " + b) == "_" + b
  {
    SubstKeepsAlnums(b, []);
    assert b + [] == b;
    assert (" " + b)[1..] == b;
    assert SkipRun(" " + b) == b;
  }

  lemma SubstExample()
    ensures Subst("anna university") == "anna_university"
  {
    SubstTwoWords("anna", "university");
    assert "anna" + (" " + "university") == "anna university";
    assert "anna" + ("_" + "university") == "anna_university";
  }

  lemma StripExample()
    ensures StripUnderscores("anna_university") == "anna_university"
  {
  }

  /** The slug of "Anna University". */
  lemma SlugExample(name: string)
    requires name == "Anna University"
    ensures SlugOf(name) == "anna_university"
  {
    LowerExample();
    SubstExample();
    StripExample();
  }

  /** A four-row ten-point Indian system, as the crawler would normalize it. */
  predicate IsAnnaSystem(s: System) {
    s == System(Some("anna_university"), Some("Anna University"), Some("India"), Some("Tamil Nadu"),
                Some("Anna University grading system"), Some(10.0),
                Some([Row(Some("O"), Some(10.0), None), Row(Some("A+"), Some(9.0), None),
                      Row(Some("A"), Some(8.0), None), Row(Some("B+"), Some(7.0), None)]))
  }

  lemma AnnaValid(s: System)
    requires IsAnnaSystem(s)
    ensures ValidIndian(s)
  {
    var rows := s.grades.value;
    forall k | 0 <= k < |rows| ensures RowOk(rows[k], 10.0) {
      var l := rows[k].grade.value;
      assert Strip(l) == l;
    }
    assert LabelsDistinct(rows);
  }

  /**
   * Merging that system into a catalog at version "1.0.3" with no systems gives version
   * "1.0.4", that system alone, and the supplied date.
   */
  lemma MergeScenario(existing: Catalog, s: System, date: string)
    requires existing == Catalog(Some("1.0.3"), None, [], map[])
    requires IsAnnaSystem(s)
    ensures Merge(existing, [s], date) == Catalog(Some("1.0.4"), Some(date), [s], map[])
  {
    AnnaValid(s);
    BumpExample();
    OneIntoEmpty(s);
  }

  /** Upserting one system into the index of no systems lists that system alone. */
  lemma OneIntoEmpty(s: System)
    requires Upserted(s)
    ensures var d := Upsert(Index(Cleaned([])), [s]); ValuesOf(d.keys, d.entries) == [s]
  {
    assert Cleaned([]) == [];
    var d0 := IdIndex([], map[]);
    assert Index([]) == d0;
    UpsertOne(d0, s);
    var d := IdIndex([s.id], map[s.id := s]);
    assert Put(d0, s) == d;
    ValuesStep(d.keys, d.entries, 0);
    assert d.keys[..0] == [] && d.keys[..1] == d.keys;
  }

  lemma UpsertOne(d: IdIndex, s: System)
    requires Upserted(s)
    ensures Upsert(d, [s]) == Put(d, s)
  {
    assert [s][..0] == [];
  }

  lemma NumberExample(c: string)
    requires c == "89"
    ensures FirstNumber(c) == Some(89.0)
  {
    assert DigitRun(c, 2) == 0;
    assert DigitRun(c, 1) == 1;
    assert DigitRun(c, 0) == 2;
    assert c[0..2] == c && c[..1] == "8" && c[1] == '9';
    assert DigitsValue("8") == 8;
    assert DigitsValue(c) == 89;
  }

  lemma GradeExample(cells: seq<string>)
    requires cells == ["C", "89"]
    ensures GradeOfRow(cells).Some? && GradeOfRow(cells).value.points == 89.0
  {
    NumberExample(cells[1]);
    assert cells[1..] == ["89"];
  }

  /**
   * Points 12, 45, 67 and 89 under a token guess of 10: the grades are read, but the
   * plausibility filter rejects the table.
   */
  lemma ImplausibleScenario(t: Table)
    requires t.rows == [["O", "12"], ["A", "45"], ["B", "67"], ["C", "89"]]
    requires GuessScale(t.tokens) == Some(10.0)
    ensures ParseTable(t) == None
  {
    var rows := t.rows;
    DataRowsKeepAll(rows);
    GradeExample(rows[3]);
    var g := GradeOfRow(rows[3]);
    var grades := GradesOf(rows);
    assert grades == GradesOf(rows[..3]) + [g.value];
    assert grades[|grades| - 1].points > 10.0;
  }

  /** Two upserts into an empty index, in order. */
  lemma UpsertTwo(a: System, b: System)
    requires Upserted(a) && Upserted(b)
    ensures Upsert(Index([]), [a, b]) == Put(Put(IdIndex([], map[]), a), b)
  {
    var d := IdIndex([], map[]);
    assert Index([]) == d;
    UpsertOne(d, a);
    assert [a, b][..1] == [a];
  }

  /** Merging two systems with the same id into a catalog without systems keeps one entry, the later. */
  lemma MergeSameIdTwice(existing: Catalog, first: System, second: System, date: string)
    requires existing.systems == [] && Upserted(first) && Upserted(second) && first.id == second.id
    ensures Merge(existing, [first, second], date).systems == [second]
  {
    assert Cleaned([]) == [];
    UpsertTwo(first, second);
    var d := Put(Put(IdIndex([], map[]), first), second);
    assert d.keys == [first.id] && d.entries[first.id] == second;
    ValuesStep(d.keys, d.entries, 0);
    assert d.keys[..0] == [] && d.keys[..1] == d.keys;
  }

  /**
   * Merging two systems with different ids lists them in the order they came: the
   * list of systems depends on the order of the input, only its content does not.
   */
  lemma MergeOrderShows(existing: Catalog, a: System, b: System, date: string)
    requires existing.systems == [] && Upserted(a) && Upserted(b) && a.id != b.id
    ensures Merge(existing, [a, b], date).systems == [a, b]
    ensures Merge(existing, [b, a], date).systems == [b, a]
  {
    assert Cleaned([]) == [];
    MergeTwoDistinct(a, b);
    MergeTwoDistinct(b, a);
  }

  lemma MergeTwoDistinct(a: System, b: System)
    requires Upserted(a) && Upserted(b) && a.id != b.id
    ensures var d := Upsert(Index([]), [a, b]); ValuesOf(d.keys, d.entries) == [a, b]
  {
    UpsertTwo(a, b);
    PutTwo(a, b);
    ValuesTwo(a, b);
  }

  lemma PutTwo(a: System, b: System)
    requires a.id != b.id
    ensures Put(Put(IdIndex([], map[]), a), b) == IdIndex([a.id, b.id], map[a.id := a][b.id := b])
  {
    var one := IdIndex([a.id], map[a.id := a]);
    assert Put(IdIndex([], map[]), a) == one;
    assert b.id !in one.entries;
  }

  lemma ValuesTwo(a: System, b: System)
    requires a.id != b.id
    ensures ValuesOf([a.id, b.id], map[a.id := a][b.id := b]) == [a, b]
  {
    var keys := [a.id, b.id];
    var entries := map[a.id := a][b.id := b];
    assert entries[a.id] == a && entries[b.id] == b;
    ValuesStep(keys, entries, 0);
    ValuesStep(keys, entries, 1);
    assert keys[..0] == [] && keys[..2] == keys;
  }
}
