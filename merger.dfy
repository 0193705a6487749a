/**
 * merge_into_existing: fold newly crawled systems into the catalog.  Invalid
 * "India" entries are dropped, the systems are keyed by id in a dictionary that
 * keeps first-insertion order, new systems are upserted by id, the last version
 * segment is bumped, and the date is stamped.
 */
module Merger {
  import opened Wrappers
  import opened Text
  import opened Schema
  import opened Validator
  import opened UniqueBy

  const India := "India"

  /** An entry survives cleaning unless it is an "India" system that fails validation. */
  predicate Kept(s: System) {
    s.country == Some(India) ==> ValidIndian(s)
  }

  /** Lines 334-339: the existing systems that survive cleaning, in order. */
  function Cleaned(systems: seq<System>): seq<System> {
    if systems == [] then []
    else Cleaned(systems[..|systems| - 1]) + (if Kept(systems[|systems| - 1]) then [systems[|systems| - 1]] else [])
  }

  /** Lines 342-347: a new system is upserted when its id is a non-empty string and it survives cleaning. */
  predicate Upserted(s: System) {
    s.id.Some? && s.id.value != [] && Kept(s)
  }

  // ---------------------------------------------------------------------------
  // The by_id dictionary: keys in first-insertion order, and the entry of each key
  // ---------------------------------------------------------------------------

  datatype IdIndex = IdIndex(keys: seq<Option<string>>, entries: map<Option<string>, System>)

  /** Keys are distinct, they are exactly the keys of the entries, and each entry carries its key as id. */
  predicate WellKeyed(d: IdIndex) {
    && NoDuplicates(d.keys)
    && (forall k :: k in d.entries ==> k in d.keys)
    && (forall k :: k in d.keys ==> k in d.entries)
    && (forall k :: k in d.entries ==> d.entries[k].id == k)
  }

  /**
   * `by_id[s["id"]] = s`: the entry of the id becomes `s`, a new id is appended to the
   * key order, an existing one keeps its place, and every other entry is unchanged.
   */
  function Put(d: IdIndex, s: System): (r: IdIndex)
    ensures WellKeyed(d) ==> WellKeyed(r)
    ensures |d.keys| <= |r.keys| && r.keys[..|d.keys|] == d.keys
    ensures s.id in d.entries ==> r.keys == d.keys
    ensures s.id !in d.entries ==> r.keys == d.keys + [s.id]
    ensures s.id in r.entries && r.entries[s.id] == s
    ensures forall k :: k in d.entries && k != s.id ==> k in r.entries && r.entries[k] == d.entries[k]
  {
    if s.id in d.entries then IdIndex(d.keys, d.entries[s.id := s])
    else IdIndex(d.keys + [s.id], d.entries[s.id := s])
  }

  /** Line 340: `{s.get("id"): s for s in systems}`. */
  function Index(systems: seq<System>): (d: IdIndex)
    ensures WellKeyed(d)
  {
    if systems == [] then IdIndex([], map[])
    else Put(Index(systems[..|systems| - 1]), systems[|systems| - 1])
  }

  /** Lines 341-348: the upsert loop over the new systems. */
  function Upsert(d: IdIndex, news: seq<System>): (r: IdIndex)
    ensures WellKeyed(d) ==> WellKeyed(r)
  {
    if news == [] then d
    else
      var r := Upsert(d, news[..|news| - 1]);
      if Upserted(news[|news| - 1]) then Put(r, news[|news| - 1]) else r
  }

  /** Line 350: `list(by_id.values())`, in key order. */
  function ValuesOf(keys: seq<Option<string>>, entries: map<Option<string>, System>): seq<System>
    requires forall k :: k in keys ==> k in entries
  {
    if keys == [] then []
    else ValuesOf(keys[..|keys| - 1], entries) + [entries[keys[|keys| - 1]]]
  }

  // ---------------------------------------------------------------------------
  // The version bump (lines 352-358)
  // ---------------------------------------------------------------------------

  /** The start of the last dot-separated segment: just after the last '.', or 0. */
  function LastSegmentStart(s: string): (p: nat)
    ensures p <= |s|
    ensures p > 0 ==> s[p - 1] == '.'
  {
    if s == [] then 0
    else if s[|s| - 1] == '.' then |s|
    else LastSegmentStart(s[..|s| - 1])
  }

  /** No '.' follows the start of the last segment. */
  lemma {:induction false} LastSegmentHasNoDot(s: string)
    ensures forall i :: LastSegmentStart(s) <= i < |s| ==> s[i] != '.'
  {
    if s != [] && s[|s| - 1] != '.' {
      var t := s[..|s| - 1];
      LastSegmentHasNoDot(t);
      assert forall i :: 0 <= i < |t| ==> t[i] == s[i];
    }
  }

  /** `s.split(".")`: the parts before the last '.', then the last segment. */
  function Split(s: string): (parts: seq<string>)
    ensures |parts| >= 1
    decreases |s|
  {
    var p := LastSegmentStart(s);
    if p == 0 then [s] else Split(s[..p - 1]) + [s[p..]]
  }

  /** Joining the split parts gives the string back. */
  lemma {:induction false} JoinSplit(s: string)
    ensures Join(".", Split(s)) == s
    decreases |s|
  {
    var p := LastSegmentStart(s);
    if p > 0 {
      var t := s[..p - 1];
      JoinSplit(t);
      JoinAppend(Split(t), s[p..]);
      assert t + "." + s[p..] == s;
    }
  }

  /**
   * The last part of the split is the last segment, and joining the parts with the last
   * one replaced by `x` gives the string up to the last segment followed by `x`.
   */
  lemma SplitLast(s: string, x: string)
    ensures Split(s)[|Split(s)| - 1] == s[LastSegmentStart(s)..]
    ensures Join(".", Split(s)[..|Split(s)| - 1] + [x]) == s[..LastSegmentStart(s)] + x
  {
    if LastSegmentStart(s) > 0 {
      SplitLastAfterDot(s, x);
    } else {
      assert Split(s) == [s];
      assert Split(s)[..0] + [x] == [x];
    }
  }

  lemma SplitLastAfterDot(s: string, x: string)
    requires LastSegmentStart(s) > 0
    ensures Split(s)[|Split(s)| - 1] == s[LastSegmentStart(s)..]
    ensures Join(".", Split(s)[..|Split(s)| - 1] + [x]) == s[..LastSegmentStart(s)] + x
  {
    var p := LastSegmentStart(s);
    var t := s[..p - 1];
    var parts := Split(t);
    assert Split(s) == parts + [s[p..]];
    assert Split(s)[..|Split(s)| - 1] == parts;
    JoinSplit(t);
    JoinAfter(parts, t, x);
    assert t + "." == s[..p];
  }

  lemma JoinAfter(parts: seq<string>, t: string, x: string)
    requires parts != [] && Join(".", parts) == t
    ensures Join(".", parts + [x]) == t + "." + x
  {
    JoinAppend(parts, x);
  }

  lemma {:induction false} JoinAppend(parts: seq<string>, x: string)
    requires parts != []
    ensures Join(".", parts + [x]) == Join(".", parts) + "." + x
  {
    if |parts| > 1 {
      JoinAppend(parts[1..], x);
      assert (parts + [x])[1..] == parts[1..] + [x];
    }
  }

  /** `str(int(parts[-1]) + 1)` replaces the last part when it is a non-empty digit string; otherwise the version is kept. */
  function BumpVersion(version: string): string {
    var parts := Split(version);
    var last := parts[|parts| - 1];
    if last != [] && AllDigits(last) then Join(".", parts[..|parts| - 1] + [NatToString(DigitsValue(last) + 1)])
    else version
  }

  /**
   * The bump in terms of the version itself: a non-empty all-digit last segment is
   * replaced by the decimal form of its value plus one, and everything before it is
   * kept; any other version is returned unchanged.
   */
  lemma BumpVersionSpec(version: string)
    ensures var p := LastSegmentStart(version);
      var seg := version[p..];
      if seg != [] && AllDigits(seg) then BumpVersion(version) == version[..p] + NatToString(DigitsValue(seg) + 1)
      else BumpVersion(version) == version
  {
    var p := LastSegmentStart(version);
    var seg := version[p..];
    var parts := Split(version);
    assert parts[|parts| - 1] == seg by {
      SplitLast(version, seg);
    }
    if seg != [] && AllDigits(seg) {
      var n := NatToString(DigitsValue(seg) + 1);
      assert Join(".", parts[..|parts| - 1] + [n]) == version[..p] + n by {
        SplitLast(version, n);
      }
    }
  }

  /** Line 352: a missing version reads as "1.0.0". */
  function VersionOf(c: Catalog): string {
    match c.version
    case Some(v) => v
    case None => "1.0.0"
  }

  // ---------------------------------------------------------------------------
  // The merge
  // ---------------------------------------------------------------------------

  /** The merged catalog: lines 332-361, with the date supplied by the caller. */
  function Merge(existing: Catalog, newSystems: seq<System>, date: string): Catalog {
    var d := Upsert(Index(Cleaned(existing.systems)), newSystems);
    Catalog(Some(BumpVersion(VersionOf(existing))), Some(date), ValuesOf(d.keys, d.entries), existing.others)
  }

  lemma CleanedStep(systems: seq<System>, i: nat)
    requires i < |systems|
    ensures Cleaned(systems[..i + 1]) == Cleaned(systems[..i]) + (if Kept(systems[i]) then [systems[i]] else [])
  {
    assert systems[..i + 1][..i] == systems[..i];
  }

  lemma IndexStep(systems: seq<System>, i: nat)
    requires i < |systems|
    ensures Index(systems[..i + 1]) == Put(Index(systems[..i]), systems[i])
  {
    assert systems[..i + 1][..i] == systems[..i];
  }

  lemma UpsertStep(d: IdIndex, news: seq<System>, i: nat)
    requires i < |news|
    ensures Upsert(d, news[..i + 1]) == if Upserted(news[i]) then Put(Upsert(d, news[..i]), news[i]) else Upsert(d, news[..i])
  {
    assert news[..i + 1][..i] == news[..i];
  }

  lemma ValuesStep(keys: seq<Option<string>>, entries: map<Option<string>, System>, i: nat)
    requires i < |keys| && forall k :: k in keys ==> k in entries
    ensures ValuesOf(keys[..i + 1], entries) == ValuesOf(keys[..i], entries) + [entries[keys[i]]]
  {
    assert keys[..i + 1][..i] == keys[..i];
  }

  /** Lines 334-339: drop the "India" entries that fail validation. */
  method CleanExisting(systems: seq<System>) returns (cleaned: seq<System>)
    ensures cleaned == Cleaned(systems)
  {
    cleaned := [];
    for i := 0 to |systems|
      invariant cleaned == Cleaned(systems[..i])
    {
      CleanedStep(systems, i);
      var s := systems[i];
      if s.country == Some(India) {
        var valid := IsValidIndianSystem(s);
        if !valid {
          continue;
        }
      }
      cleaned := cleaned + [s];
    }
    assert systems[..|systems|] == systems;
  }

  /** Line 340: the dictionary of the cleaned systems by id. */
  method IndexById(systems: seq<System>) returns (keys: seq<Option<string>>, byId: map<Option<string>, System>)
    ensures IdIndex(keys, byId) == Index(systems)
  {
    keys := [];
    byId := map[];
    for i := 0 to |systems|
      invariant IdIndex(keys, byId) == Index(systems[..i])
    {
      IndexStep(systems, i);
      var s := systems[i];
      if s.id !in byId {
        keys := keys + [s.id];
      }
      byId := byId[s.id := s];
    }
    assert systems[..|systems|] == systems;
  }

  /** Lines 341-348: upsert each new system with a non-empty id that survives cleaning. */
  method UpsertNew(keys0: seq<Option<string>>, byId0: map<Option<string>, System>, newSystems: seq<System>)
    returns (keys: seq<Option<string>>, byId: map<Option<string>, System>)
    ensures IdIndex(keys, byId) == Upsert(IdIndex(keys0, byId0), newSystems)
  {
    keys, byId := keys0, byId0;
    for i := 0 to |newSystems|
      invariant IdIndex(keys, byId) == Upsert(IdIndex(keys0, byId0), newSystems[..i])
    {
      UpsertStep(IdIndex(keys0, byId0), newSystems, i);
      var s := newSystems[i];
      var sid := s.id;
      if sid.None? || sid.value == [] {
        continue;
      }
      if s.country == Some(India) {
        var valid := IsValidIndianSystem(s);
        if !valid {
          continue;
        }
      }
      if sid !in byId {
        keys := keys + [sid];
      }
      byId := byId[sid := s];
    }
    assert newSystems[..|newSystems|] == newSystems;
  }

  /** Line 350: the values of the dictionary, in key order. */
  method ListValues(keys: seq<Option<string>>, byId: map<Option<string>, System>) returns (systems: seq<System>)
    requires forall k :: k in keys ==> k in byId
    ensures systems == ValuesOf(keys, byId)
  {
    systems := [];
    for i := 0 to |keys|
      invariant systems == ValuesOf(keys[..i], byId)
    {
      ValuesStep(keys, byId, i);
      systems := systems + [byId[keys[i]]];
    }
    assert keys[..|keys|] == keys;
  }

  /** merge_into_existing, with `by_id` held as its key order and its entries. */
  method MergeIntoExisting(existing: Catalog, newSystems: seq<System>, date: string) returns (merged: Catalog)
    ensures merged == Merge(existing, newSystems, date)
  {
    var cleanedExisting := CleanExisting(existing.systems);
    var keys0, byId0 := IndexById(cleanedExisting);
    var keys, byId := UpsertNew(keys0, byId0, newSystems);
    var systems := ListValues(keys, byId);
    var version := if existing.version.Some? then existing.version.value else "1.0.0";
    merged := Catalog(Some(BumpVersion(version)), Some(date), systems, existing.others);
  }

  // ---------------------------------------------------------------------------
  // What the merge promises
  // ---------------------------------------------------------------------------

  lemma {:induction false} ValuesOfSpec(keys: seq<Option<string>>, entries: map<Option<string>, System>)
    requires forall k :: k in keys ==> k in entries
    ensures |ValuesOf(keys, entries)| == |keys|
    ensures forall p :: 0 <= p < |keys| ==> ValuesOf(keys, entries)[p] == entries[keys[p]]
  {
    if keys != [] {
      ValuesOfSpec(keys[..|keys| - 1], entries);
    }
  }

  /** The systems of the merged catalog: one per key of the final dictionary, in key order. */
  lemma MergedSystems(existing: Catalog, newSystems: seq<System>, date: string)
    ensures var d := Upsert(Index(Cleaned(existing.systems)), newSystems);
      var r := Merge(existing, newSystems, date).systems;
      |r| == |d.keys| && forall p :: 0 <= p < |r| ==> r[p] == d.entries[d.keys[p]] && r[p].id == d.keys[p]
  {
    var d := Upsert(Index(Cleaned(existing.systems)), newSystems);
    ValuesOfSpec(d.keys, d.entries);
  }

  /** Ids in the merged catalog are unique. */
  lemma MergedIdsUnique(existing: Catalog, newSystems: seq<System>, date: string)
    ensures var r := Merge(existing, newSystems, date).systems;
      forall a, b :: 0 <= a < b < |r| ==> r[a].id != r[b].id
  {
    MergedSystems(existing, newSystems, date);
  }

  /** Every entry of the index of `xs` is an element of `xs`. */
  lemma {:induction false} IndexFrom(xs: seq<System>)
    ensures forall k :: k in Index(xs).entries ==> Index(xs).entries[k] in xs
  {
    if xs != [] {
      IndexFrom(xs[..|xs| - 1]);
    }
  }

  /** Every entry after the upserts was an entry before them, or is an upserted new system. */
  lemma {:induction false} UpsertFrom(d: IdIndex, news: seq<System>)
    ensures forall k :: k in Upsert(d, news).entries ==>
      Upsert(d, news).entries[k] in d.entries.Values || (Upsert(d, news).entries[k] in news && Upserted(Upsert(d, news).entries[k]))
  {
    if news != [] {
      UpsertFrom(d, news[..|news| - 1]);
    }
  }

  /** The cleaned systems are exactly the existing systems that survive cleaning. */
  lemma {:induction false} CleanedKept(xs: seq<System>)
    ensures forall s :: s in Cleaned(xs) ==> s in xs && Kept(s)
    ensures forall s :: s in xs && Kept(s) ==> s in Cleaned(xs)
  {
    if xs != [] {
      CleanedKept(xs[..|xs| - 1]);
      assert xs == xs[..|xs| - 1] + [xs[|xs| - 1]];
    }
  }

  /** Every id of the list is a key of its index. */
  lemma {:induction false} IndexHasAll(xs: seq<System>)
    ensures forall s :: s in xs ==> s.id in Index(xs).entries
  {
    if xs != [] {
      IndexHasAll(xs[..|xs| - 1]);
      assert xs == xs[..|xs| - 1] + [xs[|xs| - 1]];
    }
  }

  /**
   * Line 340 keeps the last system of each id: an existing system that survives cleaning
   * and that no later surviving system shares an id with is its id's entry.
   */
  lemma {:induction false} CleanedIndexLastWins(xs: seq<System>, i: nat)
    requires i < |xs| && Kept(xs[i])
    requires forall j :: i < j < |xs| && Kept(xs[j]) ==> xs[j].id != xs[i].id
    ensures xs[i].id in Index(Cleaned(xs)).entries && Index(Cleaned(xs)).entries[xs[i].id] == xs[i]
  {
    var init := xs[..|xs| - 1];
    var x := xs[|xs| - 1];
    var c := Cleaned(init);
    var k := xs[i].id;
    if i < |xs| - 1 {
      assert init[i] == xs[i];
      assert forall j :: i < j < |init| ==> init[j] == xs[j];
      CleanedIndexLastWins(init, i);
    }
    if Kept(x) {
      assert Cleaned(xs) == c + [x];
      assert (c + [x])[..|c|] == c;
      assert Index(Cleaned(xs)) == Put(Index(c), x);
      if i < |xs| - 1 {
        assert x.id != k;
      }
    } else {
      assert Cleaned(xs) == c;
    }
  }

  /** Upserts never remove a key. */
  lemma {:induction false} UpsertKeepsKeys(d: IdIndex, news: seq<System>)
    ensures forall k :: k in d.entries ==> k in Upsert(d, news).entries
  {
    if news != [] {
      UpsertKeepsKeys(d, news[..|news| - 1]);
    }
  }

  /** An entry whose id no upserted new system carries is left as it was. */
  lemma {:induction false} UpsertKeepsOthers(d: IdIndex, news: seq<System>, k: Option<string>)
    requires k in d.entries
    requires forall n :: n in news && Upserted(n) ==> n.id != k
    ensures k in Upsert(d, news).entries && Upsert(d, news).entries[k] == d.entries[k]
  {
    if news != [] {
      UpsertKeepsOthers(d, news[..|news| - 1], k);
      assert news[|news| - 1] in news;
    }
  }

  /**
   * Prior data is kept: every id of an existing system that survives cleaning is in the
   * merged catalog; and when no new system replaces it, the last surviving existing
   * system of that id is the one listed.
   */
  lemma MergedKeepsExisting(existing: Catalog, newSystems: seq<System>, date: string)
    ensures var r := Merge(existing, newSystems, date).systems;
      forall s :: s in existing.systems && Kept(s) ==> exists t :: t in r && t.id == s.id
    ensures var xs := existing.systems;
      var r := Merge(existing, newSystems, date).systems;
      forall i :: 0 <= i < |xs| && Kept(xs[i])
        && (forall j :: i < j < |xs| && Kept(xs[j]) ==> xs[j].id != xs[i].id)
        && (forall n :: n in newSystems && Upserted(n) ==> n.id != xs[i].id)
        ==> xs[i] in r
  {
    var xs := existing.systems;
    var c := Cleaned(xs);
    var d0 := Index(c);
    var d := Upsert(d0, newSystems);
    var r := Merge(existing, newSystems, date).systems;
    MergedSystems(existing, newSystems, date);
    CleanedKept(xs);
    IndexHasAll(c);
    UpsertKeepsKeys(d0, newSystems);
    forall s | s in xs && Kept(s) ensures exists t :: t in r && t.id == s.id {
      var p :| 0 <= p < |d.keys| && d.keys[p] == s.id;
      assert r[p] in r;
    }
    forall i | 0 <= i < |xs| && Kept(xs[i])
      && (forall j :: i < j < |xs| && Kept(xs[j]) ==> xs[j].id != xs[i].id)
      && (forall n :: n in newSystems && Upserted(n) ==> n.id != xs[i].id)
      ensures xs[i] in r
    {
      CleanedIndexLastWins(xs, i);
      UpsertKeepsOthers(d0, newSystems, xs[i].id);
      var p :| 0 <= p < |d.keys| && d.keys[p] == xs[i].id;
      assert r[p] == xs[i];
    }
  }

  /**
   * Every merged system is an existing one that survived cleaning, or a new system with
   * a non-empty id; every merged "India" system passes validation.
   */
  lemma MergedSources(existing: Catalog, newSystems: seq<System>, date: string)
    ensures forall s :: s in Merge(existing, newSystems, date).systems ==>
      && ((s in existing.systems && Kept(s)) || (s in newSystems && s.id.Some? && s.id.value != []))
      && (s.country == Some(India) ==> ValidIndian(s))
  {
    var c := Cleaned(existing.systems);
    var d0 := Index(c);
    var d := Upsert(d0, newSystems);
    var r := Merge(existing, newSystems, date).systems;
    MergedSystems(existing, newSystems, date);
    IndexFrom(c);
    UpsertFrom(d0, newSystems);
    CleanedKept(existing.systems);
    forall s | s in r
      ensures (s in existing.systems && Kept(s)) || (s in newSystems && s.id.Some? && s.id.value != [])
      ensures s.country == Some(India) ==> ValidIndian(s)
    {
      var p :| 0 <= p < |r| && r[p] == s;
      var k := d.keys[p];
      if s !in newSystems || !Upserted(s) {
        assert s in d0.entries.Values;
        var k0 :| k0 in d0.entries && d0.entries[k0] == s;
        assert s in c;
      }
    }
  }

  /** The later of two upserted new systems with one id wins: the last one is in the catalog under that id. */
  lemma {:induction false} UpsertLastWins(d: IdIndex, news: seq<System>, i: nat)
    requires i < |news| && Upserted(news[i])
    requires forall j :: i < j < |news| && Upserted(news[j]) ==> news[j].id != news[i].id
    ensures news[i].id in Upsert(d, news).entries && Upsert(d, news).entries[news[i].id] == news[i]
  {
    var n := |news|;
    if i < n - 1 {
      UpsertLastWins(d, news[..n - 1], i);
    }
  }

  /** Upserts never move a key: the key order before them is a prefix of the key order after. */
  lemma {:induction false} UpsertKeepsOrder(d: IdIndex, news: seq<System>)
    ensures |d.keys| <= |Upsert(d, news).keys| && Upsert(d, news).keys[..|d.keys|] == d.keys
  {
    if news != [] {
      UpsertKeepsOrder(d, news[..|news| - 1]);
      var r := Upsert(d, news[..|news| - 1]);
      assert r.keys[..|d.keys|] == d.keys;
      var r2 := Upsert(d, news);
      assert r2.keys[..|r.keys|] == r.keys;
      assert r2.keys[..|d.keys|] == r2.keys[..|r.keys|][..|d.keys|];
    }
  }

  /**
   * The upsert outcome in the merged catalog: the last upserted new system of each id is
   * in it; and every existing id keeps its first-insertion position, whether or not a new
   * system overwrote its entry.
   */
  lemma MergedUpserts(existing: Catalog, newSystems: seq<System>, date: string)
    ensures var r := Merge(existing, newSystems, date).systems;
      forall i :: 0 <= i < |newSystems| && Upserted(newSystems[i])
        && (forall j :: i < j < |newSystems| && Upserted(newSystems[j]) ==> newSystems[j].id != newSystems[i].id)
        ==> newSystems[i] in r
    ensures var d0 := Index(Cleaned(existing.systems));
      var r := Merge(existing, newSystems, date).systems;
      |d0.keys| <= |r| && forall p :: 0 <= p < |d0.keys| ==> r[p].id == d0.keys[p]
  {
    var d0 := Index(Cleaned(existing.systems));
    var d := Upsert(d0, newSystems);
    var r := Merge(existing, newSystems, date).systems;
    MergedSystems(existing, newSystems, date);
    UpsertKeepsOrder(d0, newSystems);
    forall i | 0 <= i < |newSystems| && Upserted(newSystems[i])
      && (forall j :: i < j < |newSystems| && Upserted(newSystems[j]) ==> newSystems[j].id != newSystems[i].id)
      ensures newSystems[i] in r
    {
      UpsertLastWins(d0, newSystems, i);
      var k := newSystems[i].id;
      var p :| 0 <= p < |d.keys| && d.keys[p] == k;
      assert r[p] == newSystems[i];
    }
    forall p | 0 <= p < |d0.keys| ensures r[p].id == d0.keys[p] {
      assert d.keys[p] == d0.keys[p];
    }
  }

  function IdOf(s: System): Option<string> {
    s.id
  }

  function Ids(xs: seq<System>): (ids: seq<Option<string>>)
    ensures |ids| == |xs|
    ensures forall p :: 0 <= p < |xs| ==> ids[p] == xs[p].id
  {
    seq(|xs|, p requires 0 <= p < |xs| => xs[p].id)
  }

  /** The ids of a list with one more system end with that system's id. */
  lemma IdsAppend(xs: seq<System>, x: System)
    ensures Ids(xs + [x]) == Ids(xs) + [x.id]
  {
    var l := Ids(xs + [x]);
    var r := Ids(xs) + [x.id];
    assert |l| == |r|;
    forall p | 0 <= p < |l| ensures l[p] == r[p] {
      if p < |xs| {
        assert (xs + [x])[p] == xs[p];
      }
    }
  }

  /** The ids listed in order are the ids collected in the key set. */
  lemma IdsKeySet(xs: seq<System>, k: Option<string>)
    ensures k in Ids(xs) <==> k in KeySet(xs, IdOf)
  {
    if k in Ids(xs) {
      var p :| 0 <= p < |xs| && Ids(xs)[p] == k;
      assert IdOf(xs[p]) == k;
    }
  }

  /** The dictionary's key order is the order of the first occurrences of the ids. */
  lemma {:induction false} IndexKeysFirstOccurrence(xs: seq<System>)
    ensures Index(xs).keys == Ids(Dedup(xs, IdOf))
  {
    if xs != [] {
      var init := xs[..|xs| - 1];
      var x := xs[|xs| - 1];
      IndexKeysFirstOccurrence(init);
      var u := Dedup(init, IdOf);
      var d := Index(init);
      assert Index(xs) == Put(d, x);
      IdsKeySet(u, x.id);
      assert x.id in d.entries <==> x.id in d.keys;
      if IdOf(x) in KeySet(u, IdOf) {
        assert Dedup(xs, IdOf) == u;
      } else {
        assert Dedup(xs, IdOf) == u + [x];
        IdsAppend(u, x);
      }
    }
  }

  /** The ids in the dictionary are the ids of the first occurrences. */
  lemma IndexKeySet(xs: seq<System>)
    ensures Index(xs).entries.Keys == KeySet(Dedup(xs, IdOf), IdOf)
  {
    IndexKeysFirstOccurrence(xs);
    var d := Index(xs);
    var u := Dedup(xs, IdOf);
    forall k | k in d.entries ensures k in KeySet(u, IdOf) {
      IdsKeySet(u, k);
    }
    forall k | k in KeySet(u, IdOf) ensures k in d.entries {
      IdsKeySet(u, k);
    }
  }

  /** The fields other than "systems", "version" and "lastUpdated" are copied; the date is the one supplied. */
  lemma MergedFields(existing: Catalog, newSystems: seq<System>, date: string)
    ensures var m := Merge(existing, newSystems, date);
      && m.others == existing.others
      && m.lastUpdated == Some(date)
      && m.version == Some(BumpVersion(if existing.version.Some? then existing.version.value else "1.0.0"))
  {
  }
}
