/**
 * normalize_system: a system record for a parsed university, with its id the
 * slug of the name, `re.sub(r"[^a-z0-9]+", "_", name.lower()).strip("_")`.
 */
module Slug {
  import opened Wrappers
  import opened Text
  import opened Tables
  import opened Schema

  /** The characters a slug may hold. */
  predicate IsSlugChar(c: char) {
    IsLowerAlnum(c) || c == '_'
  }

  predicate NoDoubleUnderscore(s: string) {
    forall i :: 0 <= i < |s| - 1 ==> !(s[i] == '_' && s[i + 1] == '_')
  }

  /** `s` with its leading run of characters other than [a-z0-9] removed. */
  function SkipRun(s: string): (r: string)
    ensures |r| <= |s|
    ensures r == [] || IsLowerAlnum(r[0])
  {
    if s != [] && !IsLowerAlnum(s[0]) then SkipRun(s[1..]) else s
  }

  /** What the run skips is a prefix of characters other than [a-z0-9]. */
  lemma {:induction false} SkipRunSkipsOthers(s: string)
    ensures SkipRun(s) == s[|s| - |SkipRun(s)|..]
    ensures forall i :: 0 <= i < |s| - |SkipRun(s)| ==> !IsLowerAlnum(s[i])
  {
    if s != [] && !IsLowerAlnum(s[0]) {
      SkipRunSkipsOthers(s[1..]);
      assert forall i :: 1 <= i < |s| ==> s[1..][i - 1] == s[i];
    }
  }

  /** `re.sub(r"[^a-z0-9]+", "_", s)`: every maximal run of other characters becomes one '_'. */
  function Subst(s: string): (r: string)
    ensures s != [] && IsLowerAlnum(s[0]) ==> r != [] && r[0] == s[0]
    decreases |s|
  {
    if s == [] then []
    else if IsLowerAlnum(s[0]) then [s[0]] + Subst(s[1..])
    else "_" + Subst(SkipRun(s))
  }

  /** `s.strip("_")` */
  function StripUnderscores(s: string): (r: string)
    ensures |r| <= |s|
    ensures r == [] || (r[0] != '_' && r[|r| - 1] != '_')
  {
    TrimUnderscoreRight(TrimUnderscoreLeft(s))
  }

  function TrimUnderscoreLeft(s: string): (r: string)
    ensures |r| <= |s| && r == s[|s| - |r|..]
    ensures r == [] || r[0] != '_'
  {
    if s != [] && s[0] == '_' then TrimUnderscoreLeft(s[1..]) else s
  }

  function TrimUnderscoreRight(s: string): (r: string)
    ensures |r| <= |s| && r == s[..|r|]
    ensures r == [] || r[|r| - 1] != '_'
  {
    if s != [] && s[|s| - 1] == '_' then TrimUnderscoreRight(s[..|s| - 1]) else s
  }

  /** The letters and digits of `s`, in order. */
  function Alnums(s: string): string {
    if s == [] then []
    else if IsLowerAlnum(s[0]) then [s[0]] + Alnums(s[1..])
    else Alnums(s[1..])
  }

  /** Substitution leaves only slug characters, never two '_' in a row, and the letters and digits of its input in order. */
  lemma {:induction false} SubstShape(s: string)
    ensures forall i :: 0 <= i < |Subst(s)| ==> IsSlugChar(Subst(s)[i])
    ensures NoDoubleUnderscore(Subst(s))
    ensures Alnums(Subst(s)) == Alnums(s)
    decreases |s|
  {
    if s != [] {
      if IsLowerAlnum(s[0]) {
        SubstShape(s[1..]);
        assert Subst(s) == [s[0]] + Subst(s[1..]);
      } else {
        var t := SkipRun(s);
        SubstShape(t);
        SkipRunAlnums(s);
        assert Subst(s) == "_" + Subst(t);
        assert Alnums(Subst(s)) == Alnums(Subst(t));
      }
    }
  }

  lemma {:induction false} SkipRunAlnums(s: string)
    ensures Alnums(SkipRun(s)) == Alnums(s)
  {
    if s != [] && !IsLowerAlnum(s[0]) {
      SkipRunAlnums(s[1..]);
    }
  }

  /** A string already in slug form is left as it is by the substitution. */
  lemma {:induction false} SubstFixed(t: string)
    requires forall i :: 0 <= i < |t| ==> IsSlugChar(t[i])
    requires NoDoubleUnderscore(t)
    ensures Subst(t) == t
    decreases |t|
  {
    if t != [] {
      SubstFixed(t[1..]);
      if !IsLowerAlnum(t[0]) {
        assert SkipRun(t) == t[1..] by {
          assert t[1..] == [] || IsLowerAlnum(t[1..][0]);
          assert SkipRun(t) == SkipRun(t[1..]);
        }
      }
    }
  }

  /** Only slug characters, never two '_' in a row. */
  predicate SlugShaped(s: string) {
    (forall k :: 0 <= k < |s| ==> IsSlugChar(s[k])) && NoDoubleUnderscore(s)
  }

  lemma {:induction false} TrimLeftShaped(s: string)
    requires SlugShaped(s)
    ensures SlugShaped(TrimUnderscoreLeft(s))
  {
    if s != [] && s[0] == '_' {
      assert forall k :: 0 <= k < |s| - 1 ==> s[1..][k] == s[k + 1];
      TrimLeftShaped(s[1..]);
    }
  }

  lemma {:induction false} TrimRightShaped(s: string)
    requires SlugShaped(s)
    ensures SlugShaped(TrimUnderscoreRight(s))
  {
    if s != [] && s[|s| - 1] == '_' {
      assert forall k :: 0 <= k < |s| - 1 ==> s[..|s| - 1][k] == s[k];
      TrimRightShaped(s[..|s| - 1]);
    }
  }

  /**
   * The slug of a name: only [a-z0-9_], never two '_' in a row, no '_' at either end,
   * and the lower-cased letters and digits of the name, in order.
   */
  function SlugOf(name: string): (id: string)
    ensures forall i :: 0 <= i < |id| ==> IsSlugChar(id[i])
    ensures NoDoubleUnderscore(id)
    ensures id == [] || (IsLowerAlnum(id[0]) && IsLowerAlnum(id[|id| - 1]))
  {
    var t := Subst(Lower(name));
    SubstShape(Lower(name));
    TrimLeftShaped(t);
    TrimRightShaped(TrimUnderscoreLeft(t));
    StripUnderscores(t)
  }

  /** Slugging keeps exactly the letters and digits of the lower-cased name. */
  lemma SlugAlnums(name: string)
    ensures Alnums(SlugOf(name)) == Alnums(Lower(name))
  {
    var t := Subst(Lower(name));
    SubstShape(Lower(name));
    var l := TrimUnderscoreLeft(t);
    TrimLeftAlnums(t);
    TrimRightAlnums(l);
  }

  lemma {:induction false} TrimLeftAlnums(s: string)
    ensures Alnums(TrimUnderscoreLeft(s)) == Alnums(s)
  {
    if s != [] && s[0] == '_' {
      TrimLeftAlnums(s[1..]);
    }
  }

  lemma {:induction false} AlnumsAppend(a: string, b: string)
    ensures Alnums(a + b) == Alnums(a) + Alnums(b)
  {
    if a != [] {
      AlnumsAppend(a[1..], b);
      assert (a + b)[0] == a[0];
      assert (a + b)[1..] == a[1..] + b;
    } else {
      assert a + b == b;
    }
  }

  lemma {:induction false} TrimRightAlnums(s: string)
    ensures Alnums(TrimUnderscoreRight(s)) == Alnums(s)
  {
    if s != [] && s[|s| - 1] == '_' {
      var init := s[..|s| - 1];
      TrimRightAlnums(init);
      AlnumsAppend(init, "_");
      assert s == init + "_";
    }
  }

  /** Re-slugging a slug gives it back. */
  lemma SlugIdempotent(name: string)
    ensures SlugOf(SlugOf(name)) == SlugOf(name)
  {
    var id := SlugOf(name);
    assert Lower(id) == id;
    SubstFixed(id);
    assert TrimUnderscoreLeft(id) == id;
    assert TrimUnderscoreRight(id) == id;
  }

  /** Lines 191-201: the system record of a parsed university. */
  function NormalizeSystem(name: string, country: string, region: string, scale: real, grades: seq<Grade>): System {
    System(Some(SlugOf(name)), Some(name), Some(country), Some(region), Some(name + " grading system"),
           Some(scale), Some(RowsOf(grades)))
  }

  /**
   * The record's id is the slug of the name, its description is the name followed by
   * " grading system", and name, country, region, scale and grades are passed through.
   */
  lemma NormalizeSystemSpec(name: string, country: string, region: string, scale: real, grades: seq<Grade>)
    ensures var s := NormalizeSystem(name, country, region, scale, grades);
      && s.id.Some? && (forall i :: 0 <= i < |s.id.value| ==> IsSlugChar(s.id.value[i]))
      && NoDoubleUnderscore(s.id.value)
      && Alnums(s.id.value) == Alnums(Lower(name))
      && s.description == Some(name + " grading system")
      && s.name == Some(name) && s.country == Some(country) && s.region == Some(region)
      && s.scale == Some(scale) && s.grades.Some? && |s.grades.value| == |grades|
      && forall k :: 0 <= k < |grades| ==> s.grades.value[k] == Row(Some(grades[k].name), Some(grades[k].points), grades[k].percentage)
  {
    SlugAlnums(name);
  }
}
