/**
 * The two link extractors of the crawler: university article links from a
 * "List of universities in India" page, and per-country list pages from the
 * global index of university lists.  A page is given as the sequence of its
 * anchors, each reduced to its text and its `href` (a missing `href` is "").
 */
module Links {
  import opened Wrappers
  import opened Text
  import opened UniqueBy

  datatype Anchor = Anchor(text: string, href: string)

  /** The crawler's University record: a name, a candidate homepage and a kind. */
  datatype University = University(name: string, url: Option<string>, kind: Option<string>)

  const WikiHost := "https://en.wikipedia.org"
  const ArticlePrefix := "/wiki/"

  /** Names containing one of these (lower-cased) are list or meta pages. */
  const ExcludedTokens: seq<string> :=
    ["list of", "states and union territories", "ugc", "nai", "ranking", "accreditation"]

  /** A name must contain one of these (lower-cased) to look like an institution. */
  const InstitutionKeywords: seq<string> :=
    ["university", "institute", "college", "academy", "iit", "nit", "iiit", "iisc",
     "law university", "state university"]

  /** The filter of the first loop of `extract_universities_from_wikipedia`, on the stripped name. */
  predicate IsUniversityLink(name: string, href: string) {
    && name != []
    && href != []
    && !StartsWith(href, "#")
    && StartsWith(href, ArticlePrefix)
    && !ContainsAny(Lower(name), ExcludedTokens)
    && ContainsAny(Lower(name), InstitutionKeywords)
  }

  /** What one anchor contributes to the candidate list. */
  function UniversityOf(a: Anchor): seq<University> {
    var name := Strip(a.text);
    if IsUniversityLink(name, a.href) then [University(name, Some(WikiHost + a.href), None)] else []
  }

  /** The candidate list built by the first loop, in anchor order. */
  function Candidates(anchors: seq<Anchor>): seq<University> {
    if anchors == [] then []
    else Candidates(anchors[..|anchors| - 1]) + UniversityOf(anchors[|anchors| - 1])
  }

  /** Universities are de-duplicated by their lower-cased name. */
  function NameKey(u: University): string {
    Lower(u.name)
  }

  lemma CandidatesStep(anchors: seq<Anchor>, i: nat)
    requires i < |anchors|
    ensures Candidates(anchors[..i + 1]) == Candidates(anchors[..i]) + UniversityOf(anchors[i])
  {
    assert anchors[..i + 1][..i] == anchors[..i];
  }

  /** The first loop of `extract_universities_from_wikipedia`: filter the anchors. */
  method CollectUniversities(anchors: seq<Anchor>) returns (universities: seq<University>)
    ensures universities == Candidates(anchors)
  {
    universities := [];
    for i := 0 to |anchors|
      invariant universities == Candidates(anchors[..i])
    {
      CandidatesStep(anchors, i);
      var name := Strip(anchors[i].text);
      var href := anchors[i].href;
      if name == [] || href == [] {
        continue;
      }
      if StartsWith(href, "#") || !StartsWith(href, ArticlePrefix) {
        continue;
      }
      if ContainsAny(Lower(name), ExcludedTokens) {
        continue;
      }
      var lowered := Lower(name);
      var isUniversityLike := ContainsAny(lowered, InstitutionKeywords);
      if !isUniversityLike {
        continue;
      }
      universities := universities + [University(name, Some(WikiHost + href), None)];
    }
    assert anchors[..|anchors|] == anchors;
  }

  /** `extract_universities_from_wikipedia`: filter the anchors, then keep the first of each name. */
  method ExtractUniversities(anchors: seq<Anchor>) returns (unique: seq<University>)
    ensures unique == Dedup(Candidates(anchors), NameKey)
  {
    var universities := CollectUniversities(anchors);
    unique := KeepFirstByKey(universities, NameKey);
  }

  /** A well-formed extracted university: stripped, filtered, with an absolute article URL. */
  predicate WellFormedUniversity(u: University) {
    && u.name != []
    && Strip(u.name) == u.name
    && u.kind == None
    && u.url.Some?
    && StartsWith(u.url.value, WikiHost + ArticlePrefix)
    && !ContainsAny(Lower(u.name), ExcludedTokens)
    && ContainsAny(Lower(u.name), InstitutionKeywords)
  }

  /** The university built from an anchor that passes the filter is well formed. */
  lemma UniversityOfWellFormed(a: Anchor)
    requires IsUniversityLink(Strip(a.text), a.href)
    ensures WellFormedUniversity(University(Strip(a.text), Some(WikiHost + a.href), None))
  {
    StripIdempotent(a.text);
    StartsWithAppend(WikiHost, a.href, ArticlePrefix);
  }

  /** Every candidate is built from some anchor that passes the filter. */
  lemma {:induction false} CandidatesSound(anchors: seq<Anchor>)
    ensures forall u :: u in Candidates(anchors) ==>
      exists a :: (a in anchors && IsUniversityLink(Strip(a.text), a.href)
                   && u == University(Strip(a.text), Some(WikiHost + a.href), None))
  {
    if anchors != [] {
      var init, last := anchors[..|anchors| - 1], anchors[|anchors| - 1];
      CandidatesSound(init);
      forall u | u in Candidates(anchors)
        ensures exists a :: (a in anchors && IsUniversityLink(Strip(a.text), a.href)
                             && u == University(Strip(a.text), Some(WikiHost + a.href), None))
      {
        if u in Candidates(init) {
          var a :| a in init && IsUniversityLink(Strip(a.text), a.href)
            && u == University(Strip(a.text), Some(WikiHost + a.href), None);
          assert a in anchors;
        } else {
          assert u in UniversityOf(last);
          assert last in anchors;
        }
      }
    }
  }

  /** Every anchor that passes the filter has a candidate. */
  lemma {:induction false} CandidatesComplete(anchors: seq<Anchor>, i: nat)
    requires i < |anchors| && IsUniversityLink(Strip(anchors[i].text), anchors[i].href)
    ensures University(Strip(anchors[i].text), Some(WikiHost + anchors[i].href), None) in Candidates(anchors)
  {
    if i < |anchors| - 1 {
      CandidatesComplete(anchors[..|anchors| - 1], i);
    }
  }

  /**
   * What `extract_universities_from_wikipedia` promises: every result is a filtered,
   * stripped article link; names are unique ignoring case; the first candidate of each
   * name is kept, in order; and no filtered anchor's name is lost.
   */
  lemma ExtractUniversitiesProperties(anchors: seq<Anchor>)
    ensures var r := Dedup(Candidates(anchors), NameKey);
      && (forall u :: u in r ==> WellFormedUniversity(u))
      && KeysUnique(r, NameKey)
      && r == FirstOccurrences(Candidates(anchors), NameKey)
      && (forall i :: 0 <= i < |anchors| && IsUniversityLink(Strip(anchors[i].text), anchors[i].href) ==>
            Lower(Strip(anchors[i].text)) in KeySet(r, NameKey))
  {
    var c := Candidates(anchors);
    ExtractedWellFormed(anchors);
    DedupKeysUnique(c, NameKey);
    DedupIsFirstOccurrences(c, NameKey);
    ExtractedComplete(anchors);
  }

  lemma ExtractedWellFormed(anchors: seq<Anchor>)
    ensures forall u :: u in Dedup(Candidates(anchors), NameKey) ==> WellFormedUniversity(u)
  {
    var c := Candidates(anchors);
    CandidatesSound(anchors);
    DedupSubset(c, NameKey);
    forall u | u in Dedup(c, NameKey) ensures WellFormedUniversity(u) {
      var a :| a in anchors && IsUniversityLink(Strip(a.text), a.href)
        && u == University(Strip(a.text), Some(WikiHost + a.href), None);
      UniversityOfWellFormed(a);
    }
  }

  lemma ExtractedComplete(anchors: seq<Anchor>)
    ensures forall i :: 0 <= i < |anchors| && IsUniversityLink(Strip(anchors[i].text), anchors[i].href) ==>
      Lower(Strip(anchors[i].text)) in KeySet(Dedup(Candidates(anchors), NameKey), NameKey)
  {
    var c := Candidates(anchors);
    DedupIsFirstOccurrences(c, NameKey);
    forall i | 0 <= i < |anchors| && IsUniversityLink(Strip(anchors[i].text), anchors[i].href)
      ensures Lower(Strip(anchors[i].text)) in KeySet(c, NameKey)
    {
      CandidatesComplete(anchors, i);
      var u := University(Strip(anchors[i].text), Some(WikiHost + anchors[i].href), None);
      var k :| 0 <= k < |c| && c[k] == u;
      assert NameKey(c[k]) in KeySet(c, NameKey);
    }
  }

  // ---------------------------------------------------------------------------
  // Country links of the global index page (the first half of crawl_world_universities)
  // ---------------------------------------------------------------------------

  /** A (list-page url, country name) pair. */
  datatype CountryLink = CountryLink(url: string, country: string)

  /** The part of `s` before its first newline: the only part a `.`-pattern can match. */
  function FirstLine(s: string): (line: string)
    ensures |line| <= |s| && line == s[..|line|]
    ensures forall k :: 0 <= k < |line| ==> line[k] != '\n'
    ensures |line| == |s| || s[|line|] == '\n'
  {
    if s == [] || s[0] == '\n' then [] else [s[0]] + FirstLine(s[1..])
  }

  /** `line` holds " in " (ignoring case) at `p`, with at least one character after it. */
  predicate InAt(line: string, p: int) {
    && 0 <= p && p + 4 < |line|
    && line[p] == ' ' && LowerChar(line[p + 1]) == 'i' && LowerChar(line[p + 2]) == 'n' && line[p + 3] == ' '
  }

  /** The largest `q` in `lo..p` with `InAt(line, q)`: where a greedy `.* in ` stops. */
  function LastInAt(line: string, lo: nat, p: int): (q: Option<nat>)
    ensures q.Some? ==> (lo <= q.value <= p && InAt(line, q.value)
                         && forall k :: q.value < k <= p ==> !InAt(line, k))
    ensures q.None? ==> forall k :: lo <= k <= p ==> !InAt(line, k)
    decreases p
  {
    if p < lo then None
    else if InAt(line, p) then Some(p)
    else LastInAt(line, lo, p - 1)
  }

  /**
   * Group 1 of `re.match(prefix + ".* in (.+)", text, re.I)`: the text must start
   * with `prefix` ignoring case, and the greedy `.*` makes the group the rest of the
   * first line after the LAST " in " that has a character after it.
   */
  function TitleMatch(text: string, prefix: string): Option<string> {
    var line := FirstLine(text);
    if !StartsWith(Lower(line), prefix) then None
    else match LastInAt(line, |prefix|, |line| - 5)
      case None => None
      case Some(p) => Some(line[p + 4..])
  }

  /** The country named by a link text "List of universities/colleges ... in X": X, stripped. */
  function CountryOf(text: string): Option<string> {
    var m1 := TitleMatch(text, "list of universities");
    var m := if m1.Some? then m1 else TitleMatch(text, "list of colleges");
    if m.Some? then Some(Strip(m.value)) else None
  }

  /** What one anchor of the global index contributes. */
  function CountryLinkOf(a: Anchor): seq<CountryLink> {
    var text := Strip(a.text);
    if text == [] || a.href == [] || !StartsWith(a.href, ArticlePrefix) then []
    else match CountryOf(text)
      case None => []
      case Some(country) => [CountryLink(WikiHost + a.href, country)]
  }

  function CountryCandidates(anchors: seq<Anchor>): seq<CountryLink> {
    if anchors == [] then []
    else CountryCandidates(anchors[..|anchors| - 1]) + CountryLinkOf(anchors[|anchors| - 1])
  }

  /** Country links are de-duplicated by (url, lower-cased country). */
  function CountryKey(c: CountryLink): (string, string) {
    (c.url, Lower(c.country))
  }

  lemma CountryCandidatesStep(anchors: seq<Anchor>, i: nat)
    requires i < |anchors|
    ensures CountryCandidates(anchors[..i + 1]) == CountryCandidates(anchors[..i]) + CountryLinkOf(anchors[i])
  {
    assert anchors[..i + 1][..i] == anchors[..i];
  }

  /** The collecting loop of crawl_world_universities, lines 237-250. */
  method CollectCountryLinks(anchors: seq<Anchor>) returns (countryLinks: seq<CountryLink>)
    ensures countryLinks == CountryCandidates(anchors)
  {
    countryLinks := [];
    for i := 0 to |anchors|
      invariant countryLinks == CountryCandidates(anchors[..i])
    {
      CountryCandidatesStep(anchors, i);
      var text := Strip(anchors[i].text);
      var href := anchors[i].href;
      if text == [] || href == [] {
        continue;
      }
      if !StartsWith(href, ArticlePrefix) {
        continue;
      }
      var m := CountryOf(text);
      if m.Some? {
        countryLinks := countryLinks + [CountryLink(WikiHost + href, m.value)];
      }
    }
    assert anchors[..|anchors|] == anchors;
  }

  /** crawl_world_universities, lines 237-259: collect the country links, then de-duplicate. */
  method CountryLinks(anchors: seq<Anchor>) returns (deduped: seq<CountryLink>)
    ensures deduped == Dedup(CountryCandidates(anchors), CountryKey)
  {
    var countryLinks := CollectCountryLinks(anchors);
    deduped := KeepFirstByKey(countryLinks, CountryKey);
  }

  /** Every country link comes from an article anchor whose stripped text names that country. */
  lemma {:induction false} CountryCandidatesSound(anchors: seq<Anchor>)
    ensures forall c :: c in CountryCandidates(anchors) ==>
      exists a :: (a in anchors && StartsWith(a.href, ArticlePrefix) && Strip(a.text) != []
                   && CountryOf(Strip(a.text)) == Some(c.country) && c.url == WikiHost + a.href)
  {
    if anchors != [] {
      var init, last := anchors[..|anchors| - 1], anchors[|anchors| - 1];
      CountryCandidatesSound(init);
      forall c | c in CountryCandidates(anchors)
        ensures exists a :: (a in anchors && StartsWith(a.href, ArticlePrefix) && Strip(a.text) != []
                             && CountryOf(Strip(a.text)) == Some(c.country) && c.url == WikiHost + a.href)
      {
        if c in CountryCandidates(init) {
          var a :| a in init && StartsWith(a.href, ArticlePrefix) && Strip(a.text) != []
            && CountryOf(Strip(a.text)) == Some(c.country) && c.url == WikiHost + a.href;
          assert a in anchors;
        } else {
          assert c in CountryLinkOf(last);
          assert last in anchors;
        }
      }
    }
  }

  /** An article anchor whose stripped text names a country. */
  predicate NamesCountry(a: Anchor) {
    Strip(a.text) != [] && a.href != [] && StartsWith(a.href, ArticlePrefix) && CountryOf(Strip(a.text)).Some?
  }

  /** Every article anchor whose text names a country has its pair among the candidates. */
  lemma {:induction false} CountryCandidatesComplete(anchors: seq<Anchor>, i: nat)
    requires i < |anchors| && NamesCountry(anchors[i])
    ensures CountryLink(WikiHost + anchors[i].href, CountryOf(Strip(anchors[i].text)).value) in CountryCandidates(anchors)
  {
    if i < |anchors| - 1 {
      CountryCandidatesComplete(anchors[..|anchors| - 1], i);
    }
  }

  /** No such anchor's (url, lower-cased country) is lost by the de-duplication. */
  lemma CountryLinksComplete(anchors: seq<Anchor>)
    ensures forall i :: 0 <= i < |anchors| && NamesCountry(anchors[i]) ==>
      (WikiHost + anchors[i].href, Lower(CountryOf(Strip(anchors[i].text)).value))
        in KeySet(Dedup(CountryCandidates(anchors), CountryKey), CountryKey)
  {
    var c := CountryCandidates(anchors);
    DedupIsFirstOccurrences(c, CountryKey);
    forall i | 0 <= i < |anchors| && NamesCountry(anchors[i])
      ensures (WikiHost + anchors[i].href, Lower(CountryOf(Strip(anchors[i].text)).value)) in KeySet(c, CountryKey)
    {
      CountryCandidatesComplete(anchors, i);
      var l := CountryLink(WikiHost + anchors[i].href, CountryOf(Strip(anchors[i].text)).value);
      var k :| 0 <= k < |c| && c[k] == l;
      assert CountryKey(c[k]) in KeySet(c, CountryKey);
    }
  }

  /** A successful TitleMatch is the rest of the line after its last " in ". */
  lemma TitleMatchShape(text: string, prefix: string)
    requires TitleMatch(text, prefix).Some?
    ensures var line := FirstLine(text);
      && StartsWith(Lower(line), prefix)
      && exists p :: (|prefix| <= p && InAt(line, p) && TitleMatch(text, prefix).value == line[p + 4..]
                      && forall k :: p < k < |line| ==> !InAt(line, k))
  {
    var line := FirstLine(text);
    var p := LastInAt(line, |prefix|, |line| - 5).value;
    assert TitleMatch(text, prefix).value == line[p + 4..];
    forall k | p < k < |line| ensures !InAt(line, k) {
      if k <= |line| - 5 { } else { assert !(k + 4 < |line|); }
    }
  }

  /** The country is the stripped text after the last " in " of the first line of a list title. */
  lemma CountryOfShape(text: string)
    requires CountryOf(text).Some?
    ensures var line := FirstLine(text);
      && (StartsWith(Lower(line), "list of universities") || StartsWith(Lower(line), "list of colleges"))
      && exists p :: (((StartsWith(Lower(line), "list of universities") && |"list of universities"| <= p)
                       || (StartsWith(Lower(line), "list of colleges") && |"list of colleges"| <= p))
                      && InAt(line, p) && CountryOf(text).value == Strip(line[p + 4..])
                      && forall k :: p < k < |line| ==> !InAt(line, k))
  {
    var m1 := TitleMatch(text, "list of universities");
    var prefix := if m1.Some? then "list of universities" else "list of colleges";
    TitleMatchShape(text, prefix);
    assert CountryOf(text).value == Strip(TitleMatch(text, prefix).value);
  }

  /**
   * What lines 237-259 promise: every pair comes from an article anchor whose text
   * names the country, with an absolute URL; no (url, lower-cased country) repeats;
   * and the first pair of each key is kept, in order.
   */
  lemma CountryLinksProperties(anchors: seq<Anchor>)
    ensures var r := Dedup(CountryCandidates(anchors), CountryKey);
      && (forall c :: c in r ==> exists a :: (a in anchors && StartsWith(a.href, ArticlePrefix)
                                             && CountryOf(Strip(a.text)) == Some(c.country)
                                             && c.url == WikiHost + a.href))
      && KeysUnique(r, CountryKey)
      && r == FirstOccurrences(CountryCandidates(anchors), CountryKey)
      && KeySet(r, CountryKey) == KeySet(CountryCandidates(anchors), CountryKey)
      && (forall i :: 0 <= i < |anchors| && NamesCountry(anchors[i]) ==>
            (WikiHost + anchors[i].href, Lower(CountryOf(Strip(anchors[i].text)).value)) in KeySet(r, CountryKey))
  {
    var c := CountryCandidates(anchors);
    CountryCandidatesSound(anchors);
    DedupSubset(c, CountryKey);
    DedupKeysUnique(c, CountryKey);
    DedupIsFirstOccurrences(c, CountryKey);
    CountryLinksComplete(anchors);
  }
}
