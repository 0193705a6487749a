/**
 * The site crawler (find_and_parse_grading): a breadth-first walk from a
 * university's homepage over at most five pages, which stops at the first page
 * whose tables parse as a grading table.  Fetching is an oracle from a URL to
 * the page it returns, None standing for a failed request, a non-200 status and
 * an empty body alike; a page is given as its tables and its anchors.
 */
module Crawler {
  import opened Wrappers
  import opened Text
  import opened Links
  import opened Tables

  datatype Page = Page(tables: seq<Table>, anchors: seq<Anchor>)

  /** The page budget: at most this many URLs are marked visited. */
  const MaxPages: nat := 5

  const KeyPatterns: seq<string> :=
    ["academic", "regulation", "ordinance", "examination", "grading", "evaluation", "credit", "curriculum"]

  // ---------------------------------------------------------------------------
  // The base URL: `re.match(r"https?://[^/]+", homepage_url)`
  // ---------------------------------------------------------------------------

  /** Length of the run of characters other than '/' that starts at `i`. */
  function HostRun(s: string, i: nat): (n: nat)
    requires i <= |s|
    ensures i + n <= |s|
    ensures forall k :: i <= k < i + n ==> s[k] != '/'
    ensures i + n == |s| || s[i + n] == '/'
    decreases |s| - i
  {
    if i < |s| && s[i] != '/' then 1 + HostRun(s, i + 1) else 0
  }

  /** The scheme of a URL that starts with "http://" or "https://", as the regex reads it. */
  function Scheme(url: string): Option<string> {
    if StartsWith(url, "https://") then Some("https://")
    else if StartsWith(url, "http://") then Some("http://")
    else None
  }

  /** Lines 154-158: the `scheme://host` prefix of the homepage, or the homepage itself when there is none. */
  function BaseUrl(homepage: string): string {
    match Scheme(homepage)
    case None => homepage
    case Some(scheme) =>
      var n := HostRun(homepage, |scheme|);
      if n == 0 then homepage else homepage[..|scheme| + n]
  }

  /**
   * The base URL is always a prefix of the homepage; when the homepage has a scheme and
   * a non-empty host, it is exactly scheme and host, up to the first '/' after the scheme.
   */
  lemma BaseUrlShape(homepage: string)
    ensures StartsWith(homepage, BaseUrl(homepage))
    ensures BaseUrl(homepage) != homepage ==>
      Scheme(homepage).Some? && |Scheme(homepage).value| < |BaseUrl(homepage)| < |homepage|
      && homepage[|BaseUrl(homepage)|] == '/'
      && forall k :: |Scheme(homepage).value| <= k < |BaseUrl(homepage)| ==> homepage[k] != '/'
  {
  }

  // ---------------------------------------------------------------------------
  // Queued links (lines 177-188)
  // ---------------------------------------------------------------------------

  /** The text or the href of the anchor names an academic keyword. */
  predicate IsAcademic(a: Anchor) {
    exists k :: 0 <= k < |KeyPatterns| && (Contains(Lower(a.text), KeyPatterns[k]) || Contains(Lower(a.href), KeyPatterns[k]))
  }

  /** Lines 178-186: the absolute URL of a root-relative or http(s) href. */
  function Resolve(base: string, href: string): Option<string> {
    if href == [] then None
    else if StartsWith(href, "/") then Some(base + href)
    else if StartsWith(href, "http://") || StartsWith(href, "https://") then Some(href)
    else None
  }

  function LinkOf(base: string, a: Anchor): seq<string> {
    match Resolve(base, a.href)
    case Some(u) => if IsAcademic(a) then [u] else []
    case None => []
  }

  /** The URLs one page adds to the queue, in anchor order. */
  function LinkTargets(base: string, anchors: seq<Anchor>): seq<string> {
    if anchors == [] then []
    else LinkTargets(base, anchors[..|anchors| - 1]) + LinkOf(base, anchors[|anchors| - 1])
  }

  lemma LinkTargetsStep(base: string, anchors: seq<Anchor>, i: nat)
    requires i < |anchors|
    ensures LinkTargets(base, anchors[..i + 1]) == LinkTargets(base, anchors[..i]) + LinkOf(base, anchors[i])
  {
    assert anchors[..i + 1][..i] == anchors[..i];
  }

  /** The inner `for a in soup.select("a[href]")` loop of one page. */
  method QueueLinks(baseUrl: string, anchors: seq<Anchor>) returns (links: seq<string>)
    ensures links == LinkTargets(baseUrl, anchors)
  {
    links := [];
    for i := 0 to |anchors|
      invariant links == LinkTargets(baseUrl, anchors[..i])
    {
      LinkTargetsStep(baseUrl, anchors, i);
      var href := anchors[i].href;
      if href == [] {
        continue;
      }
      var nextUrl: string;
      if StartsWith(href, "/") {
        nextUrl := baseUrl + href;
      } else if StartsWith(href, "http://") || StartsWith(href, "https://") {
        nextUrl := href;
      } else {
        continue;
      }
      if IsAcademic(anchors[i]) {
        links := links + [nextUrl];
      }
    }
    assert anchors[..|anchors|] == anchors;
  }

  /**
   * The queued URLs are exactly the resolved hrefs of the academic anchors: a
   * root-relative href resolved against the base, or an http(s) href taken as it is.
   */
  lemma {:induction false} LinkTargetsShape(base: string, anchors: seq<Anchor>)
    ensures forall u :: u in LinkTargets(base, anchors) ==>
      exists a :: a in anchors && IsAcademic(a) && Resolve(base, a.href) == Some(u)
    ensures forall a :: a in anchors && IsAcademic(a) && Resolve(base, a.href).Some? ==>
      Resolve(base, a.href).value in LinkTargets(base, anchors)
  {
    if anchors != [] {
      var init := anchors[..|anchors| - 1];
      LinkTargetsShape(base, init);
      assert anchors == init + [anchors[|anchors| - 1]];
      forall u | u in LinkTargets(base, anchors)
        ensures exists a :: a in anchors && IsAcademic(a) && Resolve(base, a.href) == Some(u)
      {
        if u in LinkTargets(base, init) {
          var a :| a in init && IsAcademic(a) && Resolve(base, a.href) == Some(u);
          assert a in anchors;
        } else {
          assert anchors[|anchors| - 1] in anchors;
        }
      }
    }
  }

  /** What Resolve gives: `base + href` for a root-relative href, the href itself for an http(s) one. */
  lemma ResolveShape(base: string, href: string)
    requires Resolve(base, href).Some?
    ensures var u := Resolve(base, href).value;
      (StartsWith(href, "/") && u == base + href)
      || (!StartsWith(href, "/") && (StartsWith(href, "http://") || StartsWith(href, "https://")) && u == href)
  {
  }

  // ---------------------------------------------------------------------------
  // The walk
  // ---------------------------------------------------------------------------

  /** The parse the crawl returns and the URLs it fetched, in order. */
  datatype Outcome = Outcome(result: Option<Parsed>, fetched: seq<string>)

  function After(url: string, o: Outcome): Outcome {
    Outcome(o.result, [url] + o.fetched)
  }

  /**
   * The crawl from a queue and a visited set: the front URL is popped; a visited one is
   * dropped, any other is marked visited and fetched; a page whose tables parse ends the
   * crawl, any other page appends its links to the queue.  The crawl stops when the
   * queue is empty or the budget is spent.
   */
  function Crawl(base: string, queue: seq<string>, visited: set<string>, fetch: string -> Option<Page>): Outcome
    requires |visited| <= MaxPages
    decreases MaxPages - |visited|, |queue|
  {
    if queue == [] || |visited| >= MaxPages then Outcome(None, [])
    else
      var url := queue[0];
      if url in visited then Crawl(base, queue[1..], visited, fetch)
      else
        match fetch(url)
        case None => After(url, Crawl(base, queue[1..], visited + {url}, fetch))
        case Some(page) =>
          var parsed := ParseTables(page.tables);
          if parsed.Some? then Outcome(parsed, [url])
          else After(url, Crawl(base, queue[1..] + LinkTargets(base, page.anchors), visited + {url}, fetch))
  }

  /** One step of the crawl, case by case. */
  lemma CrawlStep(base: string, queue: seq<string>, visited: set<string>, fetch: string -> Option<Page>)
    requires |visited| < MaxPages && queue != []
    ensures queue[0] !in visited ==> |visited + {queue[0]}| == |visited| + 1
    ensures queue[0] in visited ==> Crawl(base, queue, visited, fetch) == Crawl(base, queue[1..], visited, fetch)
    ensures queue[0] !in visited && fetch(queue[0]).None? ==>
      Crawl(base, queue, visited, fetch) == After(queue[0], Crawl(base, queue[1..], visited + {queue[0]}, fetch))
    ensures queue[0] !in visited && fetch(queue[0]).Some? && ParseTables(fetch(queue[0]).value.tables).Some? ==>
      Crawl(base, queue, visited, fetch) == Outcome(ParseTables(fetch(queue[0]).value.tables), [queue[0]])
    ensures queue[0] !in visited && fetch(queue[0]).Some? && ParseTables(fetch(queue[0]).value.tables).None? ==>
      Crawl(base, queue, visited, fetch)
      == After(queue[0], Crawl(base, queue[1..] + LinkTargets(base, fetch(queue[0]).value.anchors), visited + {queue[0]}, fetch))
  {
  }

  /** The outcome `o` of a crawl, preceded by the URLs fetched before it. */
  function Then(prefix: seq<string>, o: Outcome): Outcome {
    Outcome(o.result, prefix + o.fetched)
  }

  /** find_and_parse_grading: the crawl from the homepage alone with nothing visited. */
  function FindAndParse(homepage: string, fetch: string -> Option<Page>): Outcome {
    Crawl(BaseUrl(homepage), [homepage], {}, fetch)
  }

  /** Lines 147-188. The returned URLs are the ones fetched, in order. */
  method FindAndParseGrading(homepageUrl: string, fetch: string -> Option<Page>)
    returns (results: Option<Parsed>, ghost fetched: seq<string>)
    ensures results == FindAndParse(homepageUrl, fetch).result
    ensures Outcome(results, fetched) == FindAndParse(homepageUrl, fetch)
  {
    var toVisit := [homepageUrl];
    var visited: set<string> := {};
    var baseUrl := BaseUrl(homepageUrl);
    results := None;
    fetched := [];
    ghost var goal := Crawl(baseUrl, toVisit, visited, fetch);
    while toVisit != [] && |visited| < MaxPages
      invariant |visited| <= MaxPages
      invariant results == None
      invariant goal == Then(fetched, Crawl(baseUrl, toVisit, visited, fetch))
      decreases MaxPages - |visited|, |toVisit|
    {
      CrawlStep(baseUrl, toVisit, visited, fetch);
      var url := toVisit[0];
      toVisit := toVisit[1..];
      if url in visited {
        continue;
      }
      ghost var before := fetched;
      visited := visited + {url};
      fetched := fetched + [url];
      var html := fetch(url);
      if html.None? {
        ThenAfter(before, url, Crawl(baseUrl, toVisit, visited, fetch));
        continue;
      }
      var parsed := TryParseGradingTable(html.value.tables);
      if parsed.Some? {
        results := parsed;
        assert goal == Outcome(results, fetched);
        break;
      }
      var links := QueueLinks(baseUrl, html.value.anchors);
      toVisit := toVisit + links;
      ThenAfter(before, url, Crawl(baseUrl, toVisit, visited, fetch));
    }
  }

  lemma ThenAfter(prefix: seq<string>, url: string, o: Outcome)
    ensures Then(prefix, After(url, o)) == Then(prefix + [url], o)
  {
    assert prefix + ([url] + o.fetched) == (prefix + [url]) + o.fetched;
  }

  // ---------------------------------------------------------------------------
  // What the crawl promises
  // ---------------------------------------------------------------------------

  /** The budget: a crawl fetches at most as many URLs as the budget has left, each at most once and none already visited. */
  lemma {:induction false} CrawlBudget(base: string, queue: seq<string>, visited: set<string>, fetch: string -> Option<Page>)
    requires |visited| <= MaxPages
    ensures var f := Crawl(base, queue, visited, fetch).fetched;
      |f| <= MaxPages - |visited| && NoDuplicates(f) && forall k :: 0 <= k < |f| ==> f[k] !in visited
    decreases MaxPages - |visited|, |queue|
  {
    if queue != [] && |visited| < MaxPages {
      var url := queue[0];
      if url in visited {
        CrawlBudget(base, queue[1..], visited, fetch);
      } else {
        var v := visited + {url};
        match fetch(url)
        case None =>
          CrawlBudget(base, queue[1..], v, fetch);
        case Some(page) =>
          if ParseTables(page.tables).None? {
            CrawlBudget(base, queue[1..] + LinkTargets(base, page.anchors), v, fetch);
          }
      }
    }
  }

  /** The parse of the page at `url`, None when it failed or its tables do not parse. */
  function PageParse(url: string, fetch: string -> Option<Page>): Option<Parsed> {
    match fetch(url)
    case None => None
    case Some(page) => ParseTables(page.tables)
  }

  /** A result is the parse of the tables of the last URL fetched. */
  predicate ResultIsLast(o: Outcome, fetch: string -> Option<Page>) {
    o.result.Some? ==> o.fetched != [] && o.result == PageParse(o.fetched[|o.fetched| - 1], fetch)
  }

  /** Every URL fetched before the last one, and every one when the result is None, gave no parse. */
  predicate EarlierFailed(o: Outcome, fetch: string -> Option<Page>) {
    forall k :: 0 <= k < |o.fetched| && (o.result.None? || k < |o.fetched| - 1) ==> PageParse(o.fetched[k], fetch).None?
  }

  lemma AfterResultIsLast(url: string, o: Outcome, fetch: string -> Option<Page>)
    requires ResultIsLast(o, fetch)
    ensures ResultIsLast(After(url, o), fetch)
  {
  }

  lemma AfterEarlierFailed(url: string, o: Outcome, fetch: string -> Option<Page>)
    requires PageParse(url, fetch).None? && EarlierFailed(o, fetch)
    ensures EarlierFailed(After(url, o), fetch)
  {
    var f := After(url, o).fetched;
    forall k | 1 <= k < |f| ensures f[k] == o.fetched[k - 1] { }
  }

  /** The result of a crawl is the parse of the last page it fetched. */
  lemma {:induction false} CrawlResultLast(base: string, queue: seq<string>, visited: set<string>, fetch: string -> Option<Page>)
    requires |visited| <= MaxPages
    ensures ResultIsLast(Crawl(base, queue, visited, fetch), fetch)
    decreases MaxPages - |visited|, |queue|
  {
    if queue != [] && |visited| < MaxPages {
      CrawlStep(base, queue, visited, fetch);
      var url := queue[0];
      if url in visited {
        CrawlResultLast(base, queue[1..], visited, fetch);
      } else if fetch(url).None? || PageParse(url, fetch).None? {
        var q := if fetch(url).None? then queue[1..] else queue[1..] + LinkTargets(base, fetch(url).value.anchors);
        CrawlResultLast(base, q, visited + {url}, fetch);
        AfterResultIsLast(url, Crawl(base, q, visited + {url}, fetch), fetch);
      }
    }
  }

  /** Every page a crawl fetched before its last one gave no parse, and none did when it found nothing. */
  lemma {:induction false} CrawlResultEarlier(base: string, queue: seq<string>, visited: set<string>, fetch: string -> Option<Page>)
    requires |visited| <= MaxPages
    ensures EarlierFailed(Crawl(base, queue, visited, fetch), fetch)
    decreases MaxPages - |visited|, |queue|
  {
    if queue != [] && |visited| < MaxPages {
      CrawlStep(base, queue, visited, fetch);
      var url := queue[0];
      if url in visited {
        CrawlResultEarlier(base, queue[1..], visited, fetch);
      } else if fetch(url).None? || PageParse(url, fetch).None? {
        var q := if fetch(url).None? then queue[1..] else queue[1..] + LinkTargets(base, fetch(url).value.anchors);
        CrawlResultEarlier(base, q, visited + {url}, fetch);
        AfterEarlierFailed(url, Crawl(base, q, visited + {url}, fetch), fetch);
      }
    }
  }

  /**
   * FIFO provenance: every URL fetched was in the queue at the start, or was queued by
   * a page fetched earlier in the crawl.
   */
  lemma {:induction false} CrawlProvenance(base: string, queue: seq<string>, visited: set<string>, fetch: string -> Option<Page>)
    requires |visited| <= MaxPages
    ensures var f := Crawl(base, queue, visited, fetch).fetched;
      forall k :: 0 <= k < |f| ==> f[k] in queue || QueuedBefore(base, f, k, fetch)
    decreases MaxPages - |visited|, |queue|
  {
    if queue != [] && |visited| < MaxPages {
      CrawlStep(base, queue, visited, fetch);
      var url := queue[0];
      if url in visited {
        CrawlProvenance(base, queue[1..], visited, fetch);
        forall x | x in queue[1..] ensures x in queue { }
      } else if fetch(url).None? || PageParse(url, fetch).None? {
        var links := if fetch(url).None? then [] else LinkTargets(base, fetch(url).value.anchors);
        var q := queue[1..] + links;
        assert fetch(url).None? ==> q == queue[1..];
        var rest := Crawl(base, q, visited + {url}, fetch).fetched;
        CrawlProvenance(base, q, visited + {url}, fetch);
        ShiftQueued(base, url, rest, fetch);
        var f := [url] + rest;
        assert Crawl(base, queue, visited, fetch).fetched == f;
        forall k | 0 <= k < |f| ensures f[k] in queue || QueuedBefore(base, f, k, fetch) {
          if k > 0 && !QueuedBefore(base, rest, k - 1, fetch) {
            assert f[k] == rest[k - 1] && rest[k - 1] in q;
            if f[k] !in queue[1..] {
              assert f[k] in links;
              assert fetch(f[0]).Some? && f[k] in LinkTargets(base, fetch(f[0]).value.anchors);
            } else {
              var i :| 0 <= i < |queue[1..]| && queue[1..][i] == f[k];
              assert queue[i + 1] == f[k];
            }
          }
        }
      }
    }
  }

  /** The URL at `k` was queued by a page fetched before it. */
  predicate QueuedBefore(base: string, f: seq<string>, k: int, fetch: string -> Option<Page>)
    requires 0 <= k < |f|
  {
    exists j :: 0 <= j < k && fetch(f[j]).Some? && f[k] in LinkTargets(base, fetch(f[j]).value.anchors)
  }

  lemma ShiftQueued(base: string, url: string, rest: seq<string>, fetch: string -> Option<Page>)
    ensures forall k :: 0 <= k < |rest| && QueuedBefore(base, rest, k, fetch) ==> QueuedBefore(base, [url] + rest, k + 1, fetch)
  {
    var f := [url] + rest;
    forall k | 0 <= k < |rest| && QueuedBefore(base, rest, k, fetch) ensures QueuedBefore(base, f, k + 1, fetch) {
      var j :| 0 <= j < k && fetch(rest[j]).Some? && rest[k] in LinkTargets(base, fetch(rest[j]).value.anchors);
      assert f[j + 1] == rest[j] && f[k + 1] == rest[k];
    }
  }

  // ---------------------------------------------------------------------------
  // FIFO order: the crawl visits URLs in the order they were queued
  // ---------------------------------------------------------------------------

  /** What fetching `url` adds to the queue when its page does not parse: its link targets. */
  function LinksOf(base: string, url: string, fetch: string -> Option<Page>): seq<string> {
    match fetch(url)
    case None => []
    case Some(page) => LinkTargets(base, page.anchors)
  }

  /** The links of the pages at `f`, in the order they are appended to the queue. */
  function QueuedBy(base: string, f: seq<string>, fetch: string -> Option<Page>): seq<string> {
    if f == [] then [] else LinksOf(base, f[0], fetch) + QueuedBy(base, f[1..], fetch)
  }

  /** A queue taken from the front: each URL not yet seen, at its first occurrence, in order. */
  function FirstVisits(xs: seq<string>, seen: set<string>): seq<string>
    decreases |xs|
  {
    if xs == [] then []
    else if xs[0] in seen then FirstVisits(xs[1..], seen)
    else [xs[0]] + FirstVisits(xs[1..], seen + {xs[0]})
  }

  /** Every URL of the queue is seen already or visited by FirstVisits. */
  lemma {:induction false} FirstVisitsComplete(xs: seq<string>, seen: set<string>)
    ensures forall u :: u in xs ==> u in seen || u in FirstVisits(xs, seen)
    decreases |xs|
  {
    if xs != [] {
      if xs[0] in seen {
        FirstVisitsComplete(xs[1..], seen);
      } else {
        FirstVisitsComplete(xs[1..], seen + {xs[0]});
      }
      forall u | u in xs ensures u == xs[0] || u in xs[1..] {
        var i :| 0 <= i < |xs| && xs[i] == u;
        if i > 0 { assert xs[1..][i - 1] == u; }
      }
    }
  }

  /** Every link of a fetched page is among the URLs the fetched pages queue. */
  lemma {:induction false} QueuedByMember(base: string, f: seq<string>, fetch: string -> Option<Page>, k: nat)
    requires k < |f|
    ensures forall u :: u in LinksOf(base, f[k], fetch) ==> u in QueuedBy(base, f, fetch)
  {
    if k > 0 {
      QueuedByMember(base, f[1..], fetch, k - 1);
      assert f[1..][k - 1] == f[k];
    }
  }

  lemma QueuedByCons(base: string, url: string, rest: seq<string>, fetch: string -> Option<Page>)
    ensures QueuedBy(base, [url] + rest, fetch) == LinksOf(base, url, fetch) + QueuedBy(base, rest, fetch)
  {
    assert ([url] + rest)[1..] == rest;
  }

  lemma FirstVisitsCons(url: string, ys: seq<string>, seen: set<string>)
    requires url !in seen
    ensures FirstVisits([url] + ys, seen) == [url] + FirstVisits(ys, seen + {url})
  {
    assert ([url] + ys)[1..] == ys;
  }

  lemma FirstVisitsSkip(xs: seq<string>, ys: seq<string>, seen: set<string>)
    requires xs != [] && xs[0] in seen
    ensures FirstVisits(xs + ys, seen) == FirstVisits(xs[1..] + ys, seen)
  {
    assert (xs + ys)[1..] == xs[1..] + ys;
  }

  /**
   * The FIFO promise of an outcome of a crawl from `queue`: the URLs it fetched are the
   * first ones that the queue and the pages fetched from it yield, each not yet visited,
   * in the order they were queued; and if it found nothing before the budget ran out, it
   * fetched every one of them.
   */
  predicate Fifo(base: string, queue: seq<string>, visited: set<string>, o: Outcome, fetch: string -> Option<Page>) {
    && o.fetched <= FirstVisits(queue + QueuedBy(base, o.fetched, fetch), visited)
    && (o.result.None? && |visited| + |o.fetched| < MaxPages ==>
          o.fetched == FirstVisits(queue + QueuedBy(base, o.fetched, fetch), visited))
  }

  /** A URL already visited is dropped from the front of the queue. */
  lemma FifoSkip(base: string, queue: seq<string>, visited: set<string>, o: Outcome, fetch: string -> Option<Page>)
    requires queue != [] && queue[0] in visited
    requires Fifo(base, queue[1..], visited, o, fetch)
    ensures Fifo(base, queue, visited, o, fetch)
  {
    FirstVisitsSkip(queue, QueuedBy(base, o.fetched, fetch), visited);
  }

  /** A crawl that stops at the front URL with a parse. */
  lemma FifoParsed(base: string, queue: seq<string>, visited: set<string>, r: Option<Parsed>, fetch: string -> Option<Page>)
    requires queue != [] && queue[0] !in visited && r.Some?
    ensures Fifo(base, queue, visited, Outcome(r, [queue[0]]), fetch)
  {
    var url := queue[0];
    var ys := queue[1..] + QueuedBy(base, [url], fetch);
    assert queue + QueuedBy(base, [url], fetch) == [url] + ys;
    FirstVisitsCons(url, ys, visited);
  }

  /** A crawl that fetches the front URL, queues its links and goes on. */
  lemma FifoAfter(base: string, queue: seq<string>, visited: set<string>, o: Outcome, fetch: string -> Option<Page>)
    requires queue != [] && queue[0] !in visited && |visited + {queue[0]}| == |visited| + 1
    requires Fifo(base, queue[1..] + LinksOf(base, queue[0], fetch), visited + {queue[0]}, o, fetch)
    ensures Fifo(base, queue, visited, After(queue[0], o), fetch)
  {
    var url := queue[0];
    var links := LinksOf(base, url, fetch);
    var later := QueuedBy(base, o.fetched, fetch);
    var inner := FirstVisits((queue[1..] + links) + later, visited + {url});
    QueuedByCons(base, url, o.fetched, fetch);
    assert QueuedBy(base, [url] + o.fetched, fetch) == links + later;
    PrependFront(queue, links, later);
    FirstVisitsCons(url, (queue[1..] + links) + later, visited);
    assert FirstVisits(queue + (links + later), visited) == [url] + inner;
    PrefixCons(url, o.fetched, inner);
  }

  lemma PrependFront(queue: seq<string>, links: seq<string>, later: seq<string>)
    requires queue != []
    ensures queue + (links + later) == [queue[0]] + ((queue[1..] + links) + later)
  {
    assert queue == [queue[0]] + queue[1..];
  }

  lemma PrefixCons(x: string, a: seq<string>, b: seq<string>)
    requires a <= b
    ensures [x] + a <= [x] + b
  {
    assert ([x] + b)[..|a| + 1] == [x] + b[..|a|];
  }

  /** The crawl keeps the FIFO promise. */
  lemma {:induction false} CrawlFifo(base: string, queue: seq<string>, visited: set<string>, fetch: string -> Option<Page>)
    requires |visited| <= MaxPages
    ensures Fifo(base, queue, visited, Crawl(base, queue, visited, fetch), fetch)
    decreases MaxPages - |visited|, |queue|
  {
    if queue != [] && |visited| < MaxPages {
      CrawlStep(base, queue, visited, fetch);
      var url := queue[0];
      if url in visited {
        CrawlFifo(base, queue[1..], visited, fetch);
        FifoSkip(base, queue, visited, Crawl(base, queue[1..], visited, fetch), fetch);
      } else if PageParse(url, fetch).Some? {
        FifoParsed(base, queue, visited, PageParse(url, fetch), fetch);
      } else {
        var q := queue[1..] + LinksOf(base, url, fetch);
        assert fetch(url).None? ==> q == queue[1..];
        CrawlFifo(base, q, visited + {url}, fetch);
        FifoAfter(base, queue, visited, Crawl(base, q, visited + {url}, fetch), fetch);
      }
    }
  }

  /**
   * From the homepage, in FIFO order: the URLs fetched are the first distinct ones of
   * the homepage followed by the links of the fetched pages, in the order they were
   * queued.  The crawl gives up only when the budget is spent or the queue runs dry:
   * with no result and fewer than five fetches, every link of every fetched page, that
   * is every resolvable href of its academic anchors, was fetched too.
   */
  lemma FindAndParseFifo(homepage: string, fetch: string -> Option<Page>)
    ensures var o := FindAndParse(homepage, fetch);
      o.fetched <= FirstVisits([homepage] + QueuedBy(BaseUrl(homepage), o.fetched, fetch), {})
    ensures var o := FindAndParse(homepage, fetch);
      o.result.None? && |o.fetched| < MaxPages ==>
        o.fetched == FirstVisits([homepage] + QueuedBy(BaseUrl(homepage), o.fetched, fetch), {})
        && (forall k, u :: 0 <= k < |o.fetched| && u in LinksOf(BaseUrl(homepage), o.fetched[k], fetch) ==> u in o.fetched)
        && (forall k, a ::
              (0 <= k < |o.fetched| && fetch(o.fetched[k]).Some? && a in fetch(o.fetched[k]).value.anchors
               && IsAcademic(a) && Resolve(BaseUrl(homepage), a.href).Some?)
              ==> Resolve(BaseUrl(homepage), a.href).value in o.fetched)
  {
    var base := BaseUrl(homepage);
    var o := FindAndParse(homepage, fetch);
    CrawlFifo(base, [homepage], {}, fetch);
    if o.result.None? && |o.fetched| < MaxPages {
      var xs := [homepage] + QueuedBy(base, o.fetched, fetch);
      FirstVisitsComplete(xs, {});
      forall k, u | 0 <= k < |o.fetched| && u in LinksOf(base, o.fetched[k], fetch) ensures u in o.fetched {
        QueuedByMember(base, o.fetched, fetch, k);
      }
      forall k, a | 0 <= k < |o.fetched| && fetch(o.fetched[k]).Some? && a in fetch(o.fetched[k]).value.anchors
          && IsAcademic(a) && Resolve(base, a.href).Some?
        ensures Resolve(base, a.href).value in o.fetched
      {
        LinkTargetsShape(base, fetch(o.fetched[k]).value.anchors);
        QueuedByMember(base, o.fetched, fetch, k);
      }
    }
  }

  /**
   * From the homepage: at most five URLs are fetched, none twice, the homepage first;
   * every later one was queued by a page fetched before it; and the result is the parse
   * of the last page fetched, every earlier one having failed or not parsed.
   */
  lemma FindAndParseSpec(homepage: string, fetch: string -> Option<Page>)
    ensures var o := FindAndParse(homepage, fetch);
      && 1 <= |o.fetched| <= MaxPages && NoDuplicates(o.fetched) && o.fetched[0] == homepage
      && (forall k :: 1 <= k < |o.fetched| ==> QueuedBefore(BaseUrl(homepage), o.fetched, k, fetch))
      && (o.result.Some? ==> o.result == PageParse(o.fetched[|o.fetched| - 1], fetch))
      && (forall k :: 0 <= k < |o.fetched| && (o.result.None? || k < |o.fetched| - 1) ==> PageParse(o.fetched[k], fetch).None?)
  {
    var base := BaseUrl(homepage);
    var o := FindAndParse(homepage, fetch);
    CrawlBudget(base, [homepage], {}, fetch);
    CrawlResultLast(base, [homepage], {}, fetch);
    CrawlResultEarlier(base, [homepage], {}, fetch);
    CrawlProvenance(base, [homepage], {}, fetch);
    assert o.fetched[0] == homepage;
    forall k | 1 <= k < |o.fetched| ensures QueuedBefore(base, o.fetched, k, fetch) {
      assert o.fetched[k] != o.fetched[0];
    }
  }

  /** A homepage that fails to fetch ends the crawl at once with no result: nothing else is queued. */
  lemma HomepageFails(homepage: string, fetch: string -> Option<Page>)
    requires fetch(homepage).None?
    ensures FindAndParse(homepage, fetch) == Outcome(None, [homepage])
  {
    CrawlStep(BaseUrl(homepage), [homepage], {}, fetch);
    assert [homepage][1..] == [];
  }
}
