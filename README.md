# Indian university grading crawler: a Dafny model

This project models the core of `scripts/crawl_india_grading.py`, a crawler that builds a catalog of university grading systems. Its parts are:

- a link extractor. It reads a Wikipedia list of Indian universities and returns the university article links, de-duplicated by lower-cased name.
- the country-link filter. It reads the global index of university lists and returns (list-page URL, country) pairs, de-duplicated.
- a table interpreter. It finds grading tables on a page, reads grade rows (label, points, optional percentage range), infers the scale from the page's tokens or from the largest points value, and rejects implausible tables.
- a bounded breadth-first crawler. Starting from a homepage it fetches at most five pages, following same-site or absolute links whose text or URL looks academic, and stops at the first page whose tables parse.
- `normalize_system`, which turns a parse into a system record whose id is the slug of the university name.
- `is_valid_indian_system` with its label test `looks_like_grade_label`.
- `merge_into_existing`. It drops invalid "India" systems from the catalog, upserts new systems by id in a dictionary that keeps insertion order, bumps the last version segment and stamps the date.

Modules, in dependency order:

- `Wrappers`: Option.
- `Text`: ASCII string helpers: lower-casing, `strip`, join, digit runs, decimal conversion.
- `UniqueBy`: the "seen set" de-duplication loop, with its first-occurrence specification.
- `Links`: both link extractors.
- `Patterns`: the table interpreter's regular expressions, as predicates.
- `Tables`: `try_parse_grading_table`.
- `Crawler`: `find_and_parse_grading`.
- `Schema`: the JSON records.
- `Slug`: `normalize_system`.
- `Validator`: the validity test.
- `Merger`: the catalog merge.
- `Fixtures`: concrete cases of the pipeline.

Each loop of the source is a method with loop invariants, and each method is proved equal to a specification function:

- `CollectUniversities`, `CollectCountryLinks`, `KeepFirstByKey`
- `ParseRow`, `ParseCandidate`, `TryParseGradingTable`
- `FindAndParseGrading`, `QueueLinks`
- `IsValidIndianSystem`
- `CleanExisting`, `IndexById`, `UpsertNew`, `ListValues`

The methods without a loop of their own are proved equal to their specification functions the same way:

- `ExtractUniversities` and `CountryLinks` compose a loop with the de-duplication.
- `MergeIntoExisting` composes the four merge steps.

What the source promises is proved as lemmas about those functions.

A regular-expression search is modelled as a predicate over match positions. Where a greedy `\d+`, `\d{1,3}` or `\s*` is followed by something it cannot match, only its longest run can lead to a match, so the model takes that run.

## Model

| member | source | states |
|---|---|---|
| UniqueBy.KeepFirstByKey | scripts/crawl_india_grading.py:62-70 | the seen-set loop returns the de-duplication of its input by the key |
| UniqueBy.DedupIsFirstOccurrences | scripts/crawl_india_grading.py:62-70 | the de-duplication is exactly the elements whose key did not occur earlier, in order, and it loses no key |
| UniqueBy.DedupKeysUnique | scripts/crawl_india_grading.py:62-70 | no two elements of the de-duplicated list share a key |
| UniqueBy.DedupSubset | scripts/crawl_india_grading.py:62-70 | every element of the de-duplicated list is an element of the input |
| Links.CollectUniversities | scripts/crawl_india_grading.py:39-60 | the anchor loop returns the candidate list: one University per anchor passing the filter, in order |
| Links.ExtractUniversities | scripts/crawl_india_grading.py:35-70 | the extractor returns the candidates de-duplicated by lower-cased name |
| Links.CandidatesSound | scripts/crawl_india_grading.py:39-60 | every candidate comes from an anchor with a non-empty stripped name and an article href, with no excluded token and with an institution keyword; its url is the Wikipedia host plus the href |
| Links.CandidatesComplete | scripts/crawl_india_grading.py:39-60 | every anchor passing the filter yields a candidate |
| Links.ExtractUniversitiesProperties | scripts/crawl_india_grading.py:35-70 | the extracted universities are well-formed, unique by lower-cased name, the first of each name in anchor order, and every filtered anchor's name is represented |
| Links.FirstLine | scripts/crawl_india_grading.py:245-246 | the part of a link text a `.` pattern can match: the longest newline-free prefix |
| Links.LastInAt | scripts/crawl_india_grading.py:245-246 | where the greedy `.*` before " in " stops: the last " in " with a character after it |
| Links.TitleMatchShape | scripts/crawl_india_grading.py:245-247 | a match starts with the prefix, ignoring case, and its group is the rest of the first line after the last " in " |
| Links.CountryOfShape | scripts/crawl_india_grading.py:245-249 | the country is the stripped text after the last " in " that follows a "List of universities" or "List of colleges" prefix of the title's first line |
| Links.CollectCountryLinks | scripts/crawl_india_grading.py:237-250 | the anchor loop returns one (Wikipedia URL, country) pair per article anchor whose text names a country, in order |
| Links.CountryLinks | scripts/crawl_india_grading.py:237-259 | the filter returns those pairs de-duplicated by (url, lower-cased country) |
| Links.CountryCandidatesSound | scripts/crawl_india_grading.py:237-250 | every pair comes from an article anchor whose stripped text names that country |
| Links.CountryCandidatesComplete | scripts/crawl_india_grading.py:237-250 | every article anchor whose text names a country yields its (url, country) pair |
| Links.CountryLinksComplete | scripts/crawl_india_grading.py:237-259 | no such anchor's (url, lower-cased country) is lost by the de-duplication |
| Links.CountryLinksProperties | scripts/crawl_india_grading.py:237-259 | every pair comes from an anchor naming the country; keys never repeat; the first pair of each key is kept, in order; no key is lost; and every anchor naming a country has its key in the result |
| Patterns.DigitSlice | scripts/crawl_india_grading.py:115 | a run of digits checked one by one is a digit string |
| Patterns.NumberAt | scripts/crawl_india_grading.py:115-118 | the float of the greedy `\d+(?:\.\d+)?` match at a digit is not negative |
| Patterns.FirstNumberFrom | scripts/crawl_india_grading.py:115-118 | None exactly when no digit follows the position; otherwise the number that starts at the first such digit |
| Patterns.FirstNumber | scripts/crawl_india_grading.py:115-118 | a cell has a number exactly when it has a digit, and that number is not negative |
| Patterns.GuessScale | scripts/crawl_india_grading.py:73-84 | the first rule that fires decides: 10 for "outstanding"/"o grade" with "10", 10 for SGPA/CGPA with a 10-point marker, 7 for a 7-point marker, 4 for "/4" or "4.0 scale"; None exactly when no rule fires |
| Tables.PointsOfNone | scripts/crawl_india_grading.py:114-122 | a row's cells give no points exactly when no cell holds a number |
| Tables.PointsOfFirst | scripts/crawl_india_grading.py:114-122 | the points are the number of a cell, and no earlier cell holds one |
| Tables.PercentageOfNone | scripts/crawl_india_grading.py:124-127 | a row has no percentage exactly when no cell holds a range |
| Tables.PercentageOfFirst | scripts/crawl_india_grading.py:124-127 | the percentage is the first cell holding a range, with its whitespace removed |
| Tables.ParseRow | scripts/crawl_india_grading.py:109-130 | the row loops return the grade of the row: label, first number, first range |
| Tables.GradeOfRowShape | scripts/crawl_india_grading.py:109-130 | a grade's label is the row's non-empty first cell, its points are a later cell's first number and not negative, and it has a percentage exactly when a later cell holds a range, which then has no whitespace |
| Tables.DataRows | scripts/crawl_india_grading.py:98-102 | every row kept has at least two cells |
| Tables.DataRowsFromRows | scripts/crawl_india_grading.py:98-102 | the rows kept are exactly the rows of the table with at least two cells |
| Tables.DataRowsKeepAll | scripts/crawl_india_grading.py:98-102 | rows that all have two cells are all kept |
| Tables.MaxPoints | scripts/crawl_india_grading.py:134 | the maximum is some grade's points and bounds all of them |
| Tables.CandidateTables | scripts/crawl_india_grading.py:89-95 | every table kept has a non-empty header text naming a grading column |
| Tables.CandidateTablesFrom | scripts/crawl_india_grading.py:89-95 | the candidates are exactly the page's tables whose header qualifies |
| Tables.ParseCandidate | scripts/crawl_india_grading.py:96-143 | the loop body for one table computes its parse |
| Tables.TryParseGradingTable | scripts/crawl_india_grading.py:87-144 | the method returns the first candidate table that parses |
| Tables.ParseTableSound | scripts/crawl_india_grading.py:96-143 | a parse has grades, each read from a row of the table with a non-empty label and points that are not negative, and every row of two or more cells with a label and a number gives its grade; its scale is the token guess or the largest points value; its points do not exceed 10 when its scale is at most 10 |
| Tables.GradesFromRows | scripts/crawl_india_grading.py:109-130 | every grade comes from a row of the list |
| Tables.RowsGiveGrades | scripts/crawl_india_grading.py:109-130 | every row that yields a grade contributes it |
| Tables.FirstParseSpec | scripts/crawl_india_grading.py:96-144 | no result exactly when no candidate parses; otherwise the parse of some candidate, all earlier ones having failed |
| Tables.ParseTablesSpec | scripts/crawl_india_grading.py:87-144 | no result exactly when no qualifying table parses; otherwise the parse of a qualifying table |
| Tables.NoHeaderNoParse | scripts/crawl_india_grading.py:89-95 | a page with no qualifying header has no candidates and no result |
| Crawler.HostRun | scripts/crawl_india_grading.py:154 | `[^/]+` as the longest slash-free run |
| Crawler.BaseUrlShape | scripts/crawl_india_grading.py:154-157 | the base is a prefix of the homepage; when it differs it is the scheme and host |
| Crawler.ResolveShape | scripts/crawl_india_grading.py:179-184 | a relative href resolves to base plus href, an absolute one to itself |
| Crawler.QueueLinks | scripts/crawl_india_grading.py:175-187 | the link loop queues the resolved targets of the academic-looking anchors, in order |
| Crawler.LinkTargetsShape | scripts/crawl_india_grading.py:175-187 | the queued URLs are exactly the resolutions of the academic-looking anchors whose href resolves |
| Crawler.CrawlStep | scripts/crawl_india_grading.py:160-187 | one turn of the loop: skip a visited URL; skip a failed fetch, which still counts against the budget; stop on a parse; or queue the page's links |
| Crawler.FindAndParseGrading | scripts/crawl_india_grading.py:147-188 | the while loop computes the crawl's outcome: its result and the URLs it fetched |
| Crawler.CrawlBudget | scripts/crawl_india_grading.py:158-164 | the fetched URLs are distinct, never previously visited, and no more than the budget allows |
| Crawler.CrawlResultLast | scripts/crawl_india_grading.py:170-173 | a result is the parse of the last page fetched |
| Crawler.CrawlResultEarlier | scripts/crawl_india_grading.py:165-173 | every page fetched before the last gave no parse, and every page did when nothing was found |
| Crawler.CrawlProvenance | scripts/crawl_india_grading.py:160-187 | every fetched URL was queued at the start or by a page fetched earlier |
| Crawler.FindAndParseSpec | scripts/crawl_india_grading.py:147-188 | from a homepage: one to five distinct URLs are fetched, the homepage first, each later one queued by an earlier page; the result is the parse of the last, every earlier one having failed (visiting order and when the crawl stops: Crawler.FindAndParseFifo) |
| Crawler.FirstVisitsComplete | scripts/crawl_india_grading.py:160-164 | a queue taken from the front with a visited set reaches every URL of the queue that was not visited already |
| Crawler.QueuedByMember | scripts/crawl_india_grading.py:175-187 | every link of a fetched page is among the URLs the fetched pages append to the queue |
| Crawler.CrawlFifo | scripts/crawl_india_grading.py:160-188 | FIFO order: the URLs fetched are a prefix of the not-yet-visited first occurrences of the queue followed by the links of the fetched pages, in the order they were queued; with no result and budget left, they are all of them |
| Crawler.FindAndParseFifo | scripts/crawl_india_grading.py:147-188 | from the homepage the crawl fetches in FIFO order. It gives up without a result only when five pages are spent or every link of every fetched page, that is every resolvable href of its academic anchors, was fetched |
| Crawler.HomepageFails | scripts/crawl_india_grading.py:160-167 | a homepage that cannot be fetched ends the crawl with no result after one fetch |
| Text.Lower | scripts/crawl_india_grading.py:192 | `str.lower` on ASCII: same length, each letter lowered |
| Text.StripEnds | scripts/crawl_india_grading.py:40 | `str.strip` leaves no whitespace at either end |
| Text.StripSlice | scripts/crawl_india_grading.py:40 | `str.strip` removes only whitespace, and only at the ends: the result is a contiguous slice of the input |
| Text.StripIdempotent | scripts/crawl_india_grading.py:302-303 | stripping twice is stripping once |
| Text.NatToStringValue | scripts/crawl_india_grading.py:355 | `str` of a number is a digit string whose value is that number |
| Text.NatToStringCanonical | scripts/crawl_india_grading.py:355 | `str` of a number is "0" for zero and has no leading zero otherwise |
| Slug.SkipRunSkipsOthers | scripts/crawl_india_grading.py:192 | a maximal run of other characters is skipped, and the rest starts with a letter or digit |
| Slug.SubstShape | scripts/crawl_india_grading.py:192 | the substitution leaves only [a-z0-9_], never two '_' in a row, and the letters and digits of its input in order |
| Slug.SubstFixed | scripts/crawl_india_grading.py:192 | a string already in slug form is left unchanged by the substitution |
| Slug.StripUnderscores | scripts/crawl_india_grading.py:192 | `strip("_")` leaves no '_' at either end |
| Slug.SlugOf | scripts/crawl_india_grading.py:192 | an id holds only [a-z0-9_], never two '_' in a row, and starts and ends with a letter or digit |
| Slug.SlugAlnums | scripts/crawl_india_grading.py:192 | the id keeps exactly the letters and digits of the lower-cased name, in order |
| Slug.SlugIdempotent | scripts/crawl_india_grading.py:192 | slugging an id gives it back |
| Slug.NormalizeSystemSpec | scripts/crawl_india_grading.py:191-201 | the record's id is the slug, its description is the name plus " grading system", and the other fields and the grades are passed through |
| Validator.LooksLikeGradeLabelShape | scripts/crawl_india_grading.py:302-313 | the label test accepts a label exactly when its stripped form is one or two grade letters with an optional sign, "HD", "First", "Pass", "Fail", or one to three digits with an optional 'L' |
| Validator.KnownLabelShape | scripts/crawl_india_grading.py:311 | every known label is a letter grade with an optional sign, or "HD" |
| Validator.ShapeLength | scripts/crawl_india_grading.py:303-304 | a label of grade shape has one to five characters |
| Validator.IsValidIndianSystem | scripts/crawl_india_grading.py:291-329 | the validator returns true exactly when the scale is allowed, there are at least three rows, each row is an object with points in [0, scale + 1e-6] and a string label of grade shape, and no raw label repeats |
| Validator.ValidIndianRows | scripts/crawl_india_grading.py:291-329 | a valid system has an allowed scale, three or more rows, points in range and stripped labels of 1 to 20 characters of a grade shape |
| Validator.ScaleRejected | scripts/crawl_india_grading.py:293-298 | a missing scale, or one outside the allowed set, rejects the system whatever its rows |
| Validator.ScaleThreeRejected | scripts/crawl_india_grading.py:295-298 | a system with scale 3.0 is rejected |
| Validator.BadRowRejected | scripts/crawl_india_grading.py:314-325 | one bad row rejects the system |
| Validator.RepeatedLabelRejected | scripts/crawl_india_grading.py:326-328 | a repeated label rejects the system |
| Merger.Put | scripts/crawl_india_grading.py:348 | `by_id[id] = s`: the id maps to s, a new id goes last in key order, an old one keeps its place, other entries are unchanged, and the dictionary stays well keyed |
| Merger.Index | scripts/crawl_india_grading.py:340 | the dictionary built from the cleaned systems is well keyed |
| Merger.IndexKeysFirstOccurrence | scripts/crawl_india_grading.py:340 | the dictionary's key order is the ids of the first system of each id |
| Merger.IndexKeySet | scripts/crawl_india_grading.py:340 | the dictionary's keys are exactly the ids of the cleaned systems |
| Merger.IndexHasAll | scripts/crawl_india_grading.py:340 | every id of the cleaned list is a key of the dictionary |
| Merger.CleanedIndexLastWins | scripts/crawl_india_grading.py:334-340 | the dictionary holds, under each id, the last existing system of that id that survives cleaning |
| Merger.IndexFrom | scripts/crawl_india_grading.py:340 | every entry of the dictionary is one of the systems it was built from |
| Merger.UpsertFrom | scripts/crawl_india_grading.py:341-348 | every entry after the upserts is an old entry or an upserted new system |
| Merger.UpsertLastWins | scripts/crawl_india_grading.py:341-348 | the last upserted system of an id is that id's entry |
| Merger.UpsertKeepsKeys | scripts/crawl_india_grading.py:341-348 | upserts never remove a key |
| Merger.UpsertKeepsOthers | scripts/crawl_india_grading.py:341-348 | an entry whose id no upserted new system carries is unchanged |
| Merger.UpsertKeepsOrder | scripts/crawl_india_grading.py:341-348 | upserts keep the existing key order as a prefix |
| Merger.CleanExisting | scripts/crawl_india_grading.py:334-339 | the cleaning loop keeps the existing systems that are not invalid "India" systems, in order |
| Merger.CleanedKept | scripts/crawl_india_grading.py:334-339 | the cleaned systems are exactly the existing systems that survive cleaning |
| Merger.IndexById | scripts/crawl_india_grading.py:340 | the dictionary comprehension builds the index of the cleaned systems |
| Merger.UpsertNew | scripts/crawl_india_grading.py:341-348 | the upsert loop puts every new system with a non-empty id that survives cleaning |
| Merger.ListValues | scripts/crawl_india_grading.py:350 | `list(by_id.values())` lists the entries in key order |
| Merger.ValuesOfSpec | scripts/crawl_india_grading.py:350 | the value list has one entry per key, in key order |
| Merger.JoinSplit | scripts/crawl_india_grading.py:353 | joining the split version with "." gives it back |
| Merger.SplitLast | scripts/crawl_india_grading.py:353-356 | the last part is the text after the last '.', and replacing it keeps everything before |
| Merger.BumpVersionSpec | scripts/crawl_india_grading.py:352-358 | a digit-string last segment is replaced by its value plus one and the rest is kept; any other version is returned unchanged |
| Merger.MergeIntoExisting | scripts/crawl_india_grading.py:332-361 | the method computes the merged catalog |
| Merger.MergedSystems | scripts/crawl_india_grading.py:349-350 | the merged systems are the dictionary's entries in key order, each under its own id |
| Merger.MergedIdsUnique | scripts/crawl_india_grading.py:340-350 | no two merged systems share an id |
| Merger.MergedSources | scripts/crawl_india_grading.py:334-350 | every merged system is a kept existing system or a new system with a non-empty id, and every "India" system in it is valid |
| Merger.MergedUpserts | scripts/crawl_india_grading.py:340-350 | the last upserted new system of each id is in the result, and the surviving existing ids keep their order at the front |
| Merger.MergedKeepsExisting | scripts/crawl_india_grading.py:334-350 | every id of an existing system that survives cleaning is in the result; when no upserted new system carries it, the last surviving existing system of that id is the one listed |
| Merger.MergedFields | scripts/crawl_india_grading.py:349-360 | other fields are kept, the date is the supplied one, and the version is the bump of the old one or of "1.0.0" |
| Fixtures.BumpExample | scripts/crawl_india_grading.py:352-358 | "1.0.3" becomes "1.0.4" |
| Fixtures.BumpUnparsedExample | scripts/crawl_india_grading.py:354-358 | "2.0.beta" is kept as it is |
| Fixtures.SlugExample | scripts/crawl_india_grading.py:192 | the id of "Anna University" is "anna_university" |
| Fixtures.AnnaValid | scripts/crawl_india_grading.py:291-329 | a four-row ten-point system with labels O, A+, A, B+ is valid |
| Fixtures.MergeScenario | scripts/crawl_india_grading.py:332-361 | merging it into an empty catalog at version 1.0.3 gives version 1.0.4, that system alone and the date |
| Fixtures.ImplausibleScenario | scripts/crawl_india_grading.py:140-142 | points 12, 45, 67, 89 under a guessed scale of 10 are rejected |
| Fixtures.MergeSameIdTwice | scripts/crawl_india_grading.py:341-350 | two new systems with one id leave only the later |
| Fixtures.MergeOrderShows | scripts/crawl_india_grading.py:340-350 | two new systems with different ids are listed in the order they came |

## Left out

- Network fetches (`fetch`, lines 25-32) are a parameter: a function from URL to an optional page. A failed fetch, a non-200 status and an empty body are all None.
- HTML parsing (BeautifulSoup) is not modelled. A page is given already extracted: its anchors (text and href), and its tables (header texts, cell texts per row, element texts).
- `crawl_indian_universities`, the second half of `crawl_world_universities`, `country_baselines` and `main` are not modelled. They are the asyncio drivers, fixed data and file I/O; asyncio concurrency and task order are left out with them.
- The date from `datetime.utcnow()` is a parameter of the merge.
- Floats are exact reals. `1e-6` is the decimal 0.000001, and `4.33` in the allowed scales is exact.
- Text is ASCII. `\d`, `\s`, `\b`, `str.lower` and `str.strip` follow their Python meaning on ASCII input, not their meaning on other Unicode characters.
- Patterns.NumberAt: `float()` of the match is the exact decimal value, not the nearest double.
- Merger.BumpVersionSpec: `int()` is taken to accept only strings of ASCII digits. Python also accepts a sign, surrounding whitespace and `_` separators, so "1.-1" becomes "1.0" in Python but is kept unchanged here.
- A version that is not a string makes Python raise outside the `try`; the model's version is always a string or missing.
- JSON types are reduced to what the code tests. A field whose value has a type the code rejects with `isinstance` is None. A `bool` scale or points, which Python accepts as an `int`, is not distinguished from a number.
- The catalog's fields other than version, date and systems are an opaque map. JSON key order of `dict(existing)` is not modelled. A missing "systems" list is the empty list.
- The test `scale_guess is None` (line 137) can never hold, because the maximum of a non-empty list of points always exists. When all points are 0 the scale is 0.0, as in the code.
- The label test accepts "HD" because the code's regex lists it, so the shapes proved for it include "HD".
- merge_into_existing's list of systems follows the order of its input. For distinct ids only its content is order-independent (Fixtures.MergeOrderShows).
