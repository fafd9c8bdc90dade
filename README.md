# ipfs-search link splitter, modelled in Dafny

The link splitter reads the file documents of an ipfs-search index and writes
one edge document per parent reference into a link index. In `src/main.ts` the
pipeline has four stages:

- a scroll reader (`getHits`) that pages through the `ipfs_files` documents of
  one year and releases its cursor at the end;
- an extractor (`getLinks`) that emits one edge `{from, to, name, seen}` for
  every entry of a document's `references`, with identifiers canonicalised by
  `homogeniseCID` and the timestamp taken by `getSeen`/`removeMillis`;
- an identity assigner (`onDocument`, `hashId`, `base64RemovePadding`) that
  gives each edge a deterministic document id in `ipfs_links`;
- the driver `processYear` and the loop of `main` over the years.

`src/exportlinks.ts` reads the link index back and prints `from to` lines, up
to a cap (`docToPairwise`).

The model has one module per stage:

| file | module | models |
|---|---|---|
| `wrappers.dfy` | `Wrappers` | `Option`, `Min` |
| `text.dfy` | `Text` | first occurrence of a character, splitting at it |
| `extractor.dfy` | `Extractor` | `removeMillis`, `getSeen`, the `_source` filter, `getLinks` |
| `scroll.dfy` | `Scroll` | `getHits` over a page source, with the trace of client calls |
| `identity.dfy` | `Identity` | `base64RemovePadding`, `hashId`, `onDocument`, the link index as a map |
| `pipeline.dfy` | `Pipeline` | `processYear`, the years loop of `main` |
| `exportlinks.dfy` | `ExportLinks` | `docToPairwise` |

How the model is set up:

- **Library calls are parameters.** `homogeniseCID` is a `Canonicaliser`, an
  arbitrary `string -> Option<string>`, where `None` means `CID.parse` throws.
  SHA-1 followed by base64 is a `Digest`, an arbitrary `string -> string`.
- **The search client is a page source.** `pages[0]` is the response to the
  initial `search`, and `pages[k + 1]` is the response to the k-th `scroll`.
  For a year, `processYear` is given the pages as stored, and each response
  is served through the scan's `_source` filter.
  The requests the reader sends are recorded as a trace of `Call`s.
- **A generator that throws is an `Emitted` value.** It holds the edges
  handed to the consumer before the throw, plus the failure.
- **Each imperative routine is a `method`, proved against a specification
  function.** The loops of `getHits`, `getLinks`, `processYear`, `main` and
  `docToPairwise` are `method`s. Each one's `ensures` equates its result with
  a function: `AllHits`/`ReaderTrace`, `Links`, `Year`, `Run` and
  `PairwiseLines`. The lemmas prove what those functions promise.

Behaviour of the code that the model keeps as written:

- A hit without a `references` field makes `for (const ref of
  doc._source.references)` throw a TypeError. The model does not treat it as
  zero edges; it is the failure `MissingReferences`.
- When the extractor throws, its `for await` closes `getHits` with
  `return()`. The reader resumes at the `yield` of the current hit with a
  return completion and finishes there. It has no `finally`, so it makes no
  further `scroll` call, never calls `clear_scroll`, and the cursor is not
  released (`YearReleasesCursorIffOk`).
- The scan asks for `_source: ["references", "last-seen"]` (src/main.ts:27).
  The page source holds the documents as stored, and the model applies that
  filter to every hit of every response (`Served`), as the server does.
- A rejected `processYear` propagates out of `main`'s `for` loop, so the
  remaining years are not processed (`RunStopsAtFirstFailure`).
- `years` is `[2016, 2017, 2018, 2020, 2021, 2022, 2023]`. 2019 is not
  among them.

## Model

| member | source | states |
|---|---|---|
| Extractor.RemoveMillis | src/main.ts:76-78 | the result is the first min(len, 19) characters of the input followed by one 'Z' |
| Extractor.RemoveMillisIdempotent | src/main.ts:76-78 | applying removeMillis twice equals applying it once exactly when the input has at least 19 characters |
| Extractor.RemoveMillisExamples | src/main.ts:76-78 | a timestamp with milliseconds loses them: "…10:00:00.123Z" becomes "…10:00:00Z" |
| Extractor.FirstTruthy | src/main.ts:83-85 | the loop over the fields returns at the first truthy one: every earlier field is falsy (absent or empty) |
| Extractor.GetSeen | src/main.ts:80-88 | a truthy last-seen wins; otherwise a truthy first-seen is used; otherwise null, each value passed through removeMillis |
| Extractor.SeenExamples | src/main.ts:80-88 | worked cases: both fields present, only first-seen present, neither present |
| Extractor.ProjectCompose | src/main.ts:27 | filtering by one field list and then another is filtering by the fields the two lists share; filtering twice by the same list changes nothing more |
| Extractor.ScanDropsFirstSeen | src/main.ts:27 | on documents returned through the scan's filter, seen is removeMillis(last-seen) or null; without last-seen it differs from the stored document's seen whenever first-seen is set |
| Extractor.ScanDropsFirstSeenExample | src/main.ts:27 | a document with only first-seen gets seen = null through the filter, but "2020-01-01T00:00:00Z" without it |
| Extractor.ReadFieldsKeepSeen | src/main.ts:80-88 | filtering with every field the extractor reads leaves getSeen and references as on the stored document |
| Extractor.RefEdgesWellFormed | src/main.ts:98-104 | when every parent hash parses, the inner loop yields one edge per reference, in order, with from = canonical parent hash, the document's to, the reference's name and the document's seen |
| Extractor.RefEdgesFailIffMalformed | src/main.ts:98-100 | the inner loop throws exactly when some parent hash is malformed |
| Extractor.RefEdgesFailFast | src/main.ts:98-104 | once the inner loop has thrown, later references add nothing |
| Extractor.LinksWellFormed | src/main.ts:94-104 | when every identifier parses and every document has references, getLinks ends normally and yields the concatenation of the per-document edge lists |
| Extractor.LinksFailIffMalformed | src/main.ts:94-104 | getLinks throws exactly when some document has a malformed id or parent hash, or has no references field |
| Extractor.LinksFailFast | src/main.ts:94-116 | once getLinks has thrown, later documents add nothing to the stream |
| Extractor.RefEdgesSeen | src/main.ts:95-104 | every edge of one document carries that document's seen |
| Extractor.LinksSeen | src/main.ts:94-116 | every edge getLinks yields carries getSeen of one of the documents it read |
| Extractor.EdgeCount | src/main.ts:98-104 | the number of edges equals the total number of references; an empty list yields no edge |
| Extractor.EdgeOrigin | src/main.ts:94-104 | the edge at position (references of documents before i) + j comes from reference j of document i: from and name from that reference, to and seen from the document |
| Extractor.LinksOkPrefix | src/main.ts:94-116 | a stream that ends normally on some prefix also ends normally on every shorter prefix |
| Extractor.FailedAt | src/main.ts:94-116 | a failed stream has a failing document: getLinks got through every earlier document, and that document's own processing throws |
| Extractor.FailedAtBetween | src/main.ts:94-116 | if getLinks ends normally on the first a documents and throws on the first b, it throws within documents a..b-1, and the whole stream is the stream over the first b |
| Extractor.FailedAtUnique | src/main.ts:94-116 | the failing document is the first one whose own processing throws |
| Extractor.LinksAppend | src/main.ts:94-116 | after a prefix that ends normally, the stream continues with the stream of the remaining documents, which also decides the failure |
| Extractor.DocumentLinks | src/main.ts:95-110 | one turn of the outer loop: canonicalise _id, compute seen, then run the reference loop, which stops at the first malformed hash, equals DocLinks |
| Extractor.GetLinks | src/main.ts:90-117 | the loop over the documents yields exactly the stream Links, and stops at the first failure |
| Scroll.FirstEmpty | src/main.ts:41 | the scroll loop stops at the first empty response and at no earlier one |
| Scroll.ScrollCallsAppend | src/main.ts:41-47 | the scroll calls after two runs of responses are those after the first run, then those after the second: each call depends only on the response before it |
| Scroll.ReaderTraceShape | src/main.ts:29-59 | a complete scan makes one search on ipfs_files, then one scroll per non-empty response, each with that response's id, then exactly one clear_scroll with the id of the empty response; a first empty page gives search then clear_scroll |
| Scroll.SuspendedTraceKeepsCursor | src/main.ts:37-59 | a reader suspended inside page p has made p + 1 calls, none of them clear_scroll |
| Scroll.PageOf | src/main.ts:37-52 | every yielded hit belongs to a page: hit i comes after the hits of the earlier pages and before the end of its own page |
| Scroll.AllHitsPrefix | src/main.ts:37-52 | reading more pages only extends the hits yielded so far |
| Scroll.PageOfUnique | src/main.ts:37-52 | hit i lies in exactly one page |
| Scroll.GetHits | src/main.ts:13-60 | getHits yields the hits of every page before the first empty one, in order, and its calls are the complete-scan trace |
| Identity.RemovePadding | src/main.ts:62-64 | the result is the input with at most two trailing '=' removed, only '=' removed, and none left when fewer than two were removed; an input without trailing '=' is unchanged |
| Identity.PaddingStrippedUnique | src/main.ts:62-64 | that description fixes the result completely |
| Identity.HashId | src/main.ts:66-70 | the id is the padding-stripped digest of the input |
| Identity.KeyStringInjective | src/main.ts:129 | the hashed string "ipfs://" + from + "-ipfs://" + to + "-" + name (KeyString) determines the triple: when from and to hold no '-', two key strings are equal if and only if their triples are |
| Identity.KeyStringAmbiguous | src/main.ts:129 | without that condition, ("a","b-c","d") and ("a","b","c-d") give the same key string |
| Identity.OnDocument | src/main.ts:125-131 | every action indexes into ipfs_links, with the hashId of the edge's key string as its id |
| Identity.SameTripleSameId | src/main.ts:125-131 | edges with the same from, to and name get the same id, whatever their seen |
| Identity.BulkItemsAppend | src/main.ts:122-132 | the operations for two runs of edges are those of the first run, then those of the second: each edge's operation depends on that edge alone |
| Identity.ApplyOverrides | src/main.ts:122-132 | performing the operations in order equals overriding the index with the written documents, the last write to an id winning |
| Identity.ApplyTwice | src/main.ts:122-132 | replaying the same operations on the index they produced changes nothing |
| Pipeline.ServedEnds | src/main.ts:27 | the `_source` filter keeps the number of hits in each response, so the scan of the served responses ends at the same page as the scan of the stored documents |
| Pipeline.ServedHits | src/main.ts:27 | the hits read from the first k served responses are the stored hits of the first k pages, each through the filter, in order |
| Pipeline.YearSeenFromLastSeen | src/main.ts:27 | as written, every edge of a year carries removeMillis of the last-seen of one of the scanned stored documents, or null; first-seen never reaches it |
| Pipeline.YearOutcomeWellFormed | src/main.ts:119-137 | when every identifier of a year parses, processYear does not fail, releases its cursor and hands over one operation per reference, the i-th carrying the i-th edge of the reference definition |
| Pipeline.YearReleasesCursorIffOk | src/main.ts:119-137 | a year's calls include the clear_scroll exactly when processYear succeeds; a failed year never calls clear_scroll |
| Pipeline.FailsInPage | src/main.ts:119-137 | if the extractor gets through pages 0..k-1 and fails inside page k, then page k precedes the empty page, the year's stream is the stream up to the failure, and the failing hit lies in page k |
| Pipeline.SuspendInPage | src/main.ts:119-137 | a year that fails inside page k hands over the operations for the edges up to the failure, and its only calls are the search and the scrolls before page k |
| Pipeline.ScanComplete | src/main.ts:119-137 | a year whose extractor gets through the whole scan hands over the operations of the whole stream and makes the complete-scan calls |
| Pipeline.ProcessYear | src/main.ts:119-137 | the interleaving of reader, extractor and bulk writer over the stored documents of a year, each response passed through the `_source` filter, produces exactly Year, the YearOutcome of the served responses: the operations, the client calls and the failure |
| Pipeline.RunLength | src/main.ts:144-148 | the run covers a prefix of the years and always includes the first year |
| Pipeline.RunOutcomes | src/main.ts:144-148 | the i-th outcome is processYear (Year) of the stored documents of the i-th year |
| Pipeline.RunStopsAtFirstFailure | src/main.ts:144-148 | no outcome but the last is a failure, and when years are skipped the last outcome is a failure |
| Pipeline.RunYears | src/main.ts:144-148 | main's loop over the years constant [2016, 2017, 2018, 2020, 2021, 2022, 2023] (src/main.ts:11) produces exactly Run over those years |
| Pipeline.RerunChangesNothing | src/main.ts:119-137 | re-applying a year's operations to the index they produced leaves it unchanged |
| ExportLinks.Line | src/exportlinks.ts:30 | a line is from, exactly one space, to, and exactly one trailing newline |
| ExportLinks.ParseLine | src/exportlinks.ts:30 | any document read back from a line prints as that same line |
| ExportLinks.LineRoundTrip | src/exportlinks.ts:30 | reading back a document's line gives the document when from holds no space |
| ExportLinks.LineAmbiguous | src/exportlinks.ts:30 | with a space in from, two documents print the same line |
| ExportLinks.LinesAppend | src/exportlinks.ts:29-30 | the lines of two runs of documents are the lines of the first run, then those of the second: each line depends on its own document alone |
| ExportLinks.PairwiseCount | src/exportlinks.ts:27-35 | the emitted lines are those of a prefix of the input: at most cap + 1 lines, all of an input of at most cap + 1 documents, and exactly cap + 1 lines of a longer input |
| ExportLinks.OneLineOverCap | src/exportlinks.ts:31-33 | with more than cap documents, cap + 1 lines are emitted, one more than the cap |
| ExportLinks.OneLineOverMaxElems | src/exportlinks.ts:9 | with maxElems = 1000 and 1001 documents, all 1001 lines are emitted |
| ExportLinks.DocToPairwise | src/exportlinks.ts:27-35 | the loop with its counter and early return, as written, emits exactly PairwiseLines for maxElems |
| ExportLinks.CappedCount | src/exportlinks.ts:27-35 | corrected cap: at most cap lines, those of a prefix of the input, all of an input of at most cap documents, exactly cap of a longer one |
| ExportLinks.DocToPairwiseCapped | src/exportlinks.ts:27-35 | the loop with the counter checked before the yield emits exactly CappedLines for maxElems |

## Left out

- The OpenSearch client and its connection are replaced by a page source for the scan and by operations for the writer. The query construction (range filter on the year, exists filter, batch size, sort, scroll time) is elastic-builder code and has no counterpart; only the `_source` field list is modelled.
- The bulk helper's buffering, flushing, retries, `require_alias` and the `onDrop` callback are library code. A year's output is the list of operations handed to the helper, and the index is a map updated by each `index` operation.
- SHA-1 and base64 (`crypto`) and CID parsing (`multiformats`) are foreign calls; they are the parameters `Digest` and `Canonicaliser`, about which nothing is assumed.
- Logging (`console.*`) and the document and reference counters that exist only to log their values are not modelled.
- `src/audioquery.ts` only builds and prints a query; process startup, client construction and the stdout stream pipeline of `src/exportlinks.ts` are I/O.
- Asynchronous scheduling is not modelled. `await` points are sequenced. The generators' laziness appears only in what a failure leaves behind: the reader's calls up to the failing page.
- Scroll.GetHits: requires that some response is empty. The source would keep scrolling for ever against a server that never returns an empty page.
- Pipeline.ProcessYear: requires an empty response in the year's pages, as Scroll.GetHits does, even when the extractor fails on an earlier page and the pages after it are never requested. The same holds for Pipeline.YearOutcome, Pipeline.Year and Pipeline.Run.
- Scroll.GetHits, Pipeline.YearReleasesCursorIffOk: the client's `search`, `scroll` and `clear_scroll` (src/main.ts:29, 42, 55) never fail in the model. In the source a rejected call throws out of `getHits`, rejects `processYear` and ends `main`'s loop; a failed year here is always an extractor failure.
- Strings are sequences of characters; the UTF-16 representation of JavaScript strings and the byte encoding hashed by SHA-1 are inside `Digest`.
- Missing fields are not modelled. A reference without a `name` yields an edge with `name: undefined`, and the template literal then hashes the text "undefined". A reference without a `parent_hash` makes `CID.parse(undefined)` throw. A link document without `from` or `to` prints the text "undefined". The model gives every reference a name and a parent hash, and every link document both ends.
- Documents whose `last-seen` or `first-seen` is not a string are not modelled. Only absent, empty and non-empty strings are.
- ExportLinks.DocToPairwise: the scroll over `ipfs_links` that feeds it (`scrollDocuments`) is library code; the documents arrive as a sequence.

## Findings

| source | as written | input that shows it | evidently intended | confidence | as-written member | corrected member |
|---|---|---|---|---|---|---|
| src/exportlinks.ts:31-33 | `cnt > maxElems` is tested after the yield and the increment, so maxElems + 1 lines are emitted | 1001 link documents with maxElems = 1000: all 1001 lines are printed | at most maxElems lines | high, not executed | ExportLinks.OneLineOverCap | ExportLinks.CappedCount |
| src/main.ts:27 | the scan's `_source` filter lists only references and last-seen, so getSeen's fallback to first-seen (src/main.ts:81-84) never fires | a document with references, no last-seen and first-seen "2020-01-01T00:00:00.000Z": its edges get seen = null | seen = "2020-01-01T00:00:00Z", from first-seen | medium, not executed | Extractor.ScanDropsFirstSeenExample | Extractor.ReadFieldsKeepSeen |
