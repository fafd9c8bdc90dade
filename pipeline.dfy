/**
 * The driver of src/main.ts: `processYear`, which hands the edges extracted
 * from one year's scan to the bulk helper and gives each one its id
 * through `onDocument`, and the loop of `main` over `years`.
 *
 * The bulk helper pulls edges from `getLinks`, which pulls hits from
 * `getHits` one at a time, so the two generators run interleaved. When the
 * extractor throws while handling a hit, its `for await` closes the reader
 * with `return()`: `getHits` resumes at that hit's `yield` with a return
 * completion and finishes there. It has no `finally`, so it skips the rest
 * of its scroll loop and `clear_scroll`, and makes no further call.
 *
 * What the bulk helper does with the operations (buffering, flushing,
 * retrying, reporting dropped documents) is library code; a year's output
 * here is the operations handed to it, the calls sent to the search client
 * and the failure, if any, that rejected `processYear`.
 */
module Pipeline {
  import opened Wrappers
  import opened Extractor
  import opened Scroll
  import opened Identity

  /** `years`: the partitions `main` processes, in order (2019 is not among them). */
  const Years: seq<int> := [2016, 2017, 2018, 2020, 2021, 2022, 2023]

  /** The stored documents the scan of each year pages through: page k
      holds the documents of the k-th response, as stored in the index. */
  type Source = int -> seq<Page<Doc>>

  /** What one call of `processYear` produces. */
  datatype YearOutput = YearOutput(items: seq<BulkItem>, calls: seq<Call>, failure: Option<Failure>)

  /** The hits a complete scan of the pages yields. */
  function ScanHits(pages: seq<Page<Doc>>): seq<Doc>
    requires HasEmptyPage(pages)
  {
    AllHits(pages[..FirstEmpty(pages)])
  }

  /** The hits of a response: the server returns each stored document
      through the scan's `_source` filter. */
  function Filtered(docs: seq<Doc>): seq<Doc> {
    seq(|docs|, i requires 0 <= i < |docs| => Project(docs[i], SourceFields))
  }

  /** The response the reader receives for a page of stored documents. */
  function Served(page: Page<Doc>): Page<Doc> {
    Page(Filtered(page.hits), page.scrollId)
  }

  function ServedPages(stored: seq<Page<Doc>>): seq<Page<Doc>> {
    seq(|stored|, k requires 0 <= k < |stored| => Served(stored[k]))
  }

  /** Filtering keeps the number of hits, so the scan of the served pages
      ends where the scan of the stored ones does. */
  lemma ServedEnds(stored: seq<Page<Doc>>)
    requires HasEmptyPage(stored)
    ensures HasEmptyPage(ServedPages(stored)) && FirstEmpty(ServedPages(stored)) == FirstEmpty(stored)
  {
    var n := FirstEmpty(stored);
    var served := ServedPages(stored);
    assert served[n].hits == [];
    assert forall k :: 0 <= k < n ==> served[k].hits != [] by {
      forall k | 0 <= k < n ensures served[k].hits != [] {
        assert |served[k].hits| == |stored[k].hits|;
      }
    }
  }

  /** Filtering hit by hit is filtering the concatenation. */
  lemma {:induction false} ServedHits(stored: seq<Page<Doc>>, k: nat)
    requires k <= |stored|
    ensures AllHits(ServedPages(stored)[..k]) == Filtered(AllHits(stored[..k]))
    decreases k
  {
    if k > 0 {
      ServedHits(stored, k - 1);
      assert ServedPages(stored)[..k][..k - 1] == ServedPages(stored)[..k - 1];
      assert stored[..k][..k - 1] == stored[..k - 1];
      var a := AllHits(stored[..k - 1]);
      var b := stored[k - 1].hits;
      assert Filtered(a + b) == Filtered(a) + Filtered(b);
    }
  }

  /** What `processYear` produces for the year whose stored documents are
      `stored`: the outcome of the scan over the served responses. */
  function Year(stored: seq<Page<Doc>>, canon: Canonicaliser, digest: Digest): YearOutput
    requires HasEmptyPage(stored)
  {
    ServedEnds(stored);
    YearOutcome(ServedPages(stored), canon, digest)
  }

  /** As written, the year's edges never take `seen` from first-seen: each
      one's `seen` is removeMillis of the last-seen of some stored hit of the
      scan, or null. */
  lemma YearSeenFromLastSeen(stored: seq<Page<Doc>>, canon: Canonicaliser, digest: Digest)
    requires HasEmptyPage(stored)
    ensures var items := Year(stored, canon, digest).items;
            var docs := ScanHits(stored);
            forall k :: 0 <= k < |items| ==>
              exists j :: 0 <= j < |docs| &&
                items[k].doc.seen == (if Truthy(docs[j].lastSeen) then Some(RemoveMillis(docs[j].lastSeen.value)) else None)
  {
    ServedEnds(stored);
    var served := ServedPages(stored);
    var docs := ScanHits(stored);
    ServedHits(stored, FirstEmpty(stored));
    assert ScanHits(served) == Filtered(docs);
    var edges := Links(canon, Filtered(docs)).edges;
    LinksSeen(canon, Filtered(docs));
    var items := Year(stored, canon, digest).items;
    assert items == BulkItems(digest, edges);
    forall k | 0 <= k < |items|
      ensures exists j :: 0 <= j < |docs| &&
                items[k].doc.seen == (if Truthy(docs[j].lastSeen) then Some(RemoveMillis(docs[j].lastSeen.value)) else None)
    {
      assert items[k].doc == edges[k];
      var j :| 0 <= j < |Filtered(docs)| && edges[k].seen == GetSeen(Filtered(docs)[j]);
      ScanDropsFirstSeen(docs[j]);
    }
  }

  /** The reference definition of a year: the extractor's stream over the
      scan's hits, each edge with its bulk action; the reader's calls are
      those of a complete scan, or, when the extractor failed, those made
      before the page holding the failing hit was being yielded. */
  function YearOutcome(pages: seq<Page<Doc>>, canon: Canonicaliser, digest: Digest): YearOutput
    requires HasEmptyPage(pages)
  {
    var n := FirstEmpty(pages);
    var docs := ScanHits(pages);
    var links := Links(canon, docs);
    var calls :=
      if links.failure.None? then ReaderTrace(pages)
      else SuspendedTrace(pages, PageOf(pages[..n], FailedAt(canon, docs)));
    YearOutput(BulkItems(digest, links.edges), calls, links.failure)
  }

  /** A year whose identifiers all parse: one index operation per
      reference, in scan order, keyed by `hashId` of its triple, and a
      scan that releases its cursor. */
  lemma YearOutcomeWellFormed(pages: seq<Page<Doc>>, canon: Canonicaliser, digest: Digest)
    requires HasEmptyPage(pages)
    requires AllWellFormed(canon, ScanHits(pages))
    ensures YearOutcome(pages, canon, digest).failure == None
    ensures YearOutcome(pages, canon, digest).calls == ReaderTrace(pages)
    ensures |YearOutcome(pages, canon, digest).items| == |AllEdges(canon, ScanHits(pages))| == TotalRefs(ScanHits(pages))
    ensures forall i :: 0 <= i < TotalRefs(ScanHits(pages)) ==>
              YearOutcome(pages, canon, digest).items[i]
              == BulkItem(OnDocument(digest, AllEdges(canon, ScanHits(pages))[i]), AllEdges(canon, ScanHits(pages))[i])
  {
    LinksWellFormed(canon, ScanHits(pages));
    EdgeCount(canon, ScanHits(pages));
  }

  /** The cursor is released exactly when the year succeeds. */
  lemma YearReleasesCursorIffOk(pages: seq<Page<Doc>>, canon: Canonicaliser, digest: Digest)
    requires HasEmptyPage(pages)
    ensures var o := YearOutcome(pages, canon, digest);
            (exists k :: 0 <= k < |o.calls| && o.calls[k] == ClearScroll(pages[FirstEmpty(pages)].scrollId))
            <==> o.failure.None?
    ensures var o := YearOutcome(pages, canon, digest);
            o.failure.Some? ==> forall k :: 0 <= k < |o.calls| ==> !o.calls[k].ClearScroll?
  {
    var n := FirstEmpty(pages);
    var o := YearOutcome(pages, canon, digest);
    if o.failure.None? {
      ReaderTraceShape(pages);
      assert o.calls[n + 1] == ClearScroll(pages[n].scrollId);
    } else {
      var docs := ScanHits(pages);
      SuspendedTraceKeepsCursor(pages, PageOf(pages[..n], FailedAt(canon, docs)));
    }
  }

  /** Page k is the last one a scan reads before being read completely:
      its hits extend the hits read so far, and it is not the empty page
      that ends the scan when its hits make the extractor fail. */
  lemma PageStep(pages: seq<Page<Doc>>, k: nat)
    requires k < |pages|
    ensures AllHits(pages[..k + 1]) == AllHits(pages[..k]) + pages[k].hits
    ensures ScrollCalls(pages[..k]) + [ScrollNext(pages[k].scrollId)] == ScrollCalls(pages[..k + 1])
  {
    assert pages[..k + 1][..k] == pages[..k];
  }

  /** The hits read up to page k are the first hits of the scan. */
  lemma ScanPrefix(pages: seq<Page<Doc>>, k: nat)
    requires HasEmptyPage(pages) && k <= FirstEmpty(pages)
    ensures |AllHits(pages[..k])| <= |ScanHits(pages)|
    ensures ScanHits(pages)[..|AllHits(pages[..k])|] == AllHits(pages[..k])
  {
    AllHitsPrefix(pages, k, FirstEmpty(pages));
  }

  /** The extractor, having got through pages 0..k-1, fails inside page k:
      the scan reached page k before its empty page, the failing hit is one
      of page k's, and the stream over the scan is the stream up to it. */
  lemma FailsInPage(pages: seq<Page<Doc>>, canon: Canonicaliser, k: nat)
    requires HasEmptyPage(pages) && k <= FirstEmpty(pages)
    requires Links(canon, AllHits(pages[..k])).failure.None?
    requires Links(canon, AllHits(pages[..k + 1])).failure.Some?
    ensures k < FirstEmpty(pages)
    ensures Links(canon, ScanHits(pages)) == Links(canon, AllHits(pages[..k + 1]))
    ensures PageOf(pages[..FirstEmpty(pages)], FailedAt(canon, ScanHits(pages))) == k
  {
    var n := FirstEmpty(pages);
    FailingPageNotLast(pages, canon, k);
    PageStep(pages, k);
    ScanPrefix(pages, k);
    ScanPrefix(pages, k + 1);
    FailedAtBetween(canon, ScanHits(pages), |AllHits(pages[..k])|, |AllHits(pages[..k + 1])|);
    PageOfPrefix(pages, n, k, FailedAt(canon, ScanHits(pages)));
  }

  /** A page whose hits make the extractor fail is not the empty one. */
  lemma FailingPageNotLast(pages: seq<Page<Doc>>, canon: Canonicaliser, k: nat)
    requires HasEmptyPage(pages) && k <= FirstEmpty(pages)
    requires Links(canon, AllHits(pages[..k])).failure.None?
    requires Links(canon, AllHits(pages[..k + 1])).failure.Some?
    ensures k < FirstEmpty(pages)
  {
    PageStep(pages, k);
    assert AllHits(pages[..k]) + [] == AllHits(pages[..k]);
  }

  /** Hit i of pages 0..n-1 that lies in page k. */
  lemma PageOfPrefix(pages: seq<Page<Doc>>, n: nat, k: nat, i: nat)
    requires k < n <= |pages|
    requires |AllHits(pages[..k])| <= i < |AllHits(pages[..k + 1])|
    ensures i < |AllHits(pages[..n])| && PageOf(pages[..n], i) == k
  {
    assert pages[..n][..k] == pages[..k] && pages[..n][..k + 1] == pages[..k + 1];
    PageOfUnique(pages[..n], i, k);
  }

  /** The year's outcome when the extractor fails inside page k: the
      stream up to the failure and the calls made before page k was being
      read. */
  lemma SuspendInPage(pages: seq<Page<Doc>>, canon: Canonicaliser, digest: Digest, k: nat)
    requires HasEmptyPage(pages) && k <= FirstEmpty(pages)
    requires Links(canon, AllHits(pages[..k])).failure.None?
    requires Links(canon, AllHits(pages[..k + 1])).failure.Some?
    ensures YearOutcome(pages, canon, digest)
            == YearOutput(BulkItems(digest, Links(canon, AllHits(pages[..k + 1])).edges),
                          SuspendedTrace(pages, k), Links(canon, AllHits(pages[..k + 1])).failure)
  {
    FailsInPage(pages, canon, k);
  }

  /** The extractor got through every hit: the scan ran to its end. */
  lemma ScanComplete(pages: seq<Page<Doc>>, canon: Canonicaliser, digest: Digest, edges: seq<Edge>)
    requires HasEmptyPage(pages)
    requires Links(canon, ScanHits(pages)) == Emitted(edges, None)
    ensures YearOutcome(pages, canon, digest) == YearOutput(BulkItems(digest, edges), ReaderTrace(pages), None)
  {
  }

  /** `processYear`: the bulk helper pulls edges from `getLinks`, which
      pulls hits from `getHits`. While page k is the reader's current
      response, the extractor works through that page's hits, each before
      the next one is read; the stream it yields over them continues the
      stream over the earlier pages (`LinksAppend`). An extractor failure
      stops everything there. */
  method ProcessYear(stored: seq<Page<Doc>>, canon: Canonicaliser, digest: Digest) returns (out: YearOutput)
    requires HasEmptyPage(stored)
    ensures out == Year(stored, canon, digest)
  {
    ServedEnds(stored);
    ghost var pages := ServedPages(stored);
    ghost var n := FirstEmpty(pages);
    var k := 0;
    var response := Served(stored[0]);
    var calls := [Search(SrcIndex)];
    var edges: seq<Edge> := [];
    while true
      invariant 0 <= k <= n
      invariant response == pages[k]
      invariant calls == [Search(SrcIndex)] + ScrollCalls(pages[..k])
      invariant Links(canon, AllHits(pages[..k])) == Emitted(edges, None)
      decreases n - k
    {
      var pageEdges, failure := GetLinks(canon, response.hits);
      PageStep(pages, k);
      LinksAppend(canon, AllHits(pages[..k]), response.hits);
      if failure.Some? {
        SuspendInPage(pages, canon, digest, k);
        out := YearOutput(BulkItems(digest, edges + pageEdges), calls, failure);
        return;
      }
      if |response.hits| == 0 {
        break;
      }
      assert k < n;
      edges := edges + pageEdges;
      calls := calls + [ScrollNext(response.scrollId)];
      k := k + 1;
      response := Served(stored[k]);
    }
    assert k == n;
    ScanComplete(pages, canon, digest, edges);
    calls := calls + [ClearScroll(response.scrollId)];
    out := YearOutput(BulkItems(digest, edges), calls, None);
  }

  /** Every year has a terminating scan. */
  predicate AllScansEnd(years: seq<int>, source: Source) {
    forall i :: 0 <= i < |years| ==> HasEmptyPage(source(years[i]))
  }

  /** The outcomes of the loop of `main` over `years`: the years in order,
      up to and including the first one that fails. */
  function Run(years: seq<int>, source: Source, canon: Canonicaliser, digest: Digest): seq<YearOutput>
    requires AllScansEnd(years, source)
    decreases |years|
  {
    if years == [] then []
    else
      var out := Year(source(years[0]), canon, digest);
      assert AllScansEnd(years[1..], source) by {
        assert forall i :: 0 <= i < |years| - 1 ==> years[1..][i] == years[i + 1];
      }
      if out.failure.Some? then [out] else [out] + Run(years[1..], source, canon, digest)
  }

  /** The run covers a prefix of the years, and at least the first. */
  lemma {:induction false} RunLength(years: seq<int>, source: Source, canon: Canonicaliser, digest: Digest)
    requires AllScansEnd(years, source)
    ensures |Run(years, source, canon, digest)| <= |years|
    ensures years != [] ==> Run(years, source, canon, digest) != []
    decreases |years|
  {
    if years != [] {
      RunStep(years, source, canon, digest, 0);
      assert years[0..] == years;
      RunLength(years[1..], source, canon, digest);
    }
  }

  /** The i-th outcome of the run is `processYear` of the i-th year. */
  lemma {:induction false} RunOutcomes(years: seq<int>, source: Source, canon: Canonicaliser, digest: Digest, i: nat)
    requires AllScansEnd(years, source)
    requires i < |Run(years, source, canon, digest)|
    ensures i < |years| && Run(years, source, canon, digest)[i] == Year(source(years[i]), canon, digest)
    decreases |years|
  {
    RunLength(years, source, canon, digest);
    RunStep(years, source, canon, digest, 0);
    assert years[0..] == years;
    if i > 0 {
      RunOutcomes(years[1..], source, canon, digest, i - 1);
    }
  }

  /** A rejected `processYear` ends the run: no outcome but the last one
      failed, and when years were skipped the last one did fail. */
  lemma {:induction false} RunStopsAtFirstFailure(years: seq<int>, source: Source, canon: Canonicaliser, digest: Digest)
    requires AllScansEnd(years, source)
    ensures forall i :: 0 <= i < |Run(years, source, canon, digest)| - 1 ==>
              Run(years, source, canon, digest)[i].failure.None?
    ensures |Run(years, source, canon, digest)| < |years| ==>
              Run(years, source, canon, digest) != [] &&
              Run(years, source, canon, digest)[|Run(years, source, canon, digest)| - 1].failure.Some?
    decreases |years|
  {
    if years != [] {
      RunStep(years, source, canon, digest, 0);
      assert years[0..] == years;
      RunLength(years[1..], source, canon, digest);
      RunStopsAtFirstFailure(years[1..], source, canon, digest);
      var out := Year(source(years[0]), canon, digest);
      var rest := Run(years[1..], source, canon, digest);
      var run := Run(years, source, canon, digest);
      if out.failure.None? {
        assert run == [out] + rest;
        forall i | 0 <= i < |run| - 1
          ensures run[i].failure.None?
        {
          if i > 0 {
            assert run[i] == rest[i - 1];
          }
        }
      } else {
        assert run == [out];
      }
    }
  }

  /** The run from year i on, unfolded once. */
  lemma RunStep(years: seq<int>, source: Source, canon: Canonicaliser, digest: Digest, i: nat)
    requires i < |years| && AllScansEnd(years[i..], source)
    ensures HasEmptyPage(source(years[i])) && AllScansEnd(years[i + 1..], source)
    ensures var out := Year(source(years[i]), canon, digest);
            Run(years[i..], source, canon, digest)
            == if out.failure.Some? then [out] else [out] + Run(years[i + 1..], source, canon, digest)
  {
    assert years[i..][0] == years[i] && years[i..][1..] == years[i + 1..];
  }

  /** The loop of `main` over `years`: the years in order, each awaited
      before the next starts. A rejected `processYear` propagates out of
      the loop. */
  method RunYears(source: Source, canon: Canonicaliser, digest: Digest) returns (results: seq<YearOutput>)
    requires AllScansEnd(Years, source)
    ensures results == Run(Years, source, canon, digest)
  {
    results := [];
    var i := 0;
    assert Years[0..] == Years;
    while i < |Years|
      invariant 0 <= i <= |Years|
      invariant AllScansEnd(Years[i..], source)
      invariant Run(Years, source, canon, digest) == results + Run(Years[i..], source, canon, digest)
    {
      RunStep(Years, source, canon, digest, i);
      var out := ProcessYear(source(Years[i]), canon, digest);
      results := results + [out];
      if out.failure.Some? {
        return;
      }
      i := i + 1;
    }
  }

  /** Running the pipeline again over unchanged data writes the same
      operations, and writing them again leaves the index unchanged. */
  lemma RerunChangesNothing(store: Store, pages: seq<Page<Doc>>, canon: Canonicaliser, digest: Digest)
    requires HasEmptyPage(pages)
    ensures var items := YearOutcome(pages, canon, digest).items;
            Apply(Apply(store, items), items) == Apply(store, items)
  {
    ApplyTwice(store, YearOutcome(pages, canon, digest).items);
  }
}
