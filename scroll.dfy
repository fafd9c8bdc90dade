/**
 * The cursor reader of src/main.ts: the `getHits` generator, which runs one
 * scroll search over the source index and yields its hits page by page.
 *
 * The search client is replaced by a page source: `pages[0]` is the
 * response to the initial `search`, and `pages[k + 1]` the response to the
 * k-th `scroll` call. Each response carries its hits and a scroll id. The
 * client calls the reader issues are recorded, in order, as a trace.
 */
module Scroll {

  /** One search or scroll response: `hits.hits` and `_scroll_id`. */
  datatype Page<H> = Page(hits: seq<H>, scrollId: string)

  /** A request sent to the search client. */
  datatype Call = Search(index: string) | ScrollNext(scrollId: string) | ClearScroll(scrollId: string)

  /** `srcIndex`, the index the scan runs on. */
  const SrcIndex := "ipfs_files"

  /** The server eventually answers with an empty page; without one,
      `getHits` would keep scrolling for ever. */
  predicate HasEmptyPage<H>(pages: seq<Page<H>>) {
    exists n :: 0 <= n < |pages| && pages[n].hits == []
  }

  /** Position of the first empty response. */
  function FirstEmpty<H>(pages: seq<Page<H>>): (n: nat)
    requires HasEmptyPage(pages)
    ensures n < |pages| && pages[n].hits == []
    ensures forall k :: 0 <= k < n ==> pages[k].hits != []
    decreases |pages|
  {
    if pages[0].hits == [] then 0
    else
      assert HasEmptyPage(pages[1..]) by {
        var m :| 0 <= m < |pages| && pages[m].hits == [];
        assert pages[1..][m - 1] == pages[m];
      }
      1 + FirstEmpty(pages[1..])
  }

  /** The hits of the given pages, page after page. */
  function AllHits<H>(pages: seq<Page<H>>): seq<H>
    decreases |pages|
  {
    if pages == [] then []
    else AllHits(pages[..|pages| - 1]) + pages[|pages| - 1].hits
  }

  /** One `scroll` call per page, each continuing from that page's id. */
  function ScrollCalls<H>(pages: seq<Page<H>>): seq<Call> {
    seq(|pages|, k requires 0 <= k < |pages| => ScrollNext(pages[k].scrollId))
  }

  /** Each scroll depends on its own page only: the scrolls after two runs
      of pages are those after the first run, then those after the second. */
  lemma ScrollCallsAppend<H>(a: seq<Page<H>>, b: seq<Page<H>>)
    ensures ScrollCalls(a + b) == ScrollCalls(a) + ScrollCalls(b)
  {
  }

  /** The calls of a scan that runs to exhaustion. */
  function ReaderTrace<H>(pages: seq<Page<H>>): seq<Call>
    requires HasEmptyPage(pages)
  {
    var n := FirstEmpty(pages);
    [Search(SrcIndex)] + ScrollCalls(pages[..n]) + [ClearScroll(pages[n].scrollId)]
  }

  /** The calls made by the time the reader is suspended inside page p:
      the search, and one scroll after each of pages 0..p-1. */
  function SuspendedTrace<H>(pages: seq<Page<H>>, p: nat): (calls: seq<Call>)
    requires p <= |pages|
  {
    [Search(SrcIndex)] + ScrollCalls(pages[..p])
  }

  /** The shape of a completed scan: one search, then one scroll for every
      non-empty page (none when the first page is empty), each with the id
      of the page it continues, then exactly one clear_scroll, with the id
      of the last (empty) response. */
  lemma ReaderTraceShape<H>(pages: seq<Page<H>>)
    requires HasEmptyPage(pages)
    ensures |ReaderTrace(pages)| == FirstEmpty(pages) + 2
    ensures ReaderTrace(pages)[0] == Search(SrcIndex)
    ensures forall k :: 1 <= k <= FirstEmpty(pages) ==>
              ReaderTrace(pages)[k] == ScrollNext(pages[k - 1].scrollId) && pages[k - 1].hits != []
    ensures ReaderTrace(pages)[FirstEmpty(pages) + 1] == ClearScroll(pages[FirstEmpty(pages)].scrollId)
    ensures forall k :: 0 <= k <= FirstEmpty(pages) ==> !ReaderTrace(pages)[k].ClearScroll?
    ensures pages[0].hits == [] ==> ReaderTrace(pages) == [Search(SrcIndex), ClearScroll(pages[0].scrollId)]
  {
    var n := FirstEmpty(pages);
    var t := ReaderTrace(pages);
    forall k | 1 <= k <= n
      ensures t[k] == ScrollNext(pages[k - 1].scrollId)
    {
      assert t[k] == ScrollCalls(pages[..n])[k - 1];
    }
  }

  /** A suspended scan has not released its cursor. */
  lemma SuspendedTraceKeepsCursor<H>(pages: seq<Page<H>>, p: nat)
    requires p <= |pages|
    ensures |SuspendedTrace(pages, p)| == p + 1
    ensures forall k :: 0 <= k < |SuspendedTrace(pages, p)| ==> !SuspendedTrace(pages, p)[k].ClearScroll?
  {
  }

  /** The page that holds hit number i of the concatenated pages. */
  function PageOf<H>(pages: seq<Page<H>>, i: nat): (p: nat)
    requires i < |AllHits(pages)|
    ensures p < |pages|
    ensures |AllHits(pages[..p])| <= i < |AllHits(pages[..p + 1])|
    decreases |pages|
  {
    var init := pages[..|pages| - 1];
    if i < |AllHits(init)| then
      var p := PageOf(init, i);
      assert init[..p] == pages[..p] && init[..p + 1] == pages[..p + 1];
      p
    else
      assert pages[..|pages|] == pages;
      |pages| - 1
  }

  /** Fetching more pages only extends the hits seen so far. */
  lemma {:induction false} AllHitsPrefix<H>(pages: seq<Page<H>>, p: nat, q: nat)
    requires p <= q <= |pages|
    ensures AllHits(pages[..p]) <= AllHits(pages[..q])
    decreases q
  {
    if p < q {
      assert pages[..q][..q - 1] == pages[..q - 1];
      AllHitsPrefix(pages, p, q - 1);
    }
  }

  /** Hit i lies in exactly one page. */
  lemma PageOfUnique<H>(pages: seq<Page<H>>, i: nat, p: nat)
    requires p < |pages|
    requires |AllHits(pages[..p])| <= i < |AllHits(pages[..p + 1])|
    ensures i < |AllHits(pages)| && PageOf(pages, i) == p
  {
    AllHitsPrefix(pages, p + 1, |pages|);
    assert pages[..|pages|] == pages;
    var r := PageOf(pages, i);
    if p + 1 <= r {
      AllHitsPrefix(pages, p + 1, r);
    }
    if r + 1 <= p {
      AllHitsPrefix(pages, r + 1, p);
    }
  }

  /** `getHits`: yield the first page, then scroll while the last
      response was non-empty, then release the cursor. The hits are those
      of every page before the first empty one. */
  method GetHits<H>(pages: seq<Page<H>>) returns (hits: seq<H>, calls: seq<Call>)
    requires HasEmptyPage(pages)
    ensures hits == AllHits(pages[..FirstEmpty(pages)])
    ensures calls == ReaderTrace(pages)
  {
    ghost var n := FirstEmpty(pages);
    var k := 0;
    var response := pages[0];
    calls := [Search(SrcIndex)];
    hits := response.hits;
    assert pages[..1] == [pages[0]];
    while |response.hits| > 0
      invariant 0 <= k <= n
      invariant response == pages[k]
      invariant hits == AllHits(pages[..k + 1])
      invariant calls == [Search(SrcIndex)] + ScrollCalls(pages[..k])
      decreases n - k
    {
      calls := calls + [ScrollNext(response.scrollId)];
      assert ScrollCalls(pages[..k]) + [ScrollNext(pages[k].scrollId)] == ScrollCalls(pages[..k + 1]);
      k := k + 1;
      response := pages[k];
      hits := hits + response.hits;
      assert pages[..k + 1][..k] == pages[..k];
    }
    assert k == n;
    assert pages[..k + 1][..k] == pages[..k];
    calls := calls + [ClearScroll(response.scrollId)];
  }
}
