/**
 * The exporter of src/exportlinks.ts: `docToPairwise`, which turns the
 * link documents of a scroll over the `ipfs_links` index into text lines
 * `from to`, one per document, and stops after a fixed number of them.
 *
 * The scroll itself (`client.helpers.scrollDocuments`) and the pipe into
 * stdout are library code; the documents arrive here as a sequence and the
 * lines leave as one.
 */
module ExportLinks {
  import opened Wrappers
  import opened Text

  /** `maxElems`. */
  const MaxElems: nat := 1000

  /** A link document as the scroll returns it (`_source: ["from", "to"]`). */
  datatype LinkDoc = LinkDoc(from: string, to: string)

  /** The line of one document: `from`, one space, `to`, one newline. */
  function Line(d: LinkDoc): (l: string)
    ensures |l| == |d.from| + |d.to| + 2
    ensures l[..|d.from|] == d.from && l[|d.from|] == ' '
    ensures l[|d.from| + 1..|l| - 1] == d.to && l[|l| - 1] == '\n'
  {
    d.from + " " + d.to + "\n"
  }

  /** Reading a line back: up to the first space, then up to the newline. */
  function ParseLine(l: string): (r: Option<LinkDoc>)
    ensures r.Some? ==> Line(r.value) == l
  {
    if |l| == 0 || l[|l| - 1] != '\n' then None
    else
      var body := l[..|l| - 1];
      if ' ' !in body then None
      else
        var i := FirstIndex(body, ' ');
        assert body[..i] + " " + body[i + 1..] == body;
        Some(LinkDoc(body[..i], body[i + 1..]))
  }

  /** The line determines the document when `from` holds no space (a CID
      rendered as text has none); `to` may hold anything. */
  lemma LineRoundTrip(d: LinkDoc)
    requires ' ' !in d.from
    ensures ParseLine(Line(d)) == Some(d)
  {
    var l := Line(d);
    var body := l[..|l| - 1];
    assert body == d.from + [' '] + d.to;
    FirstIndexAfter(d.from, ' ', d.to);
  }

  /** Without that condition two documents share a line. */
  lemma LineAmbiguous()
    ensures Line(LinkDoc("a b", "c")) == Line(LinkDoc("a", "b c"))
  {
  }

  /** The lines of all the documents, in input order. */
  function Lines(docs: seq<LinkDoc>): seq<string> {
    seq(|docs|, i requires 0 <= i < |docs| => Line(docs[i]))
  }

  /** Each line depends on its own document only: the lines of two runs of
      documents are the lines of the first, then those of the second. */
  lemma LinesAppend(a: seq<LinkDoc>, b: seq<LinkDoc>)
    ensures Lines(a + b) == Lines(a) + Lines(b)
  {
  }

  /** What `docToPairwise` emits, as written: the counter is checked after
      the line is yielded and counted, so the cut comes after cap + 1 lines. */
  function PairwiseLines(docs: seq<LinkDoc>, cap: nat): seq<string> {
    Lines(docs[..Min(|docs|, cap + 1)])
  }

  /** The emitted lines are those of a prefix of the input; an input of at
      most cap + 1 documents is emitted whole, a longer one is cut after
      exactly cap + 1 lines. */
  lemma PairwiseCount(docs: seq<LinkDoc>, cap: nat)
    ensures |PairwiseLines(docs, cap)| <= cap + 1
    ensures PairwiseLines(docs, cap) == Lines(docs[..|PairwiseLines(docs, cap)|])
    ensures |docs| <= cap + 1 ==> PairwiseLines(docs, cap) == Lines(docs)
    ensures |docs| > cap + 1 ==> |PairwiseLines(docs, cap)| == cap + 1
  {
    assert docs[..|docs|] == docs;
  }

  /** The cap is overshot: with more than cap documents, cap + 1 lines. */
  lemma OneLineOverCap(docs: seq<LinkDoc>, cap: nat)
    requires |docs| > cap
    ensures |PairwiseLines(docs, cap)| == cap + 1 > cap
  {
  }

  /** With `maxElems` = 1000 and 1001 documents, all 1001 are emitted. */
  lemma OneLineOverMaxElems(docs: seq<LinkDoc>)
    requires |docs| == MaxElems + 1
    ensures PairwiseLines(docs, MaxElems) == Lines(docs) && |Lines(docs)| == 1001
  {
    PairwiseCount(docs, MaxElems);
  }

  /** `docToPairwise` as written. */
  method DocToPairwise(docs: seq<LinkDoc>) returns (lines: seq<string>)
    ensures lines == PairwiseLines(docs, MaxElems)
  {
    var cnt := 0;
    lines := [];
    var i := 0;
    while i < |docs|
      invariant 0 <= i <= |docs| && cnt == i && cnt <= MaxElems
      invariant lines == Lines(docs[..i])
    {
      lines := lines + [Line(docs[i])];
      assert docs[..i + 1][..i] == docs[..i];
      cnt := cnt + 1;
      i := i + 1;
      if cnt > MaxElems {
        return;
      }
    }
    assert docs[..|docs|] == docs;
  }

  /** The evidently intended export: at most cap lines. */
  function CappedLines(docs: seq<LinkDoc>, cap: nat): seq<string> {
    Lines(docs[..Min(|docs|, cap)])
  }

  /** The corrected cap holds: never more than cap lines, the lines of a
      prefix of the input, and an input of at most cap documents whole. */
  lemma CappedCount(docs: seq<LinkDoc>, cap: nat)
    ensures |CappedLines(docs, cap)| <= cap
    ensures CappedLines(docs, cap) == Lines(docs[..|CappedLines(docs, cap)|])
    ensures |docs| <= cap ==> CappedLines(docs, cap) == Lines(docs)
    ensures |docs| >= cap ==> |CappedLines(docs, cap)| == cap
  {
    assert docs[..|docs|] == docs;
  }

  /** `docToPairwise` with the counter checked before the yield. */
  method DocToPairwiseCapped(docs: seq<LinkDoc>) returns (lines: seq<string>)
    ensures lines == CappedLines(docs, MaxElems)
  {
    var cnt := 0;
    lines := [];
    var i := 0;
    while i < |docs|
      invariant 0 <= i <= |docs| && cnt == i && cnt <= MaxElems
      invariant lines == Lines(docs[..i])
    {
      if cnt >= MaxElems {
        return;
      }
      lines := lines + [Line(docs[i])];
      assert docs[..i + 1][..i] == docs[..i];
      cnt := cnt + 1;
      i := i + 1;
    }
    assert docs[..|docs|] == docs;
  }
}
