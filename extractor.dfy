/**
 * The edge extractor of src/main.ts: `removeMillis`, `getSeen` and the
 * `getLinks` generator, which turns every scanned file document into one edge
 * per entry of its `references` list.
 *
 * `homogeniseCID` calls the multiformats library (`CID.parse(..).toV1()`), so
 * it is a parameter of type Canonicaliser: an arbitrary function that either
 * yields the canonical text of an identifier or fails (None), the way
 * `CID.parse` throws on a malformed identifier. Nothing is assumed about it,
 * not even idempotence.
 *
 * A generator that throws part-way has already handed its consumer some
 * values; an Emitted value is that prefix together with the failure that
 * ended the stream, if any.
 */
module Extractor {
  import opened Wrappers

  /** One entry of a document's `references` list. */
  datatype Ref = Ref(parentHash: string, name: string)

  /** A scanned hit: its `_id` and the `_source` fields the extractor reads. */
  datatype Doc = Doc(
    id: string,
    references: Option<seq<Ref>>,
    lastSeen: Option<string>,
    firstSeen: Option<string>)

  /** The record handed to the bulk writer; `seen` is null when None. */
  datatype Edge = Edge(from: string, to: string, name: string, seen: Option<string>)

  /** What ends the extractor's stream early: `CID.parse` throwing, or
      iterating over an absent `references` field (a TypeError). */
  datatype Failure = MalformedCid(cid: string) | MissingReferences(docId: string)

  /** The edges yielded so far and the failure that stopped the stream. */
  datatype Emitted = Emitted(edges: seq<Edge>, failure: Option<Failure>)

  /** `homogeniseCID`: None is a malformed identifier. */
  type Canonicaliser = string -> Option<string>

  /** Length of "YYYY-MM-DDTHH:MM:SS", the part `removeMillis` keeps. */
  const SecondsLength := 19

  // ---------------------------------------------------------------------
  // removeMillis and getSeen
  // ---------------------------------------------------------------------

  /** `input.substring(0, 19) + "Z"`; `substring` clamps to the length. */
  function RemoveMillis(t: string): (r: string)
    ensures |r| == Min(|t|, SecondsLength) + 1
    ensures r[..|r| - 1] <= t
    ensures r[|r| - 1] == 'Z'
  {
    t[..Min(|t|, SecondsLength)] + "Z"
  }

  /** Truncating twice is truncating once exactly for inputs that already
      carry at least the 19 characters of a whole-second timestamp. */
  lemma RemoveMillisIdempotent(t: string)
    ensures RemoveMillis(RemoveMillis(t)) == RemoveMillis(t) <==> |t| >= SecondsLength
  {
    var r := RemoveMillis(t);
    if |t| >= SecondsLength {
      assert r[..SecondsLength] == t[..SecondsLength];
    } else {
      assert |RemoveMillis(r)| == |r| + 1;
    }
  }

  /** JavaScript truthiness of a string field: present and non-empty. */
  predicate Truthy(v: Option<string>) {
    v.Some? && v.value != ""
  }

  /** Index of the first truthy field, or |vals| when there is none: the
      `for (const f of fields)` search with its early return. */
  function FirstTruthy(vals: seq<Option<string>>): (i: nat)
    ensures i <= |vals|
    ensures i < |vals| ==> Truthy(vals[i])
    ensures forall k :: 0 <= k < i ==> !Truthy(vals[k])
  {
    if vals == [] then 0
    else if Truthy(vals[0]) then 0
    else 1 + FirstTruthy(vals[1..])
  }

  /** `getSeen`: the fields are searched in the order last-seen, first-seen. */
  function GetSeen(d: Doc): (r: Option<string>)
    ensures Truthy(d.lastSeen) ==> r == Some(RemoveMillis(d.lastSeen.value))
    ensures !Truthy(d.lastSeen) && Truthy(d.firstSeen) ==> r == Some(RemoveMillis(d.firstSeen.value))
    ensures !Truthy(d.lastSeen) && !Truthy(d.firstSeen) ==> r == None
  {
    var fields := [d.lastSeen, d.firstSeen];
    var i := FirstTruthy(fields);
    assert fields[0] == d.lastSeen && fields[1] == d.firstSeen;
    if i < |fields| then Some(RemoveMillis(fields[i].value)) else None
  }

  /** Worked cases: a last-seen with milliseconds wins over first-seen, a
      first-seen alone is used, and neither field gives None. */
  lemma SeenExamples()
    ensures GetSeen(Doc("x", None, Some("2021-05-01T10:00:00.123Z"), Some("2020-01-01T00:00:00Z")))
            == Some("2021-05-01T10:00:00Z")
    ensures GetSeen(Doc("x", None, None, Some("2020-01-01T00:00:00.000Z"))) == Some("2020-01-01T00:00:00Z")
    ensures GetSeen(Doc("x", None, None, None)) == None
  {
    RemoveMillisExamples();
  }

  lemma RemoveMillisExamples()
    ensures RemoveMillis("2021-05-01T10:00:00.123Z") == "2021-05-01T10:00:00Z"
    ensures RemoveMillis("2020-01-01T00:00:00.000Z") == "2020-01-01T00:00:00Z"
  {
    assert "2021-05-01T10:00:00.123Z"[..19] == "2021-05-01T10:00:00";
    assert "2020-01-01T00:00:00.000Z"[..19] == "2020-01-01T00:00:00";
  }

  // ---------------------------------------------------------------------
  // The `_source` filter of the scan (src/main.ts line 27)
  // ---------------------------------------------------------------------

  /** The fields the scan asks the source index to return. */
  const SourceFields: set<string> := {"references", "last-seen"}

  /** The fields `getLinks` and `getSeen` go on to read. */
  const ReadFields: set<string> := {"references", "last-seen", "first-seen"}

  /** A stored document as the scan returns it: fields outside `fields`
      are dropped from `_source`. */
  function Project(d: Doc, fields: set<string>): Doc {
    Doc(d.id,
        if "references" in fields then d.references else None,
        if "last-seen" in fields then d.lastSeen else None,
        if "first-seen" in fields then d.firstSeen else None)
  }

  /** Filtering twice keeps the fields both filters list, and a filter
      that already returned a field set returns it again unchanged. */
  lemma ProjectCompose(d: Doc, f: set<string>, g: set<string>)
    ensures Project(Project(d, f), g) == Project(d, f * g)
    ensures Project(Project(d, f), f) == Project(d, f)
  {
  }

  /** As written, the scan never returns first-seen, so `getSeen`'s
      fallback is dead: a document without last-seen gets a null `seen`
      even when it has a first-seen. */
  lemma ScanDropsFirstSeen(d: Doc)
    ensures GetSeen(Project(d, SourceFields))
            == if Truthy(d.lastSeen) then Some(RemoveMillis(d.lastSeen.value)) else None
    ensures !Truthy(d.lastSeen) && Truthy(d.firstSeen) ==> GetSeen(Project(d, SourceFields)) != GetSeen(d)
  {
  }

  /** The concrete input: a document seen first in 2020 and never since. */
  lemma ScanDropsFirstSeenExample()
    ensures GetSeen(Project(Doc("x", Some([]), None, Some("2020-01-01T00:00:00.000Z")), SourceFields)) == None
    ensures GetSeen(Doc("x", Some([]), None, Some("2020-01-01T00:00:00.000Z"))) == Some("2020-01-01T00:00:00Z")
  {
    RemoveMillisExamples();
  }

  /** Asking for every field the extractor reads leaves `getSeen` as it
      would be on the stored document. */
  lemma ReadFieldsKeepSeen(d: Doc)
    ensures GetSeen(Project(d, ReadFields)) == GetSeen(d)
    ensures Project(d, ReadFields).references == d.references
  {
  }

  // ---------------------------------------------------------------------
  // getLinks as a specification function
  // ---------------------------------------------------------------------

  /** Continue an already-emitted prefix with a further stream. */
  function Then(prior: seq<Edge>, next: Emitted): Emitted {
    Emitted(prior + next.edges, next.failure)
  }

  /** The inner `for (const ref of doc._source.references)` loop of one
      document whose canonical id is `to`. */
  function RefEdges(canon: Canonicaliser, refs: seq<Ref>, to: string, seen: Option<string>): Emitted
    decreases |refs|
  {
    if refs == [] then Emitted([], None)
    else
      var prior := RefEdges(canon, refs[..|refs| - 1], to, seen);
      var last := refs[|refs| - 1];
      if prior.failure.Some? then prior
      else match canon(last.parentHash)
        case None => Emitted(prior.edges, Some(MalformedCid(last.parentHash)))
        case Some(from) => Emitted(prior.edges + [Edge(from, to, last.name, seen)], None)
  }

  /** One turn of the outer loop: canonicalise `_id`, compute `seen`, then
      iterate the references. */
  function DocLinks(canon: Canonicaliser, d: Doc): Emitted {
    match canon(d.id)
    case None => Emitted([], Some(MalformedCid(d.id)))
    case Some(to) =>
      match d.references
      case None => Emitted([], Some(MissingReferences(d.id)))
      case Some(refs) => RefEdges(canon, refs, to, GetSeen(d))
  }

  /** The whole stream `getLinks` yields for a document sequence. */
  function Links(canon: Canonicaliser, docs: seq<Doc>): Emitted
    decreases |docs|
  {
    if docs == [] then Emitted([], None)
    else
      var prior := Links(canon, docs[..|docs| - 1]);
      if prior.failure.Some? then prior
      else Then(prior.edges, DocLinks(canon, docs[|docs| - 1]))
  }

  // ---------------------------------------------------------------------
  // The reference definition: documents whose identifiers all parse
  // ---------------------------------------------------------------------

  /** Every identifier of the document parses and `references` is there. */
  predicate WellFormed(canon: Canonicaliser, d: Doc) {
    && canon(d.id).Some?
    && d.references.Some?
    && forall j :: 0 <= j < |d.references.value| ==> canon(d.references.value[j].parentHash).Some?
  }

  predicate AllWellFormed(canon: Canonicaliser, docs: seq<Doc>) {
    forall i :: 0 <= i < |docs| ==> WellFormed(canon, docs[i])
  }

  /** One edge per reference, all with the document's canonical id as `to`
      and its `seen`, the i-th from the i-th reference. */
  function DocEdges(canon: Canonicaliser, d: Doc): (es: seq<Edge>)
    requires WellFormed(canon, d)
  {
    var refs := d.references.value;
    seq(|refs|, j requires 0 <= j < |refs| =>
      Edge(canon(refs[j].parentHash).value, canon(d.id).value, refs[j].name, GetSeen(d)))
  }

  /** The per-document edge lists, flattened in document order. */
  function AllEdges(canon: Canonicaliser, docs: seq<Doc>): seq<Edge>
    requires AllWellFormed(canon, docs)
    decreases |docs|
  {
    if docs == [] then []
    else AllEdges(canon, docs[..|docs| - 1]) + DocEdges(canon, docs[|docs| - 1])
  }

  /** Number of references over all documents (absent lists count zero). */
  function TotalRefs(docs: seq<Doc>): nat
    decreases |docs|
  {
    if docs == [] then 0
    else
      var last := docs[|docs| - 1];
      TotalRefs(docs[..|docs| - 1]) + (if last.references.Some? then |last.references.value| else 0)
  }

  // ---------------------------------------------------------------------
  // Lemmas about the stream
  // ---------------------------------------------------------------------

  lemma {:induction false} RefEdgesWellFormed(canon: Canonicaliser, refs: seq<Ref>, to: string, seen: Option<string>)
    requires forall j :: 0 <= j < |refs| ==> canon(refs[j].parentHash).Some?
    ensures RefEdges(canon, refs, to, seen).failure == None
    ensures RefEdges(canon, refs, to, seen).edges
            == seq(|refs|, j requires 0 <= j < |refs| => Edge(canon(refs[j].parentHash).value, to, refs[j].name, seen))
    decreases |refs|
  {
    if refs != [] {
      var init := refs[..|refs| - 1];
      RefEdgesWellFormed(canon, init, to, seen);
    }
  }

  lemma {:induction false} RefEdgesFailIffMalformed(canon: Canonicaliser, refs: seq<Ref>, to: string, seen: Option<string>)
    ensures RefEdges(canon, refs, to, seen).failure.None?
            <==> forall j :: 0 <= j < |refs| ==> canon(refs[j].parentHash).Some?
    decreases |refs|
  {
    if refs != [] {
      var init := refs[..|refs| - 1];
      RefEdgesFailIffMalformed(canon, init, to, seen);
      if RefEdges(canon, init, to, seen).failure.Some? {
        var j :| 0 <= j < |init| && canon(init[j].parentHash).None?;
        assert refs[j] == init[j];
      }
    }
  }

  /** Once a failure has been raised, later references emit nothing. */
  lemma {:induction false} RefEdgesFailFast(canon: Canonicaliser, refs: seq<Ref>, more: seq<Ref>, to: string, seen: Option<string>)
    requires RefEdges(canon, refs, to, seen).failure.Some?
    ensures RefEdges(canon, refs + more, to, seen) == RefEdges(canon, refs, to, seen)
    decreases |more|
  {
    if more != [] {
      var init := more[..|more| - 1];
      assert (refs + more)[..|refs + more| - 1] == refs + init;
      RefEdgesFailFast(canon, refs, init, to, seen);
    } else {
      assert refs + more == refs;
    }
  }

  /** With every identifier parsing, the stream ends normally and is the
      flattening of the per-document edge lists. */
  lemma {:induction false} LinksWellFormed(canon: Canonicaliser, docs: seq<Doc>)
    requires AllWellFormed(canon, docs)
    ensures Links(canon, docs) == Emitted(AllEdges(canon, docs), None)
    decreases |docs|
  {
    if docs != [] {
      var init := docs[..|docs| - 1];
      var last := docs[|docs| - 1];
      assert AllWellFormed(canon, init) by {
        forall i | 0 <= i < |init| ensures WellFormed(canon, init[i]) {
          assert init[i] == docs[i];
        }
      }
      LinksWellFormed(canon, init);
      assert WellFormed(canon, last);
      RefEdgesWellFormed(canon, last.references.value, canon(last.id).value, GetSeen(last));
    }
  }

  /** The stream ends with a failure exactly when some identifier is
      malformed or some document has no `references` field. */
  lemma {:induction false} LinksFailIffMalformed(canon: Canonicaliser, docs: seq<Doc>)
    ensures Links(canon, docs).failure.None? <==> AllWellFormed(canon, docs)
    decreases |docs|
  {
    if docs != [] {
      var init := docs[..|docs| - 1];
      var last := docs[|docs| - 1];
      LinksFailIffMalformed(canon, init);
      if AllWellFormed(canon, docs) {
        LinksWellFormed(canon, docs);
      } else if AllWellFormed(canon, init) {
        assert !WellFormed(canon, last) by {
          assert forall i :: 0 <= i < |init| ==> init[i] == docs[i];
        }
        if canon(last.id).Some? && last.references.Some? {
          RefEdgesFailIffMalformed(canon, last.references.value, canon(last.id).value, GetSeen(last));
        }
      } else {
        var i :| 0 <= i < |init| && !WellFormed(canon, init[i]);
        assert init[i] == docs[i];
      }
    }
  }

  /** Failing fast: nothing is emitted after the first failure. */
  lemma {:induction false} LinksFailFast(canon: Canonicaliser, docs: seq<Doc>, more: seq<Doc>)
    requires Links(canon, docs).failure.Some?
    ensures Links(canon, docs + more) == Links(canon, docs)
    decreases |more|
  {
    if more != [] {
      var init := more[..|more| - 1];
      assert (docs + more)[..|docs + more| - 1] == docs + init;
      LinksFailFast(canon, docs, init);
    } else {
      assert docs + more == docs;
    }
  }

  /** Every edge of a document carries that document's `seen`. */
  lemma {:induction false} RefEdgesSeen(canon: Canonicaliser, refs: seq<Ref>, to: string, seen: Option<string>)
    ensures forall k :: 0 <= k < |RefEdges(canon, refs, to, seen).edges| ==> RefEdges(canon, refs, to, seen).edges[k].seen == seen
    decreases |refs|
  {
    if refs != [] {
      RefEdgesSeen(canon, refs[..|refs| - 1], to, seen);
    }
  }

  /** Every edge of the stream carries the `seen` of one of the documents. */
  lemma {:induction false} LinksSeen(canon: Canonicaliser, docs: seq<Doc>)
    ensures forall k :: 0 <= k < |Links(canon, docs).edges| ==>
              exists j :: 0 <= j < |docs| && Links(canon, docs).edges[k].seen == GetSeen(docs[j])
    decreases |docs|
  {
    if docs != [] {
      var init := docs[..|docs| - 1];
      var last := docs[|docs| - 1];
      LinksSeen(canon, init);
      var prior := Links(canon, init);
      var next := DocLinks(canon, last);
      if canon(last.id).Some? && last.references.Some? {
        RefEdgesSeen(canon, last.references.value, canon(last.id).value, GetSeen(last));
      }
      var all := Links(canon, docs).edges;
      assert all == if prior.failure.Some? then prior.edges else prior.edges + next.edges;
      forall k | 0 <= k < |all|
        ensures exists j :: 0 <= j < |docs| && all[k].seen == GetSeen(docs[j])
      {
        if k < |prior.edges| {
          var j :| 0 <= j < |init| && prior.edges[k].seen == GetSeen(init[j]);
          assert init[j] == docs[j];
          assert all[k] == prior.edges[k];
        } else {
          assert all[k] == next.edges[k - |prior.edges|];
          assert all[k].seen == GetSeen(docs[|docs| - 1]);
        }
      }
    } else {
      assert Links(canon, docs).edges == [];
    }
  }

  /** The edge count is the total number of references: N references give
      N edges, and an empty list gives none. */
  lemma {:induction false} EdgeCount(canon: Canonicaliser, docs: seq<Doc>)
    requires AllWellFormed(canon, docs)
    ensures |AllEdges(canon, docs)| == TotalRefs(docs)
    decreases |docs|
  {
    if docs != [] {
      var init := docs[..|docs| - 1];
      assert AllWellFormed(canon, init) by {
        forall i | 0 <= i < |init| ensures WellFormed(canon, init[i]) {
          assert init[i] == docs[i];
        }
      }
      EdgeCount(canon, init);
    }
  }

  /** Where each field of an edge comes from: the edge for the j-th
      reference of document i sits right after the edges of documents
      0..i-1, takes `from` and `name` from that reference, and `to` and
      `seen` from the document. */
  lemma {:induction false} EdgeOrigin(canon: Canonicaliser, docs: seq<Doc>, i: nat, j: nat)
    requires AllWellFormed(canon, docs)
    requires i < |docs| && j < |docs[i].references.value|
    ensures TotalRefs(docs[..i]) + j < |AllEdges(canon, docs)|
    ensures AllEdges(canon, docs)[TotalRefs(docs[..i]) + j]
            == Edge(canon(docs[i].references.value[j].parentHash).value,
                    canon(docs[i].id).value,
                    docs[i].references.value[j].name,
                    GetSeen(docs[i]))
    decreases |docs|
  {
    var init := docs[..|docs| - 1];
    assert AllWellFormed(canon, init) by {
      forall k | 0 <= k < |init| ensures WellFormed(canon, init[k]) {
        assert init[k] == docs[k];
      }
    }
    EdgeCount(canon, init);
    if i == |docs| - 1 {
      assert docs[..i] == init;
    } else {
      assert init[i] == docs[i];
      assert init[..i] == docs[..i];
      EdgeOrigin(canon, init, i, j);
    }
  }

  /** A stream that ends normally on a prefix of length m ends normally
      on every shorter prefix. */
  lemma LinksOkPrefix(canon: Canonicaliser, docs: seq<Doc>, l: nat, m: nat)
    ensures l <= m <= |docs| && Links(canon, docs[..m]).failure.None? ==> Links(canon, docs[..l]).failure.None?
  {
    if l <= m <= |docs| {
      assert docs[..l] + docs[l..m] == docs[..m];
      if Links(canon, docs[..l]).failure.Some? {
        LinksFailFast(canon, docs[..l], docs[l..m]);
      }
    }
  }

  /** Index of the document whose processing raised the failure. */
  function FailedAt(canon: Canonicaliser, docs: seq<Doc>): (i: nat)
    requires Links(canon, docs).failure.Some?
    ensures i < |docs|
    ensures Links(canon, docs[..i]).failure.None?
    ensures DocLinks(canon, docs[i]).failure.Some?
    ensures Links(canon, docs) == Then(Links(canon, docs[..i]).edges, DocLinks(canon, docs[i]))
    decreases |docs|
  {
    var init := docs[..|docs| - 1];
    if Links(canon, init).failure.Some? then
      var i := FailedAt(canon, init);
      assert init[..i] == docs[..i] && init[i] == docs[i];
      i
    else
      |docs| - 1
  }

  /** One more document: the stream over a prefix, unfolded once. */
  lemma LinksStep(canon: Canonicaliser, docs: seq<Doc>, k: nat)
    requires k < |docs|
    ensures Links(canon, docs[..k + 1])
            == if Links(canon, docs[..k]).failure.Some? then Links(canon, docs[..k])
               else Then(Links(canon, docs[..k]).edges, DocLinks(canon, docs[k]))
  {
    assert docs[..k + 1][..k] == docs[..k];
  }

  /** The failure lies between a prefix on which the stream ends normally
      and a longer one on which it fails. */
  lemma FailedAtBetween(canon: Canonicaliser, docs: seq<Doc>, a: nat, b: nat)
    requires a <= b <= |docs|
    requires Links(canon, docs[..a]).failure.None? && Links(canon, docs[..b]).failure.Some?
    ensures Links(canon, docs) == Links(canon, docs[..b])
    ensures Links(canon, docs).failure.Some?
    ensures a <= FailedAt(canon, docs) < b
  {
    assert docs[..b] + docs[b..] == docs;
    LinksFailFast(canon, docs[..b], docs[b..]);
    var i := FailedAt(canon, docs);
    LinksStep(canon, docs, i);
    LinksOkPrefix(canon, docs, b, i);
    LinksOkPrefix(canon, docs, i + 1, a);
  }

  /** The failing document is the first one whose own processing fails. */
  lemma FailedAtUnique(canon: Canonicaliser, docs: seq<Doc>, j: nat)
    requires j < |docs|
    requires Links(canon, docs[..j]).failure.None?
    requires DocLinks(canon, docs[j]).failure.Some?
    ensures Links(canon, docs).failure.Some? && FailedAt(canon, docs) == j
  {
    LinksStep(canon, docs, j);
    FailedAtBetween(canon, docs, j, j + 1);
  }

  /** Extending a stream that ended normally: the edges over the longer
      run are those over the first part followed by those over the rest,
      and the rest decides the failure. */
  lemma {:induction false} LinksAppend(canon: Canonicaliser, docs: seq<Doc>, more: seq<Doc>)
    requires Links(canon, docs).failure.None?
    ensures Links(canon, docs + more) == Then(Links(canon, docs).edges, Links(canon, more))
    decreases |more|
  {
    var e := Links(canon, docs).edges;
    if more == [] {
      assert docs + more == docs;
      assert e + [] == e;
    } else {
      var init := more[..|more| - 1];
      var last := more[|more| - 1];
      var whole := docs + more;
      assert whole[..|whole| - 1] == docs + init;
      assert whole[|whole| - 1] == last;
      LinksAppend(canon, docs, init);
      var rest := Links(canon, init);
      LinksLast(canon, whole, docs + init, last);
      LinksLast(canon, more, init, last);
      ThenAssoc(e, rest.edges, DocLinks(canon, last));
    }
  }

  /** Continuing is associative. */
  lemma ThenAssoc(e: seq<Edge>, f: seq<Edge>, next: Emitted)
    ensures Then(e + f, next) == Then(e, Then(f, next))
  {
    assert (e + f) + next.edges == e + (f + next.edges);
  }

  /** The stream over a non-empty run, unfolded at its last document. */
  lemma LinksLast(canon: Canonicaliser, docs: seq<Doc>, init: seq<Doc>, last: Doc)
    requires docs != [] && docs[..|docs| - 1] == init && docs[|docs| - 1] == last
    ensures Links(canon, docs)
            == if Links(canon, init).failure.Some? then Links(canon, init)
               else Then(Links(canon, init).edges, DocLinks(canon, last))
  {
  }

  // ---------------------------------------------------------------------
  // getLinks
  // ---------------------------------------------------------------------

  /** One turn of `getLinks`'s outer loop: the document's id, its `seen`
      and the inner loop over its references. */
  method DocumentLinks(canon: Canonicaliser, doc: Doc) returns (edges: seq<Edge>, failure: Option<Failure>)
    ensures Emitted(edges, failure) == DocLinks(canon, doc)
  {
    edges, failure := [], None;
    var to := canon(doc.id);
    if to.None? {
      failure := Some(MalformedCid(doc.id));
      return;
    }
    var seen := GetSeen(doc);
    if doc.references.None? {
      failure := Some(MissingReferences(doc.id));
      return;
    }
    var refs := doc.references.value;
    var j := 0;
    while j < |refs|
      invariant 0 <= j <= |refs|
      invariant RefEdges(canon, refs[..j], to.value, seen) == Emitted(edges, None)
    {
      var ref := refs[j];
      assert refs[..j + 1][..j] == refs[..j];
      var from := canon(ref.parentHash);
      if from.None? {
        failure := Some(MalformedCid(ref.parentHash));
        assert refs[..j + 1] + refs[j + 1..] == refs;
        RefEdgesFailFast(canon, refs[..j + 1], refs[j + 1..], to.value, seen);
        return;
      }
      edges := edges + [Edge(from.value, to.value, ref.name, seen)];
      j := j + 1;
    }
    assert refs[..|refs|] == refs;
  }

  /** `getLinks`: the loop over documents; a failure ends the stream where
      it occurs (the generator throws). */
  method GetLinks(canon: Canonicaliser, docs: seq<Doc>) returns (edges: seq<Edge>, failure: Option<Failure>)
    ensures Emitted(edges, failure) == Links(canon, docs)
  {
    edges, failure := [], None;
    var i := 0;
    while i < |docs|
      invariant 0 <= i <= |docs|
      invariant Links(canon, docs[..i]) == Emitted(edges, None)
    {
      assert docs[..i + 1][..i] == docs[..i];
      var docEdges, docFailure := DocumentLinks(canon, docs[i]);
      edges := edges + docEdges;
      if docFailure.Some? {
        failure := docFailure;
        assert docs[..i + 1] + docs[i + 1..] == docs;
        LinksFailFast(canon, docs[..i + 1], docs[i + 1..]);
        return;
      }
      i := i + 1;
    }
    assert docs[..|docs|] == docs;
  }
}
