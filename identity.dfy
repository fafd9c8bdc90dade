/**
 * The identity assigner of src/main.ts: `base64RemovePadding`, `hashId` and
 * the `onDocument` callback of the bulk writer, which gives every edge the
 * document id `hashId("ipfs://" + from + "-ipfs://" + to + "-" + name)` in
 * the destination index.
 *
 * SHA-1 followed by base64 (`crypto.createHash("sha1")..digest("base64")`)
 * is a library call; it is the parameter `digest`, an arbitrary function.
 *
 * The destination index is modelled as a map from document id to document,
 * and an `index` bulk operation replaces the document under its id. That is
 * where the deterministic id pays off: writing the same edges twice leaves
 * the index as writing them once.
 */
module Identity {
  import opened Extractor
  import opened Text

  /** `dstIndex`, the index every edge is written to. */
  const DstIndex := "ipfs_links"

  /** SHA-1 of the input, rendered in base64. */
  type Digest = string -> string

  // ---------------------------------------------------------------------
  // base64RemovePadding
  // ---------------------------------------------------------------------

  predicate EndsWithPad(s: string) {
    |s| > 0 && s[|s| - 1] == '='
  }

  /** `r` is `s` with its trailing run of `=` shortened by as much as
      `/={1,2}$/` removes: up to two characters, and only '=' characters. */
  predicate PaddingStripped(s: string, r: string) {
    && r <= s
    && |s| - |r| <= 2
    && (forall i :: |r| <= i < |s| ==> s[i] == '=')
    && (|s| - |r| < 2 ==> !EndsWithPad(r))
  }

  /** `str.replace(/={1,2}$/, "")`: the regular expression has no `g` or
      `m` flag, so it removes the leftmost match of one or two '=' that
      reach the end of the string, and `$` matches only at the very end. */
  function RemovePadding(s: string): (r: string)
    ensures PaddingStripped(s, r)
    ensures !EndsWithPad(s) ==> r == s
  {
    if |s| >= 2 && s[|s| - 2] == '=' && s[|s| - 1] == '=' then s[..|s| - 2]
    else if EndsWithPad(s) then s[..|s| - 1]
    else s
  }

  /** The specification leaves no choice: there is one stripped form. */
  lemma PaddingStrippedUnique(s: string, r1: string, r2: string)
    requires PaddingStripped(s, r1) && PaddingStripped(s, r2)
    ensures r1 == r2
  {
    assert forall k :: 0 <= k < |r1| ==> r1[k] == s[k];
    assert forall k :: 0 <= k < |r2| ==> r2[k] == s[k];
    assert |r1| == |r2|;
    assert r1 == s[..|r1|];
  }

  // ---------------------------------------------------------------------
  // hashId and the key string
  // ---------------------------------------------------------------------

  /** `hashId`. */
  function HashId(digest: Digest, input: string): (id: string)
    ensures PaddingStripped(digest(input), id)
  {
    RemovePadding(digest(input))
  }

  /** The string hashed for an edge (the template literal of `onDocument`). */
  function KeyString(from: string, to: string, name: string): string {
    "ipfs://" + from + "-ipfs://" + to + "-" + name
  }

  /** The key string determines the triple as long as `from` and `to` hold
      no '-' (canonical CIDv1 text is lower-case base32, which has none);
      `name`, a file name, may hold anything. */
  lemma KeyStringInjective(f1: string, t1: string, n1: string, f2: string, t2: string, n2: string)
    requires '-' !in f1 && '-' !in t1 && '-' !in f2 && '-' !in t2
    ensures KeyString(f1, t1, n1) == KeyString(f2, t2, n2) <==> f1 == f2 && t1 == t2 && n1 == n2
  {
    if KeyString(f1, t1, n1) == KeyString(f2, t2, n2) {
      var rest1 := f1 + "-" + ("ipfs://" + t1 + "-" + n1);
      var rest2 := f2 + "-" + ("ipfs://" + t2 + "-" + n2);
      assert rest1 == KeyString(f1, t1, n1)[7..];
      assert rest2 == KeyString(f2, t2, n2)[7..];
      SplitAtFirst(f1, "ipfs://" + t1 + "-" + n1, f2, "ipfs://" + t2 + "-" + n2, '-');
      assert t1 + "-" + n1 == ("ipfs://" + t1 + "-" + n1)[7..];
      assert t2 + "-" + n2 == ("ipfs://" + t2 + "-" + n2)[7..];
      SplitAtFirst(t1, n1, t2, n2, '-');
    }
  }

  /** Without that condition two different edges share a key. */
  lemma KeyStringAmbiguous()
    ensures KeyString("a", "b-c", "d") == KeyString("a", "b", "c-d")
  {
  }

  // ---------------------------------------------------------------------
  // onDocument and the destination index
  // ---------------------------------------------------------------------

  /** The action line `{ index: { _index, _id } }` of one bulk operation. */
  datatype IndexAction = IndexAction(index: string, id: string)

  /** An action line and the document that follows it. */
  datatype BulkItem = BulkItem(action: IndexAction, doc: Edge)

  /** `onDocument`. */
  function OnDocument(digest: Digest, e: Edge): (a: IndexAction)
    ensures a.index == DstIndex
    ensures PaddingStripped(digest(KeyString(e.from, e.to, e.name)), a.id)
  {
    IndexAction(DstIndex, HashId(digest, KeyString(e.from, e.to, e.name)))
  }

  /** Equal (from, to, name) give equal ids, whatever `seen` is. */
  lemma SameTripleSameId(digest: Digest, e1: Edge, e2: Edge)
    requires e1.from == e2.from && e1.to == e2.to && e1.name == e2.name
    ensures OnDocument(digest, e1) == OnDocument(digest, e2)
  {
  }

  /** The bulk operations for a stream of edges, in stream order. */
  function BulkItems(digest: Digest, edges: seq<Edge>): seq<BulkItem> {
    seq(|edges|, i requires 0 <= i < |edges| => BulkItem(OnDocument(digest, edges[i]), edges[i]))
  }

  /** Operations are produced edge by edge: the operations for a stream
      built in two parts are those of the first part, then those of the
      second. */
  lemma BulkItemsAppend(digest: Digest, a: seq<Edge>, b: seq<Edge>)
    ensures BulkItems(digest, a + b) == BulkItems(digest, a) + BulkItems(digest, b)
  {
  }

  /** The destination index: document id to document. */
  type Store = map<string, Edge>

  /** Performing the operations one after another. */
  function Apply(store: Store, items: seq<BulkItem>): Store
    decreases |items|
  {
    if items == [] then store
    else Apply(store[items[0].action.id := items[0].doc], items[1..])
  }

  /** The documents the operations leave behind, the last write to an id
      winning. */
  function Writes(items: seq<BulkItem>): map<string, Edge>
    decreases |items|
  {
    if items == [] then map[]
    else map[items[0].action.id := items[0].doc] + Writes(items[1..])
  }

  /** Writing is overriding the index with the written documents. */
  lemma {:induction false} ApplyOverrides(store: Store, items: seq<BulkItem>)
    ensures Apply(store, items) == store + Writes(items)
    decreases |items|
  {
    if items != [] {
      var x := items[0];
      ApplyOverrides(store[x.action.id := x.doc], items[1..]);
      assert store[x.action.id := x.doc] == store + map[x.action.id := x.doc];
      var w := map[x.action.id := x.doc];
      var rest := Writes(items[1..]);
      assert (store + w) + rest == store + (w + rest);
    }
  }

  /** Upserts keyed by id are idempotent: replaying the same operations on
      the index they produced changes nothing. */
  lemma ApplyTwice(store: Store, items: seq<BulkItem>)
    ensures Apply(Apply(store, items), items) == Apply(store, items)
  {
    ApplyOverrides(store, items);
    ApplyOverrides(Apply(store, items), items);
    var w := Writes(items);
    assert (store + w) + w == store + w;
  }
}
