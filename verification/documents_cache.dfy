/** DocumentsCache: the included documents of one detail tab, kept in an
    insertion-ordered map from id to document, plus the set of ids that were
    marked stale. The Document class itself is not part of this model: it is a
    type parameter `D`, with `Document.getDocumentId` and `Document.isNew`
    passed in as functions. A Java object is mutated in place; here every
    operation returns the new cache, so a copy can never alias its original. */
module DocumentsCaches {
  import opened Wrappers
  import opened DocumentIds
  import opened Seqs

  /** The exceptions the cache throws. */
  datatype CacheError =
    | NullDocument     // Check.assumeNotNull in put
    | NullDocumentId   // the NullPointerException of markNotStale

  /** `order` is the key order of the LinkedHashMap, `docs` its entries and
      `stale` the set of stale ids. */
  datatype Cache<D> = Cache(order: seq<DocumentId>, docs: map<DocumentId, D>, stale: set<DocumentId>)

  /** The LinkedHashMap's representation: every key once in the order, and
      exactly the keys of the map. The stale set is unconstrained. */
  predicate Valid<D>(c: Cache<D>) {
    && NoDuplicates(c.order)
    && (forall id :: id in c.order ==> id in c.docs)
    && (forall id :: id in c.docs ==> id in c.order)
  }

  /** The constructor: no documents, nothing stale. */
  function Empty<D>(): (c: Cache<D>)
    ensures Valid(c) && Size(c) == 0 && !IsStaleAny(c)
    ensures forall id :: GetById(c, id).None?
  {
    Cache([], map[], {})
  }

  // ---------------------------------------------------------------------------
  // Queries

  function Size<D>(c: Cache<D>): nat {
    |c.docs|
  }

  /** `getDocumentIds()`, in iteration order. */
  function CachedIds<D>(c: Cache<D>): seq<DocumentId> {
    c.order
  }

  /** The documents of `docs` listed in the order of `ids`. */
  function DocumentsIn<D>(ids: seq<DocumentId>, docs: map<DocumentId, D>): (r: seq<D>)
    requires forall id :: id in ids ==> id in docs
    ensures |r| == |ids|
    ensures forall i :: 0 <= i < |ids| ==> r[i] == docs[ids[i]]
  {
    if |ids| == 0 then [] else [docs[ids[0]]] + DocumentsIn(ids[1..], docs)
  }

  /** `getDocuments()`, in iteration order. */
  function Documents<D>(c: Cache<D>): seq<D>
    requires Valid(c)
  {
    DocumentsIn(c.order, c.docs)
  }

  /** `getById`; `None` is the null it returns for an id that is not cached. */
  function GetById<D>(c: Cache<D>, id: DocumentId): Option<D> {
    if id in c.docs then Some(c.docs[id]) else None
  }

  /** `isStale()`, without an argument: some id is stale. */
  function IsStaleAny<D>(c: Cache<D>): (r: bool)
    ensures r <==> exists id :: IsStale(c, id)
  {
    if |c.stale| == 0 then false
    else
      var id :| id in c.stale;
      assert IsStale(c, id);
      true
  }

  /** `isStale(documentId)`. */
  function IsStale<D>(c: Cache<D>, id: DocumentId): bool {
    id in c.stale
  }

  // ---------------------------------------------------------------------------
  // Updates

  /** `LinkedHashMap.put`: a new key goes to the end, an existing key keeps its
      place and gets the new value. Staleness is not touched. */
  function Store<D>(c: Cache<D>, d: D, idOf: D -> DocumentId): (r: Cache<D>)
    ensures Valid(c) ==> Valid(r)
    ensures GetById(r, idOf(d)) == Some(d)
    ensures forall id :: id != idOf(d) ==> GetById(r, id) == GetById(c, id)
    ensures r.stale == c.stale
    ensures idOf(d) in c.docs ==> r.order == c.order
    ensures idOf(d) !in c.docs ==> r.order == c.order + [idOf(d)]
  {
    var id := idOf(d);
    var order := if id in c.docs then c.order else c.order + [id];
    var r := Cache(order, c.docs[id := d], c.stale);
    assert Valid(c) ==> Valid(r) by {
      if Valid(c) && id !in c.docs {
        assert id !in c.order;
        forall i, j | 0 <= i < j < |order| ensures order[i] != order[j] {
          if j == |c.order| {
            assert order[i] in c.order;
          }
        }
      }
    }
    r
  }

  /** `put(document)`: null is refused; otherwise the document is stored under
      its id and that id stops being stale. */
  function Put<D>(c: Cache<D>, d: Option<D>, idOf: D -> DocumentId): (r: Result<Cache<D>, CacheError>)
    ensures r.Err? <==> d.None?
    ensures d.None? ==> r == Err(NullDocument)
    ensures r.Ok? ==> GetById(r.value, idOf(d.value)) == Some(d.value) && !IsStale(r.value, idOf(d.value))
    ensures r.Ok? ==> forall id :: id != idOf(d.value) ==>
              GetById(r.value, id) == GetById(c, id) && IsStale(r.value, id) == IsStale(c, id)
    ensures r.Ok? && idOf(d.value) in c.docs ==> CachedIds(r.value) == CachedIds(c)
    ensures r.Ok? && idOf(d.value) !in c.docs ==> CachedIds(r.value) == CachedIds(c) + [idOf(d.value)]
    ensures r.Ok? && Valid(c) ==> Valid(r.value)
  {
    if d.None? then Err(NullDocument)
    else MarkNotStale(Store(c, d.value, idOf), Some(idOf(d.value)))
  }

  /** `putAll(documents)`: each document is stored in turn (the last one of the
      sequence is stored last); staleness is not touched. */
  function PutAll<D>(c: Cache<D>, ds: seq<D>, idOf: D -> DocumentId): (r: Cache<D>)
    ensures |ds| == 0 ==> r == c
    ensures r.stale == c.stale
    ensures Valid(c) ==> Valid(r)
    ensures |c.order| <= |r.order| && r.order[..|c.order|] == c.order
    decreases |ds|
  {
    if |ds| == 0 then c
    else Store(PutAll(c, ds[..|ds| - 1], idOf), ds[|ds| - 1], idOf)
  }

  /** The last document of `ds` carrying `id`, if any. */
  function LastWithId<D>(ds: seq<D>, id: DocumentId, idOf: D -> DocumentId): (r: Option<D>)
    ensures r.None? <==> forall i :: 0 <= i < |ds| ==> idOf(ds[i]) != id
    ensures r.Some? ==> exists i :: 0 <= i < |ds| && ds[i] == r.value && idOf(ds[i]) == id &&
                                    forall j :: i < j < |ds| ==> idOf(ds[j]) != id
    decreases |ds|
  {
    if |ds| == 0 then None
    else if idOf(ds[|ds| - 1]) == id then Some(ds[|ds| - 1])
    else
      var r := LastWithId(ds[..|ds| - 1], id, idOf);
      assert forall i :: 0 <= i < |ds| - 1 ==> ds[..|ds| - 1][i] == ds[i];
      r
  }

  /** After `putAll`, each id maps to the last document carrying it; ids the
      collection does not mention keep their old document. */
  lemma {:induction false} PutAllLastWins<D>(c: Cache<D>, ds: seq<D>, idOf: D -> DocumentId, id: DocumentId)
    ensures GetById(PutAll(c, ds, idOf), id) ==
              if LastWithId(ds, id, idOf).Some? then LastWithId(ds, id, idOf) else GetById(c, id)
    decreases |ds|
  {
    if |ds| > 0 {
      PutAllLastWins(c, ds[..|ds| - 1], idOf, id);
    }
  }

  /** Some document of `ds` carries `id`. */
  predicate Mentions<D>(ds: seq<D>, idOf: D -> DocumentId, id: DocumentId) {
    exists k :: 0 <= k < |ds| && idOf(ds[k]) == id
  }

  /** The ids `putAll` appends are ids of the collection that were not cached before. */
  lemma {:induction false} PutAllNewIds<D>(c: Cache<D>, ds: seq<D>, idOf: D -> DocumentId)
    ensures forall i :: |c.order| <= i < |PutAll(c, ds, idOf).order| ==>
              PutAll(c, ds, idOf).order[i] !in c.docs && Mentions(ds, idOf, PutAll(c, ds, idOf).order[i])
    decreases |ds|
  {
    if |ds| > 0 {
      var n := |ds| - 1;
      var front := ds[..n];
      var p := PutAll(c, front, idOf);
      var r := PutAll(c, ds, idOf);
      PutAllNewIds(c, front, idOf);
      assert r == Store(p, ds[n], idOf);
      forall i | |c.order| <= i < |r.order|
        ensures r.order[i] !in c.docs && Mentions(ds, idOf, r.order[i])
      {
        if i < |p.order| {
          assert r.order[i] == p.order[i];
          assert Mentions(front, idOf, p.order[i]);
          var m :| 0 <= m < n && idOf(front[m]) == p.order[i];
          assert ds[m] == front[m];
        } else {
          var id := idOf(ds[n]);
          assert id !in p.docs;
          PutAllLastWins(c, front, idOf, id);
        }
      }
    }
  }

  /** The position of the first document of `ds` carrying `id`, or |ds| if none does. */
  function FirstOccurrence<D>(ds: seq<D>, idOf: D -> DocumentId, id: DocumentId): (k: nat)
    ensures k <= |ds|
    ensures k < |ds| <==> Mentions(ds, idOf, id)
    ensures k < |ds| ==> idOf(ds[k]) == id
    ensures forall j :: 0 <= j < k && j < |ds| ==> idOf(ds[j]) != id
    decreases |ds|
  {
    if |ds| == 0 then 0
    else
      var n := |ds| - 1;
      var front := ds[..n];
      assert forall j :: 0 <= j < n ==> front[j] == ds[j];
      if Mentions(front, idOf, id) then FirstOccurrence(front, idOf, id)
      else if idOf(ds[n]) == id then n
      else |ds|
  }

  /** Ids that `putAll` adds are appended in the order in which they first
      occur in the collection. */
  lemma {:induction false} PutAllFirstInsertionOrder<D>(c: Cache<D>, ds: seq<D>, idOf: D -> DocumentId)
    ensures forall i :: |c.order| <= i < |PutAll(c, ds, idOf).order| - 1 ==>
              FirstOccurrence(ds, idOf, PutAll(c, ds, idOf).order[i]) <
              FirstOccurrence(ds, idOf, PutAll(c, ds, idOf).order[i + 1])
    decreases |ds|
  {
    if |ds| > 0 {
      var n := |ds| - 1;
      var front := ds[..n];
      var d := ds[n];
      var p := PutAll(c, front, idOf);
      var r := PutAll(c, ds, idOf);
      PutAllFirstInsertionOrder(c, front, idOf);
      PutAllNewIds(c, front, idOf);
      assert r == Store(p, d, idOf);
      forall i | |c.order| <= i < |r.order| - 1
        ensures FirstOccurrence(ds, idOf, r.order[i]) < FirstOccurrence(ds, idOf, r.order[i + 1])
      {
        var j := i + 1;
        assert i < |p.order| && r.order[i] == p.order[i];
        assert Mentions(front, idOf, p.order[i]);
        if j < |p.order| {
          assert r.order[j] == p.order[j];
          assert Mentions(front, idOf, p.order[j]);
        } else {
          assert r.order[j] == idOf(d) && idOf(d) !in p.docs;
          PutAllLastWins(c, front, idOf, idOf(d));
          assert !Mentions(front, idOf, idOf(d));
        }
      }
    }
  }

  /** `removeById(documentId)`: the document is dropped and its id stops being
      stale. A null id throws, after removing nothing. */
  function RemoveById<D>(c: Cache<D>, id: Option<DocumentId>): (r: Result<Cache<D>, CacheError>)
    ensures r.Err? <==> id.None?
    ensures r.Ok? ==> GetById(r.value, id.value).None? && !IsStale(r.value, id.value)
    ensures r.Ok? ==> forall other :: other != id.value ==>
              GetById(r.value, other) == GetById(c, other) && IsStale(r.value, other) == IsStale(c, other)
    ensures r.Ok? && Valid(c) ==> Valid(r.value) && IsSubsequence(CachedIds(r.value), CachedIds(c))
  {
    if id.None? then Err(NullDocumentId)
    else
      var gone := id.value;
      var order := Filter(c.order, Other(gone));
      var r := Cache(order, c.docs - {gone}, c.stale);
      assert Valid(c) ==> Valid(r) && IsSubsequence(order, c.order) by {
        if Valid(c) {
          FilterKeepsNoDuplicates(c.order, Other(gone));
          FilterIsSubsequence(c.order, Other(gone));
        }
      }
      MarkNotStale(r, id)
  }

  /** The ids other than `gone`. */
  function Other(gone: DocumentId): DocumentId -> bool {
    x => x != gone
  }

  /** Filtering out an id that was appended to a sequence without it gives the sequence back. */
  lemma RemoveAppended(s: seq<DocumentId>, id: DocumentId)
    requires id !in s
    ensures Filter(s + [id], Other(id)) == s
  {
    FilterAppend(s, [id], Other(id));
    forall i | 0 <= i < |s| ensures Other(id)(s[i]) {
      assert s[i] != id;
    }
    FilterAllPass(s, Other(id));
    assert Filter([id], Other(id)) == [];
  }

  /** Putting a document under an id that was not cached and then removing
      that id gives back the original cache, with that id no longer stale. */
  lemma PutThenRemove<D>(c: Cache<D>, d: D, idOf: D -> DocumentId)
    requires Valid(c) && idOf(d) !in c.docs
    ensures Put(c, Some(d), idOf).Ok?
    ensures RemoveById(Put(c, Some(d), idOf).value, Some(idOf(d))) == Ok(c.(stale := c.stale - {idOf(d)}))
  {
    var id := idOf(d);
    var p := Cache(c.order + [id], c.docs[id := d], c.stale - {id});
    assert Put(c, Some(d), idOf) == Ok(p);
    assert id !in c.order;
    RemoveAppended(c.order, id);
    assert p.docs - {id} == c.docs;
    assert p.stale - {id} == c.stale - {id};
    assert RemoveById(p, Some(id)) == Ok(Cache(Filter(p.order, Other(id)), p.docs - {id}, p.stale - {id}));
    assert Cache(Filter(p.order, Other(id)), p.docs - {id}, p.stale - {id}) == c.(stale := c.stale - {id});
  }

  /** The cached ids whose document is new. */
  function KeptNew<D>(docs: map<DocumentId, D>, isNew: D -> bool): DocumentId -> bool {
    id => id in docs && isNew(docs[id])
  }

  /** The entries whose document is new. */
  function NewEntries<D>(docs: map<DocumentId, D>, isNew: D -> bool): (r: map<DocumentId, D>)
    ensures forall id :: id in r <==> id in docs && isNew(docs[id])
    ensures forall id :: id in r ==> r[id] == docs[id]
  {
    map id | id in docs && isNew(docs[id]) :: docs[id]
  }

  /** `clearAllExceptNewDocuments()`: exactly the new documents stay, in their
      original order; the stale set is not touched, so it may go on naming ids
      that are no longer cached. */
  function ClearAllExceptNewDocuments<D>(c: Cache<D>, isNew: D -> bool): (r: Cache<D>)
    requires Valid(c)
    ensures Valid(r)
    ensures r.stale == c.stale
    ensures forall id :: GetById(r, id).Some? <==> GetById(c, id).Some? && isNew(GetById(c, id).value)
    ensures forall id :: GetById(r, id).Some? ==> GetById(r, id) == GetById(c, id)
    ensures Documents(r) == Filter(Documents(c), isNew)
  {
    var r := Cache(Filter(c.order, KeptNew(c.docs, isNew)), NewEntries(c.docs, isNew), c.stale);
    ClearKeepsValid(c, isNew);
    FilterDocuments(c.order, c.docs, isNew);
    r
  }

  lemma ClearKeepsValid<D>(c: Cache<D>, isNew: D -> bool)
    requires Valid(c)
    ensures Valid(Cache(Filter(c.order, KeptNew(c.docs, isNew)), NewEntries(c.docs, isNew), c.stale))
  {
    var order := Filter(c.order, KeptNew(c.docs, isNew));
    var docs := NewEntries(c.docs, isNew);
    FilterKeepsNoDuplicates(c.order, KeptNew(c.docs, isNew));
    forall id | id in docs ensures id in order {
      var i :| 0 <= i < |c.order| && c.order[i] == id;
    }
    forall id | id in order ensures id in docs {
      var i :| 0 <= i < |order| && order[i] == id;
    }
  }

  /** Filtering the listed documents is listing the documents of the filtered ids. */
  lemma {:induction false} FilterDocuments<D>(ids: seq<DocumentId>, docs: map<DocumentId, D>, isNew: D -> bool)
    requires forall id :: id in ids ==> id in docs
    ensures Filter(DocumentsIn(ids, docs), isNew) ==
            DocumentsIn(Filter(ids, KeptNew(docs, isNew)), NewEntries(docs, isNew))
    decreases |ids|
  {
    if |ids| > 0 {
      FilterDocuments(ids[1..], docs, isNew);
      assert DocumentsIn(ids, docs)[1..] == DocumentsIn(ids[1..], docs);
    }
  }

  /** `markAllStale()`: every currently cached id becomes stale, in addition
      to those already stale. */
  function MarkAllStale<D>(c: Cache<D>): (r: Cache<D>)
    ensures forall id :: IsStale(r, id) <==> IsStale(c, id) || GetById(c, id).Some?
    ensures forall id :: GetById(r, id) == GetById(c, id)
    ensures CachedIds(r) == CachedIds(c)
    ensures Size(c) > 0 ==> IsStaleAny(r)
  {
    c.(stale := c.stale + c.docs.Keys)
  }

  /** `markAllNotStale()`. */
  function MarkAllNotStale<D>(c: Cache<D>): (r: Cache<D>)
    ensures !IsStaleAny(r)
    ensures forall id :: GetById(r, id) == GetById(c, id)
    ensures CachedIds(r) == CachedIds(c)
  {
    c.(stale := {})
  }

  /** `markNotStale(documentId)`: a null id throws; otherwise only that id
      stops being stale. */
  function MarkNotStale<D>(c: Cache<D>, id: Option<DocumentId>): (r: Result<Cache<D>, CacheError>)
    ensures r.Err? <==> id.None?
    ensures id.None? ==> r == Err(NullDocumentId)
    ensures r.Ok? ==> !IsStale(r.value, id.value)
    ensures r.Ok? ==> forall other :: other != id.value ==> IsStale(r.value, other) == IsStale(c, other)
    ensures r.Ok? ==> r.value.order == c.order && r.value.docs == c.docs
  {
    if id.None? then Err(NullDocumentId)
    else Ok(c.(stale := c.stale - {id.value}))
  }

  /** `copy(documentCopyMethod)`: the same ids in the same order, the same stale
      set, and each document replaced by its copy. */
  function Copy<D>(c: Cache<D>, copyDocument: D -> D): (r: Cache<D>)
    ensures CachedIds(r) == CachedIds(c)
    ensures forall id :: IsStale(r, id) == IsStale(c, id)
    ensures forall id :: GetById(c, id).Some? <==> GetById(r, id).Some?
    ensures forall id :: GetById(c, id).Some? ==> GetById(r, id).value == copyDocument(GetById(c, id).value)
    ensures Valid(c) ==> Valid(r) && Documents(r) == Map(Documents(c), copyDocument)
  {
    Cache(c.order, map id | id in c.docs :: copyDocument(c.docs[id]), c.stale)
  }

  /** `size()` is the number of ids that iteration visits. */
  lemma SizeCountsIds<D>(c: Cache<D>)
    requires Valid(c)
    ensures Size(c) == |CachedIds(c)|
  {
    DistinctCardinality(c.order);
    assert (set x | x in c.order) == c.docs.Keys;
  }
}
