/** The semantic-search index of the backend (backend/functions.py): the text and hash each
    course is indexed under, the change detection and 100-item batching that brings the
    vector store up to date with the catalog, and the flattening of query results.

    The store is a map from course id to its stored record; md5 is a function parameter, and
    the catalog is the sequence of `(id, entry)` pairs in dictionary iteration order. */
module SearchIndex {
  import opened Wrappers
  import opened PyStr
  import opened Schema

  // ---------------------------------------------------------------------------------------
  // generate_hash

  /** `x if x else ""` for a title or description that may be `None`. */
  function OrEmpty(x: Option<string>): string
  {
    if x.Some? then x.value else ""
  }

  /** The text a course is indexed under: title and description joined by one space, stripped. */
  function CombinedText(title: Option<string>, desc: Option<string>): string
  {
    Strip(OrEmpty(title) + " " + OrEmpty(desc))
  }

  /** Returns `(md5 of the combined text, the combined text)`. */
  function GenerateHash(md5: string -> string, title: Option<string>, desc: Option<string>): (r: (string, string))
    ensures r.1 == CombinedText(title, desc)
    ensures r.0 == md5(r.1)
  {
    var text := CombinedText(title, desc);
    (md5(text), text)
  }

  /** The hash depends on the combined text alone. */
  lemma HashDependsOnlyOnText(md5: string -> string, t1: Option<string>, d1: Option<string>,
                              t2: Option<string>, d2: Option<string>)
    requires GenerateHash(md5, t1, d1).1 == GenerateHash(md5, t2, d2).1
    ensures GenerateHash(md5, t1, d1).0 == GenerateHash(md5, t2, d2).0
  {
  }

  /** An empty title or description counts the same as a missing one (both are falsy). */
  lemma BlankFieldLikeMissing(title: Option<string>, desc: Option<string>)
    ensures CombinedText(Some(""), desc) == CombinedText(None, desc)
    ensures CombinedText(title, Some("")) == CombinedText(title, None)
  {
  }

  /** With no title the text is the stripped description; with no description, the stripped
      title; with neither, the empty string. */
  lemma CombinedTextOneSided(title: Option<string>, desc: Option<string>)
    ensures OrEmpty(title) == "" ==> CombinedText(title, desc) == Strip(OrEmpty(desc))
    ensures OrEmpty(desc) == "" ==> CombinedText(title, desc) == Strip(OrEmpty(title))
    ensures OrEmpty(title) == "" && OrEmpty(desc) == "" ==> CombinedText(title, desc) == ""
  {
    var t, d := OrEmpty(title), OrEmpty(desc);
    if t == "" {
      assert t + " " + d == [' '] + d;
      StripLeadingSpace(' ', d);
    }
    if d == "" {
      assert t + " " + d == t + [' '];
      StripTrailingSpace(t, ' ');
    }
    if t == "" && d == "" {
      assert Strip("") == "";
    }
  }

  // ---------------------------------------------------------------------------------------
  // The store

  /** What the store keeps per id: the document and its metadata (which may be missing). */
  datatype StoredRecord = StoredRecord(document: string, metadata: Option<map<string, string>>)

  /** One upserted entry: id, document and metadata, taken from the three aligned lists. */
  datatype UpsertItem = UpsertItem(id: string, document: string, metadata: map<string, string>)

  /** The store after upserting `items` in order: each id gets its document and metadata. */
  function Upserted(records: map<string, StoredRecord>, items: seq<UpsertItem>): map<string, StoredRecord>
    decreases |items|
  {
    if items == [] then records
    else Upserted(records[items[0].id := StoredRecord(items[0].document, Some(items[0].metadata))], items[1..])
  }

  function Ids(items: seq<UpsertItem>): (r: seq<string>)
    ensures |r| == |items| && forall i | 0 <= i < |items| :: r[i] == items[i].id
  {
    seq(|items|, i requires 0 <= i < |items| => items[i].id)
  }

  /** The three aligned lists read as one list of entries. */
  function Zip(ids: seq<string>, documents: seq<string>, metadatas: seq<map<string, string>>): (r: seq<UpsertItem>)
    requires |ids| == |documents| == |metadatas|
    ensures |r| == |ids|
    ensures forall i | 0 <= i < |r| :: r[i].id == ids[i] && r[i].document == documents[i] && r[i].metadata == metadatas[i]
  {
    seq(|ids|, i requires 0 <= i < |ids| => UpsertItem(ids[i], documents[i], metadatas[i]))
  }

  lemma ZipAppend(ids: seq<string>, documents: seq<string>, metadatas: seq<map<string, string>>, item: UpsertItem)
    requires |ids| == |documents| == |metadatas|
    ensures Zip(ids + [item.id], documents + [item.document], metadatas + [item.metadata])
         == Zip(ids, documents, metadatas) + [item]
  {
  }

  /** Upserting two lists one after the other is upserting their concatenation. */
  lemma {:induction false} UpsertedAppend(records: map<string, StoredRecord>, a: seq<UpsertItem>, b: seq<UpsertItem>)
    ensures Upserted(Upserted(records, a), b) == Upserted(records, a + b)
    decreases |a|
  {
    if a != [] {
      var r1 := records[a[0].id := StoredRecord(a[0].document, Some(a[0].metadata))];
      assert (a + b)[0] == a[0] && (a + b)[1..] == a[1..] + b;
      assert Upserted(records, a) == Upserted(r1, a[1..]);
      assert Upserted(records, a + b) == Upserted(r1, a[1..] + b);
      UpsertedAppend(r1, a[1..], b);
    } else {
      assert a + b == b;
    }
  }

  /** An id no entry names keeps its record, or its absence. */
  lemma {:induction false} UpsertedOtherId(records: map<string, StoredRecord>, items: seq<UpsertItem>, id: string)
    requires id !in Ids(items)
    ensures id in Upserted(records, items) <==> id in records
    ensures id in records ==> Upserted(records, items)[id] == records[id]
    decreases |items|
  {
    if items != [] {
      assert Ids(items[1..]) == Ids(items)[1..];
      UpsertedOtherId(records[items[0].id := StoredRecord(items[0].document, Some(items[0].metadata))], items[1..], id);
    }
  }

  predicate Distinct(xs: seq<string>)
  {
    forall i, j | 0 <= i < j < |xs| :: xs[i] != xs[j]
  }

  /** With distinct ids, each entry is what the store holds for its id afterwards. */
  lemma {:induction false} UpsertedLookup(records: map<string, StoredRecord>, items: seq<UpsertItem>, k: nat)
    requires Distinct(Ids(items)) && k < |items|
    ensures items[k].id in Upserted(records, items)
    ensures Upserted(records, items)[items[k].id] == StoredRecord(items[k].document, Some(items[k].metadata))
    decreases |items|
  {
    var r1 := records[items[0].id := StoredRecord(items[0].document, Some(items[0].metadata))];
    assert Ids(items[1..]) == Ids(items)[1..];
    if k == 0 {
      assert items[0].id !in Ids(items[1..]);
      UpsertedOtherId(r1, items[1..], items[0].id);
    } else {
      UpsertedLookup(r1, items[1..], k - 1);
    }
  }

  /** The store, with its two operations. */
  class Collection {
    var records: map<string, StoredRecord>

    constructor (initial: map<string, StoredRecord>)
      ensures records == initial
    {
      records := initial;
    }

    /** `collection.get(ids=[id])`: the stored record, if the id is stored. */
    method Get(id: string) returns (r: Option<StoredRecord>)
      ensures id in records <==> r.Some?
      ensures r.Some? ==> r.value == records[id]
    {
      if id in records {
        r := Some(records[id]);
      } else {
        r := None;
      }
    }

    /** `collection.upsert(ids, documents, metadatas)`: the lists must be aligned. */
    method Upsert(ids: seq<string>, documents: seq<string>, metadatas: seq<map<string, string>>)
      requires |ids| == |documents| == |metadatas|
      modifies this
      ensures records == Upserted(old(records), Zip(ids, documents, metadatas))
    {
      var items := Zip(ids, documents, metadatas);
      var k := 0;
      while k < |items|
        invariant 0 <= k <= |items|
        invariant Upserted(records, items[k..]) == Upserted(old(records), items)
      {
        assert items[k..][1..] == items[k + 1..];
        records := records[items[k].id := StoredRecord(items[k].document, Some(items[k].metadata))];
        k := k + 1;
      }
    }
  }

  // ---------------------------------------------------------------------------------------
  // initialize_database

  /** Whether a course must be (re)indexed: its id is not stored, or its stored metadata is
      missing or empty, or the stored hash is missing or differs. */
  predicate NeedsUpsert(records: map<string, StoredRecord>, id: string, hash: string)
  {
    || id !in records
    || records[id].metadata.None?
    || records[id].metadata.value == map[]
    || "hash" !in records[id].metadata.value
    || records[id].metadata.value["hash"] != hash
  }

  /** The hash an entry's metadata carries. */
  function HashOf(item: UpsertItem): string
  {
    if "hash" in item.metadata then item.metadata["hash"] else ""
  }

  /** The entry sent for a catalog course: its combined text, and as metadata its title,
      description and the hash of that text. */
  function ItemFor(md5: string -> string, id: string, info: CourseInfo): (r: UpsertItem)
    ensures r.id == id
  {
    var (hash, text) := GenerateHash(md5, Some(info.title), Some(info.desc));
    UpsertItem(id, text, map["title" := info.title, "description" := info.desc, "hash" := hash])
  }

  /** The entry's document is the combined text, and its metadata holds exactly the title, the
      description and the md5 of that text. */
  lemma ItemForFields(md5: string -> string, id: string, info: CourseInfo)
    ensures ItemFor(md5, id, info).document == CombinedText(Some(info.title), Some(info.desc))
    ensures ItemFor(md5, id, info).metadata.Keys == {"title", "description", "hash"}
    ensures HashOf(ItemFor(md5, id, info)) == md5(ItemFor(md5, id, info).document)
    ensures ItemFor(md5, id, info).metadata["title"] == info.title
    ensures ItemFor(md5, id, info).metadata["description"] == info.desc
  {
  }

  function CatalogIds(graph: seq<(string, CourseInfo)>): (r: seq<string>)
    ensures |r| == |graph| && forall i | 0 <= i < |graph| :: r[i] == graph[i].0
  {
    seq(|graph|, i requires 0 <= i < |graph| => graph[i].0)
  }

  /** No course id repeats an earlier one (the catalog is a dictionary). */
  predicate UniqueIds(graph: seq<(string, CourseInfo)>)
    decreases |graph|
  {
    graph == [] || (graph[|graph| - 1].0 !in CatalogIds(graph[..|graph| - 1]) && UniqueIds(graph[..|graph| - 1]))
  }

  lemma {:induction false} UniqueIdsDistinct(graph: seq<(string, CourseInfo)>)
    ensures UniqueIds(graph) <==> Distinct(CatalogIds(graph))
    decreases |graph|
  {
    if graph != [] {
      var n := |graph| - 1;
      var init := graph[..n];
      UniqueIdsDistinct(init);
      assert forall i | 0 <= i < n :: CatalogIds(init)[i] == CatalogIds(graph)[i];
      if Distinct(CatalogIds(graph)) {
        assert Distinct(CatalogIds(init)) by {
          forall i, j | 0 <= i < j < n ensures CatalogIds(init)[i] != CatalogIds(init)[j] {
            assert CatalogIds(graph)[i] != CatalogIds(graph)[j];
          }
        }
        forall i | 0 <= i < n ensures CatalogIds(init)[i] != graph[n].0 {
          assert CatalogIds(graph)[i] != CatalogIds(graph)[n];
        }
      }
      if UniqueIds(graph) {
        forall i, j | 0 <= i < j < |graph| ensures CatalogIds(graph)[i] != CatalogIds(graph)[j] {
          if j < n {
            assert CatalogIds(init)[i] != CatalogIds(init)[j];
          } else {
            assert CatalogIds(init)[i] == CatalogIds(graph)[i];
          }
        }
      }
    }
  }

  /** One candidate entry per catalog course, in catalog order. */
  function Candidates(graph: seq<(string, CourseInfo)>, md5: string -> string): (r: seq<UpsertItem>)
    ensures |r| == |graph|
  {
    seq(|graph|, i requires 0 <= i < |graph| => ItemFor(md5, graph[i].0, graph[i].1))
  }

  /** The candidate at each position is the entry for the course there, so the candidates
      carry the catalog's ids, and a metadata hash each. */
  lemma CandidatesAre(graph: seq<(string, CourseInfo)>, md5: string -> string)
    ensures forall i | 0 <= i < |graph| :: Candidates(graph, md5)[i] == ItemFor(md5, graph[i].0, graph[i].1)
    ensures Ids(Candidates(graph, md5)) == CatalogIds(graph)
    ensures forall i | 0 <= i < |graph| :: "hash" in Candidates(graph, md5)[i].metadata
  {
    forall i | 0 <= i < |graph| ensures "hash" in Candidates(graph, md5)[i].metadata {
      ItemForFields(md5, graph[i].0, graph[i].1);
    }
  }

  /** The candidates that must be sent, in order: those that need an upsert against `records`. */
  function Pending(items: seq<UpsertItem>, records: map<string, StoredRecord>): seq<UpsertItem>
    decreases |items|
  {
    if items == [] then []
    else
      var last := items[|items| - 1];
      Pending(items[..|items| - 1], records) + (if NeedsUpsert(records, last.id, HashOf(last)) then [last] else [])
  }

  lemma DistinctPrefix(xs: seq<UpsertItem>, n: nat)
    requires Distinct(Ids(xs)) && n <= |xs|
    ensures Distinct(Ids(xs[..n]))
  {
    forall i, j | 0 <= i < j < n ensures Ids(xs[..n])[i] != Ids(xs[..n])[j] {
      assert Ids(xs)[i] != Ids(xs)[j];
    }
  }

  /** Every pending entry is a candidate, and distinct candidates give distinct pending ids. */
  lemma {:induction false} PendingFromCandidates(items: seq<UpsertItem>, records: map<string, StoredRecord>)
    ensures forall k | 0 <= k < |Pending(items, records)| :: Pending(items, records)[k] in items
    ensures Distinct(Ids(items)) ==> Distinct(Ids(Pending(items, records)))
    decreases |items|
  {
    if items != [] {
      var init := items[..|items| - 1];
      var last := items[|items| - 1];
      PendingFromCandidates(init, records);
      var p := Pending(init, records);
      assert forall x | x in init :: x in items;
      if Distinct(Ids(items)) {
        DistinctPrefix(items, |items| - 1);
        forall k | 0 <= k < |p| ensures p[k].id != last.id {
          var i :| 0 <= i < |init| && init[i] == p[k];
          assert Ids(items)[i] != Ids(items)[|items| - 1];
        }
      }
    }
  }

  /** With distinct ids, a candidate is pending exactly when it needs an upsert, and the
      pending entry carrying its id is that candidate. */
  lemma {:induction false} PendingMembership(items: seq<UpsertItem>, records: map<string, StoredRecord>, j: nat)
    requires Distinct(Ids(items)) && j < |items|
    ensures items[j].id in Ids(Pending(items, records)) <==> NeedsUpsert(records, items[j].id, HashOf(items[j]))
    ensures forall k | 0 <= k < |Pending(items, records)| && Pending(items, records)[k].id == items[j].id ::
              Pending(items, records)[k] == items[j]
  {
    var p := Pending(items, records);
    PendingFromCandidates(items, records);
    forall k | 0 <= k < |p| && p[k].id == items[j].id ensures p[k] == items[j] {
      var i :| 0 <= i < |items| && items[i] == p[k];
      assert Ids(items)[i] == Ids(items)[j];
    }
    PendingContains(items, records, j);
  }

  lemma {:induction false} PendingContains(items: seq<UpsertItem>, records: map<string, StoredRecord>, j: nat)
    requires Distinct(Ids(items)) && j < |items|
    ensures items[j] in Pending(items, records) <==> NeedsUpsert(records, items[j].id, HashOf(items[j]))
    ensures items[j].id in Ids(Pending(items, records)) ==> items[j] in Pending(items, records)
    decreases |items|
  {
    var init := items[..|items| - 1];
    var last := items[|items| - 1];
    var p := Pending(init, records);
    DistinctPrefix(items, |items| - 1);
    PendingFromCandidates(init, records);
    if j == |items| - 1 {
      forall k | 0 <= k < |p| ensures p[k].id != last.id {
        var i :| 0 <= i < |init| && init[i] == p[k];
        assert Ids(items)[i] != Ids(items)[j];
      }
      assert last !in p;
    } else {
      assert init[j] == items[j];
      PendingContains(init, records, j);
      assert Ids(items)[j] != Ids(items)[|items| - 1];
    }
    var q := Pending(items, records);
    if items[j].id in Ids(q) {
      var k :| 0 <= k < |q| && Ids(q)[k] == items[j].id;
      if k < |p| {
        assert Ids(p)[k] == items[j].id;
      }
    }
  }

  lemma CandidateAt(graph: seq<(string, CourseInfo)>, md5: string -> string, k: nat)
    requires k < |graph|
    ensures Candidates(graph, md5)[k] == ItemFor(md5, graph[k].0, graph[k].1)
  {
  }

  lemma CandidatesDistinct(graph: seq<(string, CourseInfo)>, md5: string -> string)
    requires Distinct(CatalogIds(graph))
    ensures Distinct(Ids(Candidates(graph, md5)))
  {
    CandidatesAre(graph, md5);
  }

  /** Once the pending candidates are upserted, nothing is pending: a second pass sends nothing. */
  lemma SyncIsIdempotent(graph: seq<(string, CourseInfo)>, md5: string -> string, records: map<string, StoredRecord>)
    requires UniqueIds(graph)
    ensures Pending(Candidates(graph, md5), Upserted(records, Pending(Candidates(graph, md5), records))) == []
  {
    UniqueIdsDistinct(graph);
    CandidatesAre(graph, md5);
    SyncedItemsUpToDate(Candidates(graph, md5), records);
  }

  lemma SyncedItemsUpToDate(items: seq<UpsertItem>, records: map<string, StoredRecord>)
    requires Distinct(Ids(items))
    requires forall i | 0 <= i < |items| :: "hash" in items[i].metadata
    ensures Pending(items, Upserted(records, Pending(items, records))) == []
  {
    var p := Pending(items, records);
    var synced := Upserted(records, p);
    PendingFromCandidates(items, records);
    forall j | 0 <= j < |items| ensures !NeedsUpsert(synced, items[j].id, HashOf(items[j])) {
      PendingMembership(items, records, j);
      if items[j].id in Ids(p) {
        var k :| 0 <= k < |p| && Ids(p)[k] == items[j].id;
        UpsertedLookup(records, p, k);
      } else {
        UpsertedOtherId(records, p, items[j].id);
      }
    }
    NothingPending(items, synced);
  }

  lemma {:induction false} NothingPending(items: seq<UpsertItem>, records: map<string, StoredRecord>)
    requires forall j | 0 <= j < |items| :: !NeedsUpsert(records, items[j].id, HashOf(items[j]))
    ensures Pending(items, records) == []
    decreases |items|
  {
    if items != [] {
      var init := items[..|items| - 1];
      assert forall j | 0 <= j < |init| :: init[j] == items[j];
      NothingPending(init, records);
    }
  }

  function Flatten(batches: seq<seq<UpsertItem>>): seq<UpsertItem>
  {
    if batches == [] then [] else Flatten(batches[..|batches| - 1]) + batches[|batches| - 1]
  }

  /** The batch size at which the accumulated lists are flushed. */
  const BatchSize := 100

  /** Brings the store up to date with the catalog. The courses that need it are sent in batches
      of at most 100 (every batch but the last holds exactly 100), the batches together are the
      pending candidates in catalog order, and the store ends up holding them. */
  method InitializeDatabase(store: Collection, graph: seq<(string, CourseInfo)>, md5: string -> string)
    returns (batches: seq<seq<UpsertItem>>)
    requires UniqueIds(graph)
    modifies store
    ensures Flatten(batches) == Pending(Candidates(graph, md5), old(store.records))
    ensures forall b | b in batches :: 1 <= |b| <= BatchSize
    ensures forall i | 0 <= i < |batches| - 1 :: |batches[i]| == BatchSize
    ensures store.records == Upserted(old(store.records), Flatten(batches))
  {
    var candidates := Candidates(graph, md5);
    UniqueIdsDistinct(graph);
    CandidatesDistinct(graph, md5);
    batches := SyncCandidates(store, candidates);
  }

  /** What holds between two turns of the loop after `k` entries: the lists are aligned and
      hold fewer than 100 entries, all batches sent so far are full, the batches followed by the
      held entries are the pending entries among the first `k`, and the store has taken in
      every batch sent. */
  ghost predicate PassState(items: seq<UpsertItem>, before: map<string, StoredRecord>, k: nat,
                            records: map<string, StoredRecord>, batches: seq<seq<UpsertItem>>,
                            ids: seq<string>, documents: seq<string>, metadatas: seq<map<string, string>>)
  {
    && k <= |items|
    && |ids| == |documents| == |metadatas| < BatchSize
    && Flatten(batches) + Zip(ids, documents, metadatas) == Pending(items[..k], before)
    && (forall b | b in batches :: |b| == BatchSize)
    && records == Upserted(before, Flatten(batches))
  }

  /** The loop of the pass over the catalog's entries: each entry that needs an upsert is
      appended to the three aligned lists, which are flushed whenever they reach 100 entries and
      once more at the end if anything is left. */
  method SyncCandidates(store: Collection, items: seq<UpsertItem>) returns (batches: seq<seq<UpsertItem>>)
    requires Distinct(Ids(items))
    modifies store
    ensures Flatten(batches) == Pending(items, old(store.records))
    ensures forall b | b in batches :: 1 <= |b| <= BatchSize
    ensures forall i | 0 <= i < |batches| - 1 :: |batches[i]| == BatchSize
    ensures store.records == Upserted(old(store.records), Flatten(batches))
  {
    ghost var before := store.records;
    var ids: seq<string> := [];
    var documents: seq<string> := [];
    var metadatas: seq<map<string, string>> := [];
    batches := [];
    var k := 0;
    assert items[..0] == [];
    while k < |items|
      invariant PassState(items, before, k, store.records, batches, ids, documents, metadatas)
    {
      batches, ids, documents, metadatas := ConsiderEntry(store, items, k, batches, ids, documents, metadatas, before);
      k := k + 1;
    }
    assert items[..k] == items;
    if |ids| > 0 {
      batches := Flush(store, batches, ids, documents, metadatas, before);
    } else {
      assert Zip(ids, documents, metadatas) == [];
    }
  }

  /** One turn of the loop: asks the store whether entry `k` needs an upsert, appends it to the
      three lists if so, and flushes them once they hold 100 entries. */
  method ConsiderEntry(store: Collection, items: seq<UpsertItem>, k: nat, batches: seq<seq<UpsertItem>>,
                       ids: seq<string>, documents: seq<string>, metadatas: seq<map<string, string>>,
                       ghost before: map<string, StoredRecord>)
    returns (batches': seq<seq<UpsertItem>>, ids': seq<string>, documents': seq<string>,
             metadatas': seq<map<string, string>>)
    requires Distinct(Ids(items)) && k < |items|
    requires PassState(items, before, k, store.records, batches, ids, documents, metadatas)
    modifies store
    ensures PassState(items, before, k + 1, store.records, batches', ids', documents', metadatas')
  {
    var item := items[k];
    ghost var held := Zip(ids, documents, metadatas);
    PendingStep(items, before, k);
    StoreUntouchedAhead(items, before, k, Flatten(batches), held);
    ghost var extra := if NeedsUpsert(before, item.id, HashOf(item)) then [item] else [];
    var needs := NeedsUpsertNow(store, item.id, HashOf(item));
    ids', documents', metadatas' := ids, documents, metadatas;
    if needs {
      ZipAppend(ids, documents, metadatas, item);
      ids' := ids + [item.id];
      documents' := documents + [item.document];
      metadatas' := metadatas + [item.metadata];
    }
    assert Zip(ids', documents', metadatas') == held + extra;
    StepKeepsSplit(Flatten(batches), held, extra, Pending(items[..k], before), Pending(items[..k + 1], before));
    batches' := batches;
    if |ids'| >= BatchSize {
      batches' := Flush(store, batches, ids', documents', metadatas', before);
      ids', documents', metadatas' := [], [], [];
      assert Zip(ids', documents', metadatas') == [];
    }
  }

  /** Sends the accumulated lists as one batch and records it. */
  method Flush(store: Collection, batches: seq<seq<UpsertItem>>, ids: seq<string>, documents: seq<string>,
               metadatas: seq<map<string, string>>, ghost before: map<string, StoredRecord>)
    returns (sent: seq<seq<UpsertItem>>)
    requires |ids| == |documents| == |metadatas|
    requires store.records == Upserted(before, Flatten(batches))
    modifies store
    ensures sent == batches + [Zip(ids, documents, metadatas)]
    ensures Flatten(sent) == Flatten(batches) + Zip(ids, documents, metadatas)
    ensures store.records == Upserted(before, Flatten(sent))
  {
    var batch := Zip(ids, documents, metadatas);
    store.Upsert(ids, documents, metadatas);
    UpsertedAppend(before, Flatten(batches), batch);
    FlattenAppend(batches, batch);
    sent := batches + [batch];
  }

  /** What is sent plus what is held stays the pending prefix when one step adds `extra` to both. */
  lemma StepKeepsSplit(sent: seq<UpsertItem>, held: seq<UpsertItem>, extra: seq<UpsertItem>,
                       before: seq<UpsertItem>, after: seq<UpsertItem>)
    requires sent + held == before && after == before + extra
    ensures sent + (held + extra) == after
  {
  }

  lemma PendingStep(items: seq<UpsertItem>, records: map<string, StoredRecord>, k: nat)
    requires k < |items|
    ensures Pending(items[..k + 1], records)
         == Pending(items[..k], records)
            + (if NeedsUpsert(records, items[k].id, HashOf(items[k])) then [items[k]] else [])
  {
    assert items[..k + 1][..k] == items[..k];
  }

  lemma FlattenAppend(batches: seq<seq<UpsertItem>>, batch: seq<UpsertItem>)
    ensures Flatten(batches + [batch]) == Flatten(batches) + batch
  {
    assert (batches + [batch])[..|batches|] == batches;
  }

  /** The decision for one course: a lookup of its id in the store, then the checks of
      NeedsUpsert on what comes back. */
  method NeedsUpsertNow(store: Collection, id: string, hash: string) returns (needs: bool)
    ensures needs == NeedsUpsert(store.records, id, hash)
  {
    var existing := store.Get(id);
    needs := false;
    if existing.None? {
      needs := true;
    } else {
      var meta := existing.value.metadata;
      if meta.None? || meta.value == map[] || "hash" !in meta.value || meta.value["hash"] != hash {
        needs := true;
      }
    }
  }

  /** During the pass the store differs from its old state only at ids already passed, so the
      decision for the next entry reads the same as against the old store. */
  lemma StoreUntouchedAhead(items: seq<UpsertItem>, before: map<string, StoredRecord>,
                            k: nat, sent: seq<UpsertItem>, held: seq<UpsertItem>)
    requires Distinct(Ids(items)) && k < |items|
    requires sent + held == Pending(items[..k], before)
    ensures NeedsUpsert(Upserted(before, sent), items[k].id, HashOf(items[k]))
         == NeedsUpsert(before, items[k].id, HashOf(items[k]))
  {
    var init := items[..k];
    PendingFromCandidates(init, before);
    forall i | 0 <= i < |sent| ensures sent[i].id != items[k].id {
      assert sent[i] == Pending(init, before)[i];
      var j :| 0 <= j < |init| && init[j] == sent[i];
      assert Ids(items)[j] != Ids(items)[k];
    }
    UpsertedOtherId(before, sent, items[k].id);
  }

  // ---------------------------------------------------------------------------------------
  // course_query

  /** What `collection.query` returns for one query text: per query, a list of ids and
      (optionally) aligned lists of distances, metadatas and documents. A field that is `None`
      or an empty list is falsy. */
  datatype QueryResult = QueryResult(
    ids: seq<seq<string>>,
    distances: Option<seq<seq<Option<real>>>>,
    metadatas: Option<seq<seq<Option<map<string, string>>>>>,
    documents: Option<seq<seq<Option<string>>>>)

  datatype Hit = Hit(id: string, document: Option<string>, metadata: Option<map<string, string>>, distance: Option<real>)

  /** The list used for a field: the first query's list when the field is truthy. `None` when
      the field is falsy, in which case every hit gets `None` there. */
  function FirstList<T>(field: Option<seq<seq<T>>>): Option<seq<T>>
  {
    if field.Some? && field.value != [] then Some(field.value[0]) else None
  }

  /** A truthy field whose list is shorter than the ids makes the indexing loop raise. */
  predicate CoversIds<T>(list: Option<seq<T>>, n: nat)
  {
    list.None? || |list.value| >= n
  }

  function At<T>(list: Option<seq<Option<T>>>, i: nat): Option<T>
  {
    if list.Some? && i < |list.value| then list.value[i] else None
  }

  /** Flattens the result of a query: one hit per returned id, in order, with the document,
      metadata and distance at the same position (or `None` where the store returned no such
      list). A failed query, an empty result, or a list too short to index gives `[]`. */
  method CourseQuery(response: Option<QueryResult>) returns (hits: seq<Hit>)
    ensures response.None? || response.value.ids == [] ==> hits == []
    ensures response.Some? && response.value.ids != [] ==>
              var res := response.value;
              var n := |res.ids[0]|;
              var ok := CoversIds(FirstList(res.distances), n) && CoversIds(FirstList(res.metadatas), n)
                        && CoversIds(FirstList(res.documents), n);
              (!ok ==> hits == [])
              && (ok ==> |hits| == n
                         && forall i | 0 <= i < n ::
                              hits[i] == Hit(res.ids[0][i], At(FirstList(res.documents), i),
                                             At(FirstList(res.metadatas), i), At(FirstList(res.distances), i)))
  {
    if response.None? || response.value.ids == [] {
      return [];
    }
    var res := response.value;
    var idsList := res.ids[0];
    var distancesList := FirstList(res.distances);
    var metadatasList := FirstList(res.metadatas);
    var documentsList := FirstList(res.documents);
    hits := [];
    var i := 0;
    while i < |idsList|
      invariant 0 <= i <= |idsList| && |hits| == i
      invariant CoversIds(distancesList, i) && CoversIds(metadatasList, i) && CoversIds(documentsList, i)
      invariant forall k | 0 <= k < i ::
                  hits[k] == Hit(idsList[k], At(documentsList, k), At(metadatasList, k), At(distancesList, k))
    {
      if !CoversIds(documentsList, i + 1) || !CoversIds(metadatasList, i + 1) || !CoversIds(distancesList, i + 1) {
        return [];   // IndexError, caught by the handler
      }
      hits := hits + [Hit(idsList[i], At(documentsList, i), At(metadatasList, i), At(distancesList, i))];
      i := i + 1;
    }
  }
}
