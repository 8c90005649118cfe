/** The vector store (app/core/retrieval.py) over an abstract collection: the
    id and metadata each snippet is stored under, the pairing of query result
    rows, the set of stored document ids and the clear-then-recreate lifecycle.
    Embeddings and similarity ranking are replaced by the ranking they produce. */
module Retrieval {
  import opened Wrappers
  import opened Text
  import opened Utils

  /** A metadata value as the store keeps it. */
  datatype Scalar = NoneValue | IntValue(i: int) | StrValue(s: string)

  /** A metadata record: field name to value. */
  type Metadata = map<string, Scalar>

  /** `m.get(key)`: the value under key, if any. */
  function Field(m: Metadata, key: string): Option<Scalar> {
    if key in m then Some(m[key]) else None
  }

  /** A stored row of the collection: the document text and its metadata. */
  datatype Entry = Entry(document: string, metadata: Metadata)

  /** One retrieved snippet as search_in_document hands it on: a dict with
      "content" and "metadata". */
  datatype RetrievedSnippet = RetrievedSnippet(content: string, metadata: Metadata)

  /** An Optional[int] field as a metadata value. */
  function OptionalInt(v: Option<int>): Scalar {
    match v
    case None => NoneValue
    case Some(n) => IntValue(n)
  }

  /** Python's str() of a metadata value, as an f-string renders it. */
  function PyStr(v: Scalar): string {
    match v
    case NoneValue => "None"
    case IntValue(n) => IntToDecimal(n)
    case StrValue(s) => s
  }

  /** str() of an Optional[int] never contains '_', and tells None and every
      integer apart. */
  lemma OptionalIntStr(v: Option<int>, w: Option<int>)
    ensures '_' !in PyStr(OptionalInt(v))
    ensures PyStr(OptionalInt(v)) == PyStr(OptionalInt(w)) <==> v == w
  {
    var a := PyStr(OptionalInt(v));
    var b := PyStr(OptionalInt(w));
    assert a[0] == 'N' <==> v.None?;
    assert b[0] == 'N' <==> w.None?;
    if a == b && v.Some? && w.Some? {
      IntToDecimalInjective(v.value, w.value);
    }
  }

  /** The id a snippet is stored under: `f"{doc_id}_p{page}_para{paragraph}"`. */
  function SnippetId(s: DocumentSnippet): string {
    s.docId + "_p" + PyStr(OptionalInt(s.page)) + "_para" + PyStr(OptionalInt(s.paragraph))
  }

  /** The id seen as the doc id, a '_' and the rest, which is "p" + page + '_' + "para" + paragraph. */
  lemma SnippetIdParts(s: DocumentSnippet)
    ensures SnippetId(s)
            == s.docId + ['_'] + (['p'] + PyStr(OptionalInt(s.page)) + ['_'] + ("para" + PyStr(OptionalInt(s.paragraph))))
  {
    var p := PyStr(OptionalInt(s.page));
    var q := PyStr(OptionalInt(s.paragraph));
    assert "_p" == ['_'] + ['p'] && "_para" == ['_'] + "para";
    assert s.docId + "_p" + p + "_para" + q == s.docId + ['_'] + (['p'] + p + ['_'] + ("para" + q));
  }

  /** Two snippets of documents whose ids have no '_' (as generated ids never
      do) share a stored id exactly when they share document, page and paragraph. */
  lemma SnippetIdInjective(s: DocumentSnippet, t: DocumentSnippet)
    requires '_' !in s.docId && '_' !in t.docId
    ensures SnippetId(s) == SnippetId(t)
            <==> s.docId == t.docId && s.page == t.page && s.paragraph == t.paragraph
  {
    if SnippetId(s) == SnippetId(t) {
      var p, q := PyStr(OptionalInt(s.page)), PyStr(OptionalInt(s.paragraph));
      var p', q' := PyStr(OptionalInt(t.page)), PyStr(OptionalInt(t.paragraph));
      SnippetIdParts(s);
      SnippetIdParts(t);
      SplitAtFirst(s.docId, ['p'] + p + ['_'] + ("para" + q), t.docId, ['p'] + p' + ['_'] + ("para" + q'), '_');
      var rest := ['p'] + p + ['_'] + ("para" + q);
      var rest' := ['p'] + p' + ['_'] + ("para" + q');
      assert rest[1..] == p + ['_'] + ("para" + q);
      assert rest'[1..] == p' + ['_'] + ("para" + q');
      OptionalIntStr(s.page, t.page);
      OptionalIntStr(t.page, s.page);
      SplitAtFirst(p, "para" + q, p', "para" + q', '_');
      assert q == ("para" + q)[4..] == ("para" + q')[4..] == q';
      OptionalIntStr(s.paragraph, t.paragraph);
    }
  }

  /** Generated document ids are hex digits, so they contain no '_'. */
  lemma GeneratedIdHasNoUnderscore(md5: string -> HexDigest, fileName: string)
    ensures '_' !in GenerateDocId(md5, fileName)
  {
    var d := GenerateDocId(md5, fileName);
    forall k | 0 <= k < |d| ensures d[k] != '_' {
      assert IsHexDigit(d[k]);
    }
  }

  /** `s.dict(exclude={'content'})`: every field of the snippet but its content. */
  function MetadataOf(s: DocumentSnippet): (m: Metadata)
    ensures "content" !in m
  {
    map["doc_id" := StrValue(s.docId), "page" := OptionalInt(s.page), "paragraph" := OptionalInt(s.paragraph)]
  }

  /** Reads a Optional[int] back from a metadata value. */
  function IntField(v: Scalar): Option<Option<int>> {
    match v
    case NoneValue => Some(None)
    case IntValue(n) => Some(Some(n))
    case StrValue(_) => None
  }

  /** Rebuilds a snippet from a stored document and its metadata, when the
      metadata has the three snippet fields. */
  function SnippetFrom(document: string, m: Metadata): Option<DocumentSnippet> {
    if "doc_id" in m && m["doc_id"].StrValue? && "page" in m && "paragraph" in m then
      match (IntField(m["page"]), IntField(m["paragraph"]))
      case (Some(page), Some(paragraph)) => Some(DocumentSnippet(m["doc_id"].s, document, page, paragraph))
      case _ => None
    else None
  }

  /** Metadata plus the stored document lose nothing: the snippet comes back whole. */
  lemma MetadataRoundTrip(s: DocumentSnippet)
    ensures SnippetFrom(s.content, MetadataOf(s)) == Some(s)
  {
  }

  /** The rows `collection.add(documents=…, metadatas=…, ids=…)` writes, by id;
      a later row wins over an earlier one with the same id. */
  function Rows(ids: seq<string>, documents: seq<string>, metadatas: seq<Metadata>): map<string, Entry>
    requires |ids| == |documents| == |metadatas|
    decreases |ids|
  {
    if ids == [] then map[]
    else
      var n := |ids| - 1;
      Rows(ids[..n], documents[..n], metadatas[..n])[ids[n] := Entry(documents[n], metadatas[n])]
  }

  /** The rows hold exactly the given ids, and with distinct ids, row i is
      stored under ids[i]. */
  lemma {:induction false} RowsStored(ids: seq<string>, documents: seq<string>, metadatas: seq<Metadata>)
    requires |ids| == |documents| == |metadatas|
    requires forall i, j :: 0 <= i < j < |ids| ==> ids[i] != ids[j]
    ensures forall id :: id in Rows(ids, documents, metadatas) <==> id in ids
    ensures forall i :: 0 <= i < |ids| ==> Rows(ids, documents, metadatas)[ids[i]] == Entry(documents[i], metadatas[i])
    decreases |ids|
  {
    if ids != [] {
      var n := |ids| - 1;
      RowsStored(ids[..n], documents[..n], metadatas[..n]);
      assert ids == ids[..n] + [ids[n]];
    }
  }

  /** A query's answer: one row of documents and one of metadatas per query text. */
  datatype QueryResult = QueryResult(documents: seq<seq<string>>, metadatas: seq<seq<Metadata>>)

  /** The shape the store guarantees: a metadata for every document of the first row. */
  predicate WellFormed(r: QueryResult) {
    r.documents != [] ==> r.metadatas != [] && |r.metadatas[0]| >= |r.documents[0]|
  }

  /** An abstract collection: its name and the rows stored under each id. */
  class Collection {
    const name: string
    var entries: map<string, Entry>

    /** The collection the database holds under `name`, with the rows it
        already has (none for a newly created one). */
    constructor (name: string, existing: map<string, Entry>)
      ensures this.name == name && entries == existing
    {
      this.name := name;
      entries := existing;
    }

    method Count() returns (n: nat)
      ensures n == |entries|
    {
      n := |entries|;
    }

    method Add(documents: seq<string>, metadatas: seq<Metadata>, ids: seq<string>)
      requires |ids| == |documents| == |metadatas|
      modifies this
      ensures entries == old(entries) + Rows(ids, documents, metadatas)
    {
      entries := entries + Rows(ids, documents, metadatas);
    }

    /** A query restricted by `where={"doc_id": docId}`: the stored rows of that
        document, in the order the similarity ranking lists their ids, at most
        nResults of them. */
    method Query(ranked: seq<string>, nResults: nat, docId: string) returns (result: QueryResult)
      ensures |result.documents| == 1 && |result.metadatas| == 1
      ensures |result.documents[0]| == |result.metadatas[0]| <= nResults
      ensures forall i :: 0 <= i < |result.documents[0]| ==>
        && Field(result.metadatas[0][i], "doc_id") == Some(StrValue(docId))
        && exists id :: id in entries && entries[id] == Entry(result.documents[0][i], result.metadatas[0][i])
    {
      var documents: seq<string> := [];
      var metadatas: seq<Metadata> := [];
      ghost var sources: seq<string> := [];
      var k := 0;
      while k < |ranked| && |documents| < nResults
        invariant 0 <= k <= |ranked|
        invariant |documents| == |metadatas| == |sources| <= nResults
        invariant forall i :: 0 <= i < |documents| ==>
          && Field(metadatas[i], "doc_id") == Some(StrValue(docId))
          && sources[i] in entries && entries[sources[i]] == Entry(documents[i], metadatas[i])
      {
        var id := ranked[k];
        if id in entries && Field(entries[id].metadata, "doc_id") == Some(StrValue(docId)) {
          documents := documents + [entries[id].document];
          metadatas := metadatas + [entries[id].metadata];
          sources := sources + [id];
        }
        k := k + 1;
      }
      forall i | 0 <= i < |documents|
        ensures exists id :: id in entries && entries[id] == Entry(documents[i], metadatas[i])
      {
        assert sources[i] in entries && entries[sources[i]] == Entry(documents[i], metadatas[i]);
      }
      result := QueryResult([documents], [metadatas]);
    }

    /** `get(include=["metadatas"])["metadatas"]`: the metadata of every stored row. */
    method Metadatas() returns (metadatas: seq<Metadata>)
      ensures forall id :: id in entries ==> entries[id].metadata in metadatas
      ensures forall m :: m in metadatas ==> exists id :: id in entries && entries[id].metadata == m
    {
      metadatas := [];
      var left := entries.Keys;
      while left != {}
        invariant left <= entries.Keys
        invariant forall id :: id in entries && id !in left ==> entries[id].metadata in metadatas
        invariant forall m :: m in metadatas ==> exists id :: id in entries && entries[id].metadata == m
        decreases |left|
      {
        var id :| id in left;
        metadatas := metadatas + [entries[id].metadata];
        left := left - {id};
      }
    }
  }

  /** The distinct document ids of a collection's rows. */
  function StoredDocIds(entries: map<string, Entry>): set<string> {
    set id | id in entries && Field(entries[id].metadata, "doc_id").Some? && entries[id].metadata["doc_id"].StrValue?
      :: entries[id].metadata["doc_id"].s
  }

  /** The doc ids read from a listing of all the rows' metadata are the stored doc ids. */
  lemma DocIdsOfMetadatas(entries: map<string, Entry>, metadatas: seq<Metadata>)
    requires forall id :: id in entries ==> entries[id].metadata in metadatas
    requires forall m :: m in metadatas ==> exists id :: id in entries && entries[id].metadata == m
    ensures (set m: Metadata | m in metadatas && Field(m, "doc_id").Some? && m["doc_id"].StrValue? :: m["doc_id"].s)
            == StoredDocIds(entries)
  {
    var unique := set m: Metadata | m in metadatas && Field(m, "doc_id").Some? && m["doc_id"].StrValue? :: m["doc_id"].s;
    forall d | d in StoredDocIds(entries) ensures d in unique {
      var id :| id in entries && Field(entries[id].metadata, "doc_id") == Some(StrValue(d));
      assert entries[id].metadata in metadatas;
    }
  }

  /** Every row carries a string "doc_id", as rows written by add_documents do. */
  predicate DocIdsRecorded(entries: map<string, Entry>) {
    forall id :: id in entries ==> Field(entries[id].metadata, "doc_id").Some? && entries[id].metadata["doc_id"].StrValue?
  }

  /** The n_results search_in_document uses when the caller gives none. */
  const DefaultNResults: nat := 5

  class VectorStore {
    const collectionName: string
    var collection: Collection

    /** The store's invariant: it works on the collection it is named after,
        whose rows were all written by add_documents. */
    predicate Valid()
      reads this, collection
    {
      collection.name == collectionName && DocIdsRecorded(collection.entries)
    }

    /** `VectorStore(collection_name)`: get_or_create_collection returns the
        named collection with the rows the database already holds under that
        name (`existing`, empty when it is created), all written by add_documents. */
    constructor (collectionName: string, existing: map<string, Entry>)
      requires DocIdsRecorded(existing)
      ensures Valid() && fresh(collection)
      ensures this.collectionName == collectionName && collection.entries == existing
    {
      this.collectionName := collectionName;
      collection := new Collection(collectionName, existing);
    }

    /** `VectorStore()` with the default collection name. */
    static method Default(existing: map<string, Entry>) returns (store: VectorStore)
      requires DocIdsRecorded(existing)
      ensures fresh(store) && store.Valid()
      ensures store.collectionName == "document_research" && store.collection.entries == existing
    {
      store := new VectorStore("document_research", existing);
    }

    /** add_documents: nothing for an empty list; otherwise one row per snippet,
        under its id, holding its content and its metadata. */
    method AddDocuments(snippets: seq<DocumentSnippet>)
      requires Valid()
      modifies collection
      ensures Valid()
      ensures snippets == [] ==> collection.entries == old(collection.entries)
      ensures collection.entries == old(collection.entries) + SnippetRows(snippets)
    {
      if snippets == [] {
        return;
      }
      var ids := seq(|snippets|, i requires 0 <= i < |snippets| => SnippetId(snippets[i]));
      var documents := seq(|snippets|, i requires 0 <= i < |snippets| => snippets[i].content);
      var metadatas := seq(|snippets|, i requires 0 <= i < |snippets| => MetadataOf(snippets[i]));
      collection.Add(documents, metadatas, ids);
      SnippetRowsHaveDocIds(snippets);
    }

    /** search_in_document: the query's rows paired up, all from the requested
        document, at most nResults of them, each a stored row. A caller that
        omits n_results passes DefaultNResults. */
    method SearchInDocument(ranked: seq<string>, docId: string, nResults: nat) returns (retrieved: seq<RetrievedSnippet>)
      requires Valid()
      ensures |retrieved| <= nResults
      ensures forall i :: 0 <= i < |retrieved| ==>
        && Field(retrieved[i].metadata, "doc_id") == Some(StrValue(docId))
        && exists id :: id in collection.entries && collection.entries[id] == Entry(retrieved[i].content, retrieved[i].metadata)
    {
      var results := collection.Query(ranked, nResults, docId);
      retrieved := PairResults(results);
    }

    /** get_all_doc_ids: [] for an empty collection, otherwise every stored
        document id exactly once, in no particular order. */
    method GetAllDocIds() returns (docIds: seq<string>)
      requires Valid()
      ensures collection.entries == map[] ==> docIds == []
      ensures forall d :: d in docIds <==> d in StoredDocIds(collection.entries)
      ensures forall i, j :: 0 <= i < j < |docIds| ==> docIds[i] != docIds[j]
    {
      var count := collection.Count();
      if count == 0 {
        return [];
      }
      var allMetadatas := collection.Metadatas();
      var unique := set m: Metadata | m in allMetadatas && Field(m, "doc_id").Some? && m["doc_id"].StrValue? :: m["doc_id"].s;
      DocIdsOfMetadatas(collection.entries, allMetadatas);
      docIds := ListOf(unique);
    }

    /** clear_database: drop the session's collection and recreate it empty
        under the same name. */
    method ClearDatabase()
      requires Valid()
      modifies this
      ensures Valid() && fresh(collection)
      ensures collection.entries == map[]
    {
      collection := new Collection(collectionName, map[]);
    }
  }

  /** The rows add_documents writes for a list of snippets. */
  function SnippetRows(snippets: seq<DocumentSnippet>): map<string, Entry> {
    Rows(seq(|snippets|, i requires 0 <= i < |snippets| => SnippetId(snippets[i])),
         seq(|snippets|, i requires 0 <= i < |snippets| => snippets[i].content),
         seq(|snippets|, i requires 0 <= i < |snippets| => MetadataOf(snippets[i])))
  }

  /** With distinct ids, add_documents stores every snippet under its own id,
      with its content and its metadata, and stores nothing else. */
  lemma SnippetRowsStored(snippets: seq<DocumentSnippet>)
    requires forall i, j :: 0 <= i < j < |snippets| ==> SnippetId(snippets[i]) != SnippetId(snippets[j])
    ensures forall i :: 0 <= i < |snippets| ==>
      && SnippetId(snippets[i]) in SnippetRows(snippets)
      && SnippetRows(snippets)[SnippetId(snippets[i])] == Entry(snippets[i].content, MetadataOf(snippets[i]))
    ensures forall id :: id in SnippetRows(snippets) ==> exists i :: 0 <= i < |snippets| && SnippetId(snippets[i]) == id
  {
    var ids := seq(|snippets|, i requires 0 <= i < |snippets| => SnippetId(snippets[i]));
    var documents := seq(|snippets|, i requires 0 <= i < |snippets| => snippets[i].content);
    var metadatas := seq(|snippets|, i requires 0 <= i < |snippets| => MetadataOf(snippets[i]));
    var rows := Rows(ids, documents, metadatas);
    assert SnippetRows(snippets) == rows;
    RowsStored(ids, documents, metadatas);
    forall i | 0 <= i < |snippets|
      ensures SnippetId(snippets[i]) in rows && rows[SnippetId(snippets[i])] == Entry(snippets[i].content, MetadataOf(snippets[i]))
    {
      assert ids[i] == SnippetId(snippets[i]);
      assert ids[i] in ids;
    }
    forall id | id in rows ensures exists i :: 0 <= i < |snippets| && SnippetId(snippets[i]) == id {
      var i :| 0 <= i < |ids| && ids[i] == id;
      assert SnippetId(snippets[i]) == id;
    }
  }

  /** A session reset: clear_database, then get_all_doc_ids finds no document,
      and add_documents then stores exactly the new snippets' rows. */
  method ResetThenIngest(store: VectorStore, snippets: seq<DocumentSnippet>) returns (idsAfterClear: seq<string>)
    requires store.Valid()
    modifies store
    ensures store.Valid()
    ensures idsAfterClear == []
    ensures store.collection.entries == SnippetRows(snippets)
  {
    store.ClearDatabase();
    idsAfterClear := store.GetAllDocIds();
    store.AddDocuments(snippets);
  }

  lemma {:induction false} RowsHaveDocIds(ids: seq<string>, documents: seq<string>, metadatas: seq<Metadata>)
    requires |ids| == |documents| == |metadatas|
    requires forall i :: 0 <= i < |metadatas| ==> Field(metadatas[i], "doc_id").Some? && metadatas[i]["doc_id"].StrValue?
    ensures DocIdsRecorded(Rows(ids, documents, metadatas))
    decreases |ids|
  {
    if ids != [] {
      var n := |ids| - 1;
      RowsHaveDocIds(ids[..n], documents[..n], metadatas[..n]);
    }
  }

  lemma SnippetRowsHaveDocIds(snippets: seq<DocumentSnippet>)
    ensures DocIdsRecorded(SnippetRows(snippets))
  {
    var metadatas := seq(|snippets|, i requires 0 <= i < |snippets| => MetadataOf(snippets[i]));
    RowsHaveDocIds(seq(|snippets|, i requires 0 <= i < |snippets| => SnippetId(snippets[i])),
                   seq(|snippets|, i requires 0 <= i < |snippets| => snippets[i].content),
                   metadatas);
  }

  /** `list(s)` of a set: each element exactly once, in some order. */
  method ListOf(s: set<string>) returns (xs: seq<string>)
    ensures forall x :: x in xs <==> x in s
    ensures forall i, j :: 0 <= i < j < |xs| ==> xs[i] != xs[j]
  {
    xs := [];
    var left := s;
    while left != {}
      invariant left <= s
      invariant forall x :: x in xs <==> x in s && x !in left
      invariant forall i, j :: 0 <= i < j < |xs| ==> xs[i] != xs[j]
      decreases |left|
    {
      var x :| x in left;
      xs := xs + [x];
      left := left - {x};
    }
  }

  /** The pairing loop of search_in_document: [] when the result has no
      document row, otherwise row i pairs documents[0][i] with metadatas[0][i]. */
  method PairResults(results: QueryResult) returns (retrieved: seq<RetrievedSnippet>)
    requires WellFormed(results)
    ensures results.documents == [] ==> retrieved == []
    ensures results.documents != [] ==>
      && |retrieved| == |results.documents[0]|
      && forall i :: 0 <= i < |retrieved| ==>
           retrieved[i] == RetrievedSnippet(results.documents[0][i], results.metadatas[0][i])
  {
    if results.documents == [] {
      return [];
    }
    retrieved := [];
    for i := 0 to |results.documents[0]|
      invariant |retrieved| == i
      invariant forall k :: 0 <= k < i ==>
        retrieved[k] == RetrievedSnippet(results.documents[0][k], results.metadatas[0][k])
    {
      retrieved := retrieved + [RetrievedSnippet(results.documents[0][i], results.metadatas[0][i])];
    }
  }
}
