/** How the readers of document_processor.py feed the vector store of
    retrieval.py: the snippets of one upload get pairwise distinct ids, so
    add_documents keeps every one of them. */
module Pipeline {
  import opened Wrappers
  import opened Text
  import opened Utils
  import opened DocumentProcessor
  import opened Retrieval

  /** Snippets in reading order cite pairwise distinct (page, paragraph) pairs. */
  lemma ReadingOrderDistinct(r: seq<DocumentSnippet>, i: nat, j: nat)
    requires InReadingOrder(r) && i < j < |r|
    ensures r[i].page != r[j].page || r[i].paragraph != r[j].paragraph
  {
    assert Precedes(r[i], r[j]);
  }

  /** A single chunked text is in reading order. */
  lemma ChunkedInReadingOrder(docId: string, pageNum: int, text: string)
    ensures InReadingOrder(Chunked(docId, pageNum, text))
  {
    ChunkedShape(docId, pageNum, text);
  }

  /** Whatever the file, its snippets all carry the file's doc id and come in
      reading order. */
  lemma IngestedInReadingOrder(file: UploadedFile, md5: string -> HexDigest)
    requires Ingested(file, md5).Success?
    ensures var r := Ingested(file, md5).value;
      && InReadingOrder(r)
      && forall i :: 0 <= i < |r| ==> r[i].docId == GenerateDocId(md5, Lower(file.name))
  {
    var docId := GenerateDocId(md5, Lower(file.name));
    IngestedDocIds(file, md5);
    match KindOf(Lower(file.name))
    case PdfFile => PdfSnippetsOrdered(docId, file.pages.value);
    case TextFile => ChunkedInReadingOrder(docId, 1, file.text);
    case ImageFile => ChunkedInReadingOrder(docId, 1, file.imageText.value);
    case Unsupported =>
  }

  /** The ids add_documents gives the snippets of one upload are pairwise distinct. */
  lemma IngestedIdsDistinct(file: UploadedFile, md5: string -> HexDigest)
    requires Ingested(file, md5).Success?
    ensures var r := Ingested(file, md5).value;
      forall i, j :: 0 <= i < j < |r| ==> SnippetId(r[i]) != SnippetId(r[j])
  {
    var r := Ingested(file, md5).value;
    var docId := GenerateDocId(md5, Lower(file.name));
    IngestedInReadingOrder(file, md5);
    GeneratedIdHasNoUnderscore(md5, Lower(file.name));
    forall i, j | 0 <= i < j < |r| ensures SnippetId(r[i]) != SnippetId(r[j]) {
      ReadingOrderDistinct(r, i, j);
      SnippetIdInjective(r[i], r[j]);
    }
  }

  /** Storing an upload keeps every snippet: each one is found under its own id,
      with its content as the document and its citation as the metadata, and
      the store holds no other new row. */
  lemma IngestedSnippetsStored(file: UploadedFile, md5: string -> HexDigest)
    requires Ingested(file, md5).Success?
    ensures var r := Ingested(file, md5).value;
      && (forall i :: 0 <= i < |r| ==>
            && SnippetId(r[i]) in SnippetRows(r)
            && SnippetRows(r)[SnippetId(r[i])] == Entry(r[i].content, MetadataOf(r[i])))
      && (forall id :: id in SnippetRows(r) ==> exists i :: 0 <= i < |r| && SnippetId(r[i]) == id)
  {
    IngestedIdsDistinct(file, md5);
    SnippetRowsStored(Ingested(file, md5).value);
  }

  /** Uploading a file into a store: the snippets of the file are added, and
      nothing is added when the file yields none or its reader raises. */
  method IngestFile(store: VectorStore, file: UploadedFile, md5: string -> HexDigest)
    returns (result: Result<seq<DocumentSnippet>, IngestError>)
    requires store.Valid()
    modifies store.collection
    ensures store.Valid()
    ensures result == Ingested(file, md5)
    ensures result.Success? ==> store.collection.entries == old(store.collection.entries) + SnippetRows(result.value)
    ensures result.Failure? ==> store.collection.entries == old(store.collection.entries)
  {
    result := ProcessUploadedFile(file, md5);
    if result.Success? {
      store.AddDocuments(result.value);
    }
  }
}
