# Document research assistant: a verified model of its core

This project models, in Dafny, the deterministic core of a retrieval-augmented
question-answering service over uploaded documents:

- **Ingestion** (`app/core/document_processor.py`). A text is split into
  paragraphs on blank lines (`"\n\n"`). Each paragraph is stripped, empty ones
  are dropped, and the survivors are numbered 1..n as snippets.
  - A PDF is read page by page. A page whose stripped direct text is shorter
    than 100 characters is read by OCR instead, and a page whose OCR fails is
    skipped.
  - An upload is routed by the suffix of its lower-cased name.
- **Vector-store bookkeeping** (`app/core/retrieval.py`). A `VectorStore` holds
  a collection of rows, each keyed by `doc_id + "_p" + page + "_para" +
  paragraph`. A row keeps the snippet's content as the document and its
  citation as the metadata.
  - Search pairs result rows up.
  - `get_all_doc_ids` lists each stored document id once.
  - `clear_database` replaces the collection with an empty one.
- **Answer extraction and theme synthesis** (`app/core/generation.py`). The
  model's reply to a context of `<source …>` blocks becomes a `DocumentAnswer`.
  Three things are decided here:
  - which replies count as relevant;
  - which fields are copied;
  - which of two error texts stands for a failure.

  Theme synthesis works in three steps:
  - It filters out answers mentioning "No relevant" or "Error".
  - It asks the model for themes.
  - It keeps only the well-formed entries, in order, or returns a single error
    theme.
- **Records** (`app/core/utils.py`): `DocumentSnippet`, `DocumentAnswer` (and
  its default text) and `Theme`, plus `generate_doc_id`.

Some parts of the system are replaced by inputs:
- PDF text extraction, OCR and UTF-8 decoding are inputs: `Page` and `UploadedFile` hold the texts those libraries would return.
- MD5 is a parameter `md5: string -> HexDigest`.
- The language model is an oracle `(query, context) -> LlmOutcome`. An `LlmOutcome` is either a raised exception (`ServiceError`), a reply `json.loads` rejects (`Malformed`), or the decoded JSON value (`Parsed`).
- The similarity ranking of the vector database is a parameter `ranked` that lists candidate row ids in ranking order.

Python's string operations are written out in `text.dfy`:
- `str.strip` over Python's whitespace set;
- `str.split` with a separator, and `str.join`;
- `in` on strings;
- `endswith` / `startswith`;
- `str.lower` on ASCII;
- `str(int)`.

Files: `wrappers.dfy` (Option/Result), `text.dfy`, `json.dfy`, `utils.dfy`,
`document_processor.dfy`, `retrieval.dfy`, `generation.dfy`, and
`pipeline.dfy`. The last one connects ingestion to the store.

## Model

| member | source | states |
|---|---|---|
| Text.StripSpec | app/core/document_processor.py:16 | `p.strip()` never lengthens a text; it returns a piece of it that neither starts nor ends with whitespace, and it returns "" exactly when the text is all whitespace |
| Text.StripLeftSpec | app/core/document_processor.py:16 | the leading strip drops exactly a run of whitespace from the front and stops at a non-space character |
| Text.StripRightSpec | app/core/document_processor.py:16 | the trailing strip drops exactly a run of whitespace from the end and stops at a non-space character |
| Text.SplitJoinRoundTrip | app/core/document_processor.py:16 | `text.split('\n\n')` loses nothing: joining the pieces with the separator gives back the text |
| Text.SplitPiecesFree | app/core/document_processor.py:16 | no piece of `split('\n\n')` contains the separator |
| Text.SplitFrom | app/core/document_processor.py:16 | the split always yields at least one piece |
| Text.Split | app/core/document_processor.py:16 | `str.split` with a non-empty separator yields at least one piece |
| Text.JoinContainsPiece | app/core/generation.py:22-25 | every piece joined by `"\n\n".join` occurs in the joined string |
| Text.Lower | app/core/document_processor.py:67 | `lower()` keeps the length and leaves no ASCII capital |
| Text.LowerFixedPoints | app/core/document_processor.py:67 | a name is unchanged by `lower()` exactly when it has no capital letter |
| Text.LowerIdempotent | app/core/document_processor.py:67 | lower-casing twice is lower-casing once |
| Text.IntToDecimal | app/core/retrieval.py:36 | `str(n)` of an int is non-empty, starts with '-' exactly when n is negative, and is decimal digits everywhere else |
| Text.IntDecimalRoundTrip | app/core/retrieval.py:36 | `str(n)` reads back as n: the digits after the optional minus sign spell the magnitude |
| Text.IntToDecimalInjective | app/core/retrieval.py:36 | distinct integers print differently |
| Text.NatDecimalRoundTrip | app/core/retrieval.py:36 | the decimal text of a natural number reads back as that number |
| Utils.GenerateDocId | app/core/utils.py:5-7 | the doc id is 10 lower-case hex digits and is a prefix of the name's MD5 hex digest |
| DocumentProcessor.StrippedNonEmptyTrimmed | app/core/document_processor.py:16 | every kept paragraph is non-empty with no leading or trailing whitespace, and there are no more paragraphs than pieces |
| DocumentProcessor.StrippedNonEmptyEmptyIff | app/core/document_processor.py:16 | the comprehension keeps nothing exactly when every piece is blank |
| DocumentProcessor.ParagraphsEmptyIffBlank | app/core/document_processor.py:16 | a text has no paragraph exactly when it is empty or whitespace only |
| DocumentProcessor.ChunkedShape | app/core/document_processor.py:14-24 | the chunks are the trimmed paragraphs in split order, numbered 1..n, each carrying the given doc_id and page |
| DocumentProcessor.ChunkTextIntoSnippets | app/core/document_processor.py:9-24 | the append loop returns exactly the numbered paragraphs |
| DocumentProcessor.ChunkedEmptyIffBlank | app/core/document_processor.py:16 | empty or whitespace-only text yields zero snippets, and any other text yields at least one |
| DocumentProcessor.SplitFromBreak | app/core/document_processor.py:16 | a newline-free head followed by a blank line is the first piece of the split |
| DocumentProcessor.SplitFromNoBreak | app/core/document_processor.py:16 | a newline-free text is a single piece |
| DocumentProcessor.TwoParagraphsSplit | app/core/document_processor.py:16 | the paragraphs of two trimmed one-line texts around a blank line are exactly those two texts |
| DocumentProcessor.TwoParagraphs | app/core/document_processor.py:16-23 | two trimmed one-line paragraphs around a blank line become paragraphs 1 and 2 of the page |
| DocumentProcessor.TwoParagraphTextFile | app/core/document_processor.py:73-75 | a lower-case `.txt` upload holding "a\n\nb" yields exactly two snippets, page 1, paragraphs 1 and 2 |
| DocumentProcessor.ProcessPdf | app/core/document_processor.py:26-60 | the page loop returns the per-page chunk results concatenated in page order, pages numbered from 1 |
| DocumentProcessor.PageSnippetsChunked | app/core/document_processor.py:55-58 | a page contributes the chunks of its text, and nothing when that text is empty |
| DocumentProcessor.PageSnippetsOnPage | app/core/document_processor.py:36-57 | every snippet of a page cites that page and the doc, in reading order |
| DocumentProcessor.PdfSnippetsOrdered | app/core/document_processor.py:35-58 | every PDF snippet cites the doc, a page from 1 to the page count and a paragraph from 1; the output is in (page, paragraph) reading order |
| DocumentProcessor.ReadingOrderConcat | app/core/document_processor.py:58 | extending snippets of earlier pages with snippets of a later page keeps reading order |
| DocumentProcessor.OnPageConcat | app/core/document_processor.py:58 | the snippets of a page in a concatenation are those of each part, in order |
| DocumentProcessor.OnPageAll | app/core/document_processor.py:57 | a list whose snippets all cite page n is its own page-n selection |
| DocumentProcessor.OnPageNone | app/core/document_processor.py:57 | a list with no snippet on page n has an empty page-n selection |
| DocumentProcessor.LastPageOnly | app/core/document_processor.py:35-58 | only the last page's own chunks cite it |
| DocumentProcessor.EarlierPageUnaffected | app/core/document_processor.py:35-58 | processing one more page leaves every earlier page's snippets unchanged |
| DocumentProcessor.PdfOnPage | app/core/document_processor.py:35-58 | the snippets citing page k + 1 are exactly what page k alone produces, so pages are processed independently |
| DocumentProcessor.PdfOnEarlierPage | app/core/document_processor.py:35-58 | the same, for a page before the last |
| DocumentProcessor.DirectTextPage | app/core/document_processor.py:37-41 | a page whose stripped direct text has at least 100 characters is chunked from that text |
| DocumentProcessor.OcrFallbackPage | app/core/document_processor.py:40-50 | a shorter page, even a non-empty one, is chunked from its stripped OCR text |
| DocumentProcessor.OcrFailureSkipsPage | app/core/document_processor.py:51-55 | a page whose OCR fails contributes no snippet, and the other pages are unaffected |
| DocumentProcessor.TextThenScannedPage | app/core/document_processor.py:35-58 | a text page followed by a scanned page gives page 1's direct-text chunks, then page 2's OCR chunks |
| DocumentProcessor.KindOfSuffixes | app/core/document_processor.py:70-80 | `.pdf` goes to the PDF reader, `.txt`/`.md` to text, and `.png`/`.jpg` or any ending in `jpeg` to image |
| DocumentProcessor.ProcessUploadedFile | app/core/document_processor.py:62-84 | the dispatch returns what the chosen reader returns, `[]` for an unsupported name, and lets an unreadable PDF or an image-OCR failure through |
| DocumentProcessor.IngestFailures | app/core/document_processor.py:33-84 | an upload fails exactly when it goes to the PDF reader and the document cannot be read, or to the image reader and OCR raises; an unsupported name gives [] |
| DocumentProcessor.IngestedDocIds | app/core/document_processor.py:67-68 | every snippet of an upload carries the doc id of the lower-cased name, so names differing only in ASCII case are ingested identically |
| Retrieval.OptionalIntStr | app/core/retrieval.py:36 | the text of an optional page or paragraph has no '_' and determines the value |
| Retrieval.SnippetIdInjective | app/core/retrieval.py:36 | for doc ids without '_', two snippets have the same id exactly when they agree on doc id, page and paragraph |
| Retrieval.GeneratedIdHasNoUnderscore | app/core/utils.py:7 | a generated doc id never contains '_' |
| Retrieval.MetadataOf | app/core/retrieval.py:38 | the stored metadata has no `content` key |
| Retrieval.MetadataRoundTrip | app/core/retrieval.py:37-38 | a stored document and its metadata rebuild the snippet exactly: doc_id, page and paragraph are all kept |
| Retrieval.RowsStored | app/core/retrieval.py:40-44 | with distinct ids, the added rows are keyed by exactly the ids, and row i holds document i and metadata i |
| Retrieval.Collection.constructor | app/core/retrieval.py:26-29 | the collection got or created under a name holds the rows the database already has under it |
| Retrieval.Collection.Add | app/core/retrieval.py:40-44 | adding rows overwrites the rows stored under the same ids and keeps all others |
| Retrieval.Collection.Count | app/core/retrieval.py:69 | the count is the number of stored rows |
| Retrieval.Collection.Query | app/core/retrieval.py:49-53 | one result list of at most n_results rows, all stored and all with the requested `doc_id` |
| Retrieval.Collection.Metadatas | app/core/retrieval.py:72 | the metadatas returned are exactly those of the stored rows |
| Retrieval.VectorStore.constructor | app/core/retrieval.py:10-29 | a new store works on the collection of the given name, with the rows that collection already holds (none when it is created) |
| Retrieval.VectorStore.Default | app/core/retrieval.py:10 | the default collection is named "document_research", and it too keeps its existing rows |
| Retrieval.VectorStore.AddDocuments | app/core/retrieval.py:31-44 | an empty list changes nothing; otherwise the snippets' rows are added, and every row still records a doc id |
| Retrieval.SnippetRowsStored | app/core/retrieval.py:36-44 | with distinct ids, each snippet is stored under its own id with its content and metadata, and nothing else is added |
| Retrieval.SnippetRowsHaveDocIds | app/core/retrieval.py:38 | every added row records a string doc id |
| Retrieval.RowsHaveDocIds | app/core/retrieval.py:38-44 | rows whose metadatas all carry a doc id record one |
| Retrieval.VectorStore.SearchInDocument | app/core/retrieval.py:47-64 | at most n_results snippets (5 when omitted, `DefaultNResults`), each a stored row of the requested document |
| Retrieval.PairResults | app/core/retrieval.py:55-64 | no documents gives []; otherwise result i pairs `documents[0][i]` with `metadatas[0][i]`, one per document |
| Retrieval.VectorStore.GetAllDocIds | app/core/retrieval.py:66-75 | an empty collection gives []; otherwise each stored doc id appears exactly once, and nothing else does |
| Retrieval.DocIdsOfMetadatas | app/core/retrieval.py:75 | the set comprehension over the metadatas is the set of stored doc ids |
| Retrieval.ListOf | app/core/retrieval.py:75 | `list(set)` holds exactly the set's elements, each once |
| Retrieval.VectorStore.ClearDatabase | app/core/retrieval.py:77-93 | the store keeps a fresh, empty collection of the same name |
| Retrieval.ResetThenIngest | app/core/retrieval.py:66-93 | after a clear, `get_all_doc_ids` returns [], and a following add stores exactly the new snippets |
| Generation.LabelMissing | app/core/generation.py:23 | 'N/A' appears exactly when the page or paragraph key is missing |
| Generation.SourceBlocks | app/core/generation.py:22-25 | one `<source …>` block per snippet |
| Generation.ContextQuotesEverySnippet | app/core/generation.py:22-25 | the context contains every snippet's block and every snippet's content |
| Generation.InterpretExtraction | app/core/generation.py:64-82 | every branch keeps the input doc_id |
| Generation.GetAnswerFromDocument | app/core/generation.py:18-82 | the result keeps the doc_id; no snippets gives the default answer |
| Generation.NoSnippetsNoCall | app/core/generation.py:19-20 | with no snippets, the answer does not depend on the model and carries the default text |
| Generation.IrrelevantReplyIsDefault | app/core/generation.py:66-67 | an absent or falsy `is_relevant` gives the default answer, whatever the `answer` field holds |
| Generation.RelevantReplyCopied | app/core/generation.py:69-74 | a relevant reply's answer is copied, or becomes "Could not extract answer from JSON." when absent; page and paragraph are copied, or are None when absent |
| Generation.ErrorSentinels | app/core/generation.py:76-82 | an undecodable reply gives "Error: Failed to parse model output."; any other failure gives "Error processing this document: " then the error; neither cites a page or paragraph, and the two never coincide |
| Generation.OnlyExtractedAnswersKept | app/core/generation.py:64-85 | an answer that passes the synthesis filter came from a decoded, relevant, well-typed reply; the default and both error texts are filtered out |
| Generation.RelevantAnswers | app/core/generation.py:85 | the kept answers are exactly those mentioning neither "No relevant" nor "Error" |
| Generation.NothingKept | app/core/generation.py:85 | when every answer is filtered out, nothing is kept |
| Generation.NoAnswersNoCall | app/core/generation.py:85-87 | with no kept answer, the result is [] whatever the model would say |
| Generation.SynthesizeThemes | app/core/generation.py:83-134 | the filter, short-circuit, call and validation loop return the themes the specification function gives |
| Generation.ValidationStopsAtAbort | app/core/generation.py:120-122 | an entry on which `key in entry` raises ends the whole loop with that error |
| Generation.AcceptedSnoc | app/core/generation.py:120-128 | accepting one more entry appends its theme when it is valid, and nothing otherwise |
| Generation.ValidationKeepsCompleteEntries | app/core/generation.py:118-129 | without a raising entry, the loop returns the complete, well-typed entries in original order, never more themes than entries |
| Generation.ValidatedSuccessIsAccepted | app/core/generation.py:118-129 | a loop that finishes returns exactly the accepted entries |
| Generation.AcceptIffComplete | app/core/generation.py:122-126 | an entry is accepted exactly when it is an object with `theme_title`, `summary` and `supporting_docs`, of the types Theme declares |
| Generation.MissingThemesKey | app/core/generation.py:119 | a reply without `themes` gives [] |
| Generation.FailureGivesSentinel | app/core/generation.py:131-134 | a failed call or an undecodable reply gives exactly one theme, "API or Parsing Error", carrying the error and citing no document |
| Generation.ReplyShape | app/core/generation.py:113-134 | the result is either the single error theme or exactly the accepted entries of the `themes` list |
| Pipeline.ReadingOrderDistinct | app/core/document_processor.py:17-23 | snippets in reading order never share a page-and-paragraph pair |
| Pipeline.ChunkedInReadingOrder | app/core/document_processor.py:17-23 | chunking numbers paragraphs in increasing order |
| Pipeline.IngestedInReadingOrder | app/core/document_processor.py:62-84 | an upload's snippets carry its doc id and come in reading order |
| Pipeline.IngestedIdsDistinct | app/core/retrieval.py:36 | the ids given to one upload's snippets are pairwise distinct |
| Pipeline.IngestedSnippetsStored | app/core/retrieval.py:36-44 | adding an upload stores every snippet under its own id with its content and metadata, and nothing else |
| Pipeline.IngestFile | app/core/retrieval.py:31-44 | ingesting and adding an upload adds exactly its snippets' rows; an upload whose reader raises adds nothing |

## Left out

- PyMuPDF, PIL, tesseract and the 300-DPI rendering are not modelled. The texts they return are inputs (`Page`, `UploadedFile`).
- The PDF reader's failures are modelled as one error, `PdfUnreadable`. It covers `fitz.open` or a page's `get_text()` raising, both outside any `try`. Which page raised is not recorded.
- UTF-8 decoding with `errors='ignore'` is not modelled; the decoded text is an input.
- MD5 is not modelled; the digest is a parameter, and no claim is made about collisions.
- `generate_doc_id` is deterministic because it is a function. No separate lemma states this.
- The Groq client, model names, prompts, temperature and the API-key check are not modelled. Only the outcome of each call is.
- `json.loads` is not modelled: a reply is already a JSON value or `Malformed`.
- JSON floats are not modelled.
- `print` logging is not modelled.
- Text.Lower: lower-cases ASCII letters only. Python's `str.lower` also folds other Unicode capitals. The suffix tests do not change, because no such letter lower-cases to a letter of `.pdf`, `.txt`, `.md`, `.png`, `.jpg` or `jpeg`. The hashed name does change: Python gives "RÉSUMÉ.txt" and "résumé.txt" one doc id, while the model hashes two different names.
- DocumentProcessor.IngestedDocIds: proves the same doc id only for names that differ in ASCII case, for the reason given for Text.Lower.
- Generation.InterpretExtraction: the text of pydantic's ValidationError is a fixed stand-in.
- Pydantic's lax coercions are not modelled: a numeric string for `source_page`, or a bool for an int, is treated as invalid.
- Generation.InterpretExtraction: the `KeyError` half of the parse-failure handler cannot be raised by this code (only `data.get` is used), so it is not modelled separately.
- Generation.Entries: iterating a dict visits its keys, and each key would be skipped. The model visits no entry at all, which gives the same themes.
- Retrieval.Collection.Query: chroma's similarity ranking is the `ranked` parameter. The model only promises that the rows come from it and match the `where` filter.
- Retrieval.Collection.Add: chroma's behaviour on duplicate ids is not documented; the model overwrites, with later rows winning.
- Chroma's rejection of `None` metadata values is not modelled: a snippet without a page is stored with a `None` value.
- The second emptiness check in `get_all_doc_ids` (app/core/retrieval.py:72-74) is not modelled separately. It cannot fire once `count()` is non-zero.
- The exception path of `clear_database` (app/core/retrieval.py:94-96) only prints; it is not modelled.
- Concurrency between sessions, and app/main.py (the Streamlit UI), are not part of this model.
- Where the written design and the code disagree, the model follows the code:
  - An image upload whose OCR raises is not caught: `process_uploaded_file` propagates the exception, modelled as `Failure(ImageOcrFailed)`. Only the PDF path degrades a failed OCR to an empty page.
  - A theme entry that is null, a bool or a number makes `key in theme_data` raise outside the inner `try`. The whole call then returns the single error theme; other entries are not isolated from it.
  - A stored page or paragraph of `None` is present in the metadata, so `.get('page', 'N/A')` renders it as "None", not "N/A".
