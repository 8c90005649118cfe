/** Ingestion (app/core/document_processor.py): paragraph chunking, the per-page
    PDF loop with its OCR fallback, and dispatch on the file name's suffix.
    PyMuPDF, PIL and tesseract are replaced by the texts they would return. */
module DocumentProcessor {
  import opened Wrappers
  import opened Text
  import opened Utils

  const ParagraphBreak := "\n\n"

  /** A page whose stripped direct text is shorter than this is OCRed instead. */
  const TextLengthThreshold := 100

  /** `[p.strip() for p in pieces if p.strip()]` */
  function StrippedNonEmpty(pieces: seq<string>): seq<string> {
    if pieces == [] then []
    else
      var p := Strip(pieces[0]);
      (if p != [] then [p] else []) + StrippedNonEmpty(pieces[1..])
  }

  /** Each kept paragraph is a trimmed, non-empty text, and none is invented. */
  lemma {:induction false} StrippedNonEmptyTrimmed(pieces: seq<string>)
    ensures var ps := StrippedNonEmpty(pieces);
      |ps| <= |pieces| && forall i :: 0 <= i < |ps| ==> Trimmed(ps[i])
  {
    if pieces != [] {
      StripSpec(pieces[0]);
      StrippedNonEmptyTrimmed(pieces[1..]);
    }
  }

  /** Every piece is dropped exactly when every piece is blank. */
  lemma {:induction false} StrippedNonEmptyEmptyIff(pieces: seq<string>)
    ensures StrippedNonEmpty(pieces) == [] <==> forall k :: 0 <= k < |pieces| ==> AllSpace(pieces[k])
  {
    if pieces != [] {
      StripSpec(pieces[0]);
      StrippedNonEmptyEmptyIff(pieces[1..]);
      assert forall k :: 0 < k < |pieces| ==> pieces[k] == pieces[1..][k - 1];
    }
  }

  /** The paragraphs of a text, in order: its "\n\n"-separated pieces, stripped,
      with the blank ones dropped. */
  function Paragraphs(text: string): seq<string> {
    StrippedNonEmpty(Split(text, ParagraphBreak))
  }

  /** A text has no paragraph exactly when it is empty or all whitespace. */
  lemma ParagraphsEmptyIffBlank(text: string)
    ensures Paragraphs(text) == [] <==> AllSpace(text)
  {
    var pieces := Split(text, ParagraphBreak);
    SplitJoinRoundTrip(text, ParagraphBreak);
    StrippedNonEmptyEmptyIff(pieces);
    if AllSpace(text) {
      forall k | 0 <= k < |pieces| ensures AllSpace(pieces[k]) {
        forall j | 0 <= j < |pieces[k]| ensures IsSpace(pieces[k][j]) {
          JoinKeepsChars(pieces, ParagraphBreak, k, pieces[k][j]);
        }
      }
    } else {
      var j :| 0 <= j < |text| && !IsSpace(text[j]);
      JoinCharOrigin(pieces, ParagraphBreak, text[j]);
      var k :| 0 <= k < |pieces| && text[j] in pieces[k];
      assert !AllSpace(pieces[k]);
    }
  }

  /** Paragraph i (0-based) of ps as a snippet of the given document and page, numbered i + 1. */
  function Numbered(docId: string, pageNum: int, ps: seq<string>): seq<DocumentSnippet> {
    seq(|ps|, i requires 0 <= i < |ps| => DocumentSnippet(docId, ps[i], Some(pageNum), Some(i + 1)))
  }

  /** `_chunk_text_into_snippets`, as a value. */
  function Chunked(docId: string, pageNum: int, text: string): seq<DocumentSnippet> {
    Numbered(docId, pageNum, Paragraphs(text))
  }

  /** Each chunk is one trimmed paragraph of the text, cited with the given
      document and page and numbered from 1 in reading order. */
  lemma ChunkedShape(docId: string, pageNum: int, text: string)
    ensures var snippets := Chunked(docId, pageNum, text);
      && |snippets| == |Paragraphs(text)|
      && forall i :: 0 <= i < |snippets| ==>
           && snippets[i] == DocumentSnippet(docId, Paragraphs(text)[i], Some(pageNum), Some(i + 1))
           && Trimmed(snippets[i].content)
  {
    StrippedNonEmptyTrimmed(Split(text, ParagraphBreak));
  }

  /** `_chunk_text_into_snippets`: appends one snippet per paragraph. */
  method ChunkTextIntoSnippets(docId: string, pageNum: int, text: string) returns (snippets: seq<DocumentSnippet>)
    ensures snippets == Chunked(docId, pageNum, text)
  {
    snippets := [];
    var paragraphs := Paragraphs(text);
    for paraNum := 0 to |paragraphs|
      invariant |snippets| == paraNum
      invariant forall k :: 0 <= k < paraNum ==>
        snippets[k] == DocumentSnippet(docId, paragraphs[k], Some(pageNum), Some(k + 1))
    {
      snippets := snippets + [DocumentSnippet(docId, paragraphs[paraNum], Some(pageNum), Some(paraNum + 1))];
    }
  }

  /** Blank text (including "") yields no snippet; any other text yields at least one. */
  lemma ChunkedEmptyIffBlank(docId: string, pageNum: int, text: string)
    ensures Chunked(docId, pageNum, text) == [] <==> AllSpace(text)
  {
    ParagraphsEmptyIffBlank(text);
  }

  /** Splitting a + "\n\n" + rest, where a has no newline, closes the piece cur + a first. */
  lemma {:induction false} SplitFromBreak(a: string, rest: string, cur: string)
    requires '\n' !in a
    ensures SplitFrom(a + ParagraphBreak + rest, ParagraphBreak, cur)
            == [cur + a] + SplitFrom(rest, ParagraphBreak, [])
    decreases |a|
  {
    var s := a + ParagraphBreak + rest;
    if a == [] {
      assert s == ParagraphBreak + rest;
      assert s[..2] == ParagraphBreak && s[2..] == rest;
      assert cur + a == cur;
    } else {
      assert s[..2] != ParagraphBreak by { assert s[0] == a[0] != '\n'; }
      assert s[1..] == a[1..] + ParagraphBreak + rest;
      SplitFromBreak(a[1..], rest, cur + [a[0]]);
      assert cur + [a[0]] + a[1..] == cur + a;
    }
  }

  /** A text with no newline is a single piece. */
  lemma {:induction false} SplitFromNoBreak(b: string, cur: string)
    requires '\n' !in b
    ensures SplitFrom(b, ParagraphBreak, cur) == [cur + b]
    decreases |b|
  {
    if |b| >= 2 {
      assert b[..2] != ParagraphBreak by { assert b[0] != '\n'; }
      SplitFromNoBreak(b[1..], cur + [b[0]]);
      assert cur + [b[0]] + b[1..] == cur + b;
    }
  }

  /** Two trimmed one-line paragraphs separated by a blank line are chunked as paragraphs 1 and 2. */
  lemma TwoParagraphs(docId: string, pageNum: int, a: string, b: string)
    requires '\n' !in a && '\n' !in b
    requires Trimmed(a) && Trimmed(b)
    ensures Chunked(docId, pageNum, a + ParagraphBreak + b)
            == [DocumentSnippet(docId, a, Some(pageNum), Some(1)), DocumentSnippet(docId, b, Some(pageNum), Some(2))]
  {
    TwoParagraphsSplit(a, b);
    var snippets := Numbered(docId, pageNum, [a, b]);
    assert |snippets| == 2 && snippets[0] == DocumentSnippet(docId, a, Some(pageNum), Some(1));
  }

  /** The paragraphs of "a\n\nb", for trimmed one-line a and b, are a and b. */
  lemma TwoParagraphsSplit(a: string, b: string)
    requires '\n' !in a && '\n' !in b
    requires Trimmed(a) && Trimmed(b)
    ensures Paragraphs(a + ParagraphBreak + b) == [a, b]
  {
    SplitAtBreak(a, b);
    assert Strip(a) == a && Strip(b) == b;
    assert [a, b][1..] == [b] && [b][1..] == [];
    assert StrippedNonEmpty([b]) == [b];
  }

  /** "a\n\nb", for one-line a and b, splits at the blank line into a and b. */
  lemma SplitAtBreak(a: string, b: string)
    requires '\n' !in a && '\n' !in b
    ensures Split(a + ParagraphBreak + b, ParagraphBreak) == [a, b]
  {
    SplitFromBreak(a, b, []);
    SplitFromNoBreak(b, []);
    assert [] + a == a && [] + b == b;
  }

  /** One PDF page: the text PyMuPDF extracts directly, and what tesseract returns
      for the page rendered as an image (None when that OCR pipeline raises). */
  datatype Page = Page(directText: string, ocrText: Option<string>)

  /** The text a page contributes: the stripped direct text when it is long
      enough, otherwise the stripped OCR text, or "" when OCR failed. */
  function PageText(page: Page): string {
    var text := Strip(page.directText);
    if |text| < TextLengthThreshold then
      match page.ocrText
      case Some(ocrText) => Strip(ocrText)
      case None => ""
    else text
  }

  /** The snippets of the 1-based page pageNumber; empty page text is skipped. */
  function PageSnippets(docId: string, pageNumber: int, page: Page): seq<DocumentSnippet> {
    var text := PageText(page);
    if text != [] then Chunked(docId, pageNumber, text) else []
  }

  /** `_process_pdf`, as a value: the per-page snippets concatenated in page order. */
  function PdfSnippets(docId: string, pages: seq<Page>): seq<DocumentSnippet>
    decreases |pages|
  {
    if pages == [] then []
    else PdfSnippets(docId, pages[..|pages| - 1]) + PageSnippets(docId, |pages|, pages[|pages| - 1])
  }

  /** `_process_pdf`: the page loop, extending the result page by page. */
  method ProcessPdf(pages: seq<Page>, docId: string) returns (allSnippets: seq<DocumentSnippet>)
    ensures allSnippets == PdfSnippets(docId, pages)
  {
    allSnippets := [];
    for pageNum := 0 to |pages|
      invariant allSnippets == PdfSnippets(docId, pages[..pageNum])
    {
      assert pages[..pageNum + 1][..pageNum] == pages[..pageNum];
      ghost var done := PdfSnippets(docId, pages[..pageNum + 1]);
      assert done == allSnippets + PageSnippets(docId, pageNum + 1, pages[pageNum]);
      var pageNumberForCitation := pageNum + 1;
      var text := Strip(pages[pageNum].directText);
      if |text| < TextLengthThreshold {
        match pages[pageNum].ocrText
        case Some(ocrText) =>
          text := Strip(ocrText);
        case None =>
          text := "";
      }
      assert text == PageText(pages[pageNum]);
      if text != [] {
        var pageSnippets := ChunkTextIntoSnippets(docId, pageNumberForCitation, text);
        allSnippets := allSnippets + pageSnippets;
      }
    }
    assert pages[..|pages|] == pages;
  }

  /** The snippets cited on page n, in order. */
  function OnPage(snippets: seq<DocumentSnippet>, n: int): seq<DocumentSnippet> {
    if snippets == [] then []
    else (if snippets[0].page == Some(n) then [snippets[0]] else []) + OnPage(snippets[1..], n)
  }

  lemma {:induction false} OnPageConcat(a: seq<DocumentSnippet>, b: seq<DocumentSnippet>, n: int)
    ensures OnPage(a + b, n) == OnPage(a, n) + OnPage(b, n)
  {
    if a != [] {
      assert (a + b)[0] == a[0];
      assert (a + b)[1..] == a[1..] + b;
      OnPageConcat(a[1..], b, n);
    } else {
      assert a + b == b;
    }
  }

  lemma {:induction false} OnPageAll(a: seq<DocumentSnippet>, n: int)
    requires forall i :: 0 <= i < |a| ==> a[i].page == Some(n)
    ensures OnPage(a, n) == a
  {
    if a != [] {
      OnPageAll(a[1..], n);
    }
  }

  lemma {:induction false} OnPageNone(a: seq<DocumentSnippet>, n: int)
    requires forall i :: 0 <= i < |a| ==> a[i].page != Some(n)
    ensures OnPage(a, n) == []
  {
    if a != [] {
      OnPageNone(a[1..], n);
    }
  }

  /** s cites document docId, a page from 1 to lastPage and a paragraph from 1. */
  predicate Cites(s: DocumentSnippet, docId: string, lastPage: int) {
    && s.docId == docId
    && s.page.Some? && 1 <= s.page.value <= lastPage
    && s.paragraph.Some? && s.paragraph.value >= 1
  }

  /** x comes before y in reading order: an earlier page, or the same page and
      an earlier paragraph. */
  predicate Precedes(x: DocumentSnippet, y: DocumentSnippet) {
    && x.page.Some? && y.page.Some? && x.paragraph.Some? && y.paragraph.Some?
    && (x.page.value < y.page.value
        || (x.page.value == y.page.value && x.paragraph.value < y.paragraph.value))
  }

  predicate InReadingOrder(r: seq<DocumentSnippet>) {
    forall i, j :: 0 <= i < j < |r| ==> Precedes(r[i], r[j])
  }

  lemma ReadingOrderConcat(a: seq<DocumentSnippet>, b: seq<DocumentSnippet>)
    requires InReadingOrder(a) && InReadingOrder(b)
    requires forall i, j :: 0 <= i < |a| && 0 <= j < |b| ==> Precedes(a[i], b[j])
    ensures InReadingOrder(a + b)
  {
    var r := a + b;
    forall i, j | 0 <= i < j < |r| ensures Precedes(r[i], r[j]) {
      if j < |a| {
        assert r[i] == a[i] && r[j] == a[j];
      } else if i < |a| {
        assert r[i] == a[i] && r[j] == b[j - |a|];
      } else {
        assert r[i] == b[i - |a|] && r[j] == b[j - |a|];
      }
    }
  }

  lemma PageSnippetsChunked(docId: string, pageNumber: int, page: Page)
    ensures PageSnippets(docId, pageNumber, page) == Chunked(docId, pageNumber, PageText(page))
  {
    if PageText(page) == [] {
      ChunkedEmptyIffBlank(docId, pageNumber, "");
    }
  }

  /** The snippets of one page all cite that page, numbered 1, 2, ... in order. */
  lemma PageSnippetsOnPage(docId: string, pageNumber: int, page: Page)
    requires pageNumber >= 1
    ensures var b := PageSnippets(docId, pageNumber, page);
      && (forall i :: 0 <= i < |b| ==> Cites(b[i], docId, pageNumber) && b[i].page == Some(pageNumber))
      && InReadingOrder(b)
  {
    PageSnippetsChunked(docId, pageNumber, page);
  }

  /** Provenance of PDF snippets: every snippet carries the document's id, a page
      between 1 and the page count and a paragraph from 1, and the result runs in
      reading order, so no two snippets share a (page, paragraph) pair. */
  lemma {:induction false} PdfSnippetsOrdered(docId: string, pages: seq<Page>)
    ensures var r := PdfSnippets(docId, pages);
      && (forall i :: 0 <= i < |r| ==> Cites(r[i], docId, |pages|))
      && InReadingOrder(r)
    decreases |pages|
  {
    if pages != [] {
      var n := |pages|;
      var init := pages[..n - 1];
      PdfSnippetsOrdered(docId, init);
      var a := PdfSnippets(docId, init);
      var b := PageSnippets(docId, n, pages[n - 1]);
      assert PdfSnippets(docId, pages) == a + b;
      PageSnippetsOnPage(docId, n, pages[n - 1]);
      ReadingOrderConcat(a, b);
      forall i | 0 <= i < |a + b| ensures Cites((a + b)[i], docId, n) {
        if i < |a| {
          assert (a + b)[i] == a[i];
        } else {
          assert (a + b)[i] == b[i - |a|];
        }
      }
    }
  }

  /** The last page's snippets are the only ones citing it. */
  lemma LastPageOnly(docId: string, pages: seq<Page>)
    requires pages != []
    ensures OnPage(PdfSnippets(docId, pages), |pages|) == PageSnippets(docId, |pages|, pages[|pages| - 1])
  {
    var n := |pages|;
    var a := PdfSnippets(docId, pages[..n - 1]);
    var b := PageSnippets(docId, n, pages[n - 1]);
    assert PdfSnippets(docId, pages) == a + b;
    OnPageConcat(a, b, n);
    PdfSnippetsOrdered(docId, pages[..n - 1]);
    OnPageNone(a, n);
    PageSnippetsOnPage(docId, n, pages[n - 1]);
    OnPageAll(b, n);
  }

  /** Adding the last page leaves the snippets of every earlier page as they were. */
  lemma EarlierPageUnaffected(docId: string, pages: seq<Page>, m: int)
    requires pages != [] && m < |pages|
    ensures OnPage(PdfSnippets(docId, pages), m) == OnPage(PdfSnippets(docId, pages[..|pages| - 1]), m)
  {
    var n := |pages|;
    var a := PdfSnippets(docId, pages[..n - 1]);
    var b := PageSnippets(docId, n, pages[n - 1]);
    assert PdfSnippets(docId, pages) == a + b;
    OnPageConcat(a, b, m);
    PageSnippetsOnPage(docId, n, pages[n - 1]);
    OnPageNone(b, m);
  }

  /** The snippets on page k + 1 of the result are exactly that page's own
      snippets: each page is processed independently of every other page. */
  lemma {:induction false} PdfOnPage(docId: string, pages: seq<Page>, k: nat)
    requires k < |pages|
    ensures OnPage(PdfSnippets(docId, pages), k + 1) == PageSnippets(docId, k + 1, pages[k])
    decreases |pages|, 1
  {
    if k == |pages| - 1 {
      LastPageOnly(docId, pages);
    } else {
      PdfOnEarlierPage(docId, pages, k);
    }
  }

  lemma {:induction false} PdfOnEarlierPage(docId: string, pages: seq<Page>, k: nat)
    requires k < |pages| - 1
    ensures OnPage(PdfSnippets(docId, pages), k + 1) == PageSnippets(docId, k + 1, pages[k])
    decreases |pages|, 0
  {
    var init := pages[..|pages| - 1];
    EarlierPageUnaffected(docId, pages, k + 1);
    PdfOnPage(docId, init, k);
    assert init[k] == pages[k];
  }

  /** A page whose stripped direct text has at least 100 characters is chunked from that text. */
  lemma DirectTextPage(docId: string, pages: seq<Page>, k: nat)
    requires k < |pages| && |Strip(pages[k].directText)| >= TextLengthThreshold
    ensures OnPage(PdfSnippets(docId, pages), k + 1) == Chunked(docId, k + 1, Strip(pages[k].directText))
  {
    PdfOnPage(docId, pages, k);
    PageSnippetsChunked(docId, k + 1, pages[k]);
  }

  /** A shorter page, even a non-empty one, is chunked from its stripped OCR text. */
  lemma OcrFallbackPage(docId: string, pages: seq<Page>, k: nat, ocrText: string)
    requires k < |pages| && |Strip(pages[k].directText)| < TextLengthThreshold
    requires pages[k].ocrText == Some(ocrText)
    ensures OnPage(PdfSnippets(docId, pages), k + 1) == Chunked(docId, k + 1, Strip(ocrText))
  {
    PdfOnPage(docId, pages, k);
    PageSnippetsChunked(docId, k + 1, pages[k]);
  }

  /** A page whose OCR fails contributes no snippet; the other pages are unaffected. */
  lemma OcrFailureSkipsPage(docId: string, pages: seq<Page>, k: nat)
    requires k < |pages| && |Strip(pages[k].directText)| < TextLengthThreshold
    requires pages[k].ocrText.None?
    ensures OnPage(PdfSnippets(docId, pages), k + 1) == []
    ensures forall j :: 0 <= j < |pages| && j != k ==>
      OnPage(PdfSnippets(docId, pages), j + 1) == PageSnippets(docId, j + 1, pages[j])
  {
    PdfOnPage(docId, pages, k);
    forall j | 0 <= j < |pages| && j != k
      ensures OnPage(PdfSnippets(docId, pages), j + 1) == PageSnippets(docId, j + 1, pages[j])
    {
      PdfOnPage(docId, pages, j);
    }
  }

  /** A two-page PDF whose first page has direct text and whose second is a scan:
      page 1's paragraphs from the direct text, then page 2's from OCR. */
  lemma TextThenScannedPage(docId: string, first: Page, second: Page, ocrText: string)
    requires |Strip(first.directText)| >= TextLengthThreshold
    requires Strip(second.directText) == [] && second.ocrText == Some(ocrText)
    ensures PdfSnippets(docId, [first, second])
            == Chunked(docId, 1, Strip(first.directText)) + Chunked(docId, 2, Strip(ocrText))
  {
    assert [first, second][..1] == [first] && [first][..0] == [];
    assert PdfSnippets(docId, [first]) == PageSnippets(docId, 1, first);
    assert PdfSnippets(docId, [first, second]) == PageSnippets(docId, 1, first) + PageSnippets(docId, 2, second);
    assert PageText(first) == Strip(first.directText);
    assert PageText(second) == Strip(ocrText);
    PageSnippetsChunked(docId, 1, first);
    PageSnippetsChunked(docId, 2, second);
  }

  /** The reader a lower-cased file name is routed to. */
  datatype FileKind = PdfFile | TextFile | ImageFile | Unsupported

  /** The suffix tests of process_uploaded_file, in order. The last image test
      is 'jpeg' without a dot, so any name ending in "jpeg" is an image. */
  function KindOf(fileName: string): FileKind {
    if EndsWith(fileName, ".pdf") then PdfFile
    else if EndsWith(fileName, ".txt") || EndsWith(fileName, ".md") then TextFile
    else if EndsWith(fileName, ".png") || EndsWith(fileName, ".jpg") || EndsWith(fileName, "jpeg") then ImageFile
    else Unsupported
  }

  /** Each supported suffix reaches its reader, and so does a bare "jpeg" ending. */
  lemma KindOfSuffixes(base: string)
    ensures KindOf(base + ".pdf") == PdfFile
    ensures KindOf(base + ".txt") == TextFile && KindOf(base + ".md") == TextFile
    ensures KindOf(base + ".png") == ImageFile && KindOf(base + ".jpg") == ImageFile
    ensures KindOf(base + "jpeg") == ImageFile
  {
    EndsWithAppended(base, ".pdf");
    TextSuffix(base, ".txt");
    TextSuffix(base, ".md");
    ImageSuffix(base, ".png");
    ImageSuffix(base, ".jpg");
    ImageSuffix(base, "jpeg");
  }

  lemma EndsWithAppended(base: string, suffix: string)
    ensures EndsWith(base + suffix, suffix)
  {
    assert (base + suffix)[|base|..] == suffix;
  }

  /** A name whose last letter is not the suffix's last letter does not end in it. */
  lemma LastLetterDiffers(s: string, suffix: string)
    requires s != [] && suffix != [] && s[|s| - 1] != suffix[|suffix| - 1]
    ensures !EndsWith(s, suffix)
  {
    if |suffix| <= |s| {
      assert s[|s| - |suffix|..][|suffix| - 1] == s[|s| - 1];
    }
  }

  /** ".txt" and ".md" pass the PDF test by and reach the text reader. */
  lemma TextSuffix(base: string, suffix: string)
    requires suffix == ".txt" || suffix == ".md"
    ensures KindOf(base + suffix) == TextFile
  {
    EndsWithAppended(base, suffix);
    LastLetterDiffers(base + suffix, ".pdf");
  }

  /** The image suffixes pass the PDF and text tests by and reach OCR. */
  lemma ImageSuffix(base: string, suffix: string)
    requires suffix == ".png" || suffix == ".jpg" || suffix == "jpeg"
    ensures KindOf(base + suffix) == ImageFile
  {
    EndsWithAppended(base, suffix);
    LastLetterDiffers(base + suffix, ".pdf");
    LastLetterDiffers(base + suffix, ".txt");
    LastLetterDiffers(base + suffix, ".md");
  }

  /** An uploaded file: its name, and what each reader makes of its bytes: the
      pages PyMuPDF finds (None when opening the document or reading a page's
      text raises), the UTF-8 decoding (errors ignored), and the OCR text of the
      decoded image (None when PIL or tesseract raises). */
  datatype UploadedFile = UploadedFile(name: string, pages: Option<seq<Page>>, text: string, imageText: Option<string>)

  /** An exception process_uploaded_file lets through to its caller: the PDF
      reader's own (outside any try) or the image reader's. */
  datatype IngestError = PdfUnreadable | ImageOcrFailed

  /** What process_uploaded_file returns for a file, as a value. */
  function Ingested(file: UploadedFile, md5: string -> HexDigest): Result<seq<DocumentSnippet>, IngestError> {
    var fileName := Lower(file.name);
    var docId := GenerateDocId(md5, fileName);
    match KindOf(fileName)
    case PdfFile =>
      (match file.pages
       case Some(pages) => Success(PdfSnippets(docId, pages))
       case None => Failure(PdfUnreadable))
    case TextFile => Success(Chunked(docId, 1, file.text))
    case ImageFile =>
      (match file.imageText
       case Some(ocrText) => Success(Chunked(docId, 1, ocrText))
       case None => Failure(ImageOcrFailed))
    case Unsupported => Success([])
  }

  /** process_uploaded_file: routes the lower-cased name to a reader. */
  method ProcessUploadedFile(file: UploadedFile, md5: string -> HexDigest)
    returns (result: Result<seq<DocumentSnippet>, IngestError>)
    ensures result == Ingested(file, md5)
  {
    var fileName := Lower(file.name);
    var docId := GenerateDocId(md5, fileName);
    if EndsWith(fileName, ".pdf") {
      match file.pages
      case None =>
        return Failure(PdfUnreadable);
      case Some(pages) =>
        var snippets := ProcessPdf(pages, docId);
        return Success(snippets);
    } else if EndsWith(fileName, ".txt") || EndsWith(fileName, ".md") {
      var snippets := ChunkTextIntoSnippets(docId, 1, file.text);
      return Success(snippets);
    } else if EndsWith(fileName, ".png") || EndsWith(fileName, ".jpg") || EndsWith(fileName, "jpeg") {
      match file.imageText
      case None =>
        return Failure(ImageOcrFailed);
      case Some(ocrText) =>
        var snippets := ChunkTextIntoSnippets(docId, 1, ocrText);
        return Success(snippets);
    } else {
      return Success([]);
    }
  }

  /** Every snippet of an upload carries the doc id of the lower-cased file name,
      so names differing only in ASCII case give the same id. */
  lemma IngestedDocIds(file: UploadedFile, md5: string -> HexDigest)
    ensures Ingested(file, md5).Success? ==>
      forall s :: s in Ingested(file, md5).value ==> s.docId == GenerateDocId(md5, Lower(file.name))
    ensures Ingested(file, md5) == Ingested(file.(name := Lower(file.name)), md5)
  {
    if file.pages.Some? {
      PdfSnippetsOrdered(GenerateDocId(md5, Lower(file.name)), file.pages.value);
    }
    LowerIdempotent(file.name);
  }

  /** An upload fails exactly when it is routed to the PDF reader and the
      document cannot be read, or to the image reader and OCR raises; every
      other upload, an unsupported one included, succeeds. */
  lemma IngestFailures(file: UploadedFile, md5: string -> HexDigest)
    ensures Ingested(file, md5) == Failure(PdfUnreadable)
            <==> KindOf(Lower(file.name)) == PdfFile && file.pages.None?
    ensures Ingested(file, md5) == Failure(ImageOcrFailed)
            <==> KindOf(Lower(file.name)) == ImageFile && file.imageText.None?
    ensures KindOf(Lower(file.name)) == Unsupported ==> Ingested(file, md5) == Success([])
  {
  }

  /** A lower-case ".txt" file holding two trimmed one-line paragraphs separated
      by a blank line gives two snippets on page 1, paragraphs 1 and 2. */
  lemma TwoParagraphTextFile(md5: string -> HexDigest, base: string, a: string, b: string)
    requires HasNoUpper(base)
    requires '\n' !in a && '\n' !in b && Trimmed(a) && Trimmed(b)
    ensures var docId := GenerateDocId(md5, base + ".txt");
      Ingested(UploadedFile(base + ".txt", None, a + ParagraphBreak + b, None), md5)
      == Success([DocumentSnippet(docId, a, Some(1), Some(1)),
                  DocumentSnippet(docId, b, Some(1), Some(2))])
  {
    var name := base + ".txt";
    assert HasNoUpper(name) by {
      forall k | 0 <= k < |name| ensures !('A' <= name[k] <= 'Z') {
        if k >= |base| {
          assert name[k] == ".txt"[k - |base|];
        }
      }
    }
    LowerFixedPoints(name);
    KindOfSuffixes(base);
    TwoParagraphs(GenerateDocId(md5, name), 1, a, b);
  }
}
