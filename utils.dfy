/** The record types shared by the pipeline and the document-identity function
    (app/core/utils.py). */
module Utils {
  import opened Wrappers
  import opened Text

  /** A citable unit of a document: page and paragraph are 1-based and may be absent. */
  datatype DocumentSnippet = DocumentSnippet(
    docId: string,
    content: string,
    page: Option<int>,
    paragraph: Option<int>)

  /** The words that mark an answer as "nothing found". */
  const NoRelevantMarker := "No relevant"

  /** The default answer text. */
  const NoRelevantInformation := NoRelevantMarker + " information found in this document."

  /** The answer extracted from one document for one query. */
  datatype DocumentAnswer = DocumentAnswer(
    docId: string,
    extractedAnswer: string,
    sourcePage: Option<int>,
    sourceParagraph: Option<int>)

  /** DocumentAnswer(doc_id=...) with every other field at its default. */
  function DefaultAnswer(docId: string): DocumentAnswer {
    DocumentAnswer(docId, NoRelevantInformation, None, None)
  }

  /** A cross-document theme. */
  datatype Theme = Theme(themeTitle: string, summary: string, supportingDocs: seq<string>)

  predicate IsHexDigit(c: char) {
    '0' <= c <= '9' || 'a' <= c <= 'f'
  }

  /** What hashlib's hexdigest() of an MD5 hash returns: 32 lower-case hex digits. */
  type HexDigest = s: string | |s| == 32 && forall k :: 0 <= k < |s| ==> IsHexDigit(s[k])
    witness seq(32, _ => '0')

  const DocIdLength := 10

  /** generate_doc_id: the first ten hex digits of the name's MD5 digest. The
      digest itself is a parameter (`md5`), since MD5 is not modelled. */
  function GenerateDocId(md5: string -> HexDigest, fileName: string): (docId: string)
    ensures |docId| == DocIdLength
    ensures forall k :: 0 <= k < |docId| ==> IsHexDigit(docId[k])
    ensures StartsWith(md5(fileName), docId)
  {
    md5(fileName)[..DocIdLength]
  }

}
