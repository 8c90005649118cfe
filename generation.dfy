/** Answer extraction and theme synthesis (app/core/generation.py). The Groq
    chat call is replaced by its outcome: a service failure, a reply json.loads
    rejects, or the decoded reply. The prompts are not modelled; each call is an
    oracle applied to the query and the context the source builds. */
module Generation {
  import opened Wrappers
  import opened Text
  import opened Json
  import opened Utils
  import opened Retrieval

  /** What a chat call to the model comes to. */
  datatype LlmOutcome =
    | ServiceError(message: string)  // the client raised; message is str(e)
    | Malformed(message: string)     // json.loads raised; message is str(e)
    | Parsed(data: JsonValue)        // the decoded reply

  const ErrorMarker := "Error"
  const ParseFailureText := ErrorMarker + ": Failed to parse model output."
  const ProcessingErrorPrefix := ErrorMarker + " processing this document: "
  const MissingAnswerText := "Could not extract answer from JSON."

  /** Stands for the text of pydantic's ValidationError, which is not modelled. */
  const AnswerValidationFailure := "1 validation error for DocumentAnswer"

  /** `meta.get(key, 'N/A')` as the f-string prints it. */
  function Label(v: Option<Scalar>): string {
    match v
    case None => "N/A"
    case Some(x) => PyStr(x)
  }

  /** 'N/A' stands exactly for a missing page or paragraph (for the int and
      None values the store records there). */
  lemma LabelMissing(v: Option<Scalar>)
    requires v.None? || !v.value.StrValue?
    ensures Label(v) == "N/A" <==> v.None?
  {
    if v.Some? && v.value.IntValue? {
      assert Label(v)[0] != 'N';
    }
  }

  /** The context block of one retrieved snippet. */
  function SourceBlock(s: RetrievedSnippet): string {
    "<source page='" + Label(Field(s.metadata, "page")) + "' paragraph='" + Label(Field(s.metadata, "paragraph"))
    + "'>\n" + s.content + "\n</source>"
  }

  function SourceBlocks(snippets: seq<RetrievedSnippet>): (blocks: seq<string>)
    ensures |blocks| == |snippets|
  {
    seq(|snippets|, i requires 0 <= i < |snippets| => SourceBlock(snippets[i]))
  }

  /** The extraction context: one block per snippet, in order, separated by blank lines. */
  function ExtractionContext(snippets: seq<RetrievedSnippet>): string {
    Join(SourceBlocks(snippets), "\n\n")
  }

  /** Every snippet's content, and its whole block, reaches the model. */
  lemma ContextQuotesEverySnippet(snippets: seq<RetrievedSnippet>, i: nat)
    requires i < |snippets|
    ensures Contains(ExtractionContext(snippets), SourceBlock(snippets[i]))
    ensures Contains(ExtractionContext(snippets), snippets[i].content)
  {
    var blocks := SourceBlocks(snippets);
    JoinContainsPiece(blocks, "\n\n", i);
    var s := snippets[i];
    var head := "<source page='" + Label(Field(s.metadata, "page")) + "' paragraph='" + Label(Field(s.metadata, "paragraph")) + "'>\n";
    assert SourceBlock(s) == head + s.content + "\n</source>";
    ContainsInfix(head, s.content, "\n</source>");
    ContainsTransitive(ExtractionContext(snippets), SourceBlock(s), s.content);
  }

  /** An Optional[int] field of the reply: absent or null is None, an integer is kept. */
  function OptionalIntField(fields: map<string, JsonValue>, key: string): Option<Option<int>> {
    match Get(fields, key)
    case None => Some(None)
    case Some(JNull) => Some(None)
    case Some(JInt(n)) => Some(Some(n))
    case Some(_) => None
  }

  /** `DocumentAnswer(doc_id=…, extracted_answer=data.get("answer", …), source_page=…,
      source_paragraph=…)`, or None when validation rejects a field. */
  function AnswerFromFields(docId: string, fields: map<string, JsonValue>): Option<DocumentAnswer> {
    var answer := match Get(fields, "answer")
      case None => Some(MissingAnswerText)
      case Some(JString(text)) => Some(text)
      case Some(_) => None;
    match (answer, OptionalIntField(fields, "source_page"), OptionalIntField(fields, "source_paragraph"))
    case (Some(text), Some(page), Some(paragraph)) => Some(DocumentAnswer(docId, text, page, paragraph))
    case _ => None
  }

  /** An answer reporting an exception as "Error processing this document: {e}". */
  function ProcessingError(docId: string, message: string): DocumentAnswer {
    DocumentAnswer(docId, ProcessingErrorPrefix + message, None, None)
  }

  /** The try block of get_answer_from_document after the call, with its two
      except clauses. */
  function InterpretExtraction(docId: string, outcome: LlmOutcome): (answer: DocumentAnswer)
    ensures answer.docId == docId
  {
    match outcome
    case ServiceError(message) => ProcessingError(docId, message)
    case Malformed(_) => DocumentAnswer(docId, ParseFailureText, None, None)
    case Parsed(data) =>
      if !data.JObject? then
        ProcessingError(docId, "'" + PyTypeName(data) + "' object has no attribute 'get'")
      else if !Truthy(Get(data.fields, "is_relevant").GetOr(JNull)) then
        DefaultAnswer(docId)
      else
        match AnswerFromFields(docId, data.fields)
        case Some(answer) => answer
        case None => ProcessingError(docId, AnswerValidationFailure)
  }

  /** get_answer_from_document, with the extraction call as the oracle `extract`
      applied to the query and the context. */
  function GetAnswerFromDocument(query: string, snippets: seq<RetrievedSnippet>, docId: string,
                                 extract: (string, string) -> LlmOutcome): (answer: DocumentAnswer)
    ensures answer.docId == docId
    ensures snippets == [] ==> answer == DefaultAnswer(docId)
  {
    if snippets == [] then DefaultAnswer(docId)
    else InterpretExtraction(docId, extract(query, ExtractionContext(snippets)))
  }

  /** No snippets: the default answer, whatever the model would have said, so no call matters. */
  lemma NoSnippetsNoCall(query: string, docId: string, f: (string, string) -> LlmOutcome, g: (string, string) -> LlmOutcome)
    ensures GetAnswerFromDocument(query, [], docId, f) == GetAnswerFromDocument(query, [], docId, g)
    ensures GetAnswerFromDocument(query, [], docId, f).extractedAnswer == NoRelevantInformation
  {
  }

  /** A reply whose is_relevant is missing or falsy gives the default answer,
      whatever its answer field says. */
  lemma IrrelevantReplyIsDefault(docId: string, fields: map<string, JsonValue>, answer: JsonValue)
    requires !Truthy(Get(fields, "is_relevant").GetOr(JNull))
    ensures InterpretExtraction(docId, Parsed(JObject(fields))) == DefaultAnswer(docId)
    ensures InterpretExtraction(docId, Parsed(JObject(fields["answer" := answer]))) == DefaultAnswer(docId)
  {
    assert Get(fields["answer" := answer], "is_relevant") == Get(fields, "is_relevant");
  }

  /** A relevant reply with well-typed fields is copied: the answer text (or the
      placeholder when absent) and the citations (None when absent or null). */
  lemma RelevantReplyCopied(docId: string, fields: map<string, JsonValue>)
    requires Truthy(Get(fields, "is_relevant").GetOr(JNull))
    requires AnswerFromFields(docId, fields).Some?
    ensures var a := InterpretExtraction(docId, Parsed(JObject(fields)));
      && (a.extractedAnswer == if "answer" in fields then fields["answer"].s else MissingAnswerText)
      && (a.sourcePage == if "source_page" in fields && fields["source_page"].JInt? then Some(fields["source_page"].i) else None)
      && (a.sourceParagraph == if "source_paragraph" in fields && fields["source_paragraph"].JInt? then Some(fields["source_paragraph"].i) else None)
  {
  }

  /** The two error sentinels: an undecodable reply gives the parse-failure
      text, any other exception the processing-error text ending in the
      exception's message; both cite nothing, and the two texts never coincide. */
  lemma ErrorSentinels(docId: string, message: string, other: string)
    ensures var a := InterpretExtraction(docId, Malformed(message));
      a.extractedAnswer == ParseFailureText && a.sourcePage.None? && a.sourceParagraph.None?
    ensures var a := InterpretExtraction(docId, ServiceError(message));
      && StartsWith(a.extractedAnswer, ProcessingErrorPrefix)
      && EndsWith(a.extractedAnswer, message)
      && a.sourcePage.None? && a.sourceParagraph.None?
    ensures InterpretExtraction(docId, Malformed(message)) != InterpretExtraction(docId, ServiceError(other))
  {
    assert ParseFailureText[5] == ':';
    assert (ProcessingErrorPrefix + other)[5] == ' ';
  }

  /** The filter of synthesize_themes: answers mentioning neither "No relevant" nor "Error". */
  predicate KeptForSynthesis(a: DocumentAnswer) {
    !Contains(a.extractedAnswer, NoRelevantMarker) && !Contains(a.extractedAnswer, ErrorMarker)
  }

  /** Only answers that came from a relevant, well-formed reply reach synthesis:
      the default answer and both error sentinels are filtered out. */
  lemma OnlyExtractedAnswersKept(docId: string, outcome: LlmOutcome)
    requires KeptForSynthesis(InterpretExtraction(docId, outcome))
    ensures outcome.Parsed? && outcome.data.JObject?
    ensures Truthy(Get(outcome.data.fields, "is_relevant").GetOr(JNull))
    ensures AnswerFromFields(docId, outcome.data.fields) == Some(InterpretExtraction(docId, outcome))
  {
    var a := InterpretExtraction(docId, outcome);
    ContainsInfix([], NoRelevantMarker, " information found in this document.");
    assert [] + NoRelevantMarker + " information found in this document." == NoRelevantInformation;
    ContainsInfix([], ErrorMarker, ": Failed to parse model output.");
    assert [] + ErrorMarker + ": Failed to parse model output." == ParseFailureText;
    forall message ensures Contains(ProcessingError(docId, message).extractedAnswer, ErrorMarker) {
      ContainsInfix([], ErrorMarker, " processing this document: " + message);
      assert [] + ErrorMarker + (" processing this document: " + message) == ProcessingErrorPrefix + message;
    }
  }

  /** `[a for a in answers if KeptForSynthesis(a)]` */
  function RelevantAnswers(answers: seq<DocumentAnswer>): (kept: seq<DocumentAnswer>)
    ensures |kept| <= |answers|
    ensures forall a :: a in kept <==> a in answers && KeptForSynthesis(a)
  {
    if answers == [] then []
    else (if KeptForSynthesis(answers[0]) then [answers[0]] else []) + RelevantAnswers(answers[1..])
  }

  /** The synthesis context: one `<answer doc_id='…'>` block per kept answer. */
  function ThemeContext(answers: seq<DocumentAnswer>): string {
    Join(seq(|answers|, i requires 0 <= i < |answers| =>
      "<answer doc_id='" + answers[i].docId + "'>\n" + answers[i].extractedAnswer + "\n</answer>"), "\n\n")
  }

  const ErrorThemeTitle := "API or Parsing Error"

  /** The single theme synthesize_themes returns when an exception reaches its except clause. */
  function ErrorTheme(message: string): Theme {
    Theme(ErrorThemeTitle, "Could not synthesize themes: " + message, [])
  }

  /** What the validation loop does with one raw entry. */
  datatype EntryVerdict = Accept(theme: Theme) | Skip | Abort(message: string)

  /** All three keys a theme needs. */
  predicate HasThemeKeys(fields: map<string, JsonValue>) {
    "theme_title" in fields && "summary" in fields && "supporting_docs" in fields
  }

  function AllStrings(items: seq<JsonValue>): bool {
    forall i :: 0 <= i < |items| ==> items[i].JString?
  }

  /** `Theme(**theme_data)` for an entry with the three keys: None when a field
      has the wrong type. */
  function ThemeOf(fields: map<string, JsonValue>): Option<Theme>
    requires HasThemeKeys(fields)
  {
    match (fields["theme_title"], fields["summary"], fields["supporting_docs"])
    case (JString(title), JString(summary), JArray(docs)) =>
      if AllStrings(docs) then Some(Theme(title, summary, seq(|docs|, i requires 0 <= i < |docs| => docs[i].s)))
      else None
    case _ => None
  }

  /** One pass of the loop body. `key in theme_data` is a key test on a dict,
      a substring test on a str and a membership test on a list; the two
      latter never lead to a theme, since `Theme(**…)` then raises inside the
      inner try. On null, a bool or a number the test itself raises, outside
      the inner try. */
  function Verdict(entry: JsonValue): EntryVerdict {
    match entry
    case JObject(fields) =>
      if HasThemeKeys(fields) then
        match ThemeOf(fields)
        case Some(theme) => Accept(theme)
        case None => Skip
      else Skip
    case JString(_) => Skip
    case JArray(_) => Skip
    case _ => Abort("argument of type '" + PyTypeName(entry) + "' is not iterable")
  }

  /** The entries `for theme_data in raw_themes` visits, or the TypeError it raises.
      A str yields its characters; a dict yields its keys, all of which the loop
      skips as strings, so the model visits none. */
  function Entries(rawThemes: JsonValue): Result<seq<JsonValue>, string> {
    match rawThemes
    case JArray(items) => Success(items)
    case JString(s) => Success(seq(|s|, i requires 0 <= i < |s| => JString([s[i]])))
    case JObject(_) => Success([])
    case _ => Failure("'" + PyTypeName(rawThemes) + "' object is not iterable")
  }

  /** The validation loop as a value: the accepted themes in order, or the
      first exception that escapes it. */
  function ValidatedThemes(entries: seq<JsonValue>): Result<seq<Theme>, string>
    decreases |entries|
  {
    if entries == [] then Success([])
    else
      match ValidatedThemes(entries[..|entries| - 1])
      case Failure(message) => Failure(message)
      case Success(themes) =>
        match Verdict(entries[|entries| - 1])
        case Accept(theme) => Success(themes + [theme])
        case Skip => Success(themes)
        case Abort(message) => Failure(message)
  }

  /** What synthesize_themes returns once the model has answered. */
  function ThemesFromReply(outcome: LlmOutcome): seq<Theme> {
    match outcome
    case ServiceError(message) => [ErrorTheme(message)]
    case Malformed(message) => [ErrorTheme(message)]
    case Parsed(data) =>
      if !data.JObject? then [ErrorTheme("'" + PyTypeName(data) + "' object has no attribute 'get'")]
      else
        match Entries(Get(data.fields, "themes").GetOr(JArray([])))
        case Failure(message) => [ErrorTheme(message)]
        case Success(entries) =>
          match ValidatedThemes(entries)
          case Success(themes) => themes
          case Failure(message) => [ErrorTheme(message)]
  }

  /** synthesize_themes as a value, with the synthesis call as the oracle `synthesize`. */
  function SynthesizedThemes(query: string, answers: seq<DocumentAnswer>,
                             synthesize: (string, string) -> LlmOutcome): seq<Theme>
  {
    var relevant := RelevantAnswers(answers);
    if relevant == [] then []
    else ThemesFromReply(synthesize(query, ThemeContext(relevant)))
  }

  /** synthesize_themes: filter, short-circuit, call, then the validation loop. */
  method SynthesizeThemes(query: string, answers: seq<DocumentAnswer>,
                          synthesize: (string, string) -> LlmOutcome) returns (themes: seq<Theme>)
    ensures themes == SynthesizedThemes(query, answers, synthesize)
  {
    var relevantAnswers := RelevantAnswers(answers);
    if relevantAnswers == [] {
      return [];
    }
    var context := ThemeContext(relevantAnswers);
    var outcome := synthesize(query, context);
    match outcome
    case ServiceError(message) =>
      return [ErrorTheme(message)];
    case Malformed(message) =>
      return [ErrorTheme(message)];
    case Parsed(data) =>
      if !data.JObject? {
        return [ErrorTheme("'" + PyTypeName(data) + "' object has no attribute 'get'")];
      }
      var rawThemes := Get(data.fields, "themes").GetOr(JArray([]));
      var entries := Entries(rawThemes);
      if entries.Failure? {
        return [ErrorTheme(entries.error)];
      }
      var validatedThemes: seq<Theme> := [];
      for i := 0 to |entries.value|
        invariant ValidatedThemes(entries.value[..i]) == Success(validatedThemes)
      {
        assert entries.value[..i + 1][..i] == entries.value[..i];
        match Verdict(entries.value[i])
        case Accept(theme) =>
          validatedThemes := validatedThemes + [theme];
        case Skip =>
        case Abort(message) =>
          ValidationStopsAtAbort(entries.value, i);
          return [ErrorTheme(message)];
      }
      assert entries.value[..|entries.value|] == entries.value;
      return validatedThemes;
  }

  /** Once an entry aborts the loop, the whole loop has failed with its message. */
  lemma {:induction false} ValidationStopsAtAbort(entries: seq<JsonValue>, i: nat)
    requires i < |entries| && ValidatedThemes(entries[..i]).Success? && Verdict(entries[i]).Abort?
    ensures ValidatedThemes(entries) == Failure(Verdict(entries[i]).message)
    decreases |entries|
  {
    if i < |entries| - 1 {
      var init := entries[..|entries| - 1];
      assert init[..i] == entries[..i];
      ValidationStopsAtAbort(init, i);
    } else {
      assert entries[..|entries| - 1] == entries[..i];
    }
  }

  /** The accepted themes in order, as a front-to-back filter: the reference the
      validation loop is compared with. */
  function Accepted(entries: seq<JsonValue>): seq<Theme> {
    if entries == [] then []
    else (if Verdict(entries[0]).Accept? then [Verdict(entries[0]).theme] else []) + Accepted(entries[1..])
  }

  lemma {:induction false} AcceptedSnoc(entries: seq<JsonValue>, e: JsonValue)
    ensures Accepted(entries + [e]) == Accepted(entries) + (if Verdict(e).Accept? then [Verdict(e).theme] else [])
    decreases |entries|
  {
    if entries != [] {
      assert (entries + [e])[1..] == entries[1..] + [e];
      AcceptedSnoc(entries[1..], e);
    } else {
      assert [e][1..] == [];
    }
  }

  /** When no entry is null, a bool or a number, the loop returns exactly the
      entries that are objects with the three keys and well-typed fields, in
      their original order, and never more themes than entries. */
  lemma {:induction false} ValidationKeepsCompleteEntries(entries: seq<JsonValue>)
    requires forall i :: 0 <= i < |entries| ==> !Verdict(entries[i]).Abort?
    ensures ValidatedThemes(entries) == Success(Accepted(entries))
    ensures |Accepted(entries)| <= |entries|
    decreases |entries|
  {
    if entries != [] {
      var n := |entries| - 1;
      assert forall i :: 0 <= i < n ==> entries[..n][i] == entries[i];
      ValidationKeepsCompleteEntries(entries[..n]);
      assert entries == entries[..n] + [entries[n]];
      AcceptedSnoc(entries[..n], entries[n]);
      assert Accepted(entries[..n]) + [] == Accepted(entries[..n]);
    }
  }

  /** An entry is accepted exactly when it is an object with all three keys and
      fields of the types Theme declares. */
  lemma AcceptIffComplete(entry: JsonValue)
    ensures Verdict(entry).Accept? <==> entry.JObject? && HasThemeKeys(entry.fields) && ThemeOf(entry.fields).Some?
  {
  }

  /** A reply without a "themes" key gives no theme at all. */
  lemma MissingThemesKey(query: string, answers: seq<DocumentAnswer>,
                         synthesize: (string, string) -> LlmOutcome, fields: map<string, JsonValue>)
    requires RelevantAnswers(answers) != []
    requires synthesize(query, ThemeContext(RelevantAnswers(answers))) == Parsed(JObject(fields))
    requires "themes" !in fields
    ensures SynthesizedThemes(query, answers, synthesize) == []
  {
  }

  /** Without a kept answer there is no theme, whatever the model would say. */
  lemma NoAnswersNoCall(query: string, answers: seq<DocumentAnswer>,
                        f: (string, string) -> LlmOutcome, g: (string, string) -> LlmOutcome)
    requires forall i :: 0 <= i < |answers| ==> !KeptForSynthesis(answers[i])
    ensures SynthesizedThemes(query, answers, f) == [] == SynthesizedThemes(query, answers, g)
  {
    NothingKept(answers);
  }

  lemma {:induction false} NothingKept(answers: seq<DocumentAnswer>)
    requires forall i :: 0 <= i < |answers| ==> !KeptForSynthesis(answers[i])
    ensures RelevantAnswers(answers) == []
  {
    if answers != [] {
      assert forall i :: 0 <= i < |answers| - 1 ==> answers[1..][i] == answers[i + 1];
      NothingKept(answers[1..]);
    }
  }

  /** A failed call or an undecodable reply gives exactly one theme, the error
      sentinel, carrying the error and citing no document. */
  lemma FailureGivesSentinel(outcome: LlmOutcome)
    requires outcome.ServiceError? || outcome.Malformed?
    ensures ThemesFromReply(outcome) == [Theme("API or Parsing Error", "Could not synthesize themes: " + outcome.message, [])]
  {
  }

  /** Whatever the reply, the result is the accepted themes or one error sentinel. */
  lemma ReplyShape(outcome: LlmOutcome)
    ensures var themes := ThemesFromReply(outcome);
      || (|themes| == 1 && themes[0].themeTitle == ErrorThemeTitle && themes[0].supportingDocs == [])
      || (outcome.Parsed? && outcome.data.JObject?
          && Entries(Get(outcome.data.fields, "themes").GetOr(JArray([]))).Success?
          && themes == Accepted(Entries(Get(outcome.data.fields, "themes").GetOr(JArray([]))).value))
  {
    if outcome.Parsed? && outcome.data.JObject? {
      var entries := Entries(Get(outcome.data.fields, "themes").GetOr(JArray([])));
      if entries.Success? {
        ValidatedSuccessIsAccepted(entries.value);
      }
    }
  }

  /** A loop that ran to the end returned exactly the accepted themes. */
  lemma {:induction false} ValidatedSuccessIsAccepted(entries: seq<JsonValue>)
    ensures ValidatedThemes(entries).Success? ==> ValidatedThemes(entries).value == Accepted(entries)
    decreases |entries|
  {
    if entries != [] {
      var n := |entries| - 1;
      ValidatedSuccessIsAccepted(entries[..n]);
      assert entries == entries[..n] + [entries[n]];
      AcceptedSnoc(entries[..n], entries[n]);
    }
  }
}
