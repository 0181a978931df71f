/**
 * The pure part of the chat endpoint `POST /api/chat`: it picks the last user message,
 * extracts the question from it, chooses the similarity-search parameters, joins the
 * retrieved chunk texts into one context and builds the prompt handed to the text
 * generator (a fixed refusal prompt when the context is empty).
 *
 * The query embedding and the `match_chunks` search are one external step here: a function
 * `search` from the question and the search parameters to the search outcome. The text
 * generation itself is not modelled; a response that streams an answer records only the
 * model name and the prompt.
 */
module ChatRoute {
  import opened Wrappers
  import opened JsText
  import opened Types

  // ---------------------------------------------------------------------------
  // The request
  // ---------------------------------------------------------------------------

  /** A message's `content`, as `typeof` and `Array.isArray` see it. */
  datatype Content = StringContent(s: string) | ArrayContent(items: seq<MessagePart>) | OtherContent

  /** A chat message: its `role`, its `content`, and its `parts` when that is an array. */
  datatype Message = Message(role: string, content: Content, parts: Option<seq<MessagePart>>)

  /** The request body: `messages` and the optional `selectedFileIds`. */
  datatype ChatRequest = ChatRequest(messages: seq<Message>, selectedFileIds: Option<seq<string>>)

  predicate IsUserMessage(m: Message) {
    m.role == "user"
  }

  /** `messages.filter(m => m.role === "user").pop()`: the last user message, or `undefined`. */
  function LastUserMessage(messages: seq<Message>): (r: Option<Message>)
    ensures r.Some? ==> IsUserMessage(r.value) && r.value in messages
  {
    var users := Filter(IsUserMessage, messages);
    if |users| == 0 then None else Some(users[|users| - 1])
  }

  /** There is no user message to answer exactly when no message has the role `user`. */
  lemma NoLastUserMessage(messages: seq<Message>)
    ensures LastUserMessage(messages).None? <==> forall i :: 0 <= i < |messages| ==> !IsUserMessage(messages[i])
  {
    FilterEmpty(IsUserMessage, messages);
  }

  /** The message picked is message `i`, which has the role `user`, and no later message has it. */
  lemma {:induction false} LastUserMessageAt(messages: seq<Message>) returns (i: nat)
    requires LastUserMessage(messages).Some?
    ensures i < |messages| && messages[i] == LastUserMessage(messages).value
    ensures IsUserMessage(messages[i])
    ensures forall j :: i < j < |messages| ==> !IsUserMessage(messages[j])
  {
    var init, last := messages[..|messages| - 1], messages[|messages| - 1];
    if IsUserMessage(last) {
      i := |messages| - 1;
    } else {
      assert Filter(IsUserMessage, messages) == Filter(IsUserMessage, init);
      i := LastUserMessageAt(init);
      assert messages[i] == init[i];
    }
  }

  /**
   * The question in a message: string `content` verbatim; otherwise, when `parts` is an
   * array, the texts of its `text` parts joined with single spaces; otherwise, when
   * `content` is an array, the same of its items; otherwise the empty string.
   *
   * The route maps each part to `part.text` and lets `join` render a missing text as the
   * empty string, which is what `extractTextFromParts` computes.
   */
  function ExtractQuestion(m: Message): (q: string)
    ensures m.content.StringContent? ==> q == m.content.s
    ensures !m.content.StringContent? && m.parts.None? && !m.content.ArrayContent? ==> q == ""
  {
    match m.content
    case StringContent(s) => s
    case _ =>
      if m.parts.Some? then ExtractTextFromParts(m.parts.value)
      else if m.content.ArrayContent? then ExtractTextFromParts(m.content.items)
      else ""
  }

  /**
   * The order of preference between the sources of the question: string `content` hides
   * `parts`; an array `parts` hides any non-string `content`; with neither of them nor an
   * array `content`, the question is empty.
   */
  lemma QuestionPrecedence(m: Message, otherParts: Option<seq<MessagePart>>, otherContent: Content)
    ensures m.content.StringContent? ==>
      ExtractQuestion(m.(parts := otherParts)) == m.content.s
    ensures !m.content.StringContent? && !otherContent.StringContent? && m.parts.Some? ==>
      ExtractQuestion(m.(content := otherContent)) == ExtractTextFromParts(m.parts.value)
    ensures !m.content.StringContent? && m.parts.None? && m.content.ArrayContent? ==>
      ExtractQuestion(m) == ExtractTextFromParts(m.content.items)
    ensures m.content.OtherContent? && m.parts.None? ==> ExtractQuestion(m) == ""
  {
  }

  /** In parts or array content, a part that is not of type `text` never changes the question. */
  lemma QuestionIgnoresOtherParts(m: Message, i: nat, p: MessagePart)
    requires !IsTextPart(p)
    ensures m.parts.Some? && i <= |m.parts.value| ==>
      var ps := m.parts.value;
      ExtractQuestion(m.(parts := Some(ps[..i] + [p] + ps[i..]))) == ExtractQuestion(m)
    ensures m.parts.None? && m.content.ArrayContent? && i <= |m.content.items| ==>
      var ps := m.content.items;
      ExtractQuestion(m.(content := ArrayContent(ps[..i] + [p] + ps[i..]))) == ExtractQuestion(m)
  {
    if m.parts.Some? && i <= |m.parts.value| {
      ExtractIgnoresOtherParts(m.parts.value, i, p);
    }
    if m.parts.None? && m.content.ArrayContent? && i <= |m.content.items| {
      ExtractIgnoresOtherParts(m.content.items, i, p);
    }
  }

  // ---------------------------------------------------------------------------
  // The search
  // ---------------------------------------------------------------------------

  const MatchThreshold: real := 0.5
  const MatchCount: nat := 5

  /** The arguments of `match_chunks` besides the query embedding. */
  datatype SearchParams = SearchParams(matchThreshold: real, matchCount: nat, fileIds: Option<seq<string>>)

  /**
   * `match_threshold: 0.5, match_count: 5, file_ids: selectedFileIds?.length ? selectedFileIds : null`:
   * the search is restricted to the selected files only when some are selected.
   */
  function SearchParamsFor(selectedFileIds: Option<seq<string>>): (p: SearchParams)
    ensures p.matchThreshold == 0.5 && p.matchCount == 5
    ensures p.fileIds.None? <==> selectedFileIds.None? || selectedFileIds.value == []
    ensures p.fileIds.Some? ==> p.fileIds == selectedFileIds
  {
    var fileIds := if selectedFileIds.Some? && |selectedFileIds.value| > 0 then selectedFileIds else None;
    SearchParams(MatchThreshold, MatchCount, fileIds)
  }

  /** A row returned by `match_chunks`; only its text is used. */
  datatype MatchedChunk = MatchedChunk(text: string)

  /** What the search call returns: an `error`, or `data` that may be `null`. */
  datatype SearchOutcome = SearchFailed | SearchData(data: Option<seq<MatchedChunk>>)

  // ---------------------------------------------------------------------------
  // The context
  // ---------------------------------------------------------------------------

  const ContextSeparator: string := "\n\n---\n\n"

  function RowText(row: MatchedChunk): string { row.text }

  /**
   * `chunksText`: the texts of the returned chunks, in the order returned, joined with
   * `\n\n---\n\n`; the empty string when there is no data or no row.
   */
  function ContextText(relevantChunks: Option<seq<MatchedChunk>>): (c: string)
    ensures relevantChunks.None? || |relevantChunks.value| == 0 ==> c == ""
    ensures relevantChunks.Some? && |relevantChunks.value| == 1 ==> c == relevantChunks.value[0].text
  {
    if relevantChunks.Some? && |relevantChunks.value| > 0
    then Join(Map(RowText, relevantChunks.value), ContextSeparator)
    else ""
  }

  /**
   * The context is empty exactly when there is no row, or a single row whose text is empty;
   * in particular it is never empty when the rows' texts are non-empty, as the chunker
   * makes them.
   */
  lemma ContextEmpty(relevantChunks: Option<seq<MatchedChunk>>)
    ensures ContextText(relevantChunks) == "" <==>
      relevantChunks.None? || |relevantChunks.value| == 0
      || (|relevantChunks.value| == 1 && relevantChunks.value[0].text == "")
  {
    if relevantChunks.Some? && |relevantChunks.value| > 0 {
      JoinEmpty(Map(RowText, relevantChunks.value), ContextSeparator);
    }
  }

  /** One more row, at the end, adds its text after a separator, or alone when it is the first. */
  lemma ContextAppend(rows: seq<MatchedChunk>, row: MatchedChunk)
    ensures ContextText(Some(rows + [row]))
         == if |rows| == 0 then row.text else ContextText(Some(rows)) + ContextSeparator + row.text
  {
    MapConcat(RowText, rows, [row]);
    if |rows| > 0 {
      JoinSnoc(Map(RowText, rows), row.text, ContextSeparator);
    } else {
      assert rows + [row] == [row];
    }
  }

  // ---------------------------------------------------------------------------
  // The prompts
  // ---------------------------------------------------------------------------

  /** The one negative answer the assistant is allowed to give. */
  const RefusalSentence: string := "I don't have enough information in the documents."

  /** The prompt used when there is no context: it asks for exactly the refusal sentence. */
  const NoInfoPrompt: string := "Respond with exactly: " + RefusalSentence

  /** The rules of the RAG prompt that come before the quoted refusal sentence. */
  const RulesBeforeRefusal: string :=
    "\n"
    + "You are a question-answering assistant.\n"
    + "\n"
    + "You MUST answer the user's question using ONLY the information explicitly present in the Context section.\n"
    + "\n"
    + "STRICT RULES:\n"
    + "- If the Context is empty, irrelevant, or does NOT contain the answer, you MUST respond with exactly:\n"

  /** The rules of the RAG prompt that come after the quoted refusal sentence. */
  const RulesAfterRefusal: string :=
    "- Do NOT use general knowledge.\n"
    + "- Do NOT infer or assume.\n"
    + "- Do NOT rely on the conversation history for factual answers.\n"
    + "- If you break these rules, your answer is incorrect.\n"
    + "- You are NOT allowed to answer partially.\n"
    + "- You are NOT allowed to rephrase or summarize if the exact answer is not present.\n"

  /** The rules of the RAG prompt, with the refusal sentence quoted on a line of its own. */
  const RagRules: string := RulesBeforeRefusal + "\"" + RefusalSentence + "\"\n" + RulesAfterRefusal

  /** The heading of the context and its opening `---` line. */
  const ContextOpening: string := "\nContext:\n---\n"

  /** The closing `---` line of the context and an empty line. */
  const ContextClosing: string := "\n---\n\n"

  const QuestionLabel: string := "User question: "

  /** The last line of the RAG prompt. */
  function QuestionLine(userQuestion: string): string {
    QuestionLabel + userQuestion + "\n"
  }

  /** `ragPrompt`: the fixed rules, the context between `---` lines, and the question last. */
  function RagPrompt(chunksText: string, userQuestion: string): (p: string)
    ensures |p| > |chunksText| + |QuestionLine(userQuestion)|
    ensures p[|p| - |QuestionLine(userQuestion)|..] == QuestionLine(userQuestion)
  {
    RagRules + ContextOpening + chunksText + ContextClosing + QuestionLine(userQuestion)
  }

  /** The slice of a concatenation at the offset of its middle part is that part. */
  lemma MiddleOfConcat(a: string, b: string, c: string)
    ensures (a + b + c)[|a|..|a| + |b|] == b
  {
    assert (a + b + c)[|a|..|a| + |b|] == (a + b)[|a|..];
  }

  /**
   * The layout of the RAG prompt: first the fixed rules, which quote the refusal sentence;
   * then the `Context:` heading and a `---` line; then the context, verbatim; then a `---`
   * line and an empty line; and last `User question: `, the question and a line end.
   */
  lemma RagPromptLayout(chunksText: string, userQuestion: string)
    ensures var p := RagPrompt(chunksText, userQuestion);
      var k := |RulesBeforeRefusal| + 1;
      var h := |RagRules| + |ContextOpening|;
      var t := h + |chunksText|;
      && p[..|RagRules|] == RagRules
      && RagRules[k..k + |RefusalSentence|] == RefusalSentence
      && p[|RagRules|..h] == ContextOpening
      && p[h..t] == chunksText
      && p[t..t + |ContextClosing|] == ContextClosing
      && p[t + |ContextClosing|..] == QuestionLine(userQuestion)
  {
    RefusalInRules();
    FiveParts(RagRules, ContextOpening, chunksText, ContextClosing, QuestionLine(userQuestion));
  }

  /** The rules hold the refusal sentence right after the opening quote of its line. */
  lemma RefusalInRules()
    ensures var k := |RulesBeforeRefusal| + 1; RagRules[k..k + |RefusalSentence|] == RefusalSentence
  {
    MiddleOfConcat(RulesBeforeRefusal + "\"", RefusalSentence, "\"\n" + RulesAfterRefusal);
    assert RagRules == (RulesBeforeRefusal + "\"") + RefusalSentence + ("\"\n" + RulesAfterRefusal);
  }

  /** Each part of a five-part concatenation sits at the offset the parts before it add up to. */
  lemma FiveParts(a: string, b: string, c: string, d: string, e: string)
    ensures var p := a + b + c + d + e;
      var h := |a| + |b|;
      var t := h + |c|;
      && p[..|a|] == a && p[|a|..h] == b && p[h..t] == c
      && p[t..t + |d|] == d && p[t + |d|..] == e
  {
    MiddleOfConcat(a, b, c + d + e);
    MiddleOfConcat(a + b, c, d + e);
    MiddleOfConcat(a + b + c, d, e);
    assert a + b + c + d + e == a + (b + c + d + e);
    assert a + b + c + d + e == (a + b + c + d) + e;
  }

  /** The two prompts never coincide: they differ in their first character. */
  lemma PromptsDiffer(chunksText: string, userQuestion: string)
    ensures RagPrompt(chunksText, userQuestion) != NoInfoPrompt
  {
    assert RagPrompt(chunksText, userQuestion)[0] == RulesBeforeRefusal[0] == '\n';
    assert NoInfoPrompt[0] == "Respond with exactly: "[0] == 'R';
  }

  // ---------------------------------------------------------------------------
  // The handler
  // ---------------------------------------------------------------------------

  /** The generation model every prompt is sent to. */
  const GenerationModel: string := "gemini-2.5-flash"

  /** What the handler returns: a plain response with a status, or a streamed generation. */
  datatype Response = PlainResponse(status: nat, body: string) | StreamedAnswer(model: string, prompt: string)

  /** The handler after the search: report a search error, or stream an answer to a prompt. */
  function Answer(userQuestion: string, outcome: SearchOutcome): (r: Response)
    ensures r.PlainResponse? <==> outcome.SearchFailed?
    ensures r.StreamedAnswer? ==> r.model == GenerationModel
  {
    match outcome
    case SearchFailed => PlainResponse(500, "Error searching documents")
    case SearchData(relevantChunks) =>
      var chunksText := ContextText(relevantChunks);
      if chunksText == "" then StreamedAnswer(GenerationModel, NoInfoPrompt)
      else StreamedAnswer(GenerationModel, RagPrompt(chunksText, userQuestion))
  }

  /**
   * A search error, and only a search error, gives the 500 response, distinct from the
   * no-information answer. A successful search streams the refusal prompt exactly when the
   * context is empty, and then the question plays no part; otherwise it streams the RAG
   * prompt built from the context and the question.
   */
  lemma AnswerCases(userQuestion: string, outcome: SearchOutcome, otherQuestion: string)
    ensures var r := Answer(userQuestion, outcome);
      && (r.PlainResponse? <==> outcome.SearchFailed?)
      && (r.PlainResponse? ==> r == PlainResponse(500, "Error searching documents"))
      && (r.StreamedAnswer? ==> r.model == GenerationModel)
      && (outcome.SearchData? ==>
            && (r.prompt == NoInfoPrompt <==> ContextText(outcome.data) == "")
            && (ContextText(outcome.data) == "" ==> r == Answer(otherQuestion, outcome))
            && (ContextText(outcome.data) != "" ==> r.prompt == RagPrompt(ContextText(outcome.data), userQuestion)))
  {
    if outcome.SearchData? && ContextText(outcome.data) != "" {
      PromptsDiffer(ContextText(outcome.data), userQuestion);
    }
  }

  /**
   * `POST(req)`, with `search` standing for embedding the question and calling
   * `match_chunks`: without a user message the answer is 400 whatever the search would have
   * returned; otherwise the search is called with the extracted question and the chosen
   * parameters, and its outcome decides the answer.
   */
  function Post(req: ChatRequest, search: (string, SearchParams) -> SearchOutcome): (r: Response)
    ensures LastUserMessage(req.messages).None? ==> r == PlainResponse(400, "No user message found")
    ensures LastUserMessage(req.messages).Some? ==>
      var q := ExtractQuestion(LastUserMessage(req.messages).value);
      r == Answer(q, search(q, SearchParamsFor(req.selectedFileIds)))
  {
    match LastUserMessage(req.messages)
    case None => PlainResponse(400, "No user message found")
    case Some(lastUserMessage) =>
      var userQuestion := ExtractQuestion(lastUserMessage);
      Answer(userQuestion, search(userQuestion, SearchParamsFor(req.selectedFileIds)))
  }

  /**
   * A request with no user message never reaches the search: any two search functions give
   * the same 400 response.
   */
  lemma NoUserMessageSkipsSearch(req: ChatRequest, search: (string, SearchParams) -> SearchOutcome,
                                 otherSearch: (string, SearchParams) -> SearchOutcome)
    requires forall i :: 0 <= i < |req.messages| ==> !IsUserMessage(req.messages[i])
    ensures Post(req, search) == Post(req, otherSearch) == PlainResponse(400, "No user message found")
  {
    NoLastUserMessage(req.messages);
  }

  /**
   * When the search returns rows whose texts are all non-empty, as the chunker's are, the
   * answer uses the RAG prompt exactly when at least one row came back.
   */
  lemma NonEmptyRowsGiveRagPrompt(userQuestion: string, rows: seq<MatchedChunk>)
    requires forall i :: 0 <= i < |rows| ==> rows[i].text != ""
    ensures var r := Answer(userQuestion, SearchData(Some(rows)));
      (r.prompt == NoInfoPrompt <==> |rows| == 0)
      && (|rows| > 0 ==> r.prompt == RagPrompt(ContextText(Some(rows)), userQuestion))
  {
    ContextEmpty(Some(rows));
    AnswerCases(userQuestion, SearchData(Some(rows)), userQuestion);
  }
}
