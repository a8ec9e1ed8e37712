/** The `POST /api/chat` handler as a transition on the process-wide transcript:
    validate the input, append the user's turn, ask the completion provider,
    split its reply and append only the conversation part. */
module ChatRoute {
  import opened JsString
  import opened ChatReply

  datatype Role = System | User | Assistant
  datatype Turn = Turn(role: Role, content: string)
  type History = seq<Turn>

  /** The instructional preamble: answer naturally in English, then list
      corrections under the marker heading. It mentions the marker itself. */
  const SystemPrompt: string :=
    "あなたは英語の会話パートナーです。ユーザーが英語で話したら、まず自然な返答をしてください。\n"
    + "その後、文法ミスや言い回しの間違いがあれば、適切な校正を行い、修正点を示してください。\n\n"
    + "出力フォーマットは以下のようにしてください。\n\n"
    + "[会話部分]\n"
    + "{ここに会話の続き}\n\n"
    + "[修正点]\n"
    + "❌ Mistake: '間違い' ✅ Correct: '修正' 💡 Explanation: '解説'"

  /** The transcript when the server process starts. */
  const InitialHistory: History := [Turn(System, SystemPrompt)]

  /** Used in place of message content the provider left null. */
  const FallbackReply: string := "I couldn't generate a response."

  /** The request body: not parseable as JSON, or parsed with its `userInput`
      field missing or null (`None`) or holding a string. */
  datatype Request = MalformedBody | Body(userInput: Option<string>)

  /** What the completion provider did with the transcript it was sent: it threw
      (network, authentication, no choice returned), or it answered with message
      content that may be null. */
  datatype Completion = ProviderError | Completed(content: Option<string>)

  /** The HTTP answer: 400 `{error: "No input provided"}`, 500
      `{error: "Internal Server Error"}`, or 200 with the two parts. */
  datatype Response = BadRequest | ServerError | Ok(conversation: string, corrections: string)
  {
    function Status(): nat {
      match this
      case BadRequest => 400
      case ServerError => 500
      case Ok(_, _) => 200
    }
  }

  datatype Outcome = Outcome(history: History, response: Response)

  /** JavaScript's `!userInput` on a field that is missing, null or a string:
      only the empty string is a falsy string, so whitespace is accepted. */
  predicate IsFalsy(input: Option<string>) {
    input.None? || input.value == []
  }

  /** The text that gets split: the content, or the fallback when it is null. */
  function ReplyText(content: Option<string>): (r: string)
    ensures content.Some? ==> r == content.value
    ensures content.None? ==> r == FallbackReply
  {
    if content.Some? then content.value else FallbackReply
  }

  /** One request. `completion` is what the provider does when it is sent the
      transcript with the user's turn already appended; it is not consulted
      when the request is rejected before the call. */
  function Post(history: History, req: Request, completion: Completion): (r: Outcome)
    ensures req.MalformedBody? ==> r == Outcome(history, ServerError)
    ensures r.response.BadRequest? <==> req.Body? && IsFalsy(req.userInput)
    ensures r.response.BadRequest? ==> r.history == history
    ensures req.Body? && !IsFalsy(req.userInput) && completion.ProviderError? ==>
              r == Outcome(history + [Turn(User, req.userInput.value)], ServerError)
    ensures r.response.Ok? <==> req.Body? && !IsFalsy(req.userInput) && completion.Completed?
    ensures r.response.Ok? ==>
              && r.history == history + [Turn(User, req.userInput.value), Turn(Assistant, r.response.conversation)]
              && Split(r.response.conversation, r.response.corrections) == SplitReply(ReplyText(completion.content))
              && !Occurs(r.response.conversation, Marker)
  {
    match req
    case MalformedBody => Outcome(history, ServerError)
    case Body(input) =>
      if IsFalsy(input) then Outcome(history, BadRequest)
      else
        var withUser := history + [Turn(User, input.value)];
        match completion
        case ProviderError => Outcome(withUser, ServerError)
        case Completed(content) =>
          var reply := ReplyText(content);
          var split := SplitReply(reply);
          ConversationAvoidsMarker(reply);
          Outcome(withUser + [Turn(Assistant, split.conversation)], Ok(split.conversation, split.corrections))
  }

  /** One request together with what the provider does for it. */
  datatype Call = Call(req: Request, completion: Completion)

  /** The transcript after handling `calls` one after another. */
  function Replay(history: History, calls: seq<Call>): (r: History)
    ensures history <= r
    ensures |r| <= |history| + 2 * |calls|
    decreases |calls|
  {
    if calls == [] then history
    else Replay(Post(history, calls[0].req, calls[0].completion).history, calls[1..])
  }

  /** What every transcript the handler can reach satisfies: the preamble stays
      first, no later turn is a system turn, and no assistant turn carries the
      marker, so correction markup never reaches the provider as context. */
  ghost predicate Consistent(h: History) {
    && |h| > 0
    && h[0] == Turn(System, SystemPrompt)
    && (forall i :: 0 < i < |h| ==> h[i].role != System)
    && (forall i :: 0 < i < |h| && h[i].role == Assistant ==> !Occurs(h[i].content, Marker))
  }

  lemma PostKeepsConsistent(h: History, req: Request, completion: Completion)
    requires Consistent(h)
    ensures Consistent(Post(h, req, completion).history)
  {
    var r := Post(h, req, completion);
    if req.Body? && !IsFalsy(req.userInput) {
      AppendUserKeepsConsistent(h, req.userInput.value);
      if r.response.Ok? {
        AppendAssistantKeepsConsistent(h + [Turn(User, req.userInput.value)], r.response.conversation);
        assert r.history == h + [Turn(User, req.userInput.value)] + [Turn(Assistant, r.response.conversation)];
      }
    }
  }

  lemma AppendUserKeepsConsistent(h: History, input: string)
    requires Consistent(h)
    ensures Consistent(h + [Turn(User, input)])
  {
    var h' := h + [Turn(User, input)];
    assert forall i :: 0 <= i < |h| ==> h'[i] == h[i];
  }

  lemma AppendAssistantKeepsConsistent(h: History, conversation: string)
    requires Consistent(h) && !Occurs(conversation, Marker)
    ensures Consistent(h + [Turn(Assistant, conversation)])
  {
    var h' := h + [Turn(Assistant, conversation)];
    assert forall i :: 0 <= i < |h| ==> h'[i] == h[i];
  }

  lemma {:induction false} ReplayKeepsConsistent(h: History, calls: seq<Call>)
    requires Consistent(h)
    ensures Consistent(Replay(h, calls))
    decreases |calls|
  {
    if calls != [] {
      PostKeepsConsistent(h, calls[0].req, calls[0].completion);
      ReplayKeepsConsistent(Post(h, calls[0].req, calls[0].completion).history, calls[1..]);
    }
  }

  /** Every transcript reached from the start is consistent. */
  lemma ReachableIsConsistent(calls: seq<Call>)
    ensures Consistent(Replay(InitialHistory, calls))
  {
    ReplayKeepsConsistent(InitialHistory, calls);
  }

  /** The preamble followed by strictly alternating user and assistant turns. */
  ghost predicate Alternates(h: History) {
    && |h| % 2 == 1
    && h[0] == Turn(System, SystemPrompt)
    && forall i :: 0 < i < |h| ==> h[i].role == (if i % 2 == 1 then User else Assistant)
  }

  /** A call that gets past validation and gets an answer from the provider. */
  predicate Succeeds(c: Call) {
    c.req.Body? && !IsFalsy(c.req.userInput) && c.completion.Completed?
  }

  lemma {:induction false} SuccessfulCallsAlternate(h: History, calls: seq<Call>)
    requires Alternates(h)
    requires forall k :: 0 <= k < |calls| ==> Succeeds(calls[k])
    ensures Alternates(Replay(h, calls))
    ensures |Replay(h, calls)| == |h| + 2 * |calls|
    decreases |calls|
  {
    if calls != [] {
      var r := Post(h, calls[0].req, calls[0].completion);
      var pair := [Turn(User, calls[0].req.userInput.value), Turn(Assistant, r.response.conversation)];
      assert r.history == h + pair;
      AppendPairAlternates(h, pair);
      SuccessfulCallsAlternate(r.history, calls[1..]);
    }
  }

  lemma AppendPairAlternates(h: History, pair: History)
    requires Alternates(h)
    requires |pair| == 2 && pair[0].role == User && pair[1].role == Assistant
    ensures Alternates(h + pair)
  {
    var h' := h + pair;
    forall i | 0 < i < |h'| ensures h'[i].role == (if i % 2 == 1 then User else Assistant) {
      if i >= |h| {
        assert h'[i] == pair[i - |h|];
      }
    }
  }

  /** After n successful calls the transcript holds 1 + 2n turns: the preamble
      and n user/assistant pairs, in that order. */
  lemma SuccessfulRunShape(calls: seq<Call>)
    requires forall k :: 0 <= k < |calls| ==> Succeeds(calls[k])
    ensures |Replay(InitialHistory, calls)| == 1 + 2 * |calls|
    ensures Alternates(Replay(InitialHistory, calls))
  {
    SuccessfulCallsAlternate(InitialHistory, calls);
  }

  /** A provider failure is not rolled back: its user turn stays without an
      answer, and the next accepted request puts a second user turn right
      after it, so the transcript no longer alternates. */
  lemma ProviderErrorLeavesOrphanTurn(h: History, input: string, next: Request, completion: Completion)
    requires Alternates(h) && input != []
    requires next.Body? && !IsFalsy(next.userInput)
    ensures var h1 := Post(h, Body(Some(input)), ProviderError).history;
            var h2 := Post(h1, next, completion).history;
            && h1 == h + [Turn(User, input)]
            && !Alternates(h1)
            && h2[|h|] == Turn(User, input)
            && h2[|h| + 1] == Turn(User, next.userInput.value)
            && !Alternates(h2)
  {
    var h1 := Post(h, Body(Some(input)), ProviderError).history;
    assert h1 == h + [Turn(User, input)];
    assert |h1| % 2 == 0;
    AcceptedRequestAppendsUserTurn(h1, next, completion);
    var h2 := Post(h1, next, completion).history;
    assert h2[|h|] == h1[|h|] == Turn(User, input);
    assert h2[|h1|].role == User && |h1| % 2 == 0;
  }

  /** An accepted request puts the user's turn right after the old transcript,
      whatever the provider does. */
  lemma AcceptedRequestAppendsUserTurn(h: History, req: Request, completion: Completion)
    requires req.Body? && !IsFalsy(req.userInput)
    ensures var r := Post(h, req, completion).history;
            && |r| > |h| && h <= r
            && r[|h|] == Turn(User, req.userInput.value)
  {
    var r := Post(h, req, completion);
    if completion.Completed? {
      assert r.response.Ok?;
    }
  }
}
