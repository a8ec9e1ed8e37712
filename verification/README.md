# English conversation partner: chat endpoint and speech hook, in Dafny

This project models the two pieces of the AI English chat app that carry
decision logic.

- **The `POST /api/chat` handler** (`ChatRoute`, `ChatReply`). The server keeps one
  process-wide transcript of role-tagged turns. Its first turn is a fixed system
  preamble. Each request is validated, the user's turn is appended, the
  completion provider is asked for a reply, and the reply is split at the first
  `[修正点]` ("corrections") heading. The trimmed text before the heading is the
  conversation part; the trimmed text from the heading on is the correction part.
  The correction part is dropped when it mentions `なし` ("none") or
  `No corrections needed`. Only the conversation part is appended to the
  transcript as the assistant's turn. The provider is an input
  (`ProviderError | Completed(content)`), and the HTTP answer is the `Response`
  datatype (400, 500 or 200 with both parts).
- **The speech-recognition hook** (`SpeechRecognizer`). Its state is a
  `{isListening, recognizedText}` record. The `recognized` callback appends each
  final recognition after a single space. `toggleRecognition` starts a session
  by clearing the text and stops it keeping the text. The SDK recognizer is
  reduced to "present or absent", and its callbacks to a sequence of events.
- **The JavaScript string operations** they use: `indexOf` and `includes`
  (`JsString`), specified in terms of occurrences, and `trim` (`JsTrim`), with
  ECMAScript's whitespace set written out.

The model follows the code as written. Four behaviours are easy to misread:

- With no marker in the reply, the conversation part is the raw reply, untrimmed.
  It is not the trimmed reply.
- The "no corrections" test is substring containment, not equality.
  `NoneMentionClearsCorrections` shows that any correction part mentioning `なし` is dropped.
- Whitespace-only input passes the `!userInput` test. Only a missing, null or
  empty `userInput` is rejected (`Post`, `IsFalsy`).
- The heading `[会話部分]` that the preamble asks for is not a marker. It stays
  in the conversation part (`SampleReplySplits`).

## Model

| member | source | states |
|---|---|---|
| JsString.IndexOfFrom | src/app/api/chat/route.ts:46 | the result is the leftmost occurrence of the pattern at or after the start index, or none when there is none |
| JsString.IndexOf | src/app/api/chat/route.ts:46 | `indexOf` finds an index exactly when the pattern occurs, and that index is its first occurrence |
| JsString.Includes | src/app/api/chat/route.ts:53 | `includes` holds exactly when the pattern occurs somewhere |
| JsTrim.LeadingEnd | src/app/api/chat/route.ts:48-49 | everything before the returned index is whitespace, and the character at it (if any) is not |
| JsTrim.TrailingStart | src/app/api/chat/route.ts:48-49 | everything from the returned index on is whitespace, and the character before it (if any) is not |
| JsTrim.Trim | src/app/api/chat/route.ts:48-49 | `trim` returns a contiguous piece of the input with non-whitespace ends; it is empty exactly when the input is all whitespace |
| JsTrim.TrimOfPadded | src/app/api/chat/route.ts:48-49 | trimming whitespace around a core with non-whitespace ends returns exactly that core, so `Trim` is uniquely determined |
| JsTrim.TrimIdempotent | src/app/api/chat/route.ts:48-49 | trimming twice equals trimming once |
| ChatReply.ClearIfNoCorrections | src/app/api/chat/route.ts:53-55 | a correction part that contains either sentinel anywhere becomes empty; otherwise it is kept unchanged |
| ChatReply.SplitReply | src/app/api/chat/route.ts:43-55 | with no marker the conversation is the raw reply and the corrections are empty; otherwise the reply is cut at the first marker, both halves are trimmed, and the sentinel test applies to the second half |
| ChatReply.ConversationAvoidsMarker | src/app/api/chat/route.ts:44-48 | the conversation part never contains the marker, for every reply |
| ChatReply.CorrectionsShape | src/app/api/chat/route.ts:46-55 | non-empty corrections come only from a reply containing the marker, start with the marker, and mention neither sentinel |
| ChatReply.FormattedReplySplits | src/app/api/chat/route.ts:46-55 | a reply laid out as conversation, blank space, marker and corrections splits back into that conversation and the marker-prefixed corrections. This holds whenever the text before the marker does not itself contain the marker, the conversation has non-whitespace ends, and the corrections mention neither sentinel and do not end in whitespace |
| ChatReply.NoneMentionClearsCorrections | src/app/api/chat/route.ts:46-55 | a correction body that mentions "none" anywhere yields empty corrections, whatever else it says, for any text before the marker that does not contain the marker |
| ChatReply.SampleReplySplits | src/app/api/chat/route.ts:13-19 | for a reply in the format the preamble requests, the conversation keeps its `[会話部分]` heading and the corrections start at `[修正点]` |
| ChatReply.NoneOnlyReplySplits | src/app/api/chat/route.ts:44-55 | a reply that is only the marker and "none" yields an empty conversation and empty corrections |
| ChatRoute.ReplyText | src/app/api/chat/route.ts:41 | null message content is replaced by "I couldn't generate a response."; otherwise the content is used as is |
| ChatRoute.Post | src/app/api/chat/route.ts:23-68 | a missing, null or empty input gives 400 and leaves the transcript alone; a malformed body gives 500 and leaves it alone; a provider failure gives 500 and leaves the user turn appended; otherwise 200 with the split reply, the transcript grows by the user turn and the marker-free conversation turn |
| ChatRoute.Replay | src/app/api/chat/route.ts:9-31 | the transcript is append-only across any sequence of requests, growing by at most two turns per request |
| ChatRoute.PostKeepsConsistent | src/app/api/chat/route.ts:31-58 | one request keeps the preamble first, adds no system turn and adds no assistant turn carrying the marker |
| ChatRoute.ReplayKeepsConsistent | src/app/api/chat/route.ts:31-58 | every sequence of requests keeps that invariant |
| ChatRoute.ReachableIsConsistent | src/app/api/chat/route.ts:9-21 | every transcript reachable from the initial one satisfies the invariant |
| ChatRoute.SuccessfulCallsAlternate | src/app/api/chat/route.ts:31-58 | successful requests on an alternating transcript keep it alternating and add exactly two turns each |
| ChatRoute.SuccessfulRunShape | src/app/api/chat/route.ts:9-58 | after n successful requests the transcript has 1 + 2n turns: the preamble, then user and assistant turns alternating |
| ChatRoute.ProviderErrorLeavesOrphanTurn | src/app/api/chat/route.ts:31-39 | a provider failure leaves an unanswered user turn; the next accepted request places a second user turn right after it, and the transcript stops alternating |
| SpeechRecognizer.AppendPhrase | src/utils/speechRecognizer.ts:25 | the new text extends the old and ends with the phrase; onto empty text it is the phrase alone, otherwise old text, one space, phrase |
| SpeechRecognizer.OnRecognized | src/utils/speechRecognizer.ts:22-27 | only a `RecognizedSpeech` event changes the text, by appending its phrase; the listening flag is never touched, so late events still append |
| SpeechRecognizer.Toggle | src/utils/speechRecognizer.ts:42-55 | without a recognizer nothing changes; otherwise listening flips, starting clears the text and stopping keeps it |
| SpeechRecognizer.Deliver | src/utils/speechRecognizer.ts:22-27 | delivering any events leaves the listening flag as it was |
| SpeechRecognizer.JoinWithSpaces | src/utils/speechRecognizer.ts:25 | the space-joined text starts with the first phrase and ends with the last |
| SpeechRecognizer.DeliverJoinsPhrases | src/utils/speechRecognizer.ts:22-27 | from empty text, accumulating events yields the final recognitions joined by single spaces, when each phrase is non-empty |
| SpeechRecognizer.ListeningSession | src/utils/speechRecognizer.ts:22-55 | start, events, stop leaves recognition off with exactly this session's space-joined recognitions, whatever text was there before, when each final recognition is non-empty |

## Left out

- The completion provider call: model name, temperature 0.7 and the 300-token cap are configuration handed to a network API. The provider is the `Completion` input. Its answer is taken to depend on the transcript with the user's turn already appended, which is the transcript the handler sends.
- Request parsing: the body is either unparseable (`MalformedBody`, which is caught and answered with 500) or has a `userInput` field that is missing, null or a string. Numbers, booleans and objects in that field are not modelled.
- NextResponse building: only the status and payload are kept, in `Response`. The server-side error log is left out.
- Concurrent requests interleaving on the shared transcript: each request is modelled as one atomic step, and `Replay` runs them in order.
- Strings are sequences of Unicode scalar values, while JavaScript strings are UTF-16 code units. The marker, the sentinels and every whitespace character are in the Basic Multilingual Plane. A JavaScript index counts code units, so it can be larger than the model's index when an astral character such as an emoji comes first. The pieces cut at the first occurrence, and the pieces `trim` keeps, are still the same text. Lone surrogates cannot be represented.
- SpeechRecognizer.DeliverJoinsPhrases: it requires every final recognition to be non-empty. An empty phrase on empty text is dropped, and on non-empty text it leaves a trailing space; `AppendPhrase` models both cases, but the join lemma does not cover them.
- SpeechRecognizer.ListeningSession: it requires every final recognition of the session to be non-empty, for the same reason as `DeliverJoinsPhrases`. With an empty first phrase the session keeps no leading space, while `JoinWithSpaces` would produce one.
- Speech SDK setup, microphone capture, recognizer start/stop and close, and the React effect and ref lifecycle in `src/utils/speechRecognizer.ts`. These are foreign calls; only the presence of a recognizer and the event stream are kept.
- `src/app/page.tsx`, `src/utils/textToSpeech.ts` and `src/utils/speechToText.ts`: rendering glue, a blank-input guard, speech synthesis (floating-point rate and SSML handed to a foreign API) and one-shot recognition, none of which is part of this model.
