/** The state of the speech-recognition hook: whether continuous recognition is
    on, and the text recognised so far. The recognizer object itself is reduced
    to whether it exists, and its callbacks to a stream of recognition events. */
module SpeechRecognizer {

  /** The result reason of a recognition event. Only a final recognition,
      `RecognizedSpeech`, contributes text; every other reason the SDK reports
      (intent and translation results among them) behaves like `NoMatch`. */
  datatype ResultReason = NoMatch | Canceled | RecognizingSpeech | RecognizedSpeech

  datatype RecognitionEvent = RecognitionEvent(reason: ResultReason, text: string)

  datatype HookState = HookState(isListening: bool, recognizedText: string)

  /** The hook's state when the component mounts. */
  const InitialState: HookState := HookState(false, "")

  /** One accumulation step: the first phrase is taken as is, every later one
      joins the text after a single space. */
  function AppendPhrase(prev: string, phrase: string): (r: string)
    ensures prev <= r && |phrase| <= |r| && r[|r| - |phrase|..] == phrase
    ensures prev == [] ==> |r| == |phrase|
    ensures prev != [] ==> |r| == |prev| + 1 + |phrase| && r[|prev|] == ' '
  {
    if prev != [] then prev + " " + phrase else phrase
  }

  /** The `recognized` callback. It does not look at `isListening`, so an event
      delivered after recognition was stopped still appends its text. */
  function OnRecognized(st: HookState, ev: RecognitionEvent): (r: HookState)
    ensures r.isListening == st.isListening
    ensures ev.reason != RecognizedSpeech ==> r == st
    ensures ev.reason == RecognizedSpeech ==> r.recognizedText == AppendPhrase(st.recognizedText, ev.text)
  {
    if ev.reason == RecognizedSpeech then
      st.(recognizedText := AppendPhrase(st.recognizedText, ev.text))
    else
      st
  }

  /** `toggleRecognition`: nothing without a recognizer; otherwise starting
      clears the previous text and stopping keeps it for the caller to submit. */
  function Toggle(st: HookState, hasRecognizer: bool): (r: HookState)
    ensures !hasRecognizer ==> r == st
    ensures hasRecognizer ==> r.isListening == !st.isListening
    ensures hasRecognizer && !st.isListening ==> r.recognizedText == []
    ensures hasRecognizer && st.isListening ==> r.recognizedText == st.recognizedText
  {
    if !hasRecognizer then st
    else if !st.isListening then HookState(true, "")
    else HookState(false, st.recognizedText)
  }

  /** The state after the events are delivered in order. */
  function Deliver(st: HookState, events: seq<RecognitionEvent>): (r: HookState)
    ensures r.isListening == st.isListening
  {
    if events == [] then st
    else OnRecognized(Deliver(st, events[..|events| - 1]), events[|events| - 1])
  }

  /** The texts of the final recognitions among `events`, in order. */
  function RecognizedPhrases(events: seq<RecognitionEvent>): seq<string> {
    if events == [] then []
    else
      var last := events[|events| - 1];
      RecognizedPhrases(events[..|events| - 1]) + (if last.reason == RecognizedSpeech then [last.text] else [])
  }

  /** The phrases joined by single spaces: the reference the accumulation is
      meant to compute. */
  function JoinWithSpaces(phrases: seq<string>): (r: string)
    ensures |phrases| > 0 ==> phrases[0] <= r
    ensures |phrases| > 0 ==> var last := phrases[|phrases| - 1];
              |last| <= |r| && r[|r| - |last|..] == last
  {
    if |phrases| <= 1 then (if phrases == [] then "" else phrases[0])
    else JoinWithSpaces(phrases[..|phrases| - 1]) + " " + phrases[|phrases| - 1]
  }

  /** Delivering events onto an empty text accumulates the space-joined final
      recognitions, provided each of them is non-empty (an empty phrase is
      dropped when it comes first and leaves a trailing space otherwise). */
  lemma {:induction false} DeliverJoinsPhrases(st: HookState, events: seq<RecognitionEvent>)
    requires st.recognizedText == []
    requires forall k :: 0 <= k < |events| && events[k].reason == RecognizedSpeech ==> events[k].text != []
    ensures Deliver(st, events).recognizedText == JoinWithSpaces(RecognizedPhrases(events))
  {
    if events != [] {
      var init := events[..|events| - 1];
      var last := events[|events| - 1];
      assert forall k :: 0 <= k < |init| ==> init[k] == events[k];
      DeliverJoinsPhrases(st, init);
      var ps := RecognizedPhrases(init);
      if last.reason != RecognizedSpeech {
        assert RecognizedPhrases(events) == ps + [] == ps;
      } else if ps == [] {
        assert RecognizedPhrases(events) == [last.text];
      } else {
        NonEmptyPhrasesJoinNonEmpty(init);
        assert (ps + [last.text])[..|ps|] == ps;
      }
    }
  }

  /** With non-empty phrases, some final recognition means some text. */
  lemma {:induction false} NonEmptyPhrasesJoinNonEmpty(events: seq<RecognitionEvent>)
    requires forall k :: 0 <= k < |events| && events[k].reason == RecognizedSpeech ==> events[k].text != []
    requires RecognizedPhrases(events) != []
    ensures RecognizedPhrases(events)[0] != []
  {
    var init := events[..|events| - 1];
    assert forall k :: 0 <= k < |init| ==> init[k] == events[k];
    if RecognizedPhrases(init) != [] {
      NonEmptyPhrasesJoinNonEmpty(init);
    }
  }

  /** A whole listening session: toggling on from idle, receiving the events and
      toggling off leaves recognition stopped with exactly the space-joined
      final recognitions of this session, whatever text was there before. */
  lemma ListeningSession(st: HookState, events: seq<RecognitionEvent>)
    requires !st.isListening
    requires forall k :: 0 <= k < |events| && events[k].reason == RecognizedSpeech ==> events[k].text != []
    ensures Toggle(Deliver(Toggle(st, true), events), true)
              == HookState(false, JoinWithSpaces(RecognizedPhrases(events)))
  {
    DeliverJoinsPhrases(Toggle(st, true), events);
  }
}
