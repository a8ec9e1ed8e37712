/** How the chat endpoint cuts the model's reply into the part shown and spoken
    as conversation and the part listed as grammar corrections. */
module ChatReply {
  import opened JsString
  import opened JsTrim

  /** The heading that introduces the corrections in the reply ("[corrections]"). */
  const Marker: string := "[修正点]"
  /** "none": any correction part mentioning it is dropped. */
  const NoneSentinel: string := "なし"
  const NoCorrectionsSentinel: string := "No corrections needed"

  datatype Split = Split(conversation: string, corrections: string)

  /** The correction part after the sentinel test: dropped as soon as it mentions
      either sentinel anywhere, kept verbatim otherwise. */
  function ClearIfNoCorrections(part: string): (r: string)
    ensures Occurs(part, NoneSentinel) || Occurs(part, NoCorrectionsSentinel) ==> r == []
    ensures !Occurs(part, NoneSentinel) && !Occurs(part, NoCorrectionsSentinel) ==> r == part
  {
    if Includes(part, NoneSentinel) || Includes(part, NoCorrectionsSentinel) then "" else part
  }

  /** The reply split. Without a marker the whole reply, untrimmed, is the
      conversation; with one, the reply is cut at its first occurrence and both
      halves are trimmed, the second half keeping the marker. */
  function SplitReply(reply: string): (r: Split)
    ensures !Occurs(reply, Marker) ==> r == Split(reply, [])
    ensures forall i :: FirstOccurrence(reply, Marker, i) ==>
              && r.conversation == Trim(reply[..i])
              && r.corrections == ClearIfNoCorrections(Trim(reply[i..]))
  {
    match IndexOf(reply, Marker)
    case None => Split(reply, ClearIfNoCorrections(""))
    case Some(i) => Split(Trim(reply[..i]), ClearIfNoCorrections(Trim(reply[i..])))
  }

  /** The conversation part never contains the marker, whatever the reply. */
  lemma ConversationAvoidsMarker(reply: string)
    ensures !Occurs(SplitReply(reply).conversation, Marker)
  {
    match IndexOf(reply, Marker)
    case None =>
    case Some(i) =>
      PrefixBeforeFirstAvoids(reply, Marker, i);
      InfixAvoids(Trim(reply[..i]), reply[..i], Marker);
  }

  /** Non-empty corrections begin with the marker, mention neither sentinel, and
      only ever come from a reply that contains the marker. */
  lemma CorrectionsShape(reply: string)
    ensures var c := SplitReply(reply).corrections;
            c != [] ==> && Occurs(reply, Marker)
                        && Marker <= c
                        && !Occurs(c, NoneSentinel)
                        && !Occurs(c, NoCorrectionsSentinel)
  {
    match IndexOf(reply, Marker)
    case None =>
    case Some(i) =>
      assert Marker <= reply[i..] by {
        assert reply[i..][..|Marker|] == reply[i..i + |Marker|];
      }
      TrimKeepsPrefix(Marker, reply[i..]);
  }

  /** The marker's opening bracket does not recur inside it, so an occurrence
      of the marker can never overlap the end of another piece of text. */
  lemma MarkerDoesNotOverlap()
    ensures |Marker| > 0 && Marker[0] !in Marker[1..]
  {
    assert Marker[1..] == "修正点]";
  }

  /** The reply layout the preamble asks for: a conversation, blank space, the
      marker and the corrections. The conversation comes back without the
      surrounding space (and with any heading of its own still in it); the
      corrections come back from the marker on. */
  lemma {:induction false} FormattedReplySplits(conversation: string, gap: string, corrections: string)
    requires conversation == [] || (!IsWhitespace(conversation[0]) && !IsWhitespace(conversation[|conversation| - 1]))
    requires AllWhitespace(gap) && !Occurs(conversation + gap, Marker)
    requires corrections == [] || !IsWhitespace(corrections[|corrections| - 1])
    requires !Occurs(Marker + corrections, NoneSentinel) && !Occurs(Marker + corrections, NoCorrectionsSentinel)
    ensures SplitReply(conversation + gap + Marker + corrections) == Split(conversation, Marker + corrections)
  {
    var head := conversation + gap;
    var reply := head + Marker + corrections;
    MarkerDoesNotOverlap();
    FirstOccurrenceAfterAvoiding(head, Marker, corrections);
    assert reply[..|head|] == [] + conversation + gap;
    TrimOfPadded([], conversation, gap);
    var c := Marker + corrections;
    assert reply[|head|..] == [] + c + [];
    TrimOfPadded([], c, []);
  }

  /** The sentinel test clears a correction part that merely mentions "none",
      whatever else it says: a reply consisting of the marker and a body that
      contains the sentinel yields no corrections. */
  lemma {:induction false} NoneMentionClearsCorrections(conversation: string, gap: string, body: string)
    requires !Occurs(conversation + gap, Marker)
    requires Occurs(body, NoneSentinel)
    ensures SplitReply(conversation + gap + Marker + body).corrections == []
  {
    var head := conversation + gap;
    var reply := head + Marker + body;
    MarkerDoesNotOverlap();
    FirstOccurrenceAfterAvoiding(head, Marker, body);
    var c := reply[|head|..];
    assert c == Marker + body;
    var j :| OccursAt(body, NoneSentinel, j);
    assert c[|Marker|..|c|] == body;
    OccursInSlice(c, |Marker|, |c|, NoneSentinel, j);
    TrimKeepsOccurrence(c, NoneSentinel, |Marker| + j);
  }

  /** A reply laid out as the preamble asks: the heading "[会話部分]" is not a
      marker, so it stays at the head of the conversation part. */
  lemma SampleReplySplits()
    ensures SplitReply("[会話部分]\nNice!" + "\n\n" + Marker + "\n❌ 'go' ✅ 'went'")
              == Split("[会話部分]\nNice!", Marker + "\n❌ 'go' ✅ 'went'")
  {
    var corrections := "\n❌ 'go' ✅ 'went'";
    assert NoneSentinel[0] !in Marker + corrections;
    assert NoCorrectionsSentinel[0] !in Marker + corrections;
    AbsentCharAvoids(Marker + corrections, NoneSentinel, 0);
    AbsentCharAvoids(Marker + corrections, NoCorrectionsSentinel, 0);
    assert Marker[1] !in "[会話部分]\nNice!" + "\n\n";
    AbsentCharAvoids("[会話部分]\nNice!" + "\n\n", Marker, 1);
    FormattedReplySplits("[会話部分]\nNice!", "\n\n", corrections);
  }

  /** A reply that is only the marker and "none" yields empty parts. */
  lemma NoneOnlyReplySplits()
    ensures SplitReply(Marker + "\nなし") == Split("", "")
  {
    assert OccursAt("\nなし", NoneSentinel, 1);
    assert [] + [] + Marker + "\nなし" == Marker + "\nなし";
    NoneMentionClearsCorrections([], [], "\nなし");
    MarkerDoesNotOverlap();
    FirstOccurrenceAfterAvoiding([], Marker, "\nなし");
    assert (Marker + "\nなし")[..0] == [];
  }
}
