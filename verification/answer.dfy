/** How the `/chat` handler turns the generation service's reply into the
    message it returns: the text after the first `Assistant:` cue, trimmed, or
    else the whole generated text, or else a fixed placeholder. */
module Answer {
  import opened Wrappers
  import opened Strings
  import opened Whitespace
  import opened Prompt

  /** The placeholder returned when the service produced no usable text. */
  const NoResponse := "No response"

  /** One element of the service's JSON reply; `generated_text` may be absent. */
  datatype Candidate = Candidate(generatedText: Option<string>)

  /** The parsed JSON reply: an array of candidates, or any other JSON value. */
  datatype Reply = Candidates(items: seq<Candidate>) | OtherJson

  /** `data[0]?.generated_text`: undefined unless the reply is a non-empty array
      whose first element carries a generated text. Only the first candidate is
      read; the others never reach the message. */
  function GeneratedText(data: Reply): (text: Option<string>)
    ensures text.Some? ==> data.Candidates? && |data.items| > 0
    ensures data.Candidates? && |data.items| > 0 ==> text == data.items[0].generatedText
  {
    if data.Candidates? && |data.items| > 0 then data.items[0].generatedText else None
  }

  /** The candidates after the first do not matter, and a reply that carries no
      text is answered with the placeholder. */
  lemma OnlyFirstCandidate(first: Candidate, more: seq<Candidate>, other: seq<Candidate>)
    ensures GeneratedText(Candidates([first] + more)) == GeneratedText(Candidates([first] + other))
    ensures first.generatedText.None? ==> ExtractAnswer(GeneratedText(Candidates([first] + more))) == NoResponse
    ensures ExtractAnswer(GeneratedText(Candidates([]))) == NoResponse
    ensures ExtractAnswer(GeneratedText(OtherJson)) == NoResponse
  {
  }

  /** `t.split('Assistant:')[1]?.trim()`: the trimmed second piece of the split,
      undefined when there is no second piece. */
  function CueSegment(t: string): (segment: Option<string>)
    ensures segment.None? <==> !Contains(t, Cue)
    ensures segment.Some? ==> Stripped(segment.value)
  {
    SplitPieces(t, Cue);
    var parts := Split(t, Cue);
    if |parts| > 1 then Some(Trim(parts[1])) else None
  }

  /** The message: the cue segment when it is a non-empty string, else the
      generated text when that is a non-empty string, else the placeholder
      (each `||` of the handler falls through on `undefined` and on `""`). The
      message is never empty; it is the placeholder whenever there is no text. */
  function ExtractAnswer(generated: Option<string>): (answer: string)
    ensures answer != ""
    ensures generated.None? || generated == Some("") ==> answer == NoResponse
    ensures generated.Some? && !Contains(generated.value, Cue) && generated.value != "" ==>
              answer == generated.value
    ensures generated.Some? && Contains(generated.value, Cue) ==>
              answer == generated.value || Stripped(answer)
  {
    var segment := if generated.Some? then CueSegment(generated.value) else None;
    if segment.Some? && segment.value != "" then
      segment.value
    else if generated.Some? && generated.value != "" then
      generated.value
    else
      NoResponse
  }

  /** The second piece of the split, when the first occurrence of the cue is at
      `i` and the next one after it is at `k` (or there is none and `k` is the
      end of the text), is the text between them. */
  lemma SecondPieceBetweenCues(t: string, i: nat, k: nat)
    requires OccursAt(t, Cue, i)
    requires forall j: nat :: j < i ==> !OccursAt(t, Cue, j)
    requires i + |Cue| <= k <= |t|
    requires k == |t| || OccursAt(t, Cue, k)
    requires forall j: nat :: i + |Cue| <= j < k ==> !OccursAt(t, Cue, j)
    ensures |Split(t, Cue)| > 1 && Split(t, Cue)[1] == t[i + |Cue|..k]
  {
    FindFirstIsFirstOccurrence(t, Cue, i);
    SplitSecondPiece(t, Cue, i);
    var m := i + |Cue|;
    if k == |t| {
      assert forall j: nat :: m <= j ==> !OccursAt(t, Cue, j);
      assert FindFrom(t, Cue, m).None?;
      assert t[m..] == t[m..k];
    } else {
      FindFromIs(t, Cue, m, k);
    }
  }

  /** The answer when the generated text contains the cue. With `i` the first
      occurrence and `k` the next occurrence after it (or the end of the text),
      the answer is the trimmed text between them if that is not empty, and the
      whole generated text, untrimmed, otherwise. */
  lemma AnswerAfterFirstCue(t: string, i: nat, k: nat)
    requires OccursAt(t, Cue, i)
    requires forall j: nat :: j < i ==> !OccursAt(t, Cue, j)
    requires i + |Cue| <= k <= |t|
    requires k == |t| || OccursAt(t, Cue, k)
    requires forall j: nat :: i + |Cue| <= j < k ==> !OccursAt(t, Cue, j)
    ensures var segment := Trim(t[i + |Cue|..k]);
            && (segment != "" ==> ExtractAnswer(Some(t)) == segment)
            && (segment == "" ==> ExtractAnswer(Some(t)) == t)
  {
    SecondPieceBetweenCues(t, i, k);
  }

  /** A service that echoes the prompt before its reply (as text generation does
      by default) gets the reply back, trimmed: the prompt's own closing cue is
      the first occurrence when neither the context nor the query holds one, and
      a reply free of the cue runs to the end. An all-blank reply makes the
      handler return the whole echoed text, prompt included. */
  lemma EchoedReply(context: string, query: string, reply: string)
    requires !Contains(context, Cue) && !Contains(query, Cue) && !Contains(reply, Cue)
    ensures var answer := ExtractAnswer(Some(BuildPrompt(context, query) + reply));
            && (Trim(reply) != "" ==> answer == Trim(reply))
            && (Trim(reply) == "" ==> answer == BuildPrompt(context, query) + reply)
  {
    var t := BuildPrompt(context, query) + reply;
    var i := |BuildPrompt(context, query)| - |Cue|;
    EchoedCuePosition(context, query, reply);
    AnswerAfterFirstCue(t, i, |t|);
  }

  /** Where the cues lie in an echoed reply: the first at the end of the prompt,
      none after it. */
  lemma EchoedCuePosition(context: string, query: string, reply: string)
    requires !Contains(context, Cue) && !Contains(query, Cue) && !Contains(reply, Cue)
    ensures var t, i := BuildPrompt(context, query) + reply, |BuildPrompt(context, query)| - |Cue|;
            && OccursAt(t, Cue, i)
            && (forall j: nat :: j < i ==> !OccursAt(t, Cue, j))
            && (forall j: nat :: i + |Cue| <= j < |t| ==> !OccursAt(t, Cue, j))
            && t[i + |Cue|..|t|] == reply
  {
    var prompt := BuildPrompt(context, query);
    var t := prompt + reply;
    PromptCueIsFirst(context, query, reply);
    var m := |prompt|;
    assert t[m..] == reply;
    OccursAtSuffix(t, Cue, m);
    forall j: nat | m <= j
      ensures !OccursAt(t, Cue, j)
    {
      assert OccursAt(t, Cue, j) <==> OccursAt(reply, Cue, j - m);
    }
  }

  /** The same, stated over the retrieved documents: when no document, nor the
      query, nor the reply contains the cue, the echoed reply comes back trimmed. */
  lemma EchoedReplyFromDocuments(docs: seq<Document>, query: string, reply: string)
    requires forall d :: d in docs ==> !Contains(d.pageContent, Cue)
    requires !Contains(query, Cue) && !Contains(reply, Cue)
    requires Trim(reply) != ""
    ensures ExtractAnswer(Some(BuildPrompt(RenderContext(docs), query) + reply)) == Trim(reply)
  {
    ContextWithoutCue(docs);
    EchoedReply(RenderContext(docs), query, reply);
  }

  // A query that itself contains the cue. The handler cuts after the FIRST cue,
  // which is then the one inside the query, not the one closing the prompt.

  /** When the query starts with the cue, the answer is the rest of the query,
      trimmed, whatever the service replied. */
  lemma CueInQueryIsAnswered(context: string, rest: string, reply: string)
    requires !Contains(context, Cue) && !Contains(rest, Cue)
    requires Trim(rest) != ""
    ensures ExtractAnswer(Some(BuildPrompt(context, Cue + rest) + reply)) == Trim(rest)
  {
    QueryCueLayout(context, rest, reply);
    LeadWithoutCue(context);
    AnswerBetweenCues(Lead(context), rest, reply);
  }

  /** A text in which the cue first follows a cue-free `h`, and next follows a
      cue-free `rest` and a blank line, is answered with `rest`, trimmed. */
  lemma AnswerBetweenCues(h: string, rest: string, tail: string)
    requires !Contains(h, Cue)
    requires !Contains(rest, Cue)
    requires Trim(rest) != ""
    ensures ExtractAnswer(Some(h + Cue + (rest + "\n\n") + Cue + tail)) == Trim(rest)
  {
    NoOccurrenceWithoutChar("\n\n", Cue, 'A');
    NoOccurrenceAcrossBarrier(rest, "\n\n", Cue, '\n');
    assert (rest + "\n\n")[|rest| + 1] == '\n';
    CueHeadUnique();
    SecondPieceOfHeadUnique(h, Cue, rest + "\n\n", tail);
    TrimIgnoresTrailingSpace(rest, "\n\n");
  }

  /** A query opening with the cue puts a cue right after the lead. */
  lemma QueryCueLayout(context: string, rest: string, reply: string)
    ensures BuildPrompt(context, Cue + rest) + reply
         == Lead(context) + Cue + (rest + "\n\n") + Cue + reply
  {
  }

  /** A concrete instance: with no documents, the query `Assistant: hi` and the
      reply `Paris`, the user is answered `hi`. */
  lemma CueInQueryExample()
    ensures ExtractAnswer(Some(BuildPrompt(RenderContext([]), "Assistant: hi") + "Paris")) == "hi"
  {
    var context, rest := RenderContext([]), " hi";
    assert context == "";
    assert Cue + rest == "Assistant: hi";
    assert !Contains(context, Cue);
    NoOccurrenceWithoutChar(rest, Cue, 'A');
    assert rest == " " + "hi" + "";
    TrimPadded(" ", "hi", "");
    CueInQueryIsAnswered(context, rest, "Paris");
  }

  // The evidently intended extraction: the text after the LAST cue. For an echoed
  // prompt that is the prompt's own closing cue only when the reply holds none; a
  // reply that itself holds the cue is cut at its own last cue instead.

  /** `t.split('Assistant:').pop().trim()` when the cue occurs: the trimmed text
      after its last occurrence. */
  function LastCueSegment(t: string): Option<string> {
    match FindLast(t, Cue)
    case None => None
    case Some(i) => Some(Trim(t[i + |Cue|..]))
  }

  /** The answer taken after the last cue, with the same fall-backs as the handler. */
  function ExtractReply(generated: Option<string>): (answer: string)
    ensures answer != ""
    ensures generated.None? || generated == Some("") ==> answer == NoResponse
    ensures generated.Some? && !Contains(generated.value, Cue) && generated.value != "" ==>
              answer == generated.value
  {
    var segment := if generated.Some? then LastCueSegment(generated.value) else None;
    if segment.Some? && segment.value != "" then
      segment.value
    else if generated.Some? && generated.value != "" then
      generated.value
    else
      NoResponse
  }

  /** With the intended extraction an echoed reply free of the cue comes back
      trimmed whatever the context and the query contain. */
  lemma EchoedReplyAnyQuery(context: string, query: string, reply: string)
    requires !Contains(reply, Cue)
    requires Trim(reply) != ""
    ensures ExtractReply(Some(BuildPrompt(context, query) + reply)) == Trim(reply)
  {
    PromptEndsInCue(context, query, reply);
    ReplyAfterLastCue(PromptHead(context, query), reply);
  }

  /** Whatever precedes the last cue, a non-blank reply after it that holds no
      cue comes back trimmed. */
  lemma ReplyAfterLastCue(head: string, reply: string)
    requires !Contains(reply, Cue)
    requires Trim(reply) != ""
    ensures ExtractReply(Some(head + Cue + reply)) == Trim(reply)
  {
    CueHeadUnique();
    LastOccurrenceBeforeTail(head, Cue, reply);
    assert (head + Cue + reply)[|head| + |Cue|..] == reply;
  }
}
