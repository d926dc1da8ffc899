/** What the `/chat` handler sends to the text-generation service: the retrieved
    chunks rendered as numbered context blocks, wrapped in a fixed instruction,
    the user's query and a cue for the assistant's turn. */
module Prompt {
  import opened Wrappers
  import opened Strings
  import Decimal

  /** A retrieved chunk as the retriever returns it. Only `pageContent` reaches the
      prompt; the metadata travels back to the caller untouched. */
  datatype Document = Document(pageContent: string, metadata: map<string, string>)

  /** The fixed instruction the prompt opens with, one sentence naming the "AI
      Assistant" and one asking to use the context. It has no colon, so it never
      contains the cue. The handler writes it as one literal; it is spelled
      here as three, the same characters, because the verifier reads a character of a
      literal only within some forty places of its end, and PreambleWithoutColon
      scans each piece. */
  const Preamble := "You are a helpful AI Assistant." + " Use the following context" + " to answer the user's query."

  /** The speaker label that ends the prompt and that the answer is cut after. */
  const Cue := "Assistant:"

  /** What stands between two context blocks. */
  const BlockSeparator := "\n\n"

  /** The label of the `n`-th block (counting from one). */
  function Heading(n: nat): string {
    "Context " + Decimal.Show(n) + ":\n"
  }

  /** The block for the document at 0-based position `i` of the retrieval result. */
  function Block(i: nat, d: Document): string {
    Heading(i + 1) + d.pageContent
  }

  function Blocks(docs: seq<Document>): seq<string> {
    seq(|docs|, i requires 0 <= i < |docs| => Block(i, docs[i]))
  }

  /** The context: the blocks in retrieval order, separated by a blank line. No
      documents give the empty string; otherwise it opens with the first heading. */
  function RenderContext(docs: seq<Document>): (context: string)
    ensures context == "" <==> |docs| == 0
    ensures |docs| > 0 ==> |Heading(1)| <= |context| && context[..|Heading(1)|] == Heading(1)
  {
    var blocks := Blocks(docs);
    if |docs| > 0 then
      JoinLayout(blocks, BlockSeparator, 0);
      assert blocks[0] == Heading(1) + docs[0].pageContent;
      Join(blocks, BlockSeparator)
    else
      Join(blocks, BlockSeparator)
  }

  /** Block `i` appears verbatim, numbered `i + 1`, at its offset in the context;
      a blank line follows it unless it is the last, and the next block starts
      right after that, so blocks keep their retrieval order. */
  lemma ContextLayout(docs: seq<Document>, i: nat)
    requires i < |docs|
    ensures var context, o := RenderContext(docs), Offset(Blocks(docs), BlockSeparator, i);
            var b := "Context " + Decimal.Show(i + 1) + ":\n" + docs[i].pageContent;
            && o + |b| <= |context|
            && context[o..o + |b|] == b
            && (i + 1 < |docs| ==>
                  && Offset(Blocks(docs), BlockSeparator, i + 1) == o + |b| + 2
                  && o + |b| + 2 <= |context|
                  && context[o + |b|..o + |b| + 2] == "\n\n")
            && (i + 1 == |docs| ==> o + |b| == |context|)
  {
    JoinLayout(Blocks(docs), BlockSeparator, i);
    assert Blocks(docs)[i] == "Context " + Decimal.Show(i + 1) + ":\n" + docs[i].pageContent;
  }

  /** One more retrieved document adds a blank line and its numbered block at the end. */
  lemma ContextSnoc(docs: seq<Document>, d: Document)
    requires |docs| > 0
    ensures RenderContext(docs + [d]) == RenderContext(docs) + BlockSeparator + Block(|docs|, d)
  {
    var before, after := Blocks(docs), Blocks(docs + [d]);
    assert forall k :: 0 <= k < |docs| ==> after[k] == before[k];
    assert after[|docs|] == Block(|docs|, d);
    assert after == before + [Block(|docs|, d)];
    JoinSnoc(before, Block(|docs|, d), BlockSeparator);
  }

  /** The same context built the way the handler's `map` and `join` run: one block
      at a time, left to right. */
  method RenderContextIteratively(docs: seq<Document>) returns (context: string)
    ensures context == RenderContext(docs)
  {
    context := "";
    var i := 0;
    while i < |docs|
      invariant 0 <= i <= |docs|
      invariant context == RenderContext(docs[..i])
    {
      if i == 0 {
        assert docs[..1] == [docs[0]];
        assert Blocks([docs[0]]) == [Block(0, docs[0])];
        context := Block(0, docs[0]);
      } else {
        assert docs[..i + 1] == docs[..i] + [docs[i]];
        ContextSnoc(docs[..i], docs[i]);
        context := context + BlockSeparator + Block(i, docs[i]);
      }
      i := i + 1;
    }
    assert docs[..i] == docs;
  }

  /** No block contains the cue when no document does: headings hold no `A`. */
  lemma ContextWithoutCue(docs: seq<Document>)
    requires forall d :: d in docs ==> !Contains(d.pageContent, Cue)
    ensures !Contains(RenderContext(docs), Cue)
  {
    var blocks := Blocks(docs);
    forall k | 0 <= k < |blocks|
      ensures !Contains(blocks[k], Cue)
    {
      var h := Heading(k + 1);
      var digits := Decimal.Show(k + 1);
      assert forall j :: 0 <= j < |digits| ==> digits[j] != 'A';
      assert 'A' !in h;
      assert docs[k] in docs;
      NoOccurrenceWithoutHead(h, docs[k].pageContent, Cue);
    }
    NoOccurrenceWithoutChar(BlockSeparator, Cue, 'A');
    JoinNoOccurrence(blocks, BlockSeparator, Cue);
  }

  /** The prompt up to the user's query: the instruction, a blank line, the
      context, a blank line and the `User: ` label. */
  function Lead(context: string): string {
    Preamble + "\n\n" + context + "\n\nUser: "
  }

  /** The prompt: the instruction, a blank line, the context, a blank line, the
      query after a `User: ` label, a blank line, and the cue. */
  function BuildPrompt(context: string, query: string): (prompt: string)
    ensures |prompt| == |Preamble| + |context| + |query| + 22
    ensures prompt[..|Preamble| + 2] == Preamble + "\n\n"
    ensures prompt[|Preamble| + 2..|Preamble| + 2 + |context|] == context
    ensures prompt[|Preamble| + 2 + |context|..|prompt| - |query| - 12] == "\n\nUser: "
    ensures prompt[|prompt| - |query| - 12..|prompt| - 12] == query
    ensures prompt[|prompt| - 12..] == "\n\n" + Cue
  {
    PromptLayout(Preamble, context, query);
    Lead(context) + query + "\n\n" + Cue
  }

  /** Where each part of the prompt lies, whatever the instruction. */
  lemma PromptLayout(instruction: string, context: string, query: string)
    ensures var prompt := instruction + "\n\n" + context + "\n\nUser: " + query + "\n\n" + Cue;
            var n := |instruction|;
            && |prompt| == n + |context| + |query| + 22
            && prompt[..n + 2] == instruction + "\n\n"
            && prompt[n + 2..n + 2 + |context|] == context
            && prompt[n + 2 + |context|..|prompt| - |query| - 12] == "\n\nUser: "
            && prompt[|prompt| - |query| - 12..|prompt| - 12] == query
            && prompt[|prompt| - 12..] == "\n\n" + Cue
  {
  }

  /** The prompt without its final cue: everything up to the blank line that
      precedes it. */
  function PromptHead(context: string, query: string): string {
    Lead(context) + query + "\n\n"
  }

  /** The cue's first letter does not recur in it. */
  lemma CueHeadUnique()
    ensures |Cue| > 0 && forall k :: 0 < k < |Cue| ==> Cue[k] != Cue[0]
  {
  }

  /** The instruction has no colon. */
  lemma PreambleWithoutColon()
    ensures ':' !in Preamble
  {
  }

  /** Whatever the instruction, when it has no colon and the context holds no
      cue, the lead holds no cue either: the `User: ` label has no `A`, and
      every joint is a line break, which the cue does not contain. The lead ends
      in a space. */
  lemma LeadWithoutCueFor(instruction: string, context: string)
    requires ':' !in instruction && !Contains(context, Cue)
    ensures var lead := instruction + "\n\n" + context + "\n\nUser: ";
            !Contains(lead, Cue) && |lead| > 0 && lead[|lead| - 1] == ' '
  {
    var p0 := instruction + "\n\n";
    assert ':' !in p0 by {
      assert forall k :: 0 <= k < |instruction| ==> p0[k] == instruction[k];
    }
    NoOccurrenceWithoutChar(p0, Cue, ':');
    NoOccurrenceAcrossBarrier(p0, context, Cue, '\n');
    var userLine := "\n\nUser: ";
    NoOccurrenceWithoutChar(userLine, Cue, 'A');
    NoOccurrenceAcrossBarrier(p0 + context, userLine, Cue, '\n');
  }

  /** The lead holds no cue when the context does not, and ends in a space. */
  lemma LeadWithoutCue(context: string)
    requires !Contains(context, Cue)
    ensures !Contains(Lead(context), Cue)
    ensures |Lead(context)| > 0 && Lead(context)[|Lead(context)| - 1] == ' '
  {
    PreambleWithoutColon();
    LeadWithoutCueFor(Preamble, context);
  }

  /** The prompt head holds no cue when neither the context nor the query does:
      a space ends the lead and a line break starts the closing blank line, and
      the cue contains neither. */
  lemma PromptHeadWithoutCue(context: string, query: string)
    requires !Contains(context, Cue) && !Contains(query, Cue)
    ensures !Contains(PromptHead(context, query), Cue)
  {
    var lead := Lead(context);
    LeadWithoutCue(context);
    NoOccurrenceAcrossBarrier(lead, query, Cue, ' ');
    NoOccurrenceWithoutChar("\n\n", Cue, 'A');
    NoOccurrenceAcrossBarrier(lead + query, "\n\n", Cue, '\n');
  }

  /** When neither the context nor the query contains the cue, the cue the prompt
      ends with is its only occurrence: whatever follows the prompt, the first
      occurrence of the cue is the prompt's own. */
  lemma PromptCueIsFirst(context: string, query: string, tail: string)
    requires !Contains(context, Cue) && !Contains(query, Cue)
    ensures FindFirst(BuildPrompt(context, query) + tail, Cue)
         == Some(|BuildPrompt(context, query)| - |Cue|)
  {
    PromptHeadWithoutCue(context, query);
    FirstOccurrenceAfterPrefix(PromptHead(context, query), Cue, tail);
    PromptEndsInCue(context, query, tail);
  }

  /** The prompt is its head followed by the cue. */
  lemma PromptEndsInCue(context: string, query: string, tail: string)
    ensures BuildPrompt(context, query) + tail == PromptHead(context, query) + Cue + tail
    ensures |BuildPrompt(context, query)| == |PromptHead(context, query)| + |Cue|
  {
  }
}
