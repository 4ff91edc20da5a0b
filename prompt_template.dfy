/** The grounding prompt sent to the language model: a fixed block of rules,
    then the retrieved context, then the user's question, then the answer cue. */
module PromptTemplate {

  datatype Option<T> = None | Some(value: T)

  /** The two variable parts of a prompt. */
  datatype Sections = Sections(context: string, question: string)

  /** Everything before the context: a leading newline, the role line, the rules
      (including their unbalanced quotation mark) and the "Context:" heading. */
  const Header: string :=
    "\nYou are an equity research assistant.\n\nRules:\n"
    + "- Answer ONLY from the provided context and get some information from the internet\n"
    + "- Be concise and factual and clear\n"
    + "- If the answer is not present, say \"Information not available in the documents.\n"
    + "- If user give spelling mismatch then handle it using llm\"\n\nContext:\n"

  /** Between the context and the question. */
  const QuestionHeading: string := "\n\nQuestion:\n"

  /** After the question: the cue the model completes. */
  const AnswerCue: string := "\n\nAnswer:\n"

  /** A prompt laid out from fixed text around the two variable parts. */
  function Assemble(header: string, context: string, heading: string, question: string, cue: string): string
  {
    header + context + heading + question + cue
  }

  /** Where each part of an assembled text sits. */
  lemma AssembleLayout(header: string, context: string, heading: string, question: string, cue: string)
    ensures var p := Assemble(header, context, heading, question, cue);
      var questionAt := |header| + |context| + |heading|;
      && |p| == questionAt + |question| + |cue|
      && p[..|header|] == header
      && p[|header|..|header| + |context|] == context
      && p[|header| + |context|..questionAt] == heading
      && p[questionAt..questionAt + |question|] == question
      && p[questionAt + |question|..] == cue
  {
  }

  /** Reads the two variable parts back out of a text, given the length of the
      context; fails when the fixed text is not where the layout puts it. */
  function Disassemble(p: string, header: string, heading: string, cue: string, contextLength: nat): (r: Option<Sections>)
    ensures r.Some? ==> |r.value.context| == contextLength
  {
    if |p| < |header| + contextLength + |heading| + |cue| then None
    else
      var qStart := |header| + contextLength + |heading|;
      var qEnd := |p| - |cue|;
      if p[..|header|] == header
        && p[|header| + contextLength..qStart] == heading
        && p[qEnd..] == cue
      then Some(Sections(p[|header|..|header| + contextLength], p[qStart..qEnd]))
      else None
  }

  lemma DisassembleAssemble(header: string, context: string, heading: string, question: string, cue: string)
    ensures Disassemble(Assemble(header, context, heading, question, cue), header, heading, cue, |context|)
      == Some(Sections(context, question))
  {
    AssembleLayout(header, context, heading, question, cue);
  }

  lemma AssembleDisassemble(p: string, header: string, heading: string, cue: string, contextLength: nat)
    requires Disassemble(p, header, heading, cue, contextLength).Some?
    ensures var s := Disassemble(p, header, heading, cue, contextLength).value;
      Assemble(header, s.context, heading, s.question, cue) == p
  {
    var cEnd := |header| + contextLength;
    var qStart := cEnd + |heading|;
    var qEnd := |p| - |cue|;
    assert p == p[..|header|] + p[|header|..cEnd] + p[cEnd..qStart] + p[qStart..qEnd] + p[qEnd..];
  }

  /** The prompt the page sends for a context and a question. Every prompt can be
      read back: the context and the question are recovered exactly. */
  function BuildPrompt(context: string, question: string): (p: string)
    ensures ParsePrompt(p, |context|) == Some(Sections(context, question))
  {
    DisassembleAssemble(Header, context, QuestionHeading, question, AnswerCue);
    Assemble(Header, context, QuestionHeading, question, AnswerCue)
  }

  /** Reads a prompt built by `BuildPrompt` back into its context and question. */
  function ParsePrompt(p: string, contextLength: nat): Option<Sections>
  {
    Disassemble(p, Header, QuestionHeading, AnswerCue, contextLength)
  }

  /** The prompt is the rules text, then the context after "Context:", then the
      question after "Question:", then "Answer:"; the context ends before the question begins. */
  lemma PromptLayout(context: string, question: string)
    ensures var p := BuildPrompt(context, question);
      var questionAt := |Header| + |context| + |QuestionHeading|;
      && |p| == questionAt + |question| + |AnswerCue|
      && p[..|Header|] == Header
      && p[|Header|..|Header| + |context|] == context
      && p[|Header| + |context|..questionAt] == QuestionHeading
      && p[questionAt..questionAt + |question|] == question
      && p[questionAt + |question|..] == AnswerCue
  {
    AssembleLayout(Header, context, QuestionHeading, question, AnswerCue);
  }

  /** Whatever is read back out of a prompt rebuilds that very prompt. */
  lemma BuildParseRoundTrip(p: string, contextLength: nat)
    requires ParsePrompt(p, contextLength).Some?
    ensures var s := ParsePrompt(p, contextLength).value;
      BuildPrompt(s.context, s.question) == p
  {
    AssembleDisassemble(p, Header, QuestionHeading, AnswerCue, contextLength);
  }

  /** Same context length and same prompt means same context and same question. */
  lemma BuildPromptInjective(c1: string, q1: string, c2: string, q2: string)
    requires |c1| == |c2|
    requires BuildPrompt(c1, q1) == BuildPrompt(c2, q2)
    ensures c1 == c2 && q1 == q2
  {
    assert ParsePrompt(BuildPrompt(c1, q1), |c1|) == Some(Sections(c1, q1));
    assert ParsePrompt(BuildPrompt(c2, q2), |c2|) == Some(Sections(c2, q2));
  }
}
