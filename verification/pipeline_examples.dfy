/**
 * The answer stub on a concrete top context: a text with surrounding
 * whitespace and an inner newline, cut to a budget of 12 characters.
 * Texts are written as concatenations of their parts.
 */
module PipelineExamples {
  import opened PyStr
  import opened Pipeline

  /** Stripping " alpha beta\ngamma\n" drops the leading space and the trailing newline. */
  lemma StripOfMultilineText()
    ensures Strip(" " + ("alpha beta" + "\n" + "gamma") + "\n") == "alpha beta" + "\n" + "gamma"
  {
    var body := "alpha beta" + "\n" + "gamma";
    var text := " " + body + "\n";
    assert text[1..] == body + "\n";
    assert TrimLeft(body + "\n") == body + "\n";
    assert (body + "\n")[..|body|] == body;
    assert TrimRight(body) == body;
  }

  /** A newline between two newline-free lines becomes a space. */
  lemma ReplaceOneNewline(a: string, g: string)
    requires '\n' !in a && '\n' !in g
    ensures Replace(a + "\n" + g, '\n', ' ') == a + " " + g
  {
    ReplaceConcat(a + "\n", g, '\n', ' ');
    ReplaceConcat(a, "\n", '\n', ' ');
    ReplaceAbsent(a, '\n', ' ');
    ReplaceAbsent(g, '\n', ' ');
  }

  /** " alpha beta\ngamma\n" strips to "alpha beta\ngamma" and its newline becomes a space. */
  lemma SnippetOfMultilineText(text: string)
    requires text == " " + "alpha beta" + "\n" + "gamma" + "\n"
    ensures Snippet(text) == "alpha beta" + " " + "gamma"
  {
    var a, g := "alpha beta", "gamma";
    assert text == " " + (a + "\n" + g) + "\n";
    StripOfMultilineText();
    ReplaceOneNewline(a, g);
  }

  /** "alpha beta gamma" over 12 characters: "alpha beta g" is cut before its last space. */
  lemma TruncateAtLastSpace()
    ensures Truncate("alpha beta" + " " + "gamma", 12) == "alpha beta" + Ellipsis
  {
    var snippet := "alpha beta" + " " + "gamma";
    var budget := PrefixSlice(snippet, 12);
    assert budget == "alpha beta" + " " + "g";
    assert LastIndex(budget, ' ') == 10;
  }

  /** The whole stub on that context; the question and the other contexts play no part. */
  lemma AnswerStubCutsTopText(question: string, docId: string, score: real, rest: seq<RetrievedContext>)
    ensures AnswerStub(question, [RetrievedContext(docId, " " + "alpha beta" + "\n" + "gamma" + "\n", score)] + rest, 12)
         == "alpha beta" + Ellipsis
  {
    SnippetOfMultilineText(" " + "alpha beta" + "\n" + "gamma" + "\n");
    TruncateAtLastSpace();
  }

  /** With the default budget of 400 the same text comes back whole. */
  lemma AnswerStubKeepsShortText(question: string, docId: string, score: real)
    ensures AnswerStub(question, [RetrievedContext(docId, " " + "alpha beta" + "\n" + "gamma" + "\n", score)], DefaultMaxChars)
         == "alpha beta" + " " + "gamma"
  {
    SnippetOfMultilineText(" " + "alpha beta" + "\n" + "gamma" + "\n");
  }

  /** `run` with the default top_k of 3: a ranker with no hits yields the sentinel and no contexts. */
  lemma RunWithoutHits(retriever: Retriever, question: string)
    requires retriever(question, DefaultTopK) == []
    ensures Run(retriever, question, DefaultTopK) == (NoContextAnswer, [])
  {
    assert Retrieve(retriever, question, DefaultTopK) == [];
  }
}
