/**
 * The retrieval-augmented pipeline: turning the ranker's hits into
 * retrieved contexts, deriving the stub answer from the top context, and
 * the two composed. The ranker itself is not modelled; it is a parameter
 * that maps a question and a result count to ranked (document, score) pairs.
 */
module Pipeline {
  import opened PyStr

  /** The fields of a ranked document that the pipeline reads. */
  datatype Document = Document(docId: string, text: string)

  datatype RetrievedContext = RetrievedContext(docId: string, text: string, score: real)

  /** The ranker: question and result count to (document, score) pairs, best first. */
  type Retriever = (string, int) -> seq<(Document, real)>

  const NoContextAnswer: string := "No answer: no context retrieved."
  const Ellipsis: string := "..."
  /** The result count `retrieve` and `run` use when the caller gives none. */
  const DefaultTopK: int := 3
  /** The character budget of `answer_stub` when the caller gives none; `run` always uses it. */
  const DefaultMaxChars: int := 400

  // ---------------------------------------------------------------------------
  // retrieve

  /** One retrieved context per ranked hit, in the ranker's order, copying id, text and score. */
  function ToContexts(hits: seq<(Document, real)>): (contexts: seq<RetrievedContext>)
    ensures |contexts| == |hits|
    ensures forall i :: 0 <= i < |hits| ==>
      contexts[i].docId == hits[i].0.docId && contexts[i].text == hits[i].0.text && contexts[i].score == hits[i].1
  {
    seq(|hits|, i requires 0 <= i < |hits| => RetrievedContext(hits[i].0.docId, hits[i].0.text, hits[i].1))
  }

  /** The (document, score) pairs a list of contexts was made from. */
  function ToHits(contexts: seq<RetrievedContext>): (hits: seq<(Document, real)>)
    ensures |hits| == |contexts|
  {
    seq(|contexts|, i requires 0 <= i < |contexts| => (Document(contexts[i].docId, contexts[i].text), contexts[i].score))
  }

  /** Nothing of a hit is lost when it becomes a context. */
  lemma ToContextsRoundTrip(hits: seq<(Document, real)>)
    ensures ToHits(ToContexts(hits)) == hits
  {
    var back := ToHits(ToContexts(hits));
    forall i | 0 <= i < |hits|
      ensures back[i] == hits[i]
    {
      assert back[i].0 == Document(hits[i].0.docId, hits[i].0.text);
    }
  }

  /** Making contexts commutes with splitting the ranked list: the order is kept. */
  lemma ToContextsConcat(a: seq<(Document, real)>, b: seq<(Document, real)>)
    ensures ToContexts(a + b) == ToContexts(a) + ToContexts(b)
  {
    var lhs, rhs := ToContexts(a + b), ToContexts(a) + ToContexts(b);
    forall i | 0 <= i < |a + b|
      ensures lhs[i] == rhs[i]
    {
      if i < |a| {
        assert (a + b)[i] == a[i];
      } else {
        assert (a + b)[i] == b[i - |a|];
      }
    }
  }

  /** `RagPipeline.retrieve`: the ranker's hits for the question, as contexts. */
  function Retrieve(retriever: Retriever, question: string, topK: int): (contexts: seq<RetrievedContext>)
    ensures |contexts| == |retriever(question, topK)|
    ensures forall i :: 0 <= i < |contexts| ==>
      contexts[i].docId == retriever(question, topK)[i].0.docId &&
      contexts[i].text == retriever(question, topK)[i].0.text &&
      contexts[i].score == retriever(question, topK)[i].1
  {
    ToContexts(retriever(question, topK))
  }

  // ---------------------------------------------------------------------------
  // answer_stub

  /**
   * The top text stripped and with its newlines turned into spaces: no
   * newline, no whitespace at either end, and the same non-whitespace text.
   */
  function Snippet(text: string): (s: string)
    ensures |s| <= |text|
    ensures '\n' !in s
    ensures s == [] || (!IsSpace(s[0]) && !IsSpace(s[|s| - 1]))
    ensures RemoveSpace(s) == RemoveSpace(text)
  {
    var stripped := Strip(text);
    var s := Replace(stripped, '\n', ' ');
    ReplaceSpaceKeepsText(stripped, '\n', ' ');
    s
  }

  /**
   * The snippet is a contiguous stretch of the text, character for character,
   * except that each newline reads as a space: inner whitespace (tabs, runs of
   * spaces) stays where it was and is not collapsed.
   */
  lemma SnippetInPlace(text: string)
    ensures ReplacedSliceAt(Snippet(text), text, |text| - |TrimLeft(text)|, '\n', ' ')
  {
    var stripped := Strip(text);
    assert Snippet(text) == Replace(stripped, '\n', ' ');
    StripInPlace(text);
    ReplaceOfSlice(text, |text| - |TrimLeft(text)|, stripped, '\n', ' ');
  }

  /** A snippet is its own snippet. */
  lemma SnippetIdempotent(text: string)
    ensures Snippet(Snippet(text)) == Snippet(text)
  {
    var s := Snippet(text);
    StripOfStripped(s);
    ReplaceAbsent(s, '\n', ' ');
  }

  /**
   * The budgeted answer for a snippet: the snippet itself when it fits;
   * otherwise the first maxChars characters (Python's `s[:maxChars]`), cut
   * before their last space when they have one, followed by "...".
   */
  function Truncate(snippet: string, maxChars: int): (answer: string)
    ensures |snippet| <= maxChars ==> answer == snippet
    ensures |snippet| > maxChars ==>
      |answer| >= |Ellipsis| && answer[|answer| - |Ellipsis|..] == Ellipsis &&
      answer[..|answer| - |Ellipsis|] <= PrefixSlice(snippet, maxChars) <= snippet
    ensures 0 <= maxChars ==> |answer| <= maxChars + |Ellipsis|
    ensures '\n' !in snippet ==> '\n' !in answer
  {
    if |snippet| > maxChars then
      var p := BeforeLastSpace(PrefixSlice(snippet, maxChars));
      assert (p + Ellipsis)[..|p + Ellipsis| - |Ellipsis|] == p;
      assert forall k :: 0 <= k < |p| ==> p[k] == snippet[k];
      p + Ellipsis
    else snippet
  }

  /**
   * When the snippet is cut, the cut is at the last word boundary within the
   * budget: what is kept is the whole budgeted prefix when it has no space,
   * and otherwise ends right before a space after which the prefix has no
   * further space.
   */
  lemma TruncateAtWordBoundary(snippet: string, maxChars: int)
    requires |snippet| > maxChars
    ensures var budget, kept := PrefixSlice(snippet, maxChars), Truncate(snippet, maxChars)[..|Truncate(snippet, maxChars)| - |Ellipsis|];
      kept <= budget && kept <= snippet &&
      (' ' !in budget ==> kept == budget) &&
      (' ' in budget ==> |kept| < |budget| && budget[|kept|] == ' ' && ' ' !in budget[|kept| + 1..])
  {
    var budget := PrefixSlice(snippet, maxChars);
    var p := BeforeLastSpace(budget);
    assert Truncate(snippet, maxChars) == p + Ellipsis;
    assert (p + Ellipsis)[..|p + Ellipsis| - |Ellipsis|] == p;
  }

  /**
   * `RagPipeline.answer_stub`: the sentinel when nothing was retrieved,
   * otherwise the budgeted snippet of the top context's text. The answer
   * never holds a newline.
   */
  function AnswerStub(question: string, contexts: seq<RetrievedContext>, maxChars: int): (answer: string)
    ensures contexts == [] ==> answer == NoContextAnswer
    ensures '\n' !in answer
    ensures contexts != [] && |Snippet(contexts[0].text)| <= maxChars ==> answer == Snippet(contexts[0].text)
    ensures contexts != [] && |Snippet(contexts[0].text)| > maxChars ==>
      |answer| >= |Ellipsis| && answer[|answer| - |Ellipsis|..] == Ellipsis &&
      answer[..|answer| - |Ellipsis|] <= Snippet(contexts[0].text)
    ensures contexts != [] && 0 <= maxChars ==> |answer| <= maxChars + |Ellipsis|
  {
    if contexts == [] then NoContextAnswer
    else
      var snippet := Snippet(contexts[0].text);
      Truncate(snippet, maxChars)
  }

  /** The answer depends on nothing but the top context's text and the budget. */
  lemma AnswerOnlyFromTopText(q1: string, c1: seq<RetrievedContext>, q2: string, c2: seq<RetrievedContext>, maxChars: int)
    requires c1 != [] && c2 != [] && c1[0].text == c2[0].text
    ensures AnswerStub(q1, c1, maxChars) == AnswerStub(q2, c2, maxChars)
  {
  }

  /**
   * An answer that was not cut is a fixed point: offered back as the only
   * context, it comes back unchanged.
   */
  lemma AnswerStubStable(question: string, contexts: seq<RetrievedContext>, maxChars: int, docId: string, score: real)
    requires contexts != [] && |Snippet(contexts[0].text)| <= maxChars
    ensures var answer := AnswerStub(question, contexts, maxChars);
      AnswerStub(question, [RetrievedContext(docId, answer, score)], maxChars) == answer
  {
    SnippetIdempotent(contexts[0].text);
  }

  /** An uncut answer keeps every non-whitespace character of the top text, in order. */
  lemma AnswerKeepsText(question: string, contexts: seq<RetrievedContext>, maxChars: int)
    requires contexts != [] && |Snippet(contexts[0].text)| <= maxChars
    ensures RemoveSpace(AnswerStub(question, contexts, maxChars)) == RemoveSpace(contexts[0].text)
  {
  }

  // ---------------------------------------------------------------------------
  // run

  /**
   * `RagPipeline.run`: the contexts the ranker gives for the question with
   * topK results, and the stub answer from them with the default budget.
   */
  function Run(retriever: Retriever, question: string, topK: int): (result: (string, seq<RetrievedContext>))
    ensures result.1 == ToContexts(retriever(question, topK))
    ensures retriever(question, topK) == [] ==> result.0 == NoContextAnswer
    ensures '\n' !in result.0
    ensures retriever(question, topK) != [] ==> |result.0| <= DefaultMaxChars + |Ellipsis|
    ensures retriever(question, topK) != [] && |Snippet(retriever(question, topK)[0].0.text)| <= DefaultMaxChars ==>
      result.0 == Snippet(retriever(question, topK)[0].0.text)
  {
    var contexts := Retrieve(retriever, question, topK);
    (AnswerStub(question, contexts, DefaultMaxChars), contexts)
  }
}
