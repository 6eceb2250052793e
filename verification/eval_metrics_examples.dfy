/**
 * The metric values of the unit tests of the metrics engine, derived from
 * the model. Test strings are written as concatenations of their parts, or
 * as their words joined by single spaces (`JoinWords`), which denote the
 * same strings.
 */
module EvalMetricsExamples {
  import opened PyStr
  import opened EvalMetrics

  // ---------------------------------------------------------------------------
  // Keyword coverage

  /** "The pipeline has a retriever and a generator." mentions both keywords: coverage 1. */
  lemma CoverageAllMentioned()
    ensures Coverage("The pipeline has a " + "retriever" + " and a " + "generator" + ".",
                     ["retriever", "generator"]) == 1.0
  {
    var p, r, m, g, d := "The pipeline has a ", "retriever", " and a ", "generator", ".";
    var answer := p + r + m + g + d;
    assert answer == p + r + (m + g + d);
    MentionsEmbedded(p, r, m + g + d);
    MentionsEmbedded(p + r + m, g, d);
    CoverageFull(answer, [r, g]);
  }

  /** "The pipeline uses a retriever component." mentions one keyword of two: coverage 1/2. */
  lemma CoverageOneOfTwo()
    ensures Coverage("The pipeline uses a " + "retriever" + " component.", ["retriever", "generator"]) == 0.5
  {
    var answer := "The pipeline uses a " + "retriever" + " component.";
    var keywords := ["retriever", "generator"];
    MentionsEmbedded("The pipeline uses a ", "retriever", " component.");
    NotMentionedMissingLetter(answer, "generator", 'g');
    assert keywords[..1] == ["retriever"] && ["retriever"][..0] == [];
    assert Hits(answer, ["retriever"]) == 1;
    assert Hits(answer, keywords) == 1;
  }

  /** "No relevant terms here." mentions neither keyword: coverage 0. */
  lemma CoverageNoneMentioned()
    ensures Coverage("No relevant terms here.", ["retriever", "generator"]) == 0.0
  {
    var answer := "No relevant terms here.";
    NeitherKeywordMentioned(answer);
    CoverageNone(answer, ["retriever", "generator"]);
  }

  /** The answer has no 'i' for "retriever" and no 'g' for "generator", in either case. */
  lemma NeitherKeywordMentioned(answer: string)
    requires answer == "No relevant terms here."
    ensures !Mentions(answer, "retriever") && !Mentions(answer, "generator")
  {
    LacksLetter(answer, "retriever", 'i', 4);
    LacksLetter(answer, "generator", 'g', 0);
  }

  /**
   * The keyword has the letter c at index j, and c is none of the letters of
   * the answer (n, o, r, e, l, v, a, t, m, s, h), so the answer lacks it in
   * either case.
   */
  lemma LacksLetter(answer: string, keyword: string, c: char, j: nat)
    requires answer == "No relevant terms here."
    requires 'a' <= c <= 'z' && c != 'n' && c != 'o' && c != 'r' && c != 'e' && c != 'l' && c != 'v'
    requires c != 'a' && c != 't' && c != 'm' && c != 's' && c != 'h'
    requires j < |keyword| && keyword[j] == c
    ensures !Mentions(answer, keyword)
  {
    NotMentionedMissingLetter(answer, keyword, c);
  }

  // ---------------------------------------------------------------------------
  // Context overlap, against the context of the unit tests:
  // "retrieval augmented generation combines context and question."

  const GoldWords: seq<string> := ["retrieval", "augmented", "generation", "combines", "context", "and", "question"]

  lemma GoldTokens(context: string)
    requires context == JoinWords(GoldWords) + "."
    ensures Tokens(context) == GoldWords
  {
    TokensOfJoinedWords(GoldWords, ".");
  }

  /** Tokens joined by single spaces tokenize back to themselves. */
  lemma AnswerTokens(answer: string, words: seq<string>)
    requires words != [] && forall i :: 0 <= i < |words| ==> IsToken(words[i])
    requires answer == JoinWords(words)
    ensures Tokens(answer) == words
  {
    TokensOfJoinedWords(words, "");
    assert JoinWords(words) + "" == JoinWords(words);
  }

  /** The overlap of an answer whose tokens are known is its share of hits among them. */
  lemma OverlapOfKnownTokens(answer: string, answerTokens: seq<string>, context: string, hits: nat)
    requires Tokens(answer) == answerTokens && answerTokens != []
    requires CountIn(answerTokens, TokenSet(Tokens(context))) == hits
    ensures Overlap(answer, context) == Ratio(hits, |answerTokens|)
  {
  }

  lemma TwoOfFour()
    ensures Ratio(2, 4) == 0.5
  {
  }

  lemma ThreeOfFour()
    ensures Ratio(3, 4) == 0.75
  {
  }

  /** "retrieval augmented generation": every answer token occurs in the context, so overlap is 1. */
  lemma OverlapAllGrounded(answer: string, context: string)
    requires answer == JoinWords(["retrieval", "augmented", "generation"])
    requires context == JoinWords(GoldWords) + "."
    ensures Overlap(answer, context) == 1.0
  {
    AnswerTokens(answer, ["retrieval", "augmented", "generation"]);
    GoldTokens(context);
    OverlapFull(answer, context);
  }

  lemma PartialAnswerHits()
    ensures CountIn(["retrieval", "augmented", "something", "else"], TokenSet(GoldWords)) == 2
  {
    var v := TokenSet(["retrieval", "augmented", "generation", "combines", "context", "and", "question"]);
    var w := ["retrieval", "augmented", "something", "else"];
    assert "retrieval" in v && "augmented" in v && "something" !in v && "else" !in v;
    assert w[..3] == ["retrieval", "augmented", "something"];
    assert w[..3][..2] == ["retrieval", "augmented"];
    assert w[..3][..2][..1] == ["retrieval"];
    assert w[..3][..2][..1][..0] == [];
    assert CountIn(["retrieval"], v) == 1;
    assert CountIn(["retrieval", "augmented"], v) == 2;
    assert CountIn(["retrieval", "augmented", "something"], v) == 2;
  }

  /**
   * "retrieval augmented something else": the unit test of partial overlap
   * expects 3/4, but only "retrieval" and "augmented" occur in the context,
   * so the overlap is 2/4.
   */
  lemma OverlapPartialAsWritten(answer: string, context: string)
    requires answer == JoinWords(["retrieval", "augmented", "something", "else"])
    requires context == JoinWords(GoldWords) + "."
    ensures Overlap(answer, context) == 0.5
    ensures Overlap(answer, context) != 3.0 / 4.0
  {
    var words := ["retrieval", "augmented", "something", "else"];
    AnswerTokens(answer, words);
    GoldTokens(context);
    PartialAnswerHits();
    OverlapOfKnownTokens(answer, words, context, 2);
    assert |words| == 4;
    TwoOfFour();
  }

  lemma ThreeOfFourHits()
    ensures CountIn(["retrieval", "augmented", "generation", "something"], TokenSet(GoldWords)) == 3
  {
    var v := TokenSet(["retrieval", "augmented", "generation", "combines", "context", "and", "question"]);
    var w := ["retrieval", "augmented", "generation", "something"];
    assert "retrieval" in v && "augmented" in v && "generation" in v && "something" !in v;
    assert w[..3] == ["retrieval", "augmented", "generation"];
    assert w[..3][..2] == ["retrieval", "augmented"];
    assert w[..3][..2][..1] == ["retrieval"];
    assert w[..3][..2][..1][..0] == [];
    assert CountIn(["retrieval"], v) == 1;
    assert CountIn(["retrieval", "augmented"], v) == 2;
    assert CountIn(["retrieval", "augmented", "generation"], v) == 3;
  }

  /** "retrieval augmented generation something": three of four answer tokens occur in the context, so overlap is 3/4. */
  lemma OverlapThreeOfFour(answer: string, context: string)
    requires answer == JoinWords(["retrieval", "augmented", "generation", "something"])
    requires context == JoinWords(GoldWords) + "."
    ensures Overlap(answer, context) == 3.0 / 4.0
  {
    var words := ["retrieval", "augmented", "generation", "something"];
    AnswerTokens(answer, words);
    GoldTokens(context);
    ThreeOfFourHits();
    OverlapOfKnownTokens(answer, words, context, 3);
    assert |words| == 4;
    ThreeOfFour();
  }

  // ---------------------------------------------------------------------------
  // Combined score

  /** The balanced and the weighted score of the unit tests. */
  lemma ScoreExamples()
    ensures Score(0.8, 0.4, DefaultAlpha) == 0.6
    ensures Score(0.8, 0.4, 0.7) == 0.68
  {
  }
}
