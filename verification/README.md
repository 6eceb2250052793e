# RAG evaluation core in Dafny

This project models the core of a small retrieval-augmented generation (RAG)
evaluation system, and proves properties of that model:

- the **metrics engine**: the tokenizer, keyword coverage, context overlap,
  the combined score and the per-question `EvalResult`;
- the **pipeline**: it turns the ranker's `(Document, score)` hits into
  `RetrievedContext` records and derives the stub answer from the top context.
  `run` composes the two.

Files:

- `py_str.dfy` (module `PyStr`) models the Python `str` built-ins the core
  relies on:
  - `lower`, `isalnum` and `isspace`;
  - `split()` and `strip()`;
  - one-character `replace`;
  - the substring test `in`;
  - `rsplit(" ", 1)[0]` and the prefix slice `s[:m]`.
- `eval_metrics.dfy` (module `EvalMetrics`) models `src/eval_metrics.py`.
  - `_tokenize` and `keyword_coverage` are methods with the source's loops. Each
    is proved equal to a specification function (`Tokens`, `Coverage`), and the
    properties are proved about that function.
  - `context_overlap` and `evaluate_single` are methods that call them.
  - Ratios are exact reals.
- `pipeline.dfy` (module `Pipeline`) models `src/pipeline.py` as functions.
  - `RagPipeline` holds no state besides the ranker, which it sets once. The
    ranker is therefore a function parameter of type `Retriever`.
- `eval_metrics_examples.dfy` derives the values of the metric unit tests
  from the model. `pipeline_examples.dfy` works through concrete pipeline
  cases: a multi-line snippet, a truncated answer, the same answer within the
  default budget, and `run` when the ranker finds nothing.

## Model

| member | source | states |
|---|---|---|
| PyStr.Lower | src/eval_metrics.py:11 | `str.lower()` keeps the length, maps each character by `LowerChar` and leaves no upper-case letter |
| PyStr.LowerIdempotent | src/eval_metrics.py:26-29 | lower-casing twice is lower-casing once |
| PyStr.Split | src/eval_metrics.py:11 | `split()` yields non-empty words without whitespace (`IsSpace`, the whitespace set of `split()` and `strip()`), made of the text's characters |
| PyStr.SplitKeepsText | src/eval_metrics.py:11 | the words of `split()`, concatenated, are exactly the text's non-whitespace characters in order |
| PyStr.SplitOfWord | src/eval_metrics.py:11 | a non-empty run without whitespace is split into itself alone, so `split()` never cuts a word into pieces |
| PyStr.SplitBeforeSpace | src/eval_metrics.py:11 | cutting a text right before a whitespace character splits it into the words of each part |
| PyStr.SplitAfterSpace | src/eval_metrics.py:11 | cutting a text right after a whitespace character splits it into the words of each part |
| PyStr.SplitJoin | src/eval_metrics.py:11 | splitting two texts joined by a whitespace character gives the words of each, in order |
| PyStr.NotContainsMissingChar | src/eval_metrics.py:29 | a string lacking a character of the needle does not contain the needle (`Contains` models `in`: the needle occurs as a contiguous slice) |
| PyStr.ContainsTransitive | src/eval_metrics.py:29 | the substring relation is transitive |
| PyStr.TrimLeft | src/pipeline.py:42 | the left half of `strip()`: a suffix of the text that does not start with whitespace and keeps all its non-whitespace characters |
| PyStr.TrimRight | src/pipeline.py:42 | the right half of `strip()`: a prefix of the text that does not end with whitespace and keeps all its non-whitespace characters |
| PyStr.Strip | src/pipeline.py:42 | `strip()` neither starts nor ends with whitespace, is no longer than the text and keeps all its non-whitespace characters |
| PyStr.StripInPlace | src/pipeline.py:42 | `strip()` is the contiguous slice of the text that starts right after its leading whitespace, so whitespace inside the text is kept |
| PyStr.StripOfStripped | src/pipeline.py:42 | stripping a text with no whitespace at either end returns it unchanged |
| PyStr.Replace | src/pipeline.py:42 | `replace(a, b)` keeps the length and changes exactly the positions holding a |
| PyStr.ReplaceOfSlice | src/pipeline.py:42 | `replace(a, b)` on a slice of s holds b where s holds a, and s's own character everywhere else |
| PyStr.ReplaceSpaceKeepsText | src/pipeline.py:42 | swapping one whitespace character for another keeps the non-whitespace characters |
| PyStr.PrefixSlice | src/pipeline.py:44 | `s[:m]` is a prefix of s of length min(m, len s) for m >= 0, and of length max(len s + m, 0) for negative m |
| PyStr.BeforeLastSpace | src/pipeline.py:44 | `rsplit(" ", 1)[0]` is a prefix that ends right before the last space, or the whole string when it has no space |
| EvalMetrics.KeepAlnum | src/eval_metrics.py:12 | the kept characters are alphanumeric (`IsAlnum`, `ch.isalnum()`) characters of the unit, no more than its length; with `KeepAlnumOfAlnum`, `KeepAlnumOfNone` and `KeepAlnumConcat` the result is exactly the unit's alphanumeric characters, in order |
| EvalMetrics.KeepAlnumDropsMark | src/eval_metrics.py:12 | a non-alphanumeric character is dropped wherever it stands in the unit |
| EvalMetrics.TokensAreTokens | src/eval_metrics.py:5-15 | every token is non-empty, alphanumeric and lower-case |
| EvalMetrics.TokensIgnoreCase | src/eval_metrics.py:11 | tokenizing the lower-cased text gives the same tokens |
| EvalMetrics.TokensJoin | src/eval_metrics.py:11-14 | the tokens of two texts joined by whitespace are the tokens of each, concatenated |
| EvalMetrics.TokensIgnorePunctuation | src/eval_metrics.py:9-14 | a character that is neither alphanumeric nor whitespace, anywhere in the text (before, inside or after a word), leaves the tokens unchanged |
| EvalMetrics.TokensOfJoinedWords | src/eval_metrics.py:5-15 | round trip: tokens joined by spaces, with trailing punctuation, tokenize back to the same tokens |
| EvalMetrics.Tokenize | src/eval_metrics.py:5-15 | the loop returns `Tokens(text)` (`_tokenize` as a function, whose properties are the `Tokens…` lemmas): only tokens, at most one per whitespace-separated unit |
| EvalMetrics.MentionsEmbedded | src/eval_metrics.py:29 | a keyword appearing verbatim in the answer is mentioned (`Mentions` models `kw.lower() in answer.lower()`) |
| EvalMetrics.NotMentionedMissingLetter | src/eval_metrics.py:29 | a keyword is not mentioned when one of its letters is absent in both cases from the answer |
| EvalMetrics.Hits | src/eval_metrics.py:27-30 | the number of mentioned keywords is at most the number of keywords; `HitsAll`, `HitsNone` and `HitsMonotone` tie it to `Mentions` |
| EvalMetrics.Coverage | src/eval_metrics.py:18-31 | the coverage lies in [0, 1] and is 0 for an empty keyword list |
| EvalMetrics.Ratio | src/eval_metrics.py:31 | hits over count lies in [0, 1], is 1 exactly when every item hits and is 0 exactly when none does |
| EvalMetrics.HitsAll | src/eval_metrics.py:27-30 | every keyword is counted exactly when every keyword is mentioned |
| EvalMetrics.HitsNone | src/eval_metrics.py:27-30 | no keyword is counted exactly when no keyword is mentioned |
| EvalMetrics.CoverageFull | src/eval_metrics.py:18-31 | coverage is 1 exactly when the list is non-empty and every keyword is mentioned |
| EvalMetrics.CoverageNone | src/eval_metrics.py:18-31 | coverage is 0 exactly when no keyword is mentioned, which includes the empty list |
| EvalMetrics.HitsMonotone | src/eval_metrics.py:26-30 | an answer containing another answer mentions at least as many keywords |
| EvalMetrics.CoverageGrowsWithAnswer | src/eval_metrics.py:18-31 | adding text around an answer never lowers its coverage |
| EvalMetrics.HitsIgnoreCase | src/eval_metrics.py:26-30 | the hit count is the same for the answer and its lower-cased form |
| EvalMetrics.CoverageIgnoresCase | src/eval_metrics.py:18-31 | coverage is case-insensitive in the answer |
| EvalMetrics.KeywordCoverage | src/eval_metrics.py:18-31 | the loop returns `Coverage(answer, keywords)`, a value in [0, 1] |
| EvalMetrics.TokenSet | src/eval_metrics.py:40 | `set(tokens)` holds exactly the tokens of the list |
| EvalMetrics.Overlap | src/eval_metrics.py:34-46 | the overlap lies in [0, 1] and is 0 when the answer has no tokens |
| EvalMetrics.CountIn | src/eval_metrics.py:45 | the number of answer tokens found in the context is at most the number of answer tokens; `CountInAll` and `CountInNone` tie it to membership |
| EvalMetrics.CountInAll | src/eval_metrics.py:45 | every answer token is counted exactly when every one is in the context |
| EvalMetrics.CountInNone | src/eval_metrics.py:45 | no answer token is counted exactly when none is in the context |
| EvalMetrics.OverlapFull | src/eval_metrics.py:34-46 | overlap is 1 exactly when the answer has tokens and all of them occur in the context |
| EvalMetrics.OverlapNone | src/eval_metrics.py:34-46 | overlap is 0 exactly when no answer token occurs in the context, which includes an answer without tokens |
| EvalMetrics.OverlapContextOrder | src/eval_metrics.py:40 | the order of two context passages does not change the overlap |
| EvalMetrics.OverlapContextRepeat | src/eval_metrics.py:40 | repeating the context does not change the overlap |
| EvalMetrics.OverlapIgnoresCase | src/eval_metrics.py:39-40 | overlap is the same for the lower-cased answer and context |
| EvalMetrics.OverlapIgnoresPunctuation | src/eval_metrics.py:34-46 | removing one punctuation character from anywhere in the answer leaves the overlap unchanged |
| EvalMetrics.ContextOverlap | src/eval_metrics.py:34-46 | the method returns `Overlap(answer, context)`, a value in [0, 1] |
| EvalMetrics.Score | src/eval_metrics.py:57-62 | alpha 1 gives the coverage, alpha 0 the overlap, and alpha 0.5 their mean |
| EvalMetrics.ScoreBetween | src/eval_metrics.py:57-62 | for alpha in [0, 1] the score lies between the overlap and the coverage |
| EvalMetrics.ScoreInUnitRange | src/eval_metrics.py:57-62 | two metrics in [0, 1] with alpha in [0, 1] give a score in [0, 1] |
| EvalMetrics.EvaluateSingle | src/eval_metrics.py:49-86 | the record carries the question id, the coverage, the overlap and their combined score; the metrics are in [0, 1], and so is the score for alpha in [0, 1] |
| EvalMetricsExamples.CoverageAllMentioned | tests/test_eval_metrics.py:7-11 | "The pipeline has a retriever and a generator." covers both keywords: 1.0 |
| EvalMetricsExamples.CoverageOneOfTwo | tests/test_eval_metrics.py:13-17 | "The pipeline uses a retriever component." covers one keyword of two: 0.5 |
| EvalMetricsExamples.CoverageNoneMentioned | tests/test_eval_metrics.py:19-23 | "No relevant terms here." covers no keyword: 0.0 |
| EvalMetricsExamples.OverlapAllGrounded | tests/test_eval_metrics.py:25-30 | all three answer tokens are in the context: 1.0 |
| EvalMetricsExamples.OverlapPartialAsWritten | tests/test_eval_metrics.py:32-37 | "retrieval augmented something else" has overlap 0.5, not the 3/4 the test expects |
| EvalMetricsExamples.OverlapThreeOfFour | tests/test_eval_metrics.py:32-37 | an answer with three of its four tokens in the context has overlap 3/4 |
| EvalMetricsExamples.ScoreExamples | tests/test_eval_metrics.py:39-50 | 0.8 and 0.4 combine to 0.6 with alpha 0.5 and to 0.68 with alpha 0.7 |
| Pipeline.ToContexts | src/pipeline.py:26-29 | one context per hit, in the same order, copying the id, the text and the score |
| Pipeline.ToContextsRoundTrip | src/pipeline.py:26-29 | the hits can be rebuilt from the contexts: nothing is lost |
| Pipeline.ToContextsConcat | src/pipeline.py:26-29 | converting a list split in two gives the two converted parts in order |
| Pipeline.Retrieve | src/pipeline.py:24-29 | the contexts are the ranker's hits for the question and top_k, in the same number and order, copied field by field |
| Pipeline.Snippet | src/pipeline.py:42 | the stripped, newline-replaced text has no newline, no whitespace at either end and the same non-whitespace characters |
| Pipeline.SnippetInPlace | src/pipeline.py:42 | the snippet is the slice of the text after its leading whitespace, character for character, except that each newline reads as a space: tabs and runs of spaces are not collapsed |
| Pipeline.SnippetIdempotent | src/pipeline.py:42 | a snippet is its own snippet |
| Pipeline.Truncate | src/pipeline.py:43-44 | a snippet within the budget is kept whole; a longer one becomes a prefix of its first max_chars characters followed by "...", at most max_chars + 3 long, with no newline added |
| Pipeline.TruncateAtWordBoundary | src/pipeline.py:44 | the kept part is the whole budgeted prefix when that has no space, and otherwise ends right before its last space |
| Pipeline.AnswerStub | src/pipeline.py:31-46 | no contexts give the sentinel; otherwise the snippet of the top text, or a cut prefix of it followed by "..." when longer than max_chars; never a newline; at most max_chars + 3 long |
| Pipeline.AnswerOnlyFromTopText | src/pipeline.py:31-46 | the answer depends only on the top context's text and max_chars, not on the question or the other contexts |
| Pipeline.AnswerStubStable | src/pipeline.py:41-46 | an answer that was not cut comes back unchanged when offered as the only context |
| Pipeline.AnswerKeepsText | src/pipeline.py:42-46 | an answer that was not cut keeps every non-whitespace character of the top text, in order |
| Pipeline.Run | src/pipeline.py:48-56 | the contexts are the ranker's hits converted; the answer is the sentinel when there are none, never holds a newline, is at most 403 characters long, and is the top snippet when it fits 400 |
| PipelineExamples.SnippetOfMultilineText | src/pipeline.py:42 | " alpha beta\ngamma\n" gives the snippet "alpha beta gamma" |
| PipelineExamples.TruncateAtLastSpace | src/pipeline.py:43-44 | "alpha beta gamma" cut to 12 characters gives "alpha beta..." |
| PipelineExamples.AnswerStubCutsTopText | src/pipeline.py:38-46 | the stub with budget 12 on that top context answers "alpha beta...", whatever the question and the other contexts |
| PipelineExamples.AnswerStubKeepsShortText | src/pipeline.py:38-46 | with the default budget of 400 the same context is answered by its whole snippet |
| PipelineExamples.RunWithoutHits | src/pipeline.py:48-56 | `run` with the default top_k of 3 and a ranker that finds nothing answers with the sentinel and no contexts |

## Left out

- The BM25 ranker (`SimpleBM25Retriever`) and `Document` come from
  `retriever.py`. That file is not part of this model. The ranker is a
  parameter; `Document` keeps only the two fields the pipeline reads (id and text).
- `RagPipeline.__init__`: it builds the ranker from a corpus directory, which
  is file I/O. The ranker is a parameter instead.
- `src/run_eval.py` is left out. It loads the question set and the corpus,
  assembles the gold context, prints and writes the JSON report, all of which
  is file I/O.
- `to_dict` is left out. It is serialisation of an `EvalResult` for JSON.
- Floating point: coverage, overlap and score are exact reals. The source's
  float division and rounding are not modelled, so `0.7 * 0.8 + 0.3 * 0.4` is
  exactly 0.68 here. The tests compare with a tolerance.
- Characters are ASCII only. `lower`, `isalnum` and `isspace` are exact for
  ASCII. Outside ASCII no character is alphanumeric or whitespace, and
  lower-casing leaves it unchanged. Python's Unicode tables are not modelled.
- Answer formatting: the answer is not whitespace-collapsed. The code strips
  the text and replaces each `"\n"` by a space, and nothing more
  (src/pipeline.py:42). Tabs, carriage returns and runs of spaces inside the
  text are kept, as `Pipeline.SnippetInPlace` states.
- Pipeline.Run: `max_chars` stays at its default of 400, as in the source, and
  is not a parameter of `run`.
- The `question` argument of `answer_stub` is unused by the source and is
  unused by the model.

## Findings

| source | as written | input that shows it | evidently intended | confidence | as-written member | corrected member |
|---|---|---|---|---|---|---|
| tests/test_eval_metrics.py:32-37 | the partial-overlap test expects 3/4 for the answer "retrieval augmented something else" against the context "retrieval augmented generation combines context and question." | only "retrieval" and "augmented" occur in the context, so `context_overlap` returns 2/4 = 0.5 | the comment (in Russian) says 3 of the 4 tokens match, which needs an answer with three context tokens, such as "retrieval augmented generation something", which gives 3/4 | high; not executed | EvalMetricsExamples.OverlapPartialAsWritten | EvalMetricsExamples.OverlapThreeOfFour |
