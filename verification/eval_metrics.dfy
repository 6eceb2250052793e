/**
 * The answer-metrics engine: the tokenizer, keyword coverage, context
 * overlap, the combined score and the per-question evaluation record.
 * Ratios are exact reals (the source's floats, without rounding).
 */
module EvalMetrics {
  import opened PyStr

  /** The weight of coverage in the combined score when the caller gives none. */
  const DefaultAlpha: real := 0.5

  // ---------------------------------------------------------------------------
  // Tokenizer

  /** A token: non-empty, made only of lower-case letters and digits. */
  predicate IsToken(t: string) {
    |t| > 0 && forall k :: 0 <= k < |t| ==> IsAlnum(t[k]) && !IsUpper(t[k])
  }

  /** `"".join(ch for ch in raw if ch.isalnum())`: the alphanumeric characters of raw, in order. */
  function KeepAlnum(raw: string): (t: string)
    ensures |t| <= |raw|
    ensures forall k :: 0 <= k < |t| ==> IsAlnum(t[k]) && t[k] in raw
  {
    if raw == [] then [] else (if IsAlnum(raw[0]) then [raw[0]] else []) + KeepAlnum(raw[1..])
  }

  /** A unit that is already alphanumeric is kept whole. */
  lemma {:induction false} KeepAlnumOfAlnum(raw: string)
    requires forall k :: 0 <= k < |raw| ==> IsAlnum(raw[k])
    ensures KeepAlnum(raw) == raw
    decreases |raw|
  {
    if raw != [] {
      KeepAlnumOfAlnum(raw[1..]);
    }
  }

  lemma {:induction false} KeepAlnumConcat(a: string, b: string)
    ensures KeepAlnum(a + b) == KeepAlnum(a) + KeepAlnum(b)
    decreases |a|
  {
    if a == [] {
      assert a + b == b;
    } else {
      assert (a + b)[1..] == a[1..] + b;
      KeepAlnumConcat(a[1..], b);
    }
  }

  /** A character that is not alphanumeric is dropped wherever it stands in the unit. */
  lemma KeepAlnumDropsMark(a: string, p: char, b: string)
    requires !IsAlnum(p)
    ensures KeepAlnum(a + [p] + b) == KeepAlnum(a + b)
  {
    var ka, kb := KeepAlnum(a), KeepAlnum(b);
    KeepAlnumConcat(a + [p], b);
    KeepAlnumConcat(a, [p]);
    KeepAlnumConcat(a, b);
    assert KeepAlnum([p]) == [] by {
      assert [p][1..] == [];
    }
    assert ka + [] == ka;
  }

  /** A unit without alphanumeric characters contributes nothing. */
  lemma {:induction false} KeepAlnumOfNone(raw: string)
    requires forall k :: 0 <= k < |raw| ==> !IsAlnum(raw[k])
    ensures KeepAlnum(raw) == []
    decreases |raw|
  {
    if raw != [] {
      KeepAlnumOfNone(raw[1..]);
    }
  }

  /** The tokens a list of whitespace-separated units yields: each unit's alphanumeric part, unless it is empty. */
  function TokensOfUnits(units: seq<string>): (tokens: seq<string>)
    ensures |tokens| <= |units|
  {
    if units == [] then []
    else
      var token := KeepAlnum(units[|units| - 1]);
      TokensOfUnits(units[..|units| - 1]) + (if token == [] then [] else [token])
  }

  /** `_tokenize(text)`: lower-case, split on whitespace, keep the alphanumeric part of each unit, drop empty ones. */
  function Tokens(text: string): seq<string> {
    TokensOfUnits(Split(Lower(text)))
  }

  lemma {:induction false} TokensOfUnitsConcat(a: seq<string>, b: seq<string>)
    ensures TokensOfUnits(a + b) == TokensOfUnits(a) + TokensOfUnits(b)
    decreases |b|
  {
    if b == [] {
      assert a + b == a;
    } else {
      var ab := a + b;
      assert ab[..|ab| - 1] == a + b[..|b| - 1];
      assert ab[|ab| - 1] == b[|b| - 1];
      TokensOfUnitsConcat(a, b[..|b| - 1]);
    }
  }

  /** Units free of upper-case letters yield only well-formed tokens. */
  lemma {:induction false} TokensOfUnitsAreTokens(units: seq<string>)
    requires forall i, k :: 0 <= i < |units| && 0 <= k < |units[i]| ==> !IsUpper(units[i][k])
    ensures forall i :: 0 <= i < |TokensOfUnits(units)| ==> IsToken(TokensOfUnits(units)[i])
    decreases |units|
  {
    if units != [] {
      var last := units[|units| - 1];
      TokensOfUnitsAreTokens(units[..|units| - 1]);
      var token := KeepAlnum(last);
      forall k | 0 <= k < |token|
        ensures !IsUpper(token[k])
      {
        var j :| 0 <= j < |last| && last[j] == token[k];
      }
    }
  }

  /** Every token is non-empty and made of lower-case letters and digits. */
  lemma TokensAreTokens(text: string)
    ensures forall i :: 0 <= i < |Tokens(text)| ==> IsToken(Tokens(text)[i])
  {
    var lowered := Lower(text);
    var units := Split(lowered);
    forall i, k | 0 <= i < |units| && 0 <= k < |units[i]|
      ensures !IsUpper(units[i][k])
    {
      LowerHasNoUpper(text, units[i][k]);
    }
    TokensOfUnitsAreTokens(units);
  }

  /** The tokenizer sees the text only through its lower-case form. */
  lemma TokensIgnoreCase(text: string)
    ensures Tokens(Lower(text)) == Tokens(text)
  {
    LowerIdempotent(text);
  }

  /** Tokenizing two texts joined by whitespace yields the tokens of each, in order. */
  lemma TokensJoin(x: string, sep: char, y: string)
    requires IsSpace(sep)
    ensures Tokens(x + [sep] + y) == Tokens(x) + Tokens(y)
  {
    LowerConcat(x + [sep], y);
    LowerConcat(x, [sep]);
    assert Lower([sep]) == [LowerChar(sep)];
    SplitJoin(Lower(x), LowerChar(sep), Lower(y));
    TokensOfUnitsConcat(Split(Lower(x)), Split(Lower(y)));
  }

  /** A run without whitespace yields its alphanumeric part as one token, or nothing when it has none. */
  lemma TokensOfRun(m: string)
    requires NoSpace(m)
    ensures TokensOfUnits(Split(m)) == if KeepAlnum(m) == [] then [] else [KeepAlnum(m)]
  {
    if m != [] {
      SplitOfWord(m);
      assert [m][..0] == [];
    }
  }

  /**
   * Punctuation is dropped wherever it stands, not only at the end: a mark
   * before, inside or after a word ("(retrieval", "don't") leaves the same
   * tokens as the text without it.
   */
  lemma TokensIgnorePunctuation(x: string, p: char, y: string)
    requires !IsAlnum(p) && !IsSpace(p)
    ensures Tokens(x + [p] + y) == Tokens(x + y)
  {
    LowerConcat(x + [p], y);
    LowerConcat(x, [p]);
    LowerConcat(x, y);
    assert Lower([p]) == [p];
    UnitsIgnorePunctuation(Lower(x), p, Lower(y));
  }

  /** The same on the lower-cased text: cut it at the whitespace around the mark. */
  lemma UnitsIgnorePunctuation(x: string, p: char, y: string)
    requires !IsAlnum(p) && !IsSpace(p)
    ensures TokensOfUnits(Split(x + [p] + y)) == TokensOfUnits(Split(x + y))
  {
    MarkInRun(x, p, y, LastSpace(x), WordLen(y));
  }

  /** x is cut after its last whitespace k and y before its first whitespace n: the mark sits in the run between. */
  lemma MarkInRun(x: string, p: char, y: string, k: int, n: int)
    requires !IsAlnum(p) && !IsSpace(p)
    requires -1 <= k < |x| && (0 <= k ==> IsSpace(x[k])) && forall j :: k < j < |x| ==> !IsSpace(x[j])
    requires 0 <= n <= |y| && NoSpace(y[..n]) && (n < |y| ==> IsSpace(y[n]))
    ensures TokensOfUnits(Split(x + [p] + y)) == TokensOfUnits(Split(x + y))
  {
    var before, tail, head, after := x[..k + 1], x[k + 1..], y[..n], y[n..];
    CutAfterSpace(x, k);
    NoSpaceAfterLast(x, k);
    CutAtFirstSpace(y, n);
    CutAround(x, p, y, k, n);
    RunIgnoresPunctuation(before, tail, p, head, after);
  }

  /** The four pieces of that cut put back together, with and without the mark. */
  lemma CutAround(x: string, p: char, y: string, k: int, n: int)
    requires -1 <= k < |x| && 0 <= n <= |y|
    ensures x + [p] + y == x[..k + 1] + ((x[k + 1..] + [p] + y[..n]) + y[n..])
    ensures x + y == x[..k + 1] + ((x[k + 1..] + y[..n]) + y[n..])
  {
    assert x == x[..k + 1] + x[k + 1..] && y == y[..n] + y[n..];
  }

  /** Cut right after a whitespace character k (or at the start, k = -1), x ends in whitespace before the cut. */
  lemma CutAfterSpace(x: string, k: int)
    requires -1 <= k < |x| && (0 <= k ==> IsSpace(x[k]))
    ensures x[..k + 1] == [] || IsSpace(x[..k + 1][|x[..k + 1]| - 1])
  {
    if k < 0 {
      assert x[..k + 1] == [];
    }
  }

  /** Cut after its last whitespace k, x has no whitespace after the cut. */
  lemma NoSpaceAfterLast(x: string, k: int)
    requires -1 <= k < |x| && forall j :: k < j < |x| ==> !IsSpace(x[j])
    ensures NoSpace(x[k + 1..])
  {
    var tail := x[k + 1..];
    forall j | 0 <= j < |tail|
      ensures !IsSpace(tail[j])
    {
      assert tail[j] == x[k + 1 + j];
    }
  }

  /** Cut at its first whitespace n, y goes on with whitespace (or nothing) after the cut. */
  lemma CutAtFirstSpace(y: string, n: int)
    requires 0 <= n <= |y| && (n < |y| ==> IsSpace(y[n]))
    ensures y[n..] == [] || IsSpace(y[n..][0])
  {
    if n < |y| {
      assert y[n..][0] == y[n];
    } else {
      assert y[n..] == [];
    }
  }

  /** The unit holding the mark keeps the same alphanumeric part, and the units around it are untouched. */
  lemma RunIgnoresPunctuation(before: string, tail: string, p: char, head: string, after: string)
    requires !IsAlnum(p) && !IsSpace(p)
    requires before == [] || IsSpace(before[|before| - 1])
    requires NoSpace(tail) && NoSpace(head)
    requires after == [] || IsSpace(after[0])
    ensures TokensOfUnits(Split(before + ((tail + [p] + head) + after))) ==
      TokensOfUnits(Split(before + ((tail + head) + after)))
  {
    var w, m := tail + [p] + head, tail + head;
    RunDropsMark(tail, p, head);
    TokensAroundRun(before, w, after);
    TokensAroundRun(before, m, after);
  }

  /** Within one run, with or without the mark, the run yields the same tokens. */
  lemma RunDropsMark(tail: string, p: char, head: string)
    requires !IsAlnum(p) && !IsSpace(p)
    requires NoSpace(tail) && NoSpace(head)
    ensures NoSpace(tail + [p] + head) && NoSpace(tail + head)
    ensures TokensOfUnits(Split(tail + [p] + head)) == TokensOfUnits(Split(tail + head))
  {
    var w, m := tail + [p] + head, tail + head;
    assert NoSpace(w) && NoSpace(m);
    KeepAlnumDropsMark(tail, p, head);
    TokensOfRun(w);
    TokensOfRun(m);
  }

  /** A run without whitespace between two whitespace boundaries contributes its own tokens, in place. */
  lemma TokensAroundRun(before: string, m: string, after: string)
    requires before == [] || IsSpace(before[|before| - 1])
    requires NoSpace(m)
    requires after == [] || IsSpace(after[0])
    ensures TokensOfUnits(Split(before + (m + after))) ==
      TokensOfUnits(Split(before)) + TokensOfUnits(Split(m)) + TokensOfUnits(Split(after))
  {
    SplitAfterSpace(before, m + after);
    SplitBeforeSpace(m, after);
    TokensOfUnitsOfThree(Split(before), Split(m), Split(after));
  }

  lemma TokensOfUnitsOfThree(a: seq<string>, b: seq<string>, c: seq<string>)
    ensures TokensOfUnits(a + (b + c)) == TokensOfUnits(a) + TokensOfUnits(b) + TokensOfUnits(c)
  {
    TokensOfUnitsConcat(a, b + c);
    TokensOfUnitsConcat(b, c);
  }

  /** One lower-case alphanumeric word, possibly followed by punctuation, is a single token. */
  lemma TokensOfWord(w: string, punct: string)
    requires IsToken(w)
    requires forall k :: 0 <= k < |punct| ==> !IsAlnum(punct[k]) && !IsSpace(punct[k])
    ensures Tokens(w + punct) == [w]
  {
    var u := w + punct;
    LowerOfLower(u);
    assert NoSpace(u);
    assert WordLen(u) == |u|;
    assert u[..|u|] == u && u[|u|..] == [];
    assert Split(u) == [u];
    KeepAlnumConcat(w, punct);
    KeepAlnumOfAlnum(w);
    KeepAlnumOfNone(punct);
    assert KeepAlnum(u) == w;
    assert [u][..0] == [];
    calc {
      Tokens(u);
      TokensOfUnits(Split(u));
      TokensOfUnits([u]);
      TokensOfUnits([]) + [w];
    }
  }

  /** A leading word and a space contribute that word as the first token. */
  lemma TokensCons(w: string, rest: string)
    requires IsToken(w)
    ensures Tokens(w + " " + rest) == [w] + Tokens(rest)
  {
    TokensOfWord(w, "");
    assert w + "" == w;
    TokensJoin(w, ' ', rest);
  }

  /** Words joined by single spaces: `" ".join(words)`. */
  function JoinWords(words: seq<string>): string {
    if words == [] then "" else if |words| == 1 then words[0] else words[0] + " " + JoinWords(words[1..])
  }

  /** The first word, a space, then the rest joined, followed by the punctuation. */
  lemma JoinWordsCons(words: seq<string>, punct: string)
    requires |words| >= 2
    ensures JoinWords(words) + punct == words[0] + " " + (JoinWords(words[1..]) + punct)
  {
    var first, joined := words[0], JoinWords(words[1..]);
    assert JoinWords(words) == first + " " + joined;
    assert (first + " " + joined) + punct == first + " " + (joined + punct);
  }

  /** Joining one more word in front adds it as the first token. */
  lemma TokensOfJoinedStep(words: seq<string>, punct: string)
    requires |words| >= 2 && IsToken(words[0])
    ensures Tokens(JoinWords(words) + punct) == [words[0]] + Tokens(JoinWords(words[1..]) + punct)
  {
    JoinWordsCons(words, punct);
    TokensCons(words[0], JoinWords(words[1..]) + punct);
  }

  /**
   * Round trip: tokens joined by spaces, with trailing punctuation, tokenize
   * back to the same tokens.
   */
  lemma {:induction false} TokensOfJoinedWords(words: seq<string>, punct: string)
    requires words != []
    requires forall i :: 0 <= i < |words| ==> IsToken(words[i])
    requires forall k :: 0 <= k < |punct| ==> !IsAlnum(punct[k]) && !IsSpace(punct[k])
    ensures Tokens(JoinWords(words) + punct) == words
    decreases |words|
  {
    if |words| == 1 {
      TokensOfWord(words[0], punct);
      assert [words[0]] == words;
    } else {
      var tail := words[1..];
      forall i | 0 <= i < |tail|
        ensures IsToken(tail[i])
      {
        assert tail[i] == words[i + 1];
      }
      TokensOfJoinedStep(words, punct);
      TokensOfJoinedWords(tail, punct);
      assert [words[0]] + tail == words;
    }
  }

  /** `_tokenize`, as the source runs it: one pass over the units, appending each non-empty token. */
  method Tokenize(text: string) returns (tokens: seq<string>)
    ensures tokens == Tokens(text)
    ensures forall i :: 0 <= i < |tokens| ==> IsToken(tokens[i])
    ensures |tokens| <= |Split(Lower(text))|
  {
    var units := Split(Lower(text));
    tokens := [];
    for i := 0 to |units|
      invariant tokens == TokensOfUnits(units[..i])
    {
      var token := KeepAlnum(units[i]);
      if token != [] {
        tokens := tokens + [token];
      }
      assert units[..i + 1][..i] == units[..i];
    }
    assert units[..|units|] == units;
    TokensAreTokens(text);
  }

  // ---------------------------------------------------------------------------
  // Keyword coverage

  /** The answer mentions the keyword: `keyword.lower() in answer.lower()`. */
  predicate Mentions(answer: string, keyword: string) {
    Contains(Lower(answer), Lower(keyword))
  }

  /** A text mentions every keyword written inside it, whatever the case. */
  lemma MentionsEmbedded(before: string, keyword: string, after: string)
    ensures Mentions(before + keyword + after, keyword)
  {
    LowerConcat(before + keyword, after);
    LowerConcat(before, keyword);
    var l := Lower(before + keyword + after);
    assert l == Lower(before) + Lower(keyword) + Lower(after);
    assert l[|before|..|before| + |keyword|] == Lower(keyword);
    assert OccursAt(l, Lower(keyword), |before|);
  }

  /** A keyword holding a letter that the answer lacks in either case is not mentioned. */
  lemma NotMentionedMissingLetter(answer: string, keyword: string, c: char)
    requires 'a' <= c <= 'z' && c in keyword
    requires c !in answer && (c as int - 32) as char !in answer
    ensures !Mentions(answer, keyword)
  {
    forall k | 0 <= k < |answer|
      ensures Lower(answer)[k] != c
    {
      assert answer[k] != c && answer[k] != (c as int - 32) as char;
    }
    var j :| 0 <= j < |keyword| && keyword[j] == c;
    assert Lower(keyword)[j] == c;
    NotContainsMissingChar(Lower(answer), Lower(keyword), c);
  }

  /** How many positions of the keyword list hold a keyword the answer mentions. */
  function Hits(answer: string, keywords: seq<string>): (n: nat)
    ensures n <= |keywords|
  {
    if keywords == [] then 0
    else Hits(answer, keywords[..|keywords| - 1]) + (if Mentions(answer, keywords[|keywords| - 1]) then 1 else 0)
  }

  /** `keyword_coverage(answer, keywords)`: 0 for an empty list, otherwise hits / len(keywords). */
  function Coverage(answer: string, keywords: seq<string>): (c: real)
    ensures 0.0 <= c <= 1.0
    ensures keywords == [] ==> c == 0.0
  {
    if keywords == [] then 0.0 else Ratio(Hits(answer, keywords), |keywords|)
  }

  /** n / d as a real, for 0 <= n <= d. */
  function Ratio(n: nat, d: nat): (r: real)
    requires 0 < d && n <= d
    ensures 0.0 <= r <= 1.0
    ensures r == 1.0 <==> n == d
    ensures r == 0.0 <==> n == 0
  {
    var r := n as real / d as real;
    assert r * d as real == n as real;
    PositiveFactor(r, d as real);
    PositiveFactor(1.0 - r, d as real);
    if n == d then PositiveFactor(r - 1.0, d as real); r
    else if n == 0 then PositiveFactor(-r, d as real); r
    else r
  }

  /** A product with a positive factor is non-negative only if the other factor is. */
  lemma PositiveFactor(a: real, b: real)
    requires 0.0 < b && 0.0 <= a * b
    ensures 0.0 <= a
  {
  }

  lemma RatioMonotone(n: nat, m: nat, d: nat)
    requires 0 < d && n <= m <= d
    ensures Ratio(n, d) <= Ratio(m, d)
  {
    var x, y := n as real / d as real, m as real / d as real;
    assert x * d as real == n as real && y * d as real == m as real;
    assert (y - x) * d as real == (m - n) as real;
    PositiveFactor(y - x, d as real);
  }

  /** Every keyword is mentioned exactly when every position is a hit. */
  lemma {:induction false} HitsAll(answer: string, keywords: seq<string>)
    ensures Hits(answer, keywords) == |keywords| <==> forall i :: 0 <= i < |keywords| ==> Mentions(answer, keywords[i])
    decreases |keywords|
  {
    if keywords != [] {
      var init := keywords[..|keywords| - 1];
      HitsAll(answer, init);
      assert forall i :: 0 <= i < |init| ==> init[i] == keywords[i];
    }
  }

  /** No keyword is mentioned exactly when no position is a hit. */
  lemma {:induction false} HitsNone(answer: string, keywords: seq<string>)
    ensures Hits(answer, keywords) == 0 <==> forall i :: 0 <= i < |keywords| ==> !Mentions(answer, keywords[i])
    decreases |keywords|
  {
    if keywords != [] {
      var init := keywords[..|keywords| - 1];
      HitsNone(answer, init);
      assert forall i :: 0 <= i < |init| ==> init[i] == keywords[i];
    }
  }

  /** Coverage is 1 exactly when the list is non-empty and the answer mentions every keyword. */
  lemma CoverageFull(answer: string, keywords: seq<string>)
    ensures Coverage(answer, keywords) == 1.0 <==>
      keywords != [] && forall i :: 0 <= i < |keywords| ==> Mentions(answer, keywords[i])
  {
    HitsAll(answer, keywords);
  }

  /** Coverage is 0 exactly when the answer mentions none of the keywords (in particular for an empty list). */
  lemma CoverageNone(answer: string, keywords: seq<string>)
    ensures Coverage(answer, keywords) == 0.0 <==> forall i :: 0 <= i < |keywords| ==> !Mentions(answer, keywords[i])
  {
    HitsNone(answer, keywords);
  }

  /** An answer that mentions at least what another mentions has at least as many hits. */
  lemma {:induction false} HitsMonotone(answer: string, longer: string, keywords: seq<string>)
    requires Contains(Lower(longer), Lower(answer))
    ensures Hits(answer, keywords) <= Hits(longer, keywords)
    decreases |keywords|
  {
    if keywords != [] {
      var kw := keywords[|keywords| - 1];
      if Mentions(answer, kw) {
        ContainsTransitive(Lower(longer), Lower(answer), Lower(kw));
      }
      HitsMonotone(answer, longer, keywords[..|keywords| - 1]);
    }
  }

  /** Coverage never drops when the answer is embedded in a longer text. */
  lemma CoverageGrowsWithAnswer(before: string, answer: string, after: string, keywords: seq<string>)
    ensures Coverage(answer, keywords) <= Coverage(before + answer + after, keywords)
  {
    var longer := before + answer + after;
    MentionsEmbedded(before, answer, after);
    HitsMonotone(answer, longer, keywords);
    if keywords != [] {
      RatioMonotone(Hits(answer, keywords), Hits(longer, keywords), |keywords|);
    }
  }

  /** The hit count sees the answer only through its lower-case form. */
  lemma {:induction false} HitsIgnoreCase(answer: string, keywords: seq<string>)
    ensures Hits(Lower(answer), keywords) == Hits(answer, keywords)
    decreases |keywords|
  {
    if keywords != [] {
      LowerIdempotent(answer);
      HitsIgnoreCase(answer, keywords[..|keywords| - 1]);
    }
  }

  /** Coverage is case-insensitive in the answer. */
  lemma CoverageIgnoresCase(answer: string, keywords: seq<string>)
    ensures Coverage(Lower(answer), keywords) == Coverage(answer, keywords)
  {
    HitsIgnoreCase(answer, keywords);
  }

  /** `keyword_coverage`, as the source runs it: one pass counting the mentioned keywords. */
  method KeywordCoverage(answer: string, expectedKeywords: seq<string>) returns (coverage: real)
    ensures coverage == Coverage(answer, expectedKeywords)
    ensures 0.0 <= coverage <= 1.0
  {
    if expectedKeywords == [] {
      return 0.0;
    }
    var answerL := Lower(answer);
    var hits := 0;
    for i := 0 to |expectedKeywords|
      invariant hits == Hits(answer, expectedKeywords[..i])
    {
      if Contains(answerL, Lower(expectedKeywords[i])) {
        hits := hits + 1;
      }
      assert expectedKeywords[..i + 1][..i] == expectedKeywords[..i];
    }
    assert expectedKeywords[..|expectedKeywords|] == expectedKeywords;
    coverage := hits as real / |expectedKeywords| as real;
  }

  // ---------------------------------------------------------------------------
  // Context overlap

  /** `set(tokens)` */
  function TokenSet(tokens: seq<string>): (s: set<string>)
    ensures forall t :: t in s <==> t in tokens
  {
    set t | t in tokens
  }

  /** `sum(1 for t in tokens if t in vocabulary)`: token occurrences that lie in the vocabulary. */
  function CountIn(tokens: seq<string>, vocabulary: set<string>): (n: nat)
    ensures n <= |tokens|
  {
    if tokens == [] then 0
    else CountIn(tokens[..|tokens| - 1], vocabulary) + (if tokens[|tokens| - 1] in vocabulary then 1 else 0)
  }

  /** `context_overlap(answer, context)`: 0 when the answer has no tokens, otherwise the share of its token occurrences found among the context's tokens. */
  function Overlap(answer: string, context: string): (o: real)
    ensures 0.0 <= o <= 1.0
    ensures Tokens(answer) == [] ==> o == 0.0
  {
    var answerTokens := Tokens(answer);
    if answerTokens == [] then 0.0
    else Ratio(CountIn(answerTokens, TokenSet(Tokens(context))), |answerTokens|)
  }

  lemma {:induction false} CountInAll(tokens: seq<string>, vocabulary: set<string>)
    ensures CountIn(tokens, vocabulary) == |tokens| <==> forall i :: 0 <= i < |tokens| ==> tokens[i] in vocabulary
    decreases |tokens|
  {
    if tokens != [] {
      var init := tokens[..|tokens| - 1];
      CountInAll(init, vocabulary);
      assert forall i :: 0 <= i < |init| ==> init[i] == tokens[i];
    }
  }

  lemma {:induction false} CountInNone(tokens: seq<string>, vocabulary: set<string>)
    ensures CountIn(tokens, vocabulary) == 0 <==> forall i :: 0 <= i < |tokens| ==> tokens[i] !in vocabulary
    decreases |tokens|
  {
    if tokens != [] {
      var init := tokens[..|tokens| - 1];
      CountInNone(init, vocabulary);
      assert forall i :: 0 <= i < |init| ==> init[i] == tokens[i];
    }
  }

  /** Overlap is 1 exactly when the answer has tokens and every one of them occurs in the context. */
  lemma OverlapFull(answer: string, context: string)
    ensures Overlap(answer, context) == 1.0 <==>
      Tokens(answer) != [] && forall i :: 0 <= i < |Tokens(answer)| ==> Tokens(answer)[i] in Tokens(context)
  {
    CountInAll(Tokens(answer), TokenSet(Tokens(context)));
  }

  /** Overlap is 0 exactly when no answer token occurs in the context (in particular when there are none). */
  lemma OverlapNone(answer: string, context: string)
    ensures Overlap(answer, context) == 0.0 <==>
      forall i :: 0 <= i < |Tokens(answer)| ==> Tokens(answer)[i] !in Tokens(context)
  {
    CountInNone(Tokens(answer), TokenSet(Tokens(context)));
  }

  /** Overlap depends on the context only through its token set: the order in which context parts are joined does not matter. */
  lemma OverlapContextOrder(answer: string, c1: string, sep: char, c2: string)
    requires IsSpace(sep)
    ensures Overlap(answer, c1 + [sep] + c2) == Overlap(answer, c2 + [sep] + c1)
  {
    TokensJoin(c1, sep, c2);
    TokensJoin(c2, sep, c1);
    assert TokenSet(Tokens(c1 + [sep] + c2)) == TokenSet(Tokens(c2 + [sep] + c1));
  }

  /** Overlap depends on the context only through its token set: repeating the context does not matter. */
  lemma OverlapContextRepeat(answer: string, context: string, sep: char)
    requires IsSpace(sep)
    ensures Overlap(answer, context + [sep] + context) == Overlap(answer, context)
  {
    TokensJoin(context, sep, context);
    assert TokenSet(Tokens(context + [sep] + context)) == TokenSet(Tokens(context));
  }

  /** Overlap ignores the case of both the answer and the context. */
  lemma OverlapIgnoresCase(answer: string, context: string)
    ensures Overlap(Lower(answer), Lower(context)) == Overlap(answer, context)
  {
    TokensIgnoreCase(answer);
    TokensIgnoreCase(context);
  }

  /** Overlap ignores punctuation in the answer, wherever it stands. */
  lemma OverlapIgnoresPunctuation(x: string, p: char, y: string, context: string)
    requires !IsAlnum(p) && !IsSpace(p)
    ensures Overlap(x + [p] + y, context) == Overlap(x + y, context)
  {
    TokensIgnorePunctuation(x, p, y);
  }

  /** `context_overlap`, as the source runs it: tokenize both texts, then count. */
  method ContextOverlap(answer: string, contextText: string) returns (overlap: real)
    ensures overlap == Overlap(answer, contextText)
    ensures 0.0 <= overlap <= 1.0
  {
    var ansTokens := Tokenize(answer);
    var contextTokens := Tokenize(contextText);
    var ctxTokens := TokenSet(contextTokens);
    if ansTokens == [] {
      return 0.0;
    }
    var hits := CountIn(ansTokens, ctxTokens);
    overlap := hits as real / |ansTokens| as real;
  }

  // ---------------------------------------------------------------------------
  // Combined score and the evaluation record

  /**
   * `compute_score(coverage, overlap, alpha)`: the linear interpolation
   * between overlap (alpha = 0) and coverage (alpha = 1); for alpha in
   * [0, 1] it lies between the two.
   */
  function Score(coverage: real, overlap: real, alpha: real): (s: real)
    ensures alpha == 1.0 ==> s == coverage
    ensures alpha == 0.0 ==> s == overlap
    ensures alpha == 0.5 ==> s == (coverage + overlap) / 2.0
  {
    alpha * coverage + (1.0 - alpha) * overlap
  }

  /** For alpha in [0, 1] the combined score lies between overlap and coverage. */
  lemma ScoreBetween(coverage: real, overlap: real, alpha: real)
    requires 0.0 <= alpha <= 1.0
    ensures overlap <= coverage ==> overlap <= Score(coverage, overlap, alpha) <= coverage
    ensures coverage <= overlap ==> coverage <= Score(coverage, overlap, alpha) <= overlap
  {
    var x := coverage - overlap;
    assert Score(coverage, overlap, alpha) == overlap + alpha * x;
    ScaleWithin(alpha, x);
  }

  /** Scaling by a factor in [0, 1] keeps a value between 0 and itself. */
  lemma ScaleWithin(a: real, x: real)
    requires 0.0 <= a <= 1.0
    ensures 0.0 <= x ==> 0.0 <= a * x <= x
    ensures x <= 0.0 ==> x <= a * x <= 0.0
  {
  }

  /** Two scores in [0, 1] combine to a score in [0, 1] for any alpha in [0, 1]. */
  lemma ScoreInUnitRange(coverage: real, overlap: real, alpha: real)
    requires 0.0 <= coverage <= 1.0 && 0.0 <= overlap <= 1.0 && 0.0 <= alpha <= 1.0
    ensures 0.0 <= Score(coverage, overlap, alpha) <= 1.0
  {
    ScoreBetween(coverage, overlap, alpha);
  }

  /** `EvalResult`: the metrics of one question. */
  datatype EvalResult = EvalResult(questionId: string, coverage: real, overlap: real, score: real)

  /** `evaluate_single`: coverage, overlap and their combined score with the given alpha. */
  method EvaluateSingle(questionId: string, answer: string, expectedKeywords: seq<string>,
                        contextText: string, alpha: real)
    returns (result: EvalResult)
    ensures result.questionId == questionId
    ensures result.coverage == Coverage(answer, expectedKeywords)
    ensures result.overlap == Overlap(answer, contextText)
    ensures result.score == Score(result.coverage, result.overlap, alpha)
    ensures 0.0 <= result.coverage <= 1.0 && 0.0 <= result.overlap <= 1.0
    ensures 0.0 <= alpha <= 1.0 ==> 0.0 <= result.score <= 1.0
  {
    var cov := KeywordCoverage(answer, expectedKeywords);
    var ov := ContextOverlap(answer, contextText);
    var score := Score(cov, ov, alpha);
    result := EvalResult(questionId, cov, ov, score);
    if 0.0 <= alpha <= 1.0 {
      ScoreInUnitRange(cov, ov, alpha);
    }
  }
}
