/**
 * Models of the Python `str` built-ins that the metrics engine and the
 * answer stub rely on: `lower`, `isalnum`, `isspace`, `split()`, `strip()`,
 * `replace` of one character, the substring test `in`, `rsplit(" ", 1)` and
 * the prefix slice `s[:m]`. Characters are restricted to ASCII: outside it no
 * character is alphanumeric or whitespace and lower-casing leaves it alone.
 */
module PyStr {

  /** `c.isspace()` for ASCII: space, the controls \t \n \v \f \r and the separators 0x1C-0x1F. */
  predicate IsSpace(c: char) {
    c == ' ' || ('\t' <= c <= '\r') || ('\U{1C}' <= c <= '\U{1F}')
  }

  predicate IsUpper(c: char) {
    'A' <= c <= 'Z'
  }

  /** `c.isalnum()` for ASCII. */
  predicate IsAlnum(c: char) {
    'a' <= c <= 'z' || 'A' <= c <= 'Z' || '0' <= c <= '9'
  }

  /** `c.lower()` for one ASCII character. */
  function LowerChar(c: char): (d: char)
    ensures !IsUpper(d)
    ensures !IsUpper(c) ==> d == c
    ensures IsAlnum(d) == IsAlnum(c) && IsSpace(d) == IsSpace(c)
  {
    if IsUpper(c) then (c as int + 32) as char else c
  }

  /** `s.lower()`: lower-cases every character and keeps the length. */
  function Lower(s: string): (r: string)
    ensures |r| == |s|
    ensures forall i :: 0 <= i < |s| ==> r[i] == LowerChar(s[i])
  {
    seq(|s|, i requires 0 <= i < |s| => LowerChar(s[i]))
  }

  lemma LowerConcat(a: string, b: string)
    ensures Lower(a + b) == Lower(a) + Lower(b)
  {
    assert forall i :: 0 <= i < |a + b| ==> Lower(a + b)[i] == (Lower(a) + Lower(b))[i];
  }

  /** Lower-casing twice is lower-casing once. */
  lemma LowerIdempotent(s: string)
    ensures Lower(Lower(s)) == Lower(s)
  {
  }

  /** A lower-cased string holds no upper-case letter. */
  lemma LowerHasNoUpper(s: string, c: char)
    requires c in Lower(s)
    ensures !IsUpper(c)
  {
  }

  /** A string without upper-case letters is its own lower-case form. */
  lemma LowerOfLower(s: string)
    requires forall k :: 0 <= k < |s| ==> !IsUpper(s[k])
    ensures Lower(s) == s
  {
  }

  // ---------------------------------------------------------------------------
  // Substring test: `needle in hay`

  /** needle occurs in hay starting at index i. */
  predicate OccursAt(hay: string, needle: string, i: int) {
    0 <= i <= |hay| - |needle| && hay[i..i + |needle|] == needle
  }

  /** `needle in hay`: needle occurs as a contiguous slice of hay (the empty string occurs everywhere). */
  predicate Contains(hay: string, needle: string) {
    exists i | 0 <= i <= |hay| - |needle| :: OccursAt(hay, needle, i)
  }

  /** Occurrence is transitive: what occurs in a occurs in every string a occurs in. */
  lemma ContainsTransitive(outer: string, a: string, needle: string)
    requires Contains(outer, a) && Contains(a, needle)
    ensures Contains(outer, needle)
  {
    var j :| OccursAt(outer, a, j);
    assert OccursAt(outer, a, j);
    var i :| OccursAt(a, needle, i);
    assert OccursAt(a, needle, i);
    forall t | 0 <= t < |needle|
      ensures outer[j + i..j + i + |needle|][t] == needle[t]
    {
      assert needle[t] == a[i..i + |needle|][t] == a[i + t];
      assert a[i + t] == outer[j..j + |a|][i + t];
    }
    assert OccursAt(outer, needle, j + i);
  }

  /** A needle holding a character the haystack lacks does not occur in it. */
  lemma NotContainsMissingChar(hay: string, needle: string, c: char)
    requires c in needle && c !in hay
    ensures !Contains(hay, needle)
  {
    var k :| 0 <= k < |needle| && needle[k] == c;
    forall i | 0 <= i <= |hay| - |needle|
      ensures !OccursAt(hay, needle, i)
    {
      assert hay[i..i + |needle|][k] != needle[k];
    }
  }

  // ---------------------------------------------------------------------------
  // Whitespace: `split()` and `strip()`

  predicate NoSpace(w: string) {
    forall k :: 0 <= k < |w| ==> !IsSpace(w[k])
  }

  /** The characters of s that are not whitespace, in order. */
  function RemoveSpace(s: string): (r: string)
    ensures |r| <= |s| && NoSpace(r)
  {
    if s == [] then [] else (if IsSpace(s[0]) then [] else [s[0]]) + RemoveSpace(s[1..])
  }

  lemma {:induction false} RemoveSpaceConcat(a: string, b: string)
    ensures RemoveSpace(a + b) == RemoveSpace(a) + RemoveSpace(b)
    decreases |a|
  {
    if a == [] {
      assert a + b == b;
    } else {
      assert (a + b)[1..] == a[1..] + b;
      RemoveSpaceConcat(a[1..], b);
    }
  }

  lemma {:induction false} RemoveSpaceOfNoSpace(w: string)
    requires NoSpace(w)
    ensures RemoveSpace(w) == w
    decreases |w|
  {
    if w != [] {
      RemoveSpaceOfNoSpace(w[1..]);
    }
  }

  /** Length of the longest prefix of s without whitespace. */
  function WordLen(s: string): (n: nat)
    ensures n <= |s| && NoSpace(s[..n])
    ensures n < |s| ==> IsSpace(s[n])
  {
    if s == [] || IsSpace(s[0]) then 0 else 1 + WordLen(s[1..])
  }

  /** The words of a split result: none is empty, none holds whitespace, each is made of characters of s. */
  predicate AreWords(words: seq<string>, s: string) {
    forall i :: 0 <= i < |words| ==>
      |words[i]| > 0 && NoSpace(words[i]) && forall k :: 0 <= k < |words[i]| ==> words[i][k] in s
  }

  /** `s.split()`: the maximal runs of non-whitespace characters, left to right. */
  function Split(s: string): (words: seq<string>)
    ensures AreWords(words, s)
    decreases |s|
  {
    if s == [] then []
    else if IsSpace(s[0]) then Split(s[1..])
    else
      var n := WordLen(s);
      [s[..n]] + Split(s[n..])
  }

  /** Concatenation of a list of strings, `"".join(words)`. */
  function Concat(words: seq<string>): string {
    if words == [] then [] else words[0] + Concat(words[1..])
  }

  lemma {:induction false} ConcatAppend(a: seq<string>, b: seq<string>)
    ensures Concat(a + b) == Concat(a) + Concat(b)
    decreases |a|
  {
    if a == [] {
      assert a + b == b;
    } else {
      assert (a + b)[1..] == a[1..] + b;
      ConcatAppend(a[1..], b);
    }
  }

  /** Splitting loses only whitespace: the words put back together are s without its whitespace. */
  lemma {:induction false} SplitKeepsText(s: string)
    ensures Concat(Split(s)) == RemoveSpace(s)
    decreases |s|
  {
    if s == [] {
    } else if IsSpace(s[0]) {
      SplitKeepsText(s[1..]);
    } else {
      var n := WordLen(s);
      assert s == s[..n] + s[n..];
      RemoveSpaceConcat(s[..n], s[n..]);
      RemoveSpaceOfNoSpace(s[..n]);
      SplitKeepsText(s[n..]);
      assert ([s[..n]] + Split(s[n..]))[1..] == Split(s[n..]);
    }
  }

  /** A whitespace character between two texts separates their words: split(x + sep + y) == split(x) + split(y). */
  lemma {:induction false} SplitJoin(x: string, sep: char, y: string)
    requires IsSpace(sep)
    ensures Split(x + [sep] + y) == Split(x) + Split(y)
    decreases |x|
  {
    var s := x + [sep] + y;
    if x == [] {
      assert s[1..] == y;
    } else if IsSpace(x[0]) {
      assert s[1..] == x[1..] + [sep] + y;
      SplitJoin(x[1..], sep, y);
    } else {
      var n := WordLen(x);
      WordLenJoin(x, [sep] + y);
      assert s == x + ([sep] + y);
      assert s[..n] == x[..n];
      assert s[n..] == x[n..] + [sep] + y;
      SplitJoin(x[n..], sep, y);
      assert [x[..n]] + Split(x[n..]) + Split(y) == [x[..n]] + (Split(x[n..]) + Split(y));
    }
  }

  /** A non-empty run without whitespace is split into itself alone, never into pieces. */
  lemma SplitOfWord(w: string)
    requires w != [] && NoSpace(w)
    ensures Split(w) == [w]
  {
    assert WordLen(w) == |w|;
    assert w[..|w|] == w && w[|w|..] == [];
  }

  /** The index of the last whitespace character of s, or -1 when it has none. */
  function LastSpace(s: string): (k: int)
    ensures -1 <= k < |s|
    ensures 0 <= k ==> IsSpace(s[k])
    ensures forall j :: k < j < |s| ==> !IsSpace(s[j])
  {
    if s == [] then -1
    else if IsSpace(s[|s| - 1]) then |s| - 1
    else LastSpace(s[..|s| - 1])
  }

  /** Cutting a text right before a whitespace character cuts its words in two. */
  lemma SplitBeforeSpace(x: string, y: string)
    requires y == [] || IsSpace(y[0])
    ensures Split(x + y) == Split(x) + Split(y)
  {
    if y == [] {
      assert x + y == x;
    } else {
      var rest := y[1..];
      assert x + y == x + [y[0]] + rest;
      SplitJoin(x, y[0], rest);
      assert y == [] + [y[0]] + rest;
      SplitJoin([], y[0], rest);
    }
  }

  /** Cutting a text right after a whitespace character cuts its words in two. */
  lemma SplitAfterSpace(x: string, y: string)
    requires x == [] || IsSpace(x[|x| - 1])
    ensures Split(x + y) == Split(x) + Split(y)
  {
    if x == [] {
      assert x + y == y;
    } else {
      var init, c := x[..|x| - 1], x[|x| - 1];
      assert x + y == init + [c] + y;
      SplitJoin(init, c, y);
      TrailingSpace(init, c);
      assert x == init + [c];
    }
  }

  /** Whitespace at the end adds no word. */
  lemma TrailingSpace(x: string, c: char)
    requires IsSpace(c)
    ensures Split(x + [c]) == Split(x)
  {
    SplitJoin(x, c, []);
    assert x + [c] + [] == x + [c];
    assert Split(x) + Split([]) == Split(x);
  }

  /** The first word of x + rest ends inside x when rest starts with whitespace. */
  lemma {:induction false} WordLenJoin(x: string, rest: string)
    requires rest != [] && IsSpace(rest[0])
    ensures WordLen(x + rest) == WordLen(x)
    decreases |x|
  {
    if x == [] {
      assert x + rest == rest;
    } else if !IsSpace(x[0]) {
      assert (x + rest)[1..] == x[1..] + rest;
      WordLenJoin(x[1..], rest);
    }
  }

  /** `s.lstrip()` with no argument. */
  function TrimLeft(s: string): (r: string)
    ensures |r| <= |s| && r == s[|s| - |r|..]
    ensures r == [] || !IsSpace(r[0])
    ensures RemoveSpace(r) == RemoveSpace(s)
  {
    if s != [] && IsSpace(s[0]) then TrimLeft(s[1..]) else s
  }

  /** `s.rstrip()` with no argument. */
  function TrimRight(s: string): (r: string)
    ensures |r| <= |s| && r == s[..|r|]
    ensures r == [] || !IsSpace(r[|r| - 1])
    ensures RemoveSpace(r) == RemoveSpace(s)
  {
    if s != [] && IsSpace(s[|s| - 1]) then
      var r := TrimRight(s[..|s| - 1]);
      assert s == s[..|s| - 1] + [s[|s| - 1]];
      RemoveSpaceConcat(s[..|s| - 1], [s[|s| - 1]]);
      r
    else s
  }

  /**
   * `s.strip()` with no argument: the contiguous slice of s that neither
   * starts nor ends with whitespace and has lost nothing of s but whitespace,
   * so only leading and trailing whitespace is removed.
   */
  function Strip(s: string): (r: string)
    ensures |r| <= |s|
    ensures r == [] || (!IsSpace(r[0]) && !IsSpace(r[|r| - 1]))
    ensures RemoveSpace(r) == RemoveSpace(s)
  {
    TrimRight(TrimLeft(s))
  }

  /** r occurs in s, character for character, starting at index a. */
  predicate SliceAt(r: string, s: string, a: int)
  {
    0 <= a && a + |r| <= |s| && r == s[a..a + |r|]
  }

  /** `strip()` removes whitespace only at the ends: the result is the slice of s after the leading whitespace. */
  lemma StripInPlace(s: string)
    ensures SliceAt(Strip(s), s, |s| - |TrimLeft(s)|)
  {
    PrefixOfSuffix(s, TrimLeft(s), TrimRight(TrimLeft(s)));
  }

  /** A prefix r of a suffix t of s is the slice of s that starts where t does. */
  lemma PrefixOfSuffix(s: string, t: string, r: string)
    requires |t| <= |s| && t == s[|s| - |t|..] && |r| <= |t| && r == t[..|r|]
    ensures SliceAt(r, s, |s| - |t|)
  {
    var a := |s| - |t|;
    forall i | 0 <= i < |r|
      ensures r[i] == s[a + i]
    {
      assert r[i] == t[i];
    }
  }

  /** `s.replace(a, b)` for one-character a and b. */
  function Replace(s: string, a: char, b: char): (r: string)
    ensures |r| == |s|
    ensures forall i :: 0 <= i < |s| ==> r[i] == if s[i] == a then b else s[i]
  {
    seq(|s|, i requires 0 <= i < |s| => if s[i] == a then b else s[i])
  }

  /** Stripping a string that has no whitespace at either end changes nothing. */
  lemma StripOfStripped(s: string)
    requires s == [] || (!IsSpace(s[0]) && !IsSpace(s[|s| - 1]))
    ensures Strip(s) == s
  {
    assert TrimLeft(s) == s;
  }

  /** Replacing a whitespace character by another whitespace character keeps the non-whitespace text. */
  lemma {:induction false} ReplaceSpaceKeepsText(s: string, a: char, b: char)
    requires IsSpace(a) && IsSpace(b)
    ensures RemoveSpace(Replace(s, a, b)) == RemoveSpace(s)
    decreases |s|
  {
    if s != [] {
      assert Replace(s, a, b)[1..] == Replace(s[1..], a, b);
      ReplaceSpaceKeepsText(s[1..], a, b);
    }
  }

  /** Replacement works piece by piece. */
  lemma ReplaceConcat(x: string, y: string, a: char, b: char)
    ensures Replace(x + y, a, b) == Replace(x, a, b) + Replace(y, a, b)
  {
    var whole, pieces := Replace(x + y, a, b), Replace(x, a, b) + Replace(y, a, b);
    forall i | 0 <= i < |x + y|
      ensures whole[i] == pieces[i]
    {
      if i < |x| {
        assert (x + y)[i] == x[i];
      } else {
        assert (x + y)[i] == y[i - |x|];
      }
    }
  }

  /**
   * r is the slice of s starting at index start, except that each a there
   * reads as b.
   */
  predicate ReplacedSliceAt(r: string, s: string, start: int, a: char, b: char)
  {
    0 <= start && start + |r| <= |s| &&
    forall i :: 0 <= i < |r| ==> r[i] == if s[start + i] == a then b else s[start + i]
  }

  /** Replacing within a slice of s is replacing at the matching positions of s. */
  lemma ReplaceOfSlice(s: string, start: int, t: string, a: char, b: char)
    requires SliceAt(t, s, start)
    ensures ReplacedSliceAt(Replace(t, a, b), s, start, a, b)
  {
    forall i | 0 <= i < |t|
      ensures t[i] == s[start + i]
    {
    }
  }

  /** Replacing a character that does not occur changes nothing. */
  lemma ReplaceAbsent(s: string, a: char, b: char)
    requires a !in s
    ensures Replace(s, a, b) == s
  {
  }

  // ---------------------------------------------------------------------------
  // Slicing and `rsplit(" ", 1)[0]`

  /** `s[:m]` for any integer m: a negative m counts from the end. */
  function PrefixSlice(s: string, m: int): (r: string)
    ensures r <= s
    ensures 0 <= m ==> |r| == if m <= |s| then m else |s|
    ensures m < 0 ==> |r| == if |s| + m < 0 then 0 else |s| + m
  {
    if 0 <= m then (if m <= |s| then s[..m] else s)
    else if |s| + m < 0 then [] else s[..|s| + m]
  }

  /** The index of the last occurrence of c in s, or -1 when c does not occur. */
  function LastIndex(s: string, c: char): (k: int)
    ensures -1 <= k < |s|
    ensures k == -1 ==> c !in s
    ensures 0 <= k ==> s[k] == c && c !in s[k + 1..]
  {
    if s == [] then -1
    else if s[|s| - 1] == c then |s| - 1
    else
      var k := LastIndex(s[..|s| - 1], c);
      assert s == s[..|s| - 1] + [s[|s| - 1]];
      k
  }

  /** `s.rsplit(" ", 1)[0]`: what comes before the last space, or s itself when it has none. */
  function BeforeLastSpace(s: string): (p: string)
    ensures p <= s
    ensures ' ' !in s ==> p == s
    ensures ' ' in s ==> |p| < |s| && s[|p|] == ' ' && ' ' !in s[|p| + 1..]
  {
    var k := LastIndex(s, ' ');
    if k < 0 then s else s[..k]
  }
}
