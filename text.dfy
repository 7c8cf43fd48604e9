/**
 * Characters and strings as the keyword extractor and the date sort see them:
 * Python's notion of whitespace, the Hangul syllable block, code-point
 * string comparison, whitespace splitting and substring search.
 */
module Text {

  /** A precomposed Hangul syllable, the character class `[가-힣]`. */
  predicate IsSyllable(c: char) {
    '가' <= c <= '힣'
  }

  /**
   * Python's Unicode whitespace (`str.isspace`): the set matched by `\s` in a
   * `str` regular expression and the separators of `str.split()`.
   */
  predicate IsSpace(c: char) {
    || '\t' <= c <= '\r'
    || '\U{1C}' <= c <= ' '
    || c == '\U{85}' || c == '\U{A0}' || c == '\U{1680}'
    || '\U{2000}' <= c <= '\U{200A}'
    || c == '\U{2028}' || c == '\U{2029}' || c == '\U{202F}' || c == '\U{205F}'
    || c == '\U{3000}'
  }

  predicate IsDigit(c: char) {
    '0' <= c <= '9'
  }

  /** Every character of `s` is a Hangul syllable. */
  predicate AllSyllables(s: string) {
    forall i :: 0 <= i < |s| ==> IsSyllable(s[i])
  }

  predicate NoSpace(s: string) {
    forall i :: 0 <= i < |s| ==> !IsSpace(s[i])
  }

  // ---------------------------------------------------------------------------
  // Python's `<` on `str`: lexicographic by code point, a proper prefix first.
  // ---------------------------------------------------------------------------

  predicate StrLess(a: string, b: string) {
    if a == [] then b != []
    else if b == [] then false
    else if a[0] == b[0] then StrLess(a[1..], b[1..])
    else a[0] < b[0]
  }

  lemma {:induction false} StrLessIrreflexive(a: string)
    ensures !StrLess(a, a)
  {
    if a != [] {
      StrLessIrreflexive(a[1..]);
    }
  }

  lemma {:induction false} StrLessAsymmetric(a: string, b: string)
    requires StrLess(a, b)
    ensures !StrLess(b, a)
  {
    if a != [] && b != [] && a[0] == b[0] {
      StrLessAsymmetric(a[1..], b[1..]);
    }
  }

  lemma {:induction false} StrLessTransitive(a: string, b: string, c: string)
    requires StrLess(a, b) && StrLess(b, c)
    ensures StrLess(a, c)
  {
    if a != [] && b != [] && c != [] && a[0] == b[0] && b[0] == c[0] {
      StrLessTransitive(a[1..], b[1..], c[1..]);
    }
  }

  lemma {:induction false} StrLessTotal(a: string, b: string)
    ensures a == b || StrLess(a, b) || StrLess(b, a)
  {
    if a != [] && b != [] && a[0] == b[0] {
      StrLessTotal(a[1..], b[1..]);
      if a[1..] == b[1..] {
        assert a == [a[0]] + a[1..] && b == [b[0]] + b[1..];
      }
    }
  }

  /** Comparing two strings that start with equally long parts compares those parts first. */
  lemma {:induction false} StrLessConcat(x1: string, y1: string, x2: string, y2: string)
    requires |x1| == |x2|
    ensures StrLess(x1 + y1, x2 + y2) <==> StrLess(x1, x2) || (x1 == x2 && StrLess(y1, y2))
  {
    if x1 == [] {
      assert x1 + y1 == y1 && x2 + y2 == y2;
    } else {
      assert (x1 + y1)[1..] == x1[1..] + y1 && (x2 + y2)[1..] == x2[1..] + y2;
      StrLessConcat(x1[1..], y1, x2[1..], y2);
      if x1[0] == x2[0] && x1[1..] == x2[1..] {
        assert x1 == [x1[0]] + x1[1..] && x2 == [x2[0]] + x2[1..];
      }
    }
  }

  // ---------------------------------------------------------------------------
  // Hangul cleaning and splitting
  // ---------------------------------------------------------------------------

  /** `re.sub(r'[^가-힣\s]', '', s)`: keep Hangul syllables and whitespace only. */
  function Clean(s: string): (r: string)
    ensures forall i :: 0 <= i < |r| ==> IsSyllable(r[i]) || IsSpace(r[i])
    ensures |r| <= |s|
  {
    if s == [] then []
    else (if IsSyllable(s[0]) || IsSpace(s[0]) then [s[0]] else []) + Clean(s[1..])
  }

  /** The characters of `s` that are not whitespace, in order. */
  function DropSpaces(s: string): string {
    if s == [] then []
    else (if IsSpace(s[0]) then [] else [s[0]]) + DropSpaces(s[1..])
  }

  /** Length of the leading run of non-whitespace characters. */
  function RunLength(s: string): (n: nat)
    ensures n <= |s|
    ensures NoSpace(s[..n])
    ensures n < |s| ==> IsSpace(s[n])
  {
    if s == [] || IsSpace(s[0]) then 0 else 1 + RunLength(s[1..])
  }

  /** `s.split()`: the maximal runs of non-whitespace characters, in order. */
  function Split(s: string): (ws: seq<string>)
    ensures forall i :: 0 <= i < |ws| ==> ws[i] != [] && NoSpace(ws[i])
    decreases |s|
  {
    if s == [] then []
    else if IsSpace(s[0]) then Split(s[1..])
    else
      var n := RunLength(s);
      [s[..n]] + Split(s[n..])
  }

  function Concat(ws: seq<string>): string {
    if ws == [] then [] else ws[0] + Concat(ws[1..])
  }

  /**
   * What `split()` promises: no token is empty or holds whitespace, and the
   * tokens put back together are the input with its whitespace removed.
   */
  lemma {:induction false} SplitSound(s: string)
    ensures forall i :: 0 <= i < |Split(s)| ==> Split(s)[i] != [] && NoSpace(Split(s)[i])
    ensures Concat(Split(s)) == DropSpaces(s)
    decreases |s|
  {
    if s == [] {
    } else if IsSpace(s[0]) {
      SplitSound(s[1..]);
    } else {
      var n := RunLength(s);
      SplitSound(s[n..]);
      DropSpacesAppend(s[..n], s[n..]);
      NoSpaceDropsNothing(s[..n]);
      assert s == s[..n] + s[n..];
      assert Split(s) == [s[..n]] + Split(s[n..]);
      assert Split(s)[1..] == Split(s[n..]);
    }
  }

  lemma {:induction false} DropSpacesAppend(a: string, b: string)
    ensures DropSpaces(a + b) == DropSpaces(a) + DropSpaces(b)
  {
    if a == [] {
      assert a + b == b;
    } else {
      assert (a + b)[1..] == a[1..] + b;
      DropSpacesAppend(a[1..], b);
    }
  }

  lemma {:induction false} NoSpaceDropsNothing(a: string)
    requires NoSpace(a)
    ensures DropSpaces(a) == a
  {
    if a != [] {
      NoSpaceDropsNothing(a[1..]);
    }
  }

  /** Every token of `Split(Clean(s))` is a non-empty run of Hangul syllables. */
  lemma {:induction false} CleanTokensAreSyllables(s: string)
    ensures forall i :: 0 <= i < |Split(Clean(s))| ==>
              |Split(Clean(s))[i]| >= 1 && AllSyllables(Split(Clean(s))[i])
  {
    var c := Clean(s);
    SplitSound(c);
    forall i | 0 <= i < |Split(c)|
      ensures AllSyllables(Split(c)[i])
    {
      TokensComeFromText(c, i);
    }
  }

  /** Each character of a token of `Split(s)` occurs in `s`. */
  lemma {:induction false} TokensComeFromText(s: string, i: nat)
    requires i < |Split(s)|
    ensures forall k :: 0 <= k < |Split(s)[i]| ==> Split(s)[i][k] in s
    decreases |s|
  {
    if s == [] {
    } else if IsSpace(s[0]) {
      TokensComeFromText(s[1..], i);
      assert forall c :: c in s[1..] ==> c in s;
    } else {
      var n := RunLength(s);
      if i > 0 {
        TokensComeFromText(s[n..], i - 1);
        assert forall c :: c in s[n..] ==> c in s;
      } else {
        assert forall c :: c in s[..n] ==> c in s;
      }
    }
  }

  /** A non-empty token followed by whitespace, or by nothing, is split off whole. */
  lemma SplitToken(w: string, rest: string)
    requires w != [] && NoSpace(w) && (rest == [] || IsSpace(rest[0]))
    ensures Split(w + rest) == [w] + Split(rest)
  {
    RunLengthOfToken(w, rest);
    assert (w + rest)[..|w|] == w && (w + rest)[|w|..] == rest;
  }

  lemma {:induction false} RunLengthOfToken(w: string, rest: string)
    requires NoSpace(w) && (rest == [] || IsSpace(rest[0]))
    ensures RunLength(w + rest) == |w|
  {
    if w == [] {
      assert w + rest == rest;
    } else {
      assert (w + rest)[1..] == w[1..] + rest;
      RunLengthOfToken(w[1..], rest);
    }
  }

  /** Leading whitespace is skipped by `split()`. */
  lemma SplitSpace(c: char, rest: string)
    requires IsSpace(c)
    ensures Split([c] + rest) == Split(rest)
  {
    assert ([c] + rest)[1..] == rest;
  }

  /** A non-empty run without whitespace is one token: `split()` never cuts a word. */
  lemma SplitWord(w: string)
    requires w != [] && NoSpace(w)
    ensures Split(w) == [w]
  {
    SplitToken(w, []);
    assert w + [] == w;
  }

  /**
   * A whitespace character separates: the tokens of `a + [c] + b` are those of
   * `a` followed by those of `b`. With `Split([]) == []` and `SplitWord` this
   * determines `split()` on every text.
   */
  lemma {:induction false} SplitAtSpace(a: string, c: char, b: string)
    requires IsSpace(c)
    ensures Split(a + [c] + b) == Split(a) + Split(b)
    decreases |a|
  {
    var s := a + [c] + b;
    if a == [] {
      assert s == [c] + b;
      SplitSpace(c, b);
    } else if IsSpace(a[0]) {
      assert s[1..] == a[1..] + [c] + b;
      SplitAtSpace(a[1..], c, b);
    } else {
      var n := RunLength(a);
      RunLengthOfPrefix(a, [c] + b);
      assert s == a + ([c] + b);
      assert s[..n] == a[..n];
      assert s[n..] == a[n..] + [c] + b;
      SplitAtSpace(a[n..], c, b);
    }
  }

  /** The leading run of `a` is the leading run of `a + x` when whitespace, or `x`, ends it. */
  lemma {:induction false} RunLengthOfPrefix(a: string, x: string)
    requires x == [] || IsSpace(x[0]) || RunLength(a) < |a|
    ensures RunLength(a + x) == RunLength(a)
  {
    if a == [] {
      assert a + x == x;
    } else if !IsSpace(a[0]) {
      assert (a + x)[1..] == a[1..] + x;
      RunLengthOfPrefix(a[1..], x);
    }
  }

  /** Cleaning removes every character that is neither a Hangul syllable nor whitespace. */
  lemma CleanDrops(c: char)
    requires !IsSyllable(c) && !IsSpace(c)
    ensures Clean([c]) == []
  {
    assert [c][1..] == [];
  }

  /** Cleaning works character by character, so it distributes over concatenation. */
  lemma {:induction false} CleanAppend(a: string, b: string)
    ensures Clean(a + b) == Clean(a) + Clean(b)
  {
    if a == [] {
      assert a + b == b;
    } else {
      assert (a + b)[1..] == a[1..] + b;
      CleanAppend(a[1..], b);
    }
  }

  /** Text made only of Hangul syllables and whitespace is left as it is by cleaning. */
  lemma {:induction false} CleanKeeps(s: string)
    requires forall i :: 0 <= i < |s| ==> IsSyllable(s[i]) || IsSpace(s[i])
    ensures Clean(s) == s
  {
    if s != [] {
      CleanKeeps(s[1..]);
    }
  }

  /** `sep.join(parts)`. */
  function Join(parts: seq<string>, sep: string): string {
    if parts == [] then []
    else if |parts| == 1 then parts[0]
    else parts[0] + sep + Join(parts[1..], sep)
  }

  /** The tokens of every part, cleaned and split separately, in order. */
  function TokensOf(parts: seq<string>): seq<string> {
    if parts == [] then [] else Split(Clean(parts[0])) + TokensOf(parts[1..])
  }

  /** Joining with a space never glues words of two parts: the joined text has the parts' own tokens. */
  lemma {:induction false} JoinTokens(parts: seq<string>)
    ensures Split(Clean(Join(parts, " "))) == TokensOf(parts)
  {
    if |parts| == 1 {
      assert TokensOf(parts) == Split(Clean(parts[0])) + [];
    } else if parts != [] {
      var p0, rest := parts[0], Join(parts[1..], " ");
      assert Join(parts, " ") == p0 + [' '] + rest;
      CleanAppend(p0 + [' '], rest);
      CleanAppend(p0, [' ']);
      CleanKeeps([' ']);
      SplitAtSpace(Clean(p0), ' ', Clean(rest));
      JoinTokens(parts[1..]);
    }
  }

  /** Parts that each clean to no token give no token together. */
  lemma {:induction false} NoTokens(parts: seq<string>)
    requires forall i :: 0 <= i < |parts| ==> Split(Clean(parts[i])) == []
    ensures TokensOf(parts) == []
  {
    if parts != [] {
      NoTokens(parts[1..]);
    }
  }

  /**
   * `w` occurs in `t`: `str.contains(w)` for a pattern made of Hangul
   * syllables, which has no regular-expression metacharacters and no case.
   */
  predicate Contains(t: string, w: string)
    ensures Contains(t, w) ==> |w| <= |t|
    ensures |w| == |t| ==> (Contains(t, w) <==> t == w)
  {
    assert t == w ==> OccursAt(t, w, 0);
    exists i | 0 <= i <= |t| - |w| :: OccursAt(t, w, i)
  }

  /** A text built around a word contains it. */
  lemma ContainsInside(a: string, w: string, b: string)
    ensures Contains(a + w + b, w)
  {
    assert OccursAt(a + w + b, w, |a|);
  }

  predicate OccursAt(t: string, w: string, i: int) {
    0 <= i <= |t| - |w| && t[i..i + |w|] == w
  }
}
