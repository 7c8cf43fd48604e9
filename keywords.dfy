/**
 * Top-word extraction for one day: clean the joined titles down to Hangul
 * syllables and whitespace, split into tokens, drop stopwords and one-letter
 * tokens, count with an insertion-ordered counter and take the most common
 * token, the first one encountered winning a tie.
 */
module Keywords {
  import opened Wrappers
  import opened Text

  // ---------------------------------------------------------------------------
  // Token filtering
  // ---------------------------------------------------------------------------

  /** A token survives the filter: not a stopword and longer than one character. */
  predicate Kept(w: string, stopwords: set<string>) {
    w !in stopwords && |w| > 1
  }

  /** `[w for w in ws if w not in stopwords and len(w) > 1]`. */
  function Filtered(ws: seq<string>, stopwords: set<string>): (r: seq<string>)
    ensures |r| <= |ws|
    ensures forall i :: 0 <= i < |r| ==> r[i] in ws && Kept(r[i], stopwords)
  {
    if ws == [] then []
    else (if Kept(ws[0], stopwords) then [ws[0]] else []) + Filtered(ws[1..], stopwords)
  }

  /** The filter keeps the tokens' order: filtering a concatenation filters each part in turn. */
  lemma {:induction false} FilteredAppend(a: seq<string>, b: seq<string>, stopwords: set<string>)
    ensures Filtered(a + b, stopwords) == Filtered(a, stopwords) + Filtered(b, stopwords)
  {
    if a == [] {
      assert a + b == b;
    } else {
      assert (a + b)[1..] == a[1..] + b;
      FilteredAppend(a[1..], b, stopwords);
    }
  }

  /** A single token is kept exactly when it survives. */
  lemma FilteredSingle(w: string, stopwords: set<string>)
    ensures Filtered([w], stopwords) == if Kept(w, stopwords) then [w] else []
  {
    assert [w][1..] == [];
  }

  /** The filter keeps exactly the surviving tokens, each as often as it occurs. */
  lemma {:induction false} FilteredCount(ws: seq<string>, stopwords: set<string>, w: string)
    ensures Count(Filtered(ws, stopwords), w) == if Kept(w, stopwords) then Count(ws, w) else 0
  {
    if ws != [] {
      FilteredCount(ws[1..], stopwords, w);
      CountCons(ws[0], ws[1..], w);
      var head := if Kept(ws[0], stopwords) then [ws[0]] else [];
      CountAppend(head, Filtered(ws[1..], stopwords), w);
      assert ws == [ws[0]] + ws[1..];
    }
  }

  // ---------------------------------------------------------------------------
  // Occurrences
  // ---------------------------------------------------------------------------

  /** How many times `w` occurs in `ws`. */
  function Count(ws: seq<string>, w: string): nat {
    if ws == [] then 0
    else Count(ws[..|ws| - 1], w) + (if ws[|ws| - 1] == w then 1 else 0)
  }

  lemma {:induction false} CountAppend(a: seq<string>, b: seq<string>, w: string)
    ensures Count(a + b, w) == Count(a, w) + Count(b, w)
    decreases |b|
  {
    if b == [] {
      assert a + b == a;
    } else {
      assert (a + b)[..|a + b| - 1] == a + b[..|b| - 1];
      CountAppend(a, b[..|b| - 1], w);
    }
  }

  lemma CountCons(x: string, ws: seq<string>, w: string)
    ensures Count([x] + ws, w) == (if x == w then 1 else 0) + Count(ws, w)
  {
    CountAppend([x], ws, w);
    assert [x][..0] == [];
  }

  lemma {:induction false} CountPositive(ws: seq<string>, w: string)
    ensures Count(ws, w) > 0 <==> w in ws
  {
    if ws != [] {
      CountPositive(ws[..|ws| - 1], w);
      assert ws == ws[..|ws| - 1] + [ws[|ws| - 1]];
    }
  }

  /** The position of the first occurrence of `w` in `ws`. */
  function FirstIndex(ws: seq<string>, w: string): (i: nat)
    requires w in ws
    ensures i < |ws| && ws[i] == w && w !in ws[..i]
  {
    if ws[0] == w then 0
    else
      var i := 1 + FirstIndex(ws[1..], w);
      assert ws[..i] == [ws[0]] + ws[1..][..i - 1];
      i
  }

  lemma FirstIndexUnique(ws: seq<string>, w: string, i: nat)
    requires i < |ws| && ws[i] == w && w !in ws[..i]
    ensures FirstIndex(ws, w) == i
  {
  }

  /** Appending a token leaves the first occurrence of every earlier token where it was. */
  lemma FirstIndexSnoc(init: seq<string>, x: string, w: string)
    requires w in init
    ensures FirstIndex(init + [x], w) == FirstIndex(init, w)
  {
    var f := FirstIndex(init, w);
    assert (init + [x])[..f] == init[..f];
    FirstIndexUnique(init + [x], w, f);
  }

  lemma FirstIndexSnocNew(init: seq<string>, x: string)
    requires x !in init
    ensures FirstIndex(init + [x], x) == |init|
  {
    assert (init + [x])[..|init|] == init;
    FirstIndexUnique(init + [x], x, |init|);
  }

  lemma CountSnoc(init: seq<string>, x: string, w: string)
    ensures Count(init + [x], w) == Count(init, w) + (if x == w then 1 else 0)
  {
    assert (init + [x])[..|init|] == init;
  }

  // ---------------------------------------------------------------------------
  // The insertion-ordered counter
  // ---------------------------------------------------------------------------

  /** One entry of a `Counter`: a token and how often it was seen. */
  datatype Entry = Entry(word: string, count: nat)

  function Words(t: seq<Entry>): (r: seq<string>)
    ensures |r| == |t| && forall i :: 0 <= i < |t| ==> r[i] == t[i].word
  {
    if t == [] then [] else [t[0].word] + Words(t[1..])
  }

  predicate DistinctWords(t: seq<Entry>) {
    forall i, j :: 0 <= i < j < |t| ==> t[i].word != t[j].word
  }

  /** Counting one more token: bump its entry, or append a new entry at the end. */
  function Bump(t: seq<Entry>, x: string): seq<Entry> {
    if t == [] then [Entry(x, 1)]
    else if t[0].word == x then [Entry(x, t[0].count + 1)] + t[1..]
    else [t[0]] + Bump(t[1..], x)
  }

  lemma {:induction false} BumpNew(t: seq<Entry>, x: string)
    requires x !in Words(t)
    ensures Bump(t, x) == t + [Entry(x, 1)]
  {
    if t != [] {
      assert Words(t)[1..] == Words(t[1..]);
      BumpNew(t[1..], x);
    }
  }

  lemma {:induction false} BumpSeen(t: seq<Entry>, x: string)
    requires DistinctWords(t) && x in Words(t)
    ensures |Bump(t, x)| == |t|
    ensures forall i :: 0 <= i < |t| ==> Bump(t, x)[i].word == t[i].word
    ensures forall i :: 0 <= i < |t| ==> Bump(t, x)[i].count == t[i].count + (if t[i].word == x then 1 else 0)
  {
    if t[0].word == x {
      forall i | 1 <= i < |t| ensures t[i].word != x {
        assert t[0].word != t[i].word;
      }
    } else {
      assert Words(t)[1..] == Words(t[1..]);
      BumpSeen(t[1..], x);
      var r := Bump(t[1..], x);
      assert Bump(t, x) == [t[0]] + r;
      forall i | 1 <= i < |t| ensures Bump(t, x)[i] == r[i - 1] && t[i] == t[1..][i - 1] {
      }
    }
  }

  /** `Counter(ws)`: feed the tokens one by one, in order. */
  function Tally(ws: seq<string>): seq<Entry> {
    if ws == [] then [] else Bump(Tally(ws[..|ws| - 1]), ws[|ws| - 1])
  }

  /**
   * What a Counter holds for `ws`: one entry per distinct token, with its
   * number of occurrences, in the order of first occurrence.
   */
  ghost predicate IsTally(t: seq<Entry>, ws: seq<string>) {
    && (forall i :: 0 <= i < |t| ==> t[i].word in ws && t[i].count == Count(ws, t[i].word))
    && (forall w :: w in ws ==> w in Words(t))
    && (forall i, j :: 0 <= i < j < |t| ==> FirstIndex(ws, t[i].word) < FirstIndex(ws, t[j].word))
  }

  lemma {:induction false} TallyCorrect(ws: seq<string>)
    ensures IsTally(Tally(ws), ws) && DistinctWords(Tally(ws))
  {
    if ws != [] {
      var init, x := ws[..|ws| - 1], ws[|ws| - 1];
      TallyCorrect(init);
      assert ws == init + [x];
      if x in Words(Tally(init)) {
        TallyStepSeen(init, x, Tally(init));
      } else {
        TallyStepNew(init, x, Tally(init));
      }
    }
  }

  lemma TallyStepSeen(init: seq<string>, x: string, t: seq<Entry>)
    requires IsTally(t, init) && DistinctWords(t) && x in Words(t)
    ensures IsTally(Bump(t, x), init + [x]) && DistinctWords(Bump(t, x))
  {
    BumpSeen(t, x);
    assert x in init by {
      var k :| 0 <= k < |t| && Words(t)[k] == x;
      assert t[k].word in init;
    }
    SeenCounts(init, x, t);
    SeenCovers(init, x, t);
    SeenOrder(init, x, t);
  }

  lemma SeenCounts(init: seq<string>, x: string, t: seq<Entry>)
    requires IsTally(t, init) && DistinctWords(t) && x in Words(t) && x in init
    ensures var r := Bump(t, x);
      forall i :: 0 <= i < |r| ==> r[i].word in init + [x] && r[i].count == Count(init + [x], r[i].word)
  {
    var r := Bump(t, x);
    BumpSeen(t, x);
    forall i | 0 <= i < |r| ensures r[i].word in init + [x] && r[i].count == Count(init + [x], r[i].word) {
      CountSnoc(init, x, r[i].word);
    }
  }

  lemma SeenCovers(init: seq<string>, x: string, t: seq<Entry>)
    requires IsTally(t, init) && DistinctWords(t) && x in Words(t) && x in init
    ensures forall w :: w in init + [x] ==> w in Words(Bump(t, x))
  {
    BumpSeen(t, x);
    assert Words(Bump(t, x)) == Words(t);
    forall w | w in init + [x] ensures w in Words(t) {
      if w != x {
        assert w in init;
      }
    }
  }

  lemma SeenOrder(init: seq<string>, x: string, t: seq<Entry>)
    requires IsTally(t, init) && DistinctWords(t) && x in Words(t)
    ensures var r := Bump(t, x);
      forall i, j :: 0 <= i < j < |r| && r[i].word in init + [x] && r[j].word in init + [x] ==>
        FirstIndex(init + [x], r[i].word) < FirstIndex(init + [x], r[j].word)
  {
    var r := Bump(t, x);
    BumpSeen(t, x);
    forall i, j | 0 <= i < j < |r| && r[i].word in init + [x] && r[j].word in init + [x]
      ensures FirstIndex(init + [x], r[i].word) < FirstIndex(init + [x], r[j].word)
    {
      FirstIndexSnoc(init, x, t[i].word);
      FirstIndexSnoc(init, x, t[j].word);
    }
  }

  lemma TallyStepNew(init: seq<string>, x: string, t: seq<Entry>)
    requires IsTally(t, init) && DistinctWords(t) && x !in Words(t)
    ensures IsTally(Bump(t, x), init + [x]) && DistinctWords(Bump(t, x))
  {
    BumpNew(t, x);
    assert x !in init;
    forall i | 0 <= i < |t| ensures t[i].word != x {
      assert Words(t)[i] == t[i].word;
    }
    NewCounts(init, x, t);
    NewCovers(init, x, t);
    NewOrder(init, x, t);
  }

  lemma NewCounts(init: seq<string>, x: string, t: seq<Entry>)
    requires IsTally(t, init) && x !in init
    requires forall i :: 0 <= i < |t| ==> t[i].word != x
    ensures var r := t + [Entry(x, 1)];
      forall i :: 0 <= i < |r| ==> r[i].word in init + [x] && r[i].count == Count(init + [x], r[i].word)
  {
    var r := t + [Entry(x, 1)];
    CountPositive(init, x);
    forall i | 0 <= i < |r| ensures r[i].word in init + [x] && r[i].count == Count(init + [x], r[i].word) {
      CountSnoc(init, x, r[i].word);
    }
  }

  lemma NewCovers(init: seq<string>, x: string, t: seq<Entry>)
    requires IsTally(t, init)
    ensures forall w :: w in init + [x] ==> w in Words(t + [Entry(x, 1)])
  {
    assert Words(t + [Entry(x, 1)]) == Words(t) + [x];
    forall w | w in init + [x] ensures w in Words(t) + [x] {
      if w != x {
        assert w in init;
      }
    }
  }

  lemma NewOrder(init: seq<string>, x: string, t: seq<Entry>)
    requires IsTally(t, init) && x !in init
    requires forall i :: 0 <= i < |t| ==> t[i].word != x
    ensures var r := t + [Entry(x, 1)];
      forall i, j :: 0 <= i < j < |r| && r[i].word in init + [x] && r[j].word in init + [x] ==>
        FirstIndex(init + [x], r[i].word) < FirstIndex(init + [x], r[j].word)
  {
    var r := t + [Entry(x, 1)];
    FirstIndexSnocNew(init, x);
    forall i, j | 0 <= i < j < |r| && r[i].word in init + [x] && r[j].word in init + [x]
      ensures FirstIndex(init + [x], r[i].word) < FirstIndex(init + [x], r[j].word)
    {
      FirstIndexSnoc(init, x, t[i].word);
      if j < |t| {
        FirstIndexSnoc(init, x, t[j].word);
      }
    }
  }

  /** `max(entries, key=count)`: the first entry whose count is largest. */
  function MaxEntry(t: seq<Entry>): (b: nat)
    requires |t| > 0
    ensures b < |t|
    ensures forall j :: 0 <= j < |t| ==> t[j].count <= t[b].count
    ensures forall j :: 0 <= j < b ==> t[j].count < t[b].count
  {
    if |t| == 1 then 0
    else
      var b0 := MaxEntry(t[..|t| - 1]);
      if t[|t| - 1].count > t[b0].count then |t| - 1 else b0
  }

  /**
   * `Counter(ws).most_common(1)`: nothing for no tokens; otherwise a token
   * with the largest count, every token met before its first occurrence
   * having a strictly smaller count.
   */
  function MostCommon(ws: seq<string>): (r: Option<string>)
    ensures r.None? <==> ws == []
    ensures r.Some? ==> r.value in ws
    ensures r.Some? ==> forall u :: u in ws ==> Count(ws, u) <= Count(ws, r.value)
    ensures r.Some? ==> forall j :: 0 <= j < FirstIndex(ws, r.value) ==> Count(ws, ws[j]) < Count(ws, r.value)
  {
    TallyCorrect(ws);
    var t := Tally(ws);
    if t == [] then
      assert ws != [] ==> ws[0] in Words(t);
      None
    else
      var b := MaxEntry(t);
      MostCommonIsFirstMaximum(ws, t, b);
      Some(t[b].word)
  }

  /**
   * The most common token is fully determined by the counts: a token with the
   * largest count, all of whose predecessors count strictly less, is it.
   */
  lemma MostCommonUnique(ws: seq<string>, w: string)
    requires w in ws
    requires forall u :: u in ws ==> Count(ws, u) <= Count(ws, w)
    requires forall j :: 0 <= j < FirstIndex(ws, w) ==> Count(ws, ws[j]) < Count(ws, w)
    ensures MostCommon(ws) == Some(w)
  {
    var r := MostCommon(ws).value;
    var fr, fw := FirstIndex(ws, r), FirstIndex(ws, w);
    var atR, atW := ws[fr], ws[fw];
    assert fr < fw ==> Count(ws, atR) < Count(ws, w);
    assert fw < fr ==> Count(ws, atW) < Count(ws, r);
  }

  lemma MostCommonIsFirstMaximum(ws: seq<string>, t: seq<Entry>, b: nat)
    requires IsTally(t, ws) && b < |t|
    requires forall j :: 0 <= j < |t| ==> t[j].count <= t[b].count
    requires forall j :: 0 <= j < b ==> t[j].count < t[b].count
    ensures forall u :: u in ws ==> Count(ws, u) <= Count(ws, t[b].word)
    ensures forall j :: 0 <= j < FirstIndex(ws, t[b].word) ==> Count(ws, ws[j]) < Count(ws, t[b].word)
  {
    var w := t[b].word;
    forall u | u in ws ensures Count(ws, u) <= Count(ws, w) {
      var k :| 0 <= k < |t| && Words(t)[k] == u;
    }
    forall j | 0 <= j < FirstIndex(ws, w) ensures Count(ws, ws[j]) < Count(ws, w) {
      EarlierTokenCount(ws, t, b, j);
    }
  }

  /** A token met before the maximum's first occurrence belongs to an earlier entry. */
  lemma EarlierTokenCount(ws: seq<string>, t: seq<Entry>, b: nat, j: nat)
    requires IsTally(t, ws) && b < |t|
    requires forall j :: 0 <= j < b ==> t[j].count < t[b].count
    requires j < FirstIndex(ws, t[b].word)
    ensures Count(ws, ws[j]) < Count(ws, t[b].word)
  {
    var w, u := t[b].word, ws[j];
    var fw := FirstIndex(ws, w);
    assert u in ws;
    var k :| 0 <= k < |t| && Words(t)[k] == u;
    assert t[k].word == u;
    FirstIndexAtMost(ws, u, j);
    assert u != w by {
      assert ws[..fw][j] == u;
    }
    TallyOrderReflects(ws, t, k, b);
  }

  lemma {:induction false} FirstIndexAtMost(ws: seq<string>, w: string, j: nat)
    requires j < |ws| && ws[j] == w
    ensures FirstIndex(ws, w) <= j
  {
    if ws[0] != w {
      FirstIndexAtMost(ws[1..], w, j - 1);
    }
  }

  /** Entries of a tally are ordered as their tokens' first occurrences. */
  lemma TallyOrderReflects(ws: seq<string>, t: seq<Entry>, k: nat, b: nat)
    requires IsTally(t, ws) && k < |t| && b < |t|
    requires FirstIndex(ws, t[k].word) < FirstIndex(ws, t[b].word)
    ensures k < b
  {
  }

  // ---------------------------------------------------------------------------
  // From the day's titles to its top word
  // ---------------------------------------------------------------------------

  /**
   * `astype(str)` of a title cell: a present title is its own text, and a
   * missing one becomes "nan", which cleaning removes entirely.
   */
  function TitleText(title: Option<string>): (t: string)
    ensures title.Some? ==> t == title.value
    ensures title.None? ==> Clean(t) == []
  {
    match title
    case None => NanCleansAway(); "nan"
    case Some(s) => s
  }

  lemma NanCleansAway()
    ensures Clean("nan") == []
  {
    CleanDrops('n');
    CleanDrops('a');
    CleanAppend(['n'], ['a']);
    CleanAppend(['n', 'a'], ['n']);
    assert "nan" == ['n', 'a'] + ['n'];
  }

  function TitleTexts(titles: seq<Option<string>>): seq<string> {
    seq(|titles|, i requires 0 <= i < |titles| => TitleText(titles[i]))
  }

  /** `' '.join(group['title'].astype(str))`. */
  function JoinedTitles(titles: seq<Option<string>>): string {
    Join(TitleTexts(titles), " ")
  }

  /**
   * The day's tokens are the titles' own tokens in row order: the joining
   * space never glues two titles' words, and a missing title adds none.
   */
  lemma JoinedTitlesTokens(titles: seq<Option<string>>)
    ensures Split(Clean(JoinedTitles(titles))) == TokensOf(TitleTexts(titles))
    ensures forall i :: 0 <= i < |titles| && titles[i].None? ==> Split(Clean(TitleTexts(titles)[i])) == []
  {
    JoinTokens(TitleTexts(titles));
  }

  /** The tokens that the day's counter sees, in order. */
  function Candidates(titles: seq<Option<string>>, stopwords: set<string>): seq<string> {
    Filtered(Split(Clean(JoinedTitles(titles))), stopwords)
  }

  /** The day's `top_word`: the most common candidate, or "" when none survives. */
  function TopWord(titles: seq<Option<string>>, stopwords: set<string>): (w: string)
    ensures w == "" <==> Candidates(titles, stopwords) == []
    ensures w != "" ==> w in Candidates(titles, stopwords) && |w| >= 2 && AllSyllables(w) && w !in stopwords
    ensures w != "" ==> var ws := Candidates(titles, stopwords);
      && (forall u :: u in ws ==> Count(ws, u) <= Count(ws, w))
      && (forall j :: 0 <= j < FirstIndex(ws, w) ==> Count(ws, ws[j]) < Count(ws, w))
  {
    var ws := Candidates(titles, stopwords);
    CandidatesShape(titles, stopwords);
    match MostCommon(ws)
    case None => ""
    case Some(w) => w
  }

  /** Every candidate is a Hangul-only token of at least two syllables that is not a stopword. */
  lemma CandidatesShape(titles: seq<Option<string>>, stopwords: set<string>)
    ensures forall w :: w in Candidates(titles, stopwords) ==>
              |w| >= 2 && AllSyllables(w) && w !in stopwords
  {
    var tokens := Split(Clean(JoinedTitles(titles)));
    CleanTokensAreSyllables(JoinedTitles(titles));
    forall w | w in Candidates(titles, stopwords)
      ensures |w| >= 2 && AllSyllables(w) && w !in stopwords
    {
      CountPositive(Candidates(titles, stopwords), w);
      FilteredCount(tokens, stopwords, w);
      CountPositive(tokens, w);
      var k :| 0 <= k < |tokens| && tokens[k] == w;
    }
  }

  // ---------------------------------------------------------------------------
  // Stopwords that can never match
  // ---------------------------------------------------------------------------

  /** The stopwords that some token could equal: Hangul-only and at least two syllables long. */
  function Matchable(stopwords: set<string>): set<string> {
    set w | w in stopwords && |w| > 1 && AllSyllables(w)
  }

  /**
   * Stopwords holding jamo, digits, Latin letters or spaces, and one-letter
   * stopwords, never remove a token: filtering with the matchable part alone
   * gives the same candidates.
   */
  lemma {:induction false} OnlyMatchableStopwordsMatter(ws: seq<string>, stopwords: set<string>)
    requires forall i :: 0 <= i < |ws| ==> AllSyllables(ws[i])
    ensures Filtered(ws, stopwords) == Filtered(ws, Matchable(stopwords))
  {
    if ws != [] {
      OnlyMatchableStopwordsMatter(ws[1..], stopwords);
      assert Kept(ws[0], stopwords) <==> Kept(ws[0], Matchable(stopwords));
    }
  }

  lemma CandidatesIgnoreUnmatchableStopwords(titles: seq<Option<string>>, stopwords: set<string>)
    ensures Candidates(titles, stopwords) == Candidates(titles, Matchable(stopwords))
  {
    CleanTokensAreSyllables(JoinedTitles(titles));
    OnlyMatchableStopwordsMatter(Split(Clean(JoinedTitles(titles))), stopwords);
  }
}
