/**
 * Small worked tables and what each run writes for them, computed in full:
 * a confident positive title, a day of low-confidence untitled records, a
 * lone Sunday record, a title whose top word it no longer contains, and an
 * empty table.
 */
module Scenarios {
  import opened Wrappers
  import opened Text
  import opened Calendar
  import opened Keywords
  import opened Sentiment
  import opened Stopwords
  import opened DailyPipeline
  import opened Conversion

  /** US-Eastern time with no daylight saving in force: 14 hours behind Seoul. */
  function Standard(): Timestamp -> Option<Timestamp> {
    SeoulToEastern(t => false)
  }

  // ---------------------------------------------------------------------------
  // Calendar facts used below
  // ---------------------------------------------------------------------------

  lemma YearText()
    ensures Pad(2024, 4) == "2024"
  {
    assert Pad(0, 0) == "";
    assert Pad(2, 1) == "2";
    assert Pad(20, 2) == "20";
    assert Pad(202, 3) == "202";
  }

  lemma DayTexts()
    ensures Pad(1, 2) == "01" && Pad(2, 2) == "02"
  {
    assert Pad(0, 0) == "";
    assert Pad(0, 1) == "0";
  }

  lemma DateTexts()
    ensures DateString(Date(2024, 1, 1)) == "2024-01-01"
    ensures DateString(Date(2024, 1, 2)) == "2024-01-02"
  {
    YearText();
    DayTexts();
  }

  /** 2024-01-01 is a Monday, 2024-01-02 a Tuesday and 2024-01-07 a Sunday. */
  lemma Weekdays()
    ensures Valid(Date(2024, 1, 1)) && Weekday(Date(2024, 1, 1)) == 0
    ensures Valid(Date(2024, 1, 2)) && Weekday(Date(2024, 1, 2)) == 1
    ensures Valid(Date(2024, 1, 7)) && Weekday(Date(2024, 1, 7)) == 6
  {
  }

  // ---------------------------------------------------------------------------
  // Grouping and title facts
  // ---------------------------------------------------------------------------

  /** When every record falls on `d`, the group of `d` is the whole table. */
  lemma {:induction false} WholeTableGroup(rs: seq<Record>, days: seq<Date>, d: Date)
    requires |rs| == |days|
    requires forall i :: 0 <= i < |days| ==> days[i] == d
    ensures Group(rs, days, d) == rs
  {
    if rs != [] {
      var n := |rs| - 1;
      WholeTableGroup(rs[..n], days[..n], d);
      assert rs[..n] + [rs[n]] == rs;
    }
  }

  /** A day column that holds only `d` groups under the single key `d`. */
  lemma {:induction false} ConstantDays(days: seq<Date>, d: Date)
    requires days != []
    requires forall i :: 0 <= i < |days| ==> days[i] == d
    ensures GroupDays(days) == [d]
  {
    var init := days[..|days| - 1];
    if init != [] {
      ConstantDays(init, d);
    }
  }

  /**
   * A table whose records all fall on one day `d`: the run writes that day's
   * row alone, or, when `d` is excluded, stops before writing.
   */
  lemma OneDayRun(rs: seq<Record>, p: Profile, d: Date)
    requires Admissible(rs, p) && rs != [] && Valid(d)
    requires forall i :: 0 <= i < |rs| ==> BucketDay(p.bucketing, rs[i].time) == d
    ensures !Excluded(p, d) ==> DailyRows(rs, p) == Ok([DayRow(d, Relabeled(rs, p.threshold), p)])
    ensures Excluded(p, d) ==> DailyRows(rs, p) == Err(NoDateColumn)
  {
    var days := BucketDays(rs, p.bucketing);
    var relabeled := Relabeled(rs, p.threshold);
    ConstantDays(days, d);
    WholeTableGroup(relabeled, days, d);
    assert [d][..0] == [];
    var row := DayRow(d, relabeled, p);
    assert Results(relabeled, days, [d], p) == if Excluded(p, d) then [] else [row];
    assert SortByDate([row]) == [row];
  }

  /** A missing title is written as "nan". */
  lemma MissingTitlesText()
    ensures JoinedTitles([None, None]) == "nan nan"
  {
    assert seq(2, i requires 0 <= i < 2 => TitleText([None, None][i])) == ["nan", "nan"];
    assert Join(["nan"], " ") == "nan";
  }

  /** Titles that are all missing read "nan", which has no Hangul, so there is no top word. */
  lemma MissingTitlesHaveNoTopWord(titles: seq<Option<string>>, stopwords: set<string>)
    requires forall i :: 0 <= i < |titles| ==> titles[i].None?
    ensures TopWord(titles, stopwords) == ""
  {
    JoinedTitlesTokens(titles);
    NoTokens(TitleTexts(titles));
    assert Candidates(titles, stopwords) == Filtered([], stopwords);
  }

  // ---------------------------------------------------------------------------
  // A confident positive title (2024-01-02, a Tuesday)
  // ---------------------------------------------------------------------------

  function GoodNews(): seq<Record> {
    [Record(Timestamp(Date(2024, 1, 2), 9 * 60), 0.9, 1, Some("좋은 소식 입니다"))]
  }

  lemma SplitLastToken()
    ensures Split([' '] + "입니다") == ["입니다"]
  {
    assert "입니다" + [] == "입니다";
    SplitToken("입니다", []);
    SplitSpace(' ', "입니다");
  }

  lemma SplitMiddleTokens()
    ensures Split([' '] + ("소식" + ([' '] + "입니다"))) == ["소식", "입니다"]
  {
    SplitLastToken();
    SplitToken("소식", [' '] + "입니다");
    SplitSpace(' ', "소식" + ([' '] + "입니다"));
  }

  lemma GoodNewsSplit()
    ensures Split("좋은 소식 입니다") == ["좋은", "소식", "입니다"]
  {
    var rest := [' '] + ("소식" + ([' '] + "입니다"));
    assert "좋은 소식 입니다" == "좋은" + rest;
    SplitMiddleTokens();
    SplitToken("좋은", rest);
  }

  lemma GoodNewsFiltered()
    ensures Filtered(["좋은", "소식", "입니다"], NegativeStopwords) == ["좋은", "소식", "입니다"]
  {
    assert Kept("좋은", NegativeStopwords);
    assert Kept("소식", NegativeStopwords);
    assert Kept("입니다", NegativeStopwords);
    var ws := ["좋은", "소식", "입니다"];
    assert ws[1..] == ["소식", "입니다"] && ws[1..][1..] == ["입니다"] && ws[1..][1..][1..] == [];
    assert Filtered(["입니다"], NegativeStopwords) == ["입니다"];
    assert Filtered(["소식", "입니다"], NegativeStopwords) == ["소식", "입니다"];
  }

  lemma GoodNewsText()
    ensures Clean(JoinedTitles([Some("좋은 소식 입니다")])) == "좋은 소식 입니다"
  {
    var t := "좋은 소식 입니다";
    assert seq(1, i requires 0 <= i < 1 => TitleText([Some(t)][i])) == [t];
    CleanKeeps(t);
  }

  /** The tokens the counter sees for the title. */
  lemma GoodNewsCandidates()
    ensures Candidates([Some("좋은 소식 입니다")], NegativeStopwords) == ["좋은", "소식", "입니다"]
  {
    GoodNewsText();
    GoodNewsSplit();
    GoodNewsFiltered();
  }

  lemma GoodNewsCounts()
    ensures var ws := ["좋은", "소식", "입니다"];
      Count(ws, "좋은") == 1 && Count(ws, "소식") == 1 && Count(ws, "입니다") == 1
  {
    var ws := ["좋은", "소식", "입니다"];
    assert ws[..2] == ["좋은", "소식"] && ws[..2][..1] == ["좋은"] && ws[..2][..1][..0] == [];
    assert Count([], "좋은") == 0 && Count([], "소식") == 0 && Count([], "입니다") == 0;
    assert Count(["좋은"], "좋은") == 1 && Count(["좋은"], "소식") == 0 && Count(["좋은"], "입니다") == 0;
    assert Count(["좋은", "소식"], "좋은") == 1 && Count(["좋은", "소식"], "소식") == 1;
    assert Count(["좋은", "소식"], "입니다") == 0;
  }

  /** Three tokens seen once each: the counter's first entry wins the tie. */
  lemma GoodNewsTopWord()
    ensures TopWord([Some("좋은 소식 입니다")], NegativeStopwords) == "좋은"
  {
    var ws := ["좋은", "소식", "입니다"];
    GoodNewsCandidates();
    GoodNewsCounts();
  }

  lemma GoodNewsRatio()
    ensures Ratio(GoodNews(), 0) == 0.0
  {
    var rs := GoodNews();
    assert rs[1..] == [];
    assert TotalWeight(rs) == 0.9;
    assert PolarityWeight(rs, 0) == 0.0;
  }

  /** The only record mentions the top word, so its title is the strongest. */
  lemma GoodNewsStrongest()
    ensures StrongestTitle(GoodNews(), "좋은") == "좋은 소식 입니다"
  {
    var rs := GoodNews();
    assert OccursAt("좋은 소식 입니다", "좋은", 0);
    assert Mentions(rs[0], "좋은");
  }

  lemma GoodNewsRow()
    ensures DayRow(Date(2024, 1, 2), GoodNews(), NegativeProfile())
            == DailyRow("2024-01-02", 0.0, "좋은", "좋은 소식 입니다")
  {
    assert Titles(GoodNews()) == [Some("좋은 소식 입니다")];
    GoodNewsTopWord();
    GoodNewsRatio();
    GoodNewsStrongest();
    DateTexts();
  }

  /**
   * The negative run on the confident positive title: the day is written with
   * ratio 0, the title's first token as top word and the title itself as the
   * strongest title.
   */
  lemma ScenarioGoodNewsNegative()
    ensures DailyRows(GoodNews(), NegativeProfile())
            == Ok([DailyRow("2024-01-02", 0.0, "좋은", "좋은 소식 입니다")])
  {
    var rs := GoodNews();
    assert Relabeled(rs, 0.7) == rs;
    OneDayRun(rs, NegativeProfile(), Date(2024, 1, 2));
    GoodNewsRow();
  }

  // ---------------------------------------------------------------------------
  // Two low-confidence untitled records
  // ---------------------------------------------------------------------------

  /** Two records of 2024-01-02 (Seoul) at 10:00 and 11:40, both at confidence 0.5 and labelled 1, untitled. */
  function LowPair(): seq<Record> {
    [Record(Timestamp(Date(2024, 1, 2), 600), 0.5, 1, None), Record(Timestamp(Date(2024, 1, 2), 700), 0.5, 1, None)]
  }

  lemma LowPairRatios()
    ensures Ratio(Relabeled(LowPair(), 0.7), 0) == 100.0
    ensures Ratio(Relabeled(LowPair(), 0.75), 1) == 0.0
  {
    var rs := LowPair();
    var g := [rs[0].(sentiment := 0), rs[1].(sentiment := 0)];
    assert Relabeled(rs, 0.7) == g;
    assert Relabeled(rs, 0.75) == g;
    assert g[1..] == [g[1]] && [g[1]][1..] == [];
    assert TotalWeight([g[1]]) == 0.5;
    assert PolarityWeight([g[1]], 0) == 0.5;
    assert PolarityWeight([g[1]], 1) == 0.0;
  }

  /** The relabelled pair carries no titles and, at either threshold, only label 0. */
  lemma LowPairRelabeled(threshold: real)
    requires threshold == 0.7 || threshold == 0.75
    ensures Titles(Relabeled(LowPair(), threshold)) == [None, None]
    ensures Relabeled(LowPair(), threshold) == [LowPair()[0].(sentiment := 0), LowPair()[1].(sentiment := 0)]
  {
  }

  /** The row of the pair's day under either run: no top word, no title, and all the weight on label 0. */
  lemma LowPairRow(p: Profile, d: Date)
    requires Valid(d)
    requires (p.threshold == 0.7 && p.polarity == 0) || (p.threshold == 0.75 && p.polarity == 1)
    ensures DayRow(d, Relabeled(LowPair(), p.threshold), p)
            == DailyRow(DateString(d), if p.polarity == 0 then 100.0 else 0.0, "", "")
  {
    LowPairRelabeled(p.threshold);
    MissingTitlesHaveNoTopWord([None, None], p.stopwords);
    LowPairRatios();
  }

  /**
   * The negative run counts relabelled records as negative: a day of only
   * low-confidence records reports 100, not 0.
   */
  lemma ScenarioLowPairNegative()
    ensures DailyRows(LowPair(), NegativeProfile()) == Ok([DailyRow("2024-01-02", 100.0, "", "")])
  {
    var rs := LowPair();
    var p := NegativeProfile();
    var relabeled := Relabeled(rs, 0.7);
    OneDayRun(rs, p, Date(2024, 1, 2));
    LowPairRow(p, Date(2024, 1, 2));
    DateTexts();
  }

  /** Both Seoul mornings of the pair are on Monday 2024-01-01 in the East. */
  lemma LowPairEasternDay()
    ensures forall i :: 0 <= i < |LowPair()| ==> BucketDay(Converted(Standard()), LowPair()[i].time) == Date(2024, 1, 1)
  {
    var d := Date(2024, 1, 1);
    var rs := LowPair();
    assert PrevDay(Date(2024, 1, 2)) == d;
    assert Standard()(rs[0].time) == SeoulToEasternAt(rs[0].time, false) == Some(Timestamp(d, 600 + 10 * 60));
    assert Standard()(rs[1].time) == SeoulToEasternAt(rs[1].time, false) == Some(Timestamp(d, 700 + 10 * 60));
  }

  /**
   * The positive run on the same records: both Seoul mornings fall on the
   * previous Eastern day, a Monday, which reports 0.
   */
  lemma ScenarioLowPairPositive()
    ensures Admissible(LowPair(), PositiveProfile(Standard()))
    ensures DailyRows(LowPair(), PositiveProfile(Standard())) == Ok([DailyRow("2024-01-01", 0.0, "", "")])
  {
    var d := Date(2024, 1, 1);
    var rs := LowPair();
    var p := PositiveProfile(Standard());
    SeoulToEasternKeepsValid(t => false);
    LowPairEasternDay();
    Weekdays();
    OneDayRun(rs, p, d);
    LowPairRow(p, d);
    DateTexts();
  }

  // ---------------------------------------------------------------------------
  // A lone Sunday record
  // ---------------------------------------------------------------------------

  /** One record of Sunday 2024-01-07, 06:00 in the East (20:00 in Seoul). */
  function LoneSunday(): seq<Record> {
    [Record(Timestamp(Date(2024, 1, 7), 20 * 60), 0.9, 1, Some("좋은 소식"))]
  }

  /** The positive run drops the only day, builds no rows, and stops before writing. */
  lemma ScenarioLoneSundayPositive()
    ensures Admissible(LoneSunday(), PositiveProfile(Standard()))
    ensures DailyRows(LoneSunday(), PositiveProfile(Standard())) == Err(NoDateColumn)
  {
    var d := Date(2024, 1, 7);
    var rs := LoneSunday();
    SeoulToEasternKeepsValid(t => false);
    assert Standard()(rs[0].time) == SeoulToEasternAt(rs[0].time, false) == Some(Timestamp(d, 6 * 60));
    Weekdays();
    OneDayRun(rs, PositiveProfile(Standard()), d);
  }

  // ---------------------------------------------------------------------------
  // A title that loses its top word to cleaning
  // ---------------------------------------------------------------------------

  /** Cleaning drops the Latin letter of `좋은A소식`. */
  lemma StrippedClean()
    ensures Clean("좋은A소식") == "좋은소식"
  {
    assert "좋은A소식" == "좋은" + ("A" + "소식");
    CleanAppend("좋은", "A" + "소식");
    CleanKeeps("좋은");
    StrippedLetter();
    assert "좋은" + "소식" == "좋은소식";
  }

  lemma StrippedLetter()
    ensures Clean("A" + "소식") == "소식"
  {
    CleanAppend("A", "소식");
    CleanKeeps("소식");
    assert Clean("A") == [];
    assert [] + "소식" == "소식";
  }

  lemma StrippedSplit()
    ensures Split("좋은소식") == ["좋은소식"]
  {
    assert "좋은소식" + [] == "좋은소식";
    SplitToken("좋은소식", []);
  }

  lemma StrippedJoined()
    ensures JoinedTitles([Some("좋은A소식")]) == "좋은A소식"
  {
    assert seq(1, i requires 0 <= i < 1 => TitleText([Some("좋은A소식")][i])) == ["좋은A소식"];
  }

  lemma StrippedText()
    ensures Clean(JoinedTitles([Some("좋은A소식")])) == "좋은소식"
  {
    StrippedJoined();
    StrippedClean();
  }

  lemma StrippedKept()
    ensures Filtered(["좋은소식"], NegativeStopwords) == ["좋은소식"]
  {
    assert Kept("좋은소식", NegativeStopwords);
  }

  /** `좋은A소식` cleans to the single token `좋은소식`. */
  lemma StrippedCandidates()
    ensures Candidates([Some("좋은A소식")], NegativeStopwords) == ["좋은소식"]
  {
    StrippedText();
    StrippedSplit();
    StrippedKept();
  }

  /** The one candidate is the top word. */
  lemma StrippedTopWord()
    ensures TopWord([Some("좋은A소식")], NegativeStopwords) == "좋은소식"
  {
    StrippedCandidates();
    assert MostCommon(["좋은소식"]).value in ["좋은소식"];
  }

  /** The top word `좋은소식` does not occur in the raw title `좋은A소식`, so no strongest title is reported. */
  lemma StrippedStrongest()
    ensures StrongestTitle([Record(Timestamp(Date(2024, 1, 2), 0), 0.9, 1, Some("좋은A소식"))], "좋은소식") == ""
  {
    var t := "좋은A소식";
    var w := "좋은소식";
    assert t[0..4] != w by { assert t[2] != w[2]; }
    assert t[1..5] != w by { assert t[1] != w[0]; }
    assert !Contains(t, w);
  }

  // ---------------------------------------------------------------------------
  // An empty table
  // ---------------------------------------------------------------------------

  /** With no records there are no rows, so neither run writes anything. */
  lemma ScenarioEmptyTable(p: Profile)
    requires KeepsValid(p.bucketing)
    ensures DailyRows([], p) == Err(NoDateColumn)
  {
    assert BucketDays([], p.bucketing) == [];
    assert GroupDays([]) == [];
  }
}
