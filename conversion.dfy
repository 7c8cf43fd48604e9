/**
 * The two daily runs: positive ratios by US-Eastern day with Sundays left
 * out (conversion_positive.py), and negative ratios by the timestamp's own
 * day (conversion_negative.py), each an instance of the shared pipeline.
 */
module Conversion {
  import opened Wrappers
  import opened Calendar
  import opened Sentiment
  import opened Stopwords
  import opened DailyPipeline

  // ---------------------------------------------------------------------------
  // Seoul time to US-Eastern time
  // ---------------------------------------------------------------------------

  /** How many minutes US-Eastern wall time is behind Seoul wall time: 13 hours in daylight time, 14 otherwise. */
  function EasternLag(dst: bool): int {
    if dst then 13 * 60 else 14 * 60
  }

  /**
   * `kst.localize(t).astimezone(est)` for a Seoul wall time `t`, with `dst`
   * saying whether Eastern daylight time is in force at that instant.
   * `None` is a conversion that raised: the time is not real, or the instant
   * falls before the first representable day.
   */
  function SeoulToEasternAt(t: Timestamp, dst: bool): (e: Option<Timestamp>)
    ensures e.Some? ==> ValidTimestamp(e.value)
    ensures e.Some? <==> ValidTimestamp(t) && (t.date != Date(1, 1, 1) || t.minute >= EasternLag(dst))
    ensures e.Some? ==>
              || (e.value.date == t.date && t.minute - e.value.minute == EasternLag(dst))
              || (t.date != Date(1, 1, 1) && e.value.date == PrevDay(t.date)
                  && t.minute + 24 * 60 - e.value.minute == EasternLag(dst))
    ensures e.Some? ==> (e.value.date == t.date <==> t.minute >= EasternLag(dst))
  {
    var lag := EasternLag(dst);
    if !ValidTimestamp(t) then None
    else if t.minute >= lag then Some(Timestamp(t.date, t.minute - lag))
    else if t.date == Date(1, 1, 1) then None
    else Some(Timestamp(PrevDay(t.date), t.minute - lag + 24 * 60))
  }

  /** The converter of the positive run, given when Eastern daylight time is in force. */
  function SeoulToEastern(easternDst: Timestamp -> bool): Timestamp -> Option<Timestamp> {
    t => SeoulToEasternAt(t, easternDst(t))
  }

  /** The fixed-offset converter keeps timestamps real, so it can drive the positive run. */
  lemma SeoulToEasternKeepsValid(easternDst: Timestamp -> bool)
    ensures KeepsValid(Converted(SeoulToEastern(easternDst)))
  {
    forall t | ValidTimestamp(t) && SeoulToEastern(easternDst)(t).Some?
      ensures ValidTimestamp(SeoulToEastern(easternDst)(t).value)
    {
      assert SeoulToEastern(easternDst)(t) == SeoulToEasternAt(t, easternDst(t));
    }
  }

  /**
   * The Eastern day of a Seoul time is the same weekday, or the weekday
   * before when the Seoul clock reads earlier than the lag.
   */
  lemma EasternWeekday(t: Timestamp, dst: bool)
    requires ValidTimestamp(t) && t.date != Date(1, 1, 1)
    ensures var e := SeoulToEasternAt(t, dst).value;
      Weekday(e.date) == if t.minute >= EasternLag(dst) then Weekday(t.date) else (Weekday(t.date) + 6) % 7
  {
    if t.minute < EasternLag(dst) {
      WeekdayOfPrevDay(t.date);
    }
  }

  /**
   * A Seoul Monday before 13:00 is an Eastern Sunday whatever the daylight
   * rule, so the positive run, which excludes Eastern Sundays, drops such records.
   */
  lemma SeoulMondayMorningIsDropped(easternDst: Timestamp -> bool, t: Timestamp)
    requires ValidTimestamp(t) && t.date != Date(1, 1, 1)
    requires Weekday(t.date) == 0 && t.minute < 13 * 60
    ensures var d := BucketDay(Converted(SeoulToEastern(easternDst)), t);
      Valid(d) && IsSunday(d)
  {
    var dst := easternDst(t);
    var e := SeoulToEasternAt(t, dst);
    assert SeoulToEastern(easternDst)(t) == e;
    assert t.minute < EasternLag(dst);
    EasternWeekday(t, dst);
    assert BucketDay(Converted(SeoulToEastern(easternDst)), t) == e.value.date;
  }

  // ---------------------------------------------------------------------------
  // The two profiles
  // ---------------------------------------------------------------------------

  /** Positive run: relabel at 0.75, report label 1, group by Eastern day, drop Sundays. */
  function PositiveProfile(toEastern: Timestamp -> Option<Timestamp>): Profile {
    Profile(0.75, 1, Converted(toEastern), true, PositiveStopwords)
  }

  /** Negative run: relabel at 0.7, report label 0, group by the timestamp's own day. */
  function NegativeProfile(): Profile {
    Profile(0.7, 0, NativeDate, false, NegativeStopwords)
  }

  /**
   * `calculate_daily_sentiment_ratios_exclude_sunday` on the loaded table
   * held in `a`. The rows are built once and written twice to the same path;
   * `writes` lists what each write puts in the file, or why the run stops
   * before writing.
   */
  method CalculateDailySentimentRatiosExcludeSunday(a: array<Record>, toEastern: Timestamp -> Option<Timestamp>)
    returns (writes: Result<seq<seq<DailyRow>>, RunError>)
    requires Admissible(a[..], PositiveProfile(toEastern))
    modifies a
    ensures a[..] == Relabeled(old(a[..]), 0.75)
    ensures writes == match DailyRows(old(a[..]), PositiveProfile(toEastern))
                      case Ok(rows) => Ok([rows, rows])
                      case Err(e) => Err(e)
  {
    var results := CollectResults(a, PositiveProfile(toEastern));
    var first := Emit(results);
    if first.Err? {
      writes := Err(first.error);
      return;
    }
    var second := Emit(results);
    writes := Ok([first.value, second.value]);
  }

  /** `calculate_daily_negative_ratios` on the loaded table held in `a`: the rows written, or why none are. */
  method CalculateDailyNegativeRatios(a: array<Record>) returns (written: Result<seq<DailyRow>, RunError>)
    requires ValidRecords(a[..])
    modifies a
    ensures a[..] == Relabeled(old(a[..]), 0.7)
    ensures written == DailyRows(old(a[..]), NegativeProfile())
  {
    var results := CollectResults(a, NegativeProfile());
    written := Emit(results);
  }

  // ---------------------------------------------------------------------------
  // What the positive run writes
  // ---------------------------------------------------------------------------

  /**
   * The positive run writes no Sunday: every written date is the text of a
   * non-Sunday day, and the day of every record whose Eastern day is not a
   * Sunday is written exactly once.
   */
  lemma PositiveRowsSkipSundays(rs: seq<Record>, toEastern: Timestamp -> Option<Timestamp>)
    requires Admissible(rs, PositiveProfile(toEastern))
    ensures var p := PositiveProfile(toEastern);
      var out := DailyRows(rs, p);
      out.Ok? ==> forall i, d :: 0 <= i < |out.value| && Valid(d) && out.value[i].date == DateString(d) ==> !IsSunday(d)
    ensures var p := PositiveProfile(toEastern);
      var days := BucketDays(rs, p.bucketing);
      var out := DailyRows(rs, p);
      forall j :: 0 <= j < |rs| && !IsSunday(days[j]) ==>
        && out.Ok?
        && (exists i :: 0 <= i < |out.value| && out.value[i].date == DateString(days[j]))
        && forall i, k :: 0 <= i < k < |out.value| ==> out.value[i].date != out.value[k].date
  {
    var p := PositiveProfile(toEastern);
    var days := BucketDays(rs, p.bucketing);
    var ds := KeptDays(rs, p);
    RowDates(rs, p);
    KeptDaysSpec(rs, p);
    var out := DailyRows(rs, p);
    if out.Ok? {
      forall i, d | 0 <= i < |out.value| && Valid(d) && out.value[i].date == DateString(d)
        ensures !IsSunday(d)
      {
        DateStringInjective(d, ds[i]);
        assert ds[i] in ds;
      }
    }
    forall j | 0 <= j < |rs| && !IsSunday(days[j])
      ensures out.Ok? && exists i :: 0 <= i < |out.value| && out.value[i].date == DateString(days[j])
    {
      assert days[j] == BucketDay(p.bucketing, rs[j].time);
      assert days[j] in ds;
      var i :| 0 <= i < |ds| && ds[i] == days[j];
      assert out.value[i].date == DateString(ds[i]);
    }
  }

  /**
   * The rows `rows` give, for each day `ds[i]`, the share of that day's
   * confidence held by its records labelled 1 as loaded and above 0.75;
   * with non-negative confidences each lies between 0 and 100.
   */
  predicate PositiveShares(rs: seq<Record>, days: seq<Date>, ds: seq<Date>, rows: seq<DailyRow>)
    requires |rs| == |days|
  {
    && |rows| == |ds|
    && forall i :: 0 <= i < |ds| ==>
         var g := Group(rs, days, ds[i]);
         && rows[i].ratio == Percent(ConfidentWeight(g, 0.75, 1), TotalWeight(g))
         && (NonNegative(rs) ==> 0.0 <= rows[i].ratio <= 100.0)
  }

  /** Every ratio the positive run writes is its day's confident label-1 share. */
  lemma PositiveRatioIsConfidentShare(rs: seq<Record>, toEastern: Timestamp -> Option<Timestamp>)
    requires Admissible(rs, PositiveProfile(toEastern))
    ensures var out := DailyRows(rs, PositiveProfile(toEastern));
      out.Ok? ==> PositiveShares(rs, BucketDays(rs, Converted(toEastern)), KeptDays(rs, PositiveProfile(toEastern)), out.value)
  {
    var p := PositiveProfile(toEastern);
    var out := DailyRows(rs, p);
    WrittenRatios(rs, p);
    if out.Ok? {
      PositiveRowRatios(rs, BucketDays(rs, p.bucketing), KeptDays(rs, p), out.value);
    }
  }

  /** Rows whose ratios are those of the relabelled groups carry the confident label-1 shares. */
  lemma PositiveRowRatios(rs: seq<Record>, days: seq<Date>, ds: seq<Date>, rows: seq<DailyRow>)
    requires |rs| == |days| && |rows| == |ds|
    requires forall i :: 0 <= i < |ds| ==> rows[i].ratio == Ratio(Group(Relabeled(rs, 0.75), days, ds[i]), 1)
    ensures PositiveShares(rs, days, ds, rows)
  {
    forall i | 0 <= i < |ds| {
      PositiveGroupRatio(rs, days, ds[i], rows[i].ratio);
    }
  }

  /**
   * The positive ratio of one day's group, computed on the relabelled
   * records, is the share of the day's confidence held by records labelled 1
   * as loaded and above 0.75; with non-negative confidences it lies between
   * 0 and 100.
   */
  lemma PositiveGroupRatio(rs: seq<Record>, days: seq<Date>, day: Date, ratio: real)
    requires |rs| == |days|
    requires ratio == Ratio(Group(Relabeled(rs, 0.75), days, day), 1)
    ensures var g := Group(rs, days, day);
      && ratio == Percent(ConfidentWeight(g, 0.75, 1), TotalWeight(g))
      && (NonNegative(rs) ==> 0.0 <= ratio <= 100.0)
  {
    GroupOfRelabeled(rs, days, day, 0.75);
    GroupNonNegative(rs, days, day);
    RelabeledRatio(Group(rs, days, day), 0.75, 1);
  }

  // ---------------------------------------------------------------------------
  // What the negative run writes
  // ---------------------------------------------------------------------------

  /**
   * The negative run writes a file exactly when the table has a record, and
   * then one row per distinct date of the records, each date once.
   */
  lemma NegativeRowsPerDate(rs: seq<Record>)
    requires ValidRecords(rs)
    ensures DailyRows(rs, NegativeProfile()).Ok? <==> rs != []
    ensures var out := DailyRows(rs, NegativeProfile());
      out.Ok? ==> (set i | 0 <= i < |out.value| :: out.value[i].date) == (set j | 0 <= j < |rs| :: DateString(rs[j].time.date))
  {
    var p := NegativeProfile();
    var ds := KeptDays(rs, p);
    var out := DailyRows(rs, p);
    RowDates(rs, p);
    NegativeKeptDays(rs);
    if rs != [] {
      assert rs[0].time.date in ds;
    }
    if out.Ok? {
      SameDateTexts(out.value, ds, rs);
    }
  }

  /** Rows that carry the texts of `ds`, where `ds` holds exactly the records' dates, carry exactly the records' date texts. */
  lemma SameDateTexts(rows: seq<DailyRow>, ds: seq<Date>, rs: seq<Record>)
    requires ValidRecords(rs) && |rows| == |ds|
    requires AllValid(ds)
    requires forall i :: 0 <= i < |ds| ==> rows[i].date == DateString(ds[i])
    requires forall j :: 0 <= j < |rs| ==> rs[j].time.date in ds
    requires forall i :: 0 <= i < |ds| ==> exists j :: 0 <= j < |rs| && rs[j].time.date == ds[i]
    ensures (set i | 0 <= i < |rows| :: rows[i].date) == (set j | 0 <= j < |rs| :: DateString(rs[j].time.date))
  {
    var written := set i | 0 <= i < |rows| :: rows[i].date;
    var dated := set j | 0 <= j < |rs| :: DateString(rs[j].time.date);
    forall s | s in dated ensures s in written {
      var j :| 0 <= j < |rs| && s == DateString(rs[j].time.date);
      var i :| 0 <= i < |ds| && ds[i] == rs[j].time.date;
      assert rows[i].date == s;
    }
    forall s | s in written ensures s in dated {
      var i :| 0 <= i < |rows| && s == rows[i].date;
      var j :| 0 <= j < |rs| && rs[j].time.date == ds[i];
      assert DateString(rs[j].time.date) == s;
    }
  }

  /** Without exclusions the kept days of the negative run are exactly the dates of the records. */
  lemma NegativeKeptDays(rs: seq<Record>)
    requires ValidRecords(rs)
    ensures var ds := KeptDays(rs, NegativeProfile());
      && (forall j :: 0 <= j < |rs| ==> rs[j].time.date in ds)
      && (forall i :: 0 <= i < |ds| ==> exists j :: 0 <= j < |rs| && rs[j].time.date == ds[i])
  {
    var p := NegativeProfile();
    var ds := KeptDays(rs, p);
    KeptDaysSpec(rs, p);
    forall j | 0 <= j < |rs| ensures rs[j].time.date in ds {
      assert BucketDay(p.bucketing, rs[j].time) == rs[j].time.date;
    }
    forall i | 0 <= i < |ds| ensures exists j :: 0 <= j < |rs| && rs[j].time.date == ds[i] {
      assert ds[i] in ds;
      var j :| 0 <= j < |rs| && BucketDay(p.bucketing, rs[j].time) == ds[i];
    }
  }

  /**
   * The rows `rows` give, for each day `ds[i]`, the share of that day's
   * confidence held by its records labelled 0 above 0.7 together with every
   * record at or below 0.7; so a day whose records are all at or below 0.7
   * and whose total is positive reports 100.
   */
  predicate NegativeShares(rs: seq<Record>, days: seq<Date>, ds: seq<Date>, rows: seq<DailyRow>)
    requires |rs| == |days|
  {
    && |rows| == |ds|
    && forall i :: 0 <= i < |ds| ==>
         var g := Group(rs, days, ds[i]);
         && rows[i].ratio == Percent(ConfidentWeight(g, 0.7, 0) + LowWeight(g, 0.7), TotalWeight(g))
         && (TotalWeight(g) > 0.0 && AllAtMost(g, 0.7) ==> rows[i].ratio == 100.0)
         && (NonNegative(rs) ==> 0.0 <= rows[i].ratio <= 100.0)
  }

  /** Every ratio the negative run writes counts the low-confidence records as negative. */
  lemma NegativeRatioCountsLowConfidence(rs: seq<Record>)
    requires ValidRecords(rs)
    ensures var out := DailyRows(rs, NegativeProfile());
      out.Ok? ==> NegativeShares(rs, BucketDays(rs, NativeDate), KeptDays(rs, NegativeProfile()), out.value)
  {
    var p := NegativeProfile();
    var out := DailyRows(rs, p);
    WrittenRatios(rs, p);
    if out.Ok? {
      NegativeRowRatios(rs, BucketDays(rs, p.bucketing), KeptDays(rs, p), out.value);
    }
  }

  /** Rows whose ratios are those of the relabelled groups carry the negative shares. */
  lemma NegativeRowRatios(rs: seq<Record>, days: seq<Date>, ds: seq<Date>, rows: seq<DailyRow>)
    requires |rs| == |days| && |rows| == |ds|
    requires forall i :: 0 <= i < |ds| ==> rows[i].ratio == Ratio(Group(Relabeled(rs, 0.7), days, ds[i]), 0)
    ensures NegativeShares(rs, days, ds, rows)
  {
    forall i | 0 <= i < |ds| {
      NegativeGroupRatio(rs, days, ds[i], rows[i].ratio);
    }
  }

  /**
   * The negative ratio of one day's group, computed on the relabelled
   * records, is the share of the day's confidence held by the records
   * labelled 0 above 0.7 together with every record at or below 0.7.
   */
  lemma NegativeGroupRatio(rs: seq<Record>, days: seq<Date>, day: Date, ratio: real)
    requires |rs| == |days|
    requires ratio == Ratio(Group(Relabeled(rs, 0.7), days, day), 0)
    ensures var g := Group(rs, days, day);
      && ratio == Percent(ConfidentWeight(g, 0.7, 0) + LowWeight(g, 0.7), TotalWeight(g))
      && (TotalWeight(g) > 0.0 && AllAtMost(g, 0.7) ==> ratio == 100.0)
      && (NonNegative(rs) ==> 0.0 <= ratio <= 100.0)
  {
    var g := Group(rs, days, day);
    GroupOfRelabeled(rs, days, day, 0.7);
    GroupNonNegative(rs, days, day);
    RelabeledRatio(g, 0.7, 0);
    if AllAtMost(g, 0.7) {
      AllLowWeight(g, 0.7);
    }
  }

  /** A day's records, relabelled or not, keep non-negative confidences when the table has them. */
  lemma GroupNonNegative(rs: seq<Record>, days: seq<Date>, day: Date)
    requires |rs| == |days|
    ensures NonNegative(rs) ==> NonNegative(Group(rs, days, day))
  {
    GroupMembers(rs, days, day);
    if NonNegative(rs) {
      var g := Group(rs, days, day);
      forall k | 0 <= k < |g| ensures g[k].confidence >= 0.0 {
        assert g[k] in g;
      }
    }
  }
}
