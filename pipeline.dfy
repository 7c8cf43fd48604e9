/**
 * The daily aggregation shared by both runs, parameterised by a profile:
 * bucket every record under a day, relabel low-confidence records, visit the
 * days in groupby order, skip excluded days, build one row per remaining day
 * and sort the rows by their `YYYY-MM-DD` text.
 */
module DailyPipeline {
  import opened Wrappers
  import opened Text
  import opened Calendar
  import opened Keywords
  import opened Sentiment

  /** How a record's timestamp becomes the day it is grouped under. */
  datatype Bucketing =
    | NativeDate
      /** Convert the timestamp first; `None` is a conversion that raised, and the native timestamp is kept. */
    | Converted(convert: Timestamp -> Option<Timestamp>)

  /** One configuration of the daily run. */
  datatype Profile = Profile(
    threshold: real,         // records at or below it are relabelled 0
    polarity: int,           // the label whose share of confidence is reported
    bucketing: Bucketing,
    excludeSunday: bool,     // drop the days whose weekday() is 6
    stopwords: set<string>)

  /** One output line: `date`, the ratio, `top_word`, `strongest_title_with_top_word`. */
  datatype DailyRow = DailyRow(date: string, ratio: real, topWord: string, strongestTitle: string)

  /** Why a run writes nothing. */
  datatype RunError =
    /** No day produced a row, so the results frame has no `date` column to sort by. */
    | NoDateColumn

  // ---------------------------------------------------------------------------
  // Bucketing
  // ---------------------------------------------------------------------------

  /**
   * The day a record is grouped under: a real date for a real timestamp, the
   * converted timestamp's date when a conversion succeeded, and the
   * timestamp's own date otherwise.
   */
  function BucketDay(b: Bucketing, t: Timestamp): (d: Date)
    ensures ValidTimestamp(t) && KeepsValid(b) ==> Valid(d)
    ensures b.Converted? && b.convert(t).Some? ==> d == b.convert(t).value.date
    ensures b.NativeDate? || b.convert(t).None? ==> d == t.date
  {
    match b
    case NativeDate => t.date
    case Converted(convert) =>
      match convert(t)
      case Some(e) => e.date
      case None => t.date
  }

  /** A converter that turns real timestamps into real timestamps. */
  ghost predicate KeepsValid(b: Bucketing) {
    b.Converted? ==> forall t :: ValidTimestamp(t) && b.convert(t).Some? ==> ValidTimestamp(b.convert(t).value)
  }

  predicate ValidRecords(rs: seq<Record>) {
    forall i :: 0 <= i < |rs| ==> ValidTimestamp(rs[i].time)
  }

  /** The bucket-day column, one entry per record. */
  function BucketDays(rs: seq<Record>, b: Bucketing): (days: seq<Date>)
    requires ValidRecords(rs) && KeepsValid(b)
    ensures |days| == |rs|
    ensures forall i :: 0 <= i < |rs| ==> Valid(days[i])
  {
    seq(|rs|, i requires 0 <= i < |rs| => BucketDay(b, rs[i].time))
  }

  // ---------------------------------------------------------------------------
  // Grouping
  // ---------------------------------------------------------------------------

  predicate StrictlyAscending(ds: seq<Date>) {
    forall i, j :: 0 <= i < j < |ds| ==> Before(ds[i], ds[j])
  }

  function InsertDay(ds: seq<Date>, d: Date): (r: seq<Date>)
    requires StrictlyAscending(ds)
    ensures StrictlyAscending(r)
    ensures forall x :: x in r <==> x in ds || x == d
  {
    if ds == [] then [d]
    else if ds[0] == d then ds
    else if Before(d, ds[0]) then [d] + ds
    else
      assert forall x :: x in ds <==> x == ds[0] || x in ds[1..];
      assert forall k :: 0 <= k < |ds[1..]| ==> Before(ds[0], ds[1..][k]);
      var rest := InsertDay(ds[1..], d);
      assert forall k :: 0 <= k < |rest| ==> rest[k] in rest;
      [ds[0]] + rest
  }

  predicate AllValid(ds: seq<Date>) {
    forall i :: 0 <= i < |ds| ==> Valid(ds[i])
  }

  lemma GroupDaysValid(days: seq<Date>)
    requires AllValid(days)
    ensures AllValid(GroupDays(days))
  {
    var keys := GroupDays(days);
    forall i | 0 <= i < |keys| ensures Valid(keys[i]) {
      assert keys[i] in days;
    }
  }

  /** The keys `groupby` visits: every bucket day once, in ascending order. */
  function GroupDays(days: seq<Date>): (keys: seq<Date>)
    ensures StrictlyAscending(keys)
    ensures forall x :: x in keys <==> x in days
  {
    if days == [] then []
    else
      var init := days[..|days| - 1];
      assert forall x :: x in days <==> x in init || x == days[|days| - 1];
      InsertDay(GroupDays(init), days[|days| - 1])
  }

  /** The group of one key: the records bucketed under `day`, in row order. */
  function Group(rs: seq<Record>, days: seq<Date>, day: Date): seq<Record>
    requires |rs| == |days|
  {
    if rs == [] then []
    else
      var n := |rs| - 1;
      Group(rs[..n], days[..n], day) + (if days[n] == day then [rs[n]] else [])
  }

  /** A record belongs to the group of its own bucket day, and to no other. */
  lemma {:induction false} GroupMembers(rs: seq<Record>, days: seq<Date>, day: Date)
    requires |rs| == |days|
    ensures forall r :: r in Group(rs, days, day) ==> exists i :: 0 <= i < |rs| && rs[i] == r && days[i] == day
    ensures forall i :: 0 <= i < |rs| && days[i] == day ==> rs[i] in Group(rs, days, day)
  {
    if rs != [] {
      var n := |rs| - 1;
      GroupMembers(rs[..n], days[..n], day);
    }
  }

  /**
   * Groups keep the table's row order: the group of a table split in two is
   * the group of the first part followed by the group of the second.
   */
  lemma {:induction false} GroupAppend(rs: seq<Record>, days: seq<Date>, rs': seq<Record>, days': seq<Date>, day: Date)
    requires |rs| == |days| && |rs'| == |days'|
    ensures Group(rs + rs', days + days', day) == Group(rs, days, day) + Group(rs', days', day)
    decreases |rs'|
  {
    if rs' == [] {
      assert rs + rs' == rs && days + days' == days;
    } else {
      var n := |rs'| - 1;
      assert (rs + rs')[..|rs| + n] == rs + rs'[..n];
      assert (days + days')[..|rs| + n] == days + days'[..n];
      GroupAppend(rs, days, rs'[..n], days'[..n], day);
    }
  }

  /** A single record forms a group exactly when it is bucketed under that day. */
  lemma GroupSingle(r: Record, d: Date, day: Date)
    ensures Group([r], [d], day) == if d == day then [r] else []
  {
    assert [r][..0] == [];
  }

  /** Relabelling the whole table and then grouping is grouping and then relabelling. */
  lemma {:induction false} GroupOfRelabeled(rs: seq<Record>, days: seq<Date>, day: Date, threshold: real)
    requires |rs| == |days|
    ensures Group(Relabeled(rs, threshold), days, day) == Relabeled(Group(rs, days, day), threshold)
  {
    if rs != [] {
      var n := |rs| - 1;
      assert Relabeled(rs, threshold)[..n] == Relabeled(rs[..n], threshold);
      GroupOfRelabeled(rs[..n], days[..n], day, threshold);
      GroupOfRelabeledStep(rs, days, day, threshold);
    }
  }

  lemma GroupOfRelabeledStep(rs: seq<Record>, days: seq<Date>, day: Date, threshold: real)
    requires |rs| == |days| && rs != []
    requires var n := |rs| - 1;
      Group(Relabeled(rs, threshold)[..n], days[..n], day) == Relabeled(Group(rs[..n], days[..n], day), threshold)
    ensures Group(Relabeled(rs, threshold), days, day) == Relabeled(Group(rs, days, day), threshold)
  {
    var n := |rs| - 1;
    var g := Group(rs[..n], days[..n], day);
    var tail := if days[n] == day then [rs[n]] else [];
    assert Relabeled(g + tail, threshold) == Relabeled(g, threshold) + Relabeled(tail, threshold);
  }

  /** Total size of the groups of `keys`. */
  function GroupSizes(rs: seq<Record>, days: seq<Date>, keys: seq<Date>): nat
    requires |rs| == |days|
  {
    if keys == [] then 0 else |Group(rs, days, keys[0])| + GroupSizes(rs, days, keys[1..])
  }

  /** The groups partition the table: their sizes add up to the number of records. */
  lemma {:induction false} GroupsPartition(rs: seq<Record>, days: seq<Date>)
    requires |rs| == |days|
    ensures GroupSizes(rs, days, GroupDays(days)) == |rs|
  {
    SizesOverCoveringKeys(rs, days, GroupDays(days));
  }

  lemma {:induction false} SizesOverCoveringKeys(rs: seq<Record>, days: seq<Date>, keys: seq<Date>)
    requires |rs| == |days| && StrictlyAscending(keys)
    requires forall i :: 0 <= i < |days| ==> days[i] in keys
    ensures GroupSizes(rs, days, keys) == |rs|
  {
    if rs != [] {
      var n := |rs| - 1;
      SizesOverCoveringKeys(rs[..n], days[..n], keys);
      SizesStep(rs, days, keys);
      assert days[n] in keys;
    } else {
      NoRecordsNoSizes(days, keys);
    }
  }

  lemma {:induction false} NoRecordsNoSizes(days: seq<Date>, keys: seq<Date>)
    requires days == []
    ensures GroupSizes([], days, keys) == 0
  {
    if keys != [] {
      NoRecordsNoSizes(days, keys[1..]);
    }
  }

  lemma {:induction false} SizesStep(rs: seq<Record>, days: seq<Date>, keys: seq<Date>)
    requires |rs| == |days| && rs != [] && StrictlyAscending(keys)
    ensures var n := |rs| - 1;
      GroupSizes(rs, days, keys) == GroupSizes(rs[..n], days[..n], keys) + (if days[n] in keys then 1 else 0)
  {
    if keys != [] {
      SizesStep(rs, days, keys[1..]);
      assert days[|rs| - 1] in keys <==> days[|rs| - 1] == keys[0] || days[|rs| - 1] in keys[1..];
      assert keys[0] !in keys[1..];
    }
  }

  // ---------------------------------------------------------------------------
  // Rows
  // ---------------------------------------------------------------------------

  function Titles(rs: seq<Record>): seq<Option<string>> {
    seq(|rs|, i requires 0 <= i < |rs| => rs[i].title)
  }

  /** The row of one day, computed from that day's (relabelled) records. */
  function DayRow(day: Date, group: seq<Record>, p: Profile): DailyRow
    requires Valid(day)
  {
    var topWord := TopWord(Titles(group), p.stopwords);
    DailyRow(DateString(day), Ratio(group, p.polarity), topWord, StrongestTitle(group, topWord))
  }

  /**
   * What a day's row says: its date text reads back as the day, its ratio is a
   * percentage for non-negative confidences, its top word is empty exactly
   * when no token survives, and a non-empty strongest title belongs to a
   * strongest record mentioning the top word.
   */
  lemma DayRowSpec(day: Date, group: seq<Record>, p: Profile)
    requires Valid(day)
    ensures var row := DayRow(day, group, p);
      && ParseDate(row.date) == Some(day)
      && (NonNegative(group) ==> 0.0 <= row.ratio <= 100.0)
      && (row.topWord == "" <==> Candidates(Titles(group), p.stopwords) == [])
      && (row.strongestTitle != "" ==> exists k :: IsStrongest(group, row.topWord, k) && group[k].title == Some(row.strongestTitle))
  {
    DateStringRoundTrip(day);
  }

  predicate Excluded(p: Profile, day: Date)
    requires Valid(day)
  {
    p.excludeSunday && IsSunday(day)
  }

  /** The keys that produce a row, in visiting order. */
  function EmittedDays(keys: seq<Date>, p: Profile): (ds: seq<Date>)
    requires AllValid(keys)
    ensures AllValid(ds)
    ensures forall d :: d in ds <==> d in keys && !Excluded(p, d)
  {
    if keys == [] then []
    else
      var n := |keys| - 1;
      assert forall d :: d in keys <==> d in keys[..n] || d == keys[n];
      EmittedDays(keys[..n], p) + (if Excluded(p, keys[n]) then [] else [keys[n]])
  }

  /** The `results` list after the loop has visited `keys`. */
  function Results(rs: seq<Record>, days: seq<Date>, keys: seq<Date>, p: Profile): seq<DailyRow>
    requires |rs| == |days|
    requires AllValid(keys)
  {
    if keys == [] then []
    else
      var n := |keys| - 1;
      Results(rs, days, keys[..n], p)
        + (if Excluded(p, keys[n]) then [] else [DayRow(keys[n], Group(rs, days, keys[n]), p)])
  }

  /** One more key visited: its row is appended unless the day is excluded. */
  lemma ResultsStep(rs: seq<Record>, days: seq<Date>, keys: seq<Date>, k: nat, p: Profile)
    requires |rs| == |days| && AllValid(keys) && k < |keys|
    ensures Results(rs, days, keys[..k + 1], p)
      == Results(rs, days, keys[..k], p) + (if Excluded(p, keys[k]) then [] else [DayRow(keys[k], Group(rs, days, keys[k]), p)])
  {
    assert keys[..k + 1][..k] == keys[..k];
  }

  /** The loop emits exactly one row per emitted day, in visiting order. */
  lemma {:induction false} ResultsFollowEmittedDays(rs: seq<Record>, days: seq<Date>, keys: seq<Date>, p: Profile)
    requires |rs| == |days|
    requires AllValid(keys)
    ensures var out, ds := Results(rs, days, keys, p), EmittedDays(keys, p);
      |out| == |ds| && forall i :: 0 <= i < |ds| ==> out[i] == DayRow(ds[i], Group(rs, days, ds[i]), p)
  {
    if keys != [] {
      var n := |keys| - 1;
      ResultsFollowEmittedDays(rs, days, keys[..n], p);
      var prev, ds := Results(rs, days, keys[..n], p), EmittedDays(keys[..n], p);
      var row := DayRow(keys[n], Group(rs, days, keys[n]), p);
      assert Results(rs, days, keys, p) == prev + (if Excluded(p, keys[n]) then [] else [row]);
      assert EmittedDays(keys, p) == ds + (if Excluded(p, keys[n]) then [] else [keys[n]]);
    }
  }

  lemma {:induction false} EmittedDaysAscending(keys: seq<Date>, p: Profile)
    requires AllValid(keys)
    requires StrictlyAscending(keys)
    ensures StrictlyAscending(EmittedDays(keys, p))
  {
    if keys != [] {
      var n := |keys| - 1;
      EmittedDaysAscending(keys[..n], p);
      var init := EmittedDays(keys[..n], p);
      forall k | 0 <= k < |init| ensures Before(init[k], keys[n]) {
        assert init[k] in keys[..n];
        var m :| 0 <= m < n && keys[m] == init[k];
      }
    }
  }

  // ---------------------------------------------------------------------------
  // `sort_values(by='date')`
  // ---------------------------------------------------------------------------

  /** Rows in ascending order of their date text (ties allowed). */
  predicate SortedByDate(rows: seq<DailyRow>) {
    forall i, j :: 0 <= i < j < |rows| ==> !StrLess(rows[j].date, rows[i].date)
  }

  /** Rows in strictly ascending order of their date text: sorted, and no date twice. */
  predicate StrictlySortedByDate(rows: seq<DailyRow>) {
    forall i, j :: 0 <= i < j < |rows| ==> StrLess(rows[i].date, rows[j].date)
  }

  function InsertRow(x: DailyRow, rows: seq<DailyRow>): seq<DailyRow> {
    if rows == [] then [x]
    else if StrLess(rows[0].date, x.date) then [rows[0]] + InsertRow(x, rows[1..])
    else [x] + rows
  }

  /** Sorting the rows by their date text. */
  function SortByDate(rows: seq<DailyRow>): seq<DailyRow> {
    if rows == [] then [] else InsertRow(rows[0], SortByDate(rows[1..]))
  }

  lemma {:induction false} InsertRowPerm(x: DailyRow, rows: seq<DailyRow>)
    ensures multiset(InsertRow(x, rows)) == multiset(rows) + multiset{x}
  {
    if rows != [] {
      assert rows == [rows[0]] + rows[1..];
      if StrLess(rows[0].date, x.date) {
        InsertRowPerm(x, rows[1..]);
      }
    }
  }

  lemma {:induction false} InsertRowSorted(x: DailyRow, rows: seq<DailyRow>)
    requires SortedByDate(rows)
    ensures SortedByDate(InsertRow(x, rows))
    ensures multiset(InsertRow(x, rows)) == multiset(rows) + multiset{x}
  {
    InsertRowPerm(x, rows);
    if rows != [] {
      if StrLess(rows[0].date, x.date) {
        InsertRowSorted(x, rows[1..]);
        var tail := InsertRow(x, rows[1..]);
        forall k | 0 <= k < |tail| ensures !StrLess(tail[k].date, rows[0].date) {
          NotBeforeHead(x, rows, tail[k]);
        }
        SortedCons(rows[0], tail);
      } else {
        forall k | 0 <= k < |rows| ensures !StrLess(rows[k].date, x.date) {
          if k > 0 {
            StrLessTotal(rows[0].date, rows[k].date);
            if StrLess(rows[k].date, x.date) && StrLess(rows[0].date, rows[k].date) {
              StrLessTransitive(rows[0].date, rows[k].date, x.date);
            }
          }
        }
        SortedCons(x, rows);
      }
    }
  }

  /** What the head of sorted rows goes before: the rest of them, and a row inserted after it. */
  lemma NotBeforeHead(x: DailyRow, rows: seq<DailyRow>, y: DailyRow)
    requires SortedByDate(rows) && rows != [] && StrLess(rows[0].date, x.date)
    requires y in multiset(rows[1..]) + multiset{x}
    ensures !StrLess(y.date, rows[0].date)
  {
    if y == x {
      StrLessAsymmetric(rows[0].date, x.date);
    } else {
      assert y in rows[1..];
      var m :| 0 <= m < |rows[1..]| && rows[1..][m] == y;
      assert rows[m + 1] == y;
    }
  }

  lemma SortedCons(h: DailyRow, tail: seq<DailyRow>)
    requires SortedByDate(tail)
    requires forall k :: 0 <= k < |tail| ==> !StrLess(tail[k].date, h.date)
    ensures SortedByDate([h] + tail)
  {
    var r := [h] + tail;
    forall i, j | 0 <= i < j < |r| ensures !StrLess(r[j].date, r[i].date) {
      assert r[j] == tail[j - 1];
      if i > 0 {
        assert r[i] == tail[i - 1];
      }
    }
  }

  /** `sort_values`: the rows come out in ascending date order and none is lost or added. */
  lemma {:induction false} SortByDateSpec(rows: seq<DailyRow>)
    ensures SortedByDate(SortByDate(rows))
    ensures multiset(SortByDate(rows)) == multiset(rows)
  {
    if rows != [] {
      SortByDateSpec(rows[1..]);
      InsertRowSorted(rows[0], SortByDate(rows[1..]));
      assert rows == [rows[0]] + rows[1..];
    }
  }

  /** Rows already in strictly ascending date order are left as they are. */
  lemma {:induction false} SortByDateKeepsSorted(rows: seq<DailyRow>)
    requires StrictlySortedByDate(rows)
    ensures SortByDate(rows) == rows
  {
    if rows != [] {
      SortByDateKeepsSorted(rows[1..]);
      if |rows| > 1 {
        StrLessAsymmetric(rows[0].date, rows[1].date);
      }
      assert rows == [rows[0]] + rows[1..];
    }
  }

  // ---------------------------------------------------------------------------
  // The whole run
  // ---------------------------------------------------------------------------

  /** What a run may be given: real timestamps and a converter that keeps them real. */
  ghost predicate Admissible(rs: seq<Record>, p: Profile) {
    ValidRecords(rs) && KeepsValid(p.bucketing)
  }

  /** The `results` list the loop builds for the loaded table `rs`. */
  function DayResults(rs: seq<Record>, p: Profile): seq<DailyRow>
    requires Admissible(rs, p)
  {
    var days := BucketDays(rs, p.bucketing);
    GroupDaysValid(days);
    Results(Relabeled(rs, p.threshold), days, GroupDays(days), p)
  }

  /**
   * `pd.DataFrame(results).sort_values(by='date')`: the rows sorted by date,
   * or, when there are none, the failure to find a `date` column.
   */
  function Emit(results: seq<DailyRow>): (r: Result<seq<DailyRow>, RunError>)
    ensures r.Err? <==> results == []
    ensures r.Ok? ==> SortedByDate(r.value) && multiset(r.value) == multiset(results)
  {
    SortByDateSpec(results);
    if results == [] then Err(NoDateColumn) else Ok(SortByDate(results))
  }

  /** The rows a run writes for the loaded table `rs`, or why it writes none. */
  function DailyRows(rs: seq<Record>, p: Profile): Result<seq<DailyRow>, RunError>
    requires Admissible(rs, p)
  {
    Emit(DayResults(rs, p))
  }

  /**
   * The grouping loop over the table held in `a`: add the bucket-day column,
   * relabel in place, then visit the groups in order, appending one row per
   * day that is not excluded.
   */
  method CollectResults(a: array<Record>, p: Profile) returns (results: seq<DailyRow>)
    requires Admissible(a[..], p)
    modifies a
    ensures a[..] == Relabeled(old(a[..]), p.threshold)
    ensures results == DayResults(old(a[..]), p)
  {
    var days := BucketColumn(a, p.bucketing);
    RelabelInPlace(a, p.threshold);
    var rs := a[..];
    var keys := GroupDays(days);
    GroupDaysValid(days);
    results := [];
    for k := 0 to |keys|
      invariant a[..] == rs
      invariant results == Results(rs, days, keys[..k], p)
    {
      ResultsStep(rs, days, keys, k, p);
      var day := keys[k];
      if p.excludeSunday && IsSunday(day) {
        continue;
      }
      var group := Group(rs, days, day);
      var ratio := Ratio(group, p.polarity);
      var topWord := TopWord(Titles(group), p.stopwords);
      var strongest := StrongestTitle(group, topWord);
      assert DailyRow(DateString(day), ratio, topWord, strongest) == DayRow(day, group, p);
      results := results + [DailyRow(DateString(day), ratio, topWord, strongest)];
    }
    assert keys[..|keys|] == keys;
  }

  /** `df['date'] = df['date_time'].apply(...)`: the bucket day of every row, in table order. */
  method BucketColumn(a: array<Record>, b: Bucketing) returns (days: seq<Date>)
    requires ValidRecords(a[..]) && KeepsValid(b)
    ensures days == BucketDays(a[..], b)
  {
    days := [];
    for i := 0 to a.Length
      invariant days == BucketDays(a[..i], b)
    {
      days := days + [BucketDay(b, a[i].time)];
    }
    assert a[..a.Length] == a[..];
  }

  // ---------------------------------------------------------------------------
  // What the written rows are
  // ---------------------------------------------------------------------------

  /** The days that get a row: the bucket days of the table, less the excluded ones, ascending. */
  function KeptDays(rs: seq<Record>, p: Profile): (ds: seq<Date>)
    requires Admissible(rs, p)
    ensures AllValid(ds)
  {
    GroupDaysValid(BucketDays(rs, p.bucketing));
    EmittedDays(GroupDays(BucketDays(rs, p.bucketing)), p)
  }

  /**
   * A run writes nothing exactly when no day is kept; otherwise it writes,
   * in ascending date order, one row per kept day, that day's row.
   */
  lemma DailyRowsSpec(rs: seq<Record>, p: Profile)
    requires Admissible(rs, p)
    ensures var ds := KeptDays(rs, p);
      && (DailyRows(rs, p).Err? <==> ds == [])
      && (DailyRows(rs, p).Ok? ==>
            var out := DailyRows(rs, p).value;
            && |out| == |ds|
            && StrictlySortedByDate(out)
            && forall i :: 0 <= i < |ds| ==>
                 out[i] == DayRow(ds[i], Group(Relabeled(rs, p.threshold), BucketDays(rs, p.bucketing), ds[i]), p))
  {
    var days := BucketDays(rs, p.bucketing);
    var keys := GroupDays(days);
    GroupDaysValid(days);
    var relabeled := Relabeled(rs, p.threshold);
    var results := Results(relabeled, days, keys, p);
    var ds := EmittedDays(keys, p);
    ResultsFollowEmittedDays(relabeled, days, keys, p);
    EmittedDaysAscending(keys, p);
    assert StrictlySortedByDate(results) by {
      forall i, j | 0 <= i < j < |results| ensures StrLess(results[i].date, results[j].date) {
        DateStringOrder(ds[i], ds[j]);
      }
    }
    if results != [] {
      SortByDateKeepsSorted(results);
    }
  }

  /** Each written ratio is the ratio of its day's relabelled group, for the profile's label. */
  lemma WrittenRatios(rs: seq<Record>, p: Profile)
    requires Admissible(rs, p)
    ensures var ds := KeptDays(rs, p);
      var out := DailyRows(rs, p);
      out.Ok? ==> |out.value| == |ds| && forall i :: 0 <= i < |ds| ==>
        out.value[i].ratio == Ratio(Group(Relabeled(rs, p.threshold), BucketDays(rs, p.bucketing), ds[i]), p.polarity)
  {
    DailyRowsSpec(rs, p);
  }

  /** Every day that gets a row is a bucket day of some record and is not excluded, and vice versa. */
  lemma KeptDaysSpec(rs: seq<Record>, p: Profile)
    requires Admissible(rs, p)
    ensures forall d :: d in KeptDays(rs, p) <==>
              (exists i :: 0 <= i < |rs| && BucketDay(p.bucketing, rs[i].time) == d) && Valid(d) && !Excluded(p, d)
  {
    var days := BucketDays(rs, p.bucketing);
    forall d ensures d in days <==> exists i :: 0 <= i < |rs| && BucketDay(p.bucketing, rs[i].time) == d {
      if d in days {
        var i :| 0 <= i < |days| && days[i] == d;
      }
      if exists i :: 0 <= i < |rs| && BucketDay(p.bucketing, rs[i].time) == d {
        var i :| 0 <= i < |rs| && BucketDay(p.bucketing, rs[i].time) == d;
        assert days[i] == d;
      }
    }
  }

  /**
   * The written dates: row `i` carries the text of the `i`-th kept day, so
   * every kept day is written once and no two rows share a date.
   */
  lemma RowDates(rs: seq<Record>, p: Profile)
    requires Admissible(rs, p)
    ensures var out := DailyRows(rs, p);
      var ds := KeptDays(rs, p);
      && (out.Ok? <==> ds != [])
      && (out.Ok? ==>
            && |out.value| == |ds|
            && (forall i :: 0 <= i < |ds| ==> out.value[i].date == DateString(ds[i]))
            && forall i, k :: 0 <= i < k < |ds| ==> out.value[i].date != out.value[k].date)
  {
    DailyRowsSpec(rs, p);
    var out := DailyRows(rs, p);
    if out.Ok? {
      forall i, k | 0 <= i < k < |out.value| ensures out.value[i].date != out.value[k].date {
        StrLessIrreflexive(out.value[i].date);
      }
    }
  }
}
