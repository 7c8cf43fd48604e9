/**
 * Calendar dates as Python's `datetime.date` holds them, the weekday that
 * `date.weekday()` reports, and the `YYYY-MM-DD` text that
 * `strftime('%Y-%m-%d')` writes.
 */
module Calendar {
  import opened Wrappers
  import opened Text

  datatype Date = Date(year: int, month: int, day: int)

  predicate IsLeapYear(y: int) {
    y % 4 == 0 && (y % 100 != 0 || y % 400 == 0)
  }

  function DaysInMonth(y: int, m: int): int
    requires 1 <= m <= 12
  {
    if m == 2 then (if IsLeapYear(y) then 29 else 28)
    else if m == 4 || m == 6 || m == 9 || m == 11 then 30
    else 31
  }

  /** A date `datetime.date` can represent (years 1 to 9999). */
  predicate Valid(d: Date) {
    1 <= d.year <= 9999 && 1 <= d.month <= 12 && 1 <= d.day <= DaysInMonth(d.year, d.month)
  }

  /** Chronological order: the order `date` objects compare in, and groupby sorts keys by. */
  predicate Before(a: Date, b: Date) {
    || a.year < b.year
    || (a.year == b.year && a.month < b.month)
    || (a.year == b.year && a.month == b.month && a.day < b.day)
  }

  /** Leap days in years 1..y of the proleptic Gregorian calendar. */
  function LeapDays(y: int): int
    requires y >= 0
  {
    y / 4 - y / 100 + y / 400
  }

  /** Sakamoto's day-of-week sum; taken modulo 7 it gives 0 for Sunday, 1 for Monday, ... */
  function WeekdaySum(d: Date): int
    requires Valid(d)
  {
    var offsets := [0, 3, 2, 5, 0, 3, 5, 1, 4, 6, 2, 4];
    var y := if d.month < 3 then d.year - 1 else d.year;
    y + LeapDays(y) + offsets[d.month - 1] + d.day
  }

  function SundayBased(d: Date): (w: int)
    requires Valid(d)
    ensures 0 <= w < 7
  {
    WeekdaySum(d) % 7
  }

  /** `date.weekday()`: Monday is 0 and Sunday is 6. */
  function Weekday(d: Date): (w: int)
    requires Valid(d)
    ensures 0 <= w < 7
  {
    (SundayBased(d) + 6) % 7
  }

  predicate IsSunday(d: Date)
    requires Valid(d)
  {
    Weekday(d) == 6
  }

  /** The calendar day before `d`; 0001-01-01 has none. */
  function PrevDay(d: Date): (p: Date)
    requires Valid(d) && d != Date(1, 1, 1)
    ensures Valid(p) && Before(p, d)
    ensures forall x :: Valid(x) && Before(p, x) ==> !Before(x, d)
  {
    if d.day > 1 then Date(d.year, d.month, d.day - 1)
    else if d.month > 1 then Date(d.year, d.month - 1, DaysInMonth(d.year, d.month - 1))
    else Date(d.year - 1, 12, 31)
  }

  lemma LeapDaysStep(y: int)
    requires y >= 1
    ensures LeapDays(y) - LeapDays(y - 1) == if IsLeapYear(y) then 1 else 0
  {
    QuotientStep4(y);
    QuotientStep100(y);
    QuotientStep400(y);
  }

  lemma QuotientStep4(y: int)
    ensures y / 4 - (y - 1) / 4 == if y % 4 == 0 then 1 else 0
  {
  }

  lemma QuotientStep100(y: int)
    ensures y / 100 - (y - 1) / 100 == if y % 100 == 0 then 1 else 0
  {
  }

  lemma QuotientStep400(y: int)
    ensures y / 400 - (y - 1) / 400 == if y % 400 == 0 then 1 else 0
  {
  }

  /** From one day to the next, Sakamoto's sum grows by 1 modulo 7. */
  lemma WeekdaySumStep(d: Date)
    requires Valid(d) && d != Date(1, 1, 1)
    ensures var diff := WeekdaySum(d) - WeekdaySum(PrevDay(d)); diff == 1 || diff == -27 || diff == -34
  {
    if d.day == 1 {
      if d.month == 3 {
        LeapDaysStep(d.year);
      } else if d.month > 1 {
        MonthStartStep(d);
      }
    }
  }

  /** The first of a month other than January and March: the previous month's length closes the gap. */
  lemma MonthStartStep(d: Date)
    requires Valid(d) && d.day == 1 && 1 < d.month && d.month != 3
    ensures var diff := WeekdaySum(d) - WeekdaySum(PrevDay(d)); diff == 1 || diff == -27 || diff == -34
  {
  }

  lemma ShiftByOne(a: int, b: int)
    requires a - b == 1 || a - b == -27 || a - b == -34
    ensures (b % 7 + 6) % 7 == ((a % 7 + 6) % 7 + 6) % 7
  {
  }

  /** The weekday of the previous day is one less, modulo 7: the formula follows the calendar. */
  lemma {:induction false} WeekdayOfPrevDay(d: Date)
    requires Valid(d) && d != Date(1, 1, 1)
    ensures Weekday(PrevDay(d)) == (Weekday(d) + 6) % 7
  {
    WeekdaySumStep(d);
    ShiftByOne(WeekdaySum(d), WeekdaySum(PrevDay(d)));
  }

  // ---------------------------------------------------------------------------
  // The `YYYY-MM-DD` text of a date
  // ---------------------------------------------------------------------------

  function Pow10(w: nat): nat {
    if w == 0 then 1 else 10 * Pow10(w - 1)
  }

  function DigitChar(k: int): char
    requires 0 <= k < 10
  {
    ('0' as int + k) as char
  }

  predicate AllDigits(s: string) {
    forall i :: 0 <= i < |s| ==> IsDigit(s[i])
  }

  /** The last `w` decimal digits of `n`, zero-padded on the left. */
  function Pad(n: nat, w: nat): (s: string)
    ensures |s| == w
    ensures AllDigits(s)
  {
    if w == 0 then [] else Pad(n / 10, w - 1) + [DigitChar(n % 10)]
  }

  /** The number a string of decimal digits spells. */
  function DigitsValue(s: string): nat
    requires AllDigits(s)
  {
    if s == [] then 0 else 10 * DigitsValue(s[..|s| - 1]) + DigitValue(s[|s| - 1])
  }

  function DigitValue(c: char): (k: nat)
    requires IsDigit(c)
    ensures k < 10
  {
    (c as int - '0' as int) as nat
  }

  lemma {:induction false} PadValue(n: nat, w: nat)
    requires n < Pow10(w)
    ensures DigitsValue(Pad(n, w)) == n
  {
    if w > 0 {
      PadValue(n / 10, w - 1);
      assert Pad(n, w)[..w - 1] == Pad(n / 10, w - 1);
    }
  }

  /** Zero-padded numbers of one width compare as text exactly as they compare as numbers. */
  lemma {:induction false} PadOrder(m: nat, n: nat, w: nat)
    requires m < Pow10(w) && n < Pow10(w)
    ensures StrLess(Pad(m, w), Pad(n, w)) <==> m < n
  {
    if w > 0 {
      DropDigitBound(m, w);
      DropDigitBound(n, w);
      PadOrder(m / 10, n / 10, w - 1);
      StrLessConcat(Pad(m / 10, w - 1), [DigitChar(m % 10)], Pad(n / 10, w - 1), [DigitChar(n % 10)]);
      PadSame(m / 10, n / 10, w - 1);
      DecimalOrder(m, n);
    }
  }

  lemma DropDigitBound(m: nat, w: nat)
    requires w > 0 && m < Pow10(w)
    ensures m / 10 < Pow10(w - 1)
  {
  }

  /** Numbers compare as their leading digits, then as their last digits. */
  lemma DecimalOrder(m: nat, n: nat)
    ensures m < n <==> m / 10 < n / 10 || (m / 10 == n / 10 && m % 10 < n % 10)
  {
    assert m == 10 * (m / 10) + m % 10 && n == 10 * (n / 10) + n % 10;
  }

  /** `date.strftime('%Y-%m-%d')`. */
  function DateString(d: Date): (s: string)
    requires Valid(d)
    ensures |s| == 10
  {
    Pad(d.year, 4) + "-" + Pad(d.month, 2) + "-" + Pad(d.day, 2)
  }

  /** Reads a `YYYY-MM-DD` string back into a date; anything else is `None`. */
  function ParseDate(s: string): Option<Date> {
    if |s| == 10 && s[4] == '-' && s[7] == '-'
       && AllDigits(s[..4]) && AllDigits(s[5..7]) && AllDigits(s[8..])
    then
      var d := Date(DigitsValue(s[..4]), DigitsValue(s[5..7]), DigitsValue(s[8..]));
      if Valid(d) then Some(d) else None
    else None
  }

  /** The written date reads back as the date it was written from. */
  lemma DateStringRoundTrip(d: Date)
    requires Valid(d)
    ensures ParseDate(DateString(d)) == Some(d)
  {
    var s := DateString(d);
    assert s[..4] == Pad(d.year, 4);
    assert s[5..7] == Pad(d.month, 2);
    assert s[8..] == Pad(d.day, 2);
    PadValue(d.year, 4);
    PadValue(d.month, 2);
    PadValue(d.day, 2);
  }

  /** Two dates are written alike only if they are the same date. */
  lemma DateStringInjective(a: Date, b: Date)
    requires Valid(a) && Valid(b)
    ensures DateString(a) == DateString(b) <==> a == b
  {
    if DateString(a) == DateString(b) {
      DateStringRoundTrip(a);
      DateStringRoundTrip(b);
    }
  }

  /** Sorting the written dates as text sorts them chronologically. */
  lemma DateStringOrder(a: Date, b: Date)
    requires Valid(a) && Valid(b)
    ensures StrLess(DateString(a), DateString(b)) <==> Before(a, b)
  {
    FieldsLess(Pad(a.year, 4), Pad(a.month, 2), Pad(a.day, 2), Pad(b.year, 4), Pad(b.month, 2), Pad(b.day, 2));
    PadOrder(a.year, b.year, 4);
    PadOrder(a.month, b.month, 2);
    PadOrder(a.day, b.day, 2);
    PadSame(a.year, b.year, 4);
    PadSame(a.month, b.month, 2);
  }

  /** Text of the form `Y-M-D` with fields of equal widths compares field by field. */
  lemma FieldsLess(y1: string, m1: string, d1: string, y2: string, m2: string, d2: string)
    requires |y1| == |y2| && |m1| == |m2|
    ensures StrLess(y1 + "-" + m1 + "-" + d1, y2 + "-" + m2 + "-" + d2) <==>
      StrLess(y1, y2) || (y1 == y2 && (StrLess(m1, m2) || (m1 == m2 && StrLess(d1, d2))))
  {
    var t1, t2 := "-" + m1 + "-" + d1, "-" + m2 + "-" + d2;
    assert y1 + "-" + m1 + "-" + d1 == y1 + t1;
    assert y2 + "-" + m2 + "-" + d2 == y2 + t2;
    StrLessConcat(y1, t1, y2, t2);
    DashedLess(m1, d1, m2, d2);
  }

  /** The month-and-day tail `-MM-DD` compares field by field. */
  lemma DashedLess(x1: string, y1: string, x2: string, y2: string)
    requires |x1| == |x2|
    ensures StrLess("-" + x1 + "-" + y1, "-" + x2 + "-" + y2) <==> StrLess(x1, x2) || (x1 == x2 && StrLess(y1, y2))
  {
    assert ("-" + x1 + "-" + y1)[1..] == x1 + ("-" + y1);
    assert ("-" + x2 + "-" + y2)[1..] == x2 + ("-" + y2);
    StrLessConcat(x1, "-" + y1, x2, "-" + y2);
    assert ("-" + y1)[1..] == y1 && ("-" + y2)[1..] == y2;
  }

  lemma PadSame(m: nat, n: nat, w: nat)
    requires m < Pow10(w) && n < Pow10(w)
    ensures Pad(m, w) == Pad(n, w) <==> m == n
  {
    PadValue(m, w);
    PadValue(n, w);
  }
}
