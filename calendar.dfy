/**
 * Proleptic Gregorian dates as Python's `datetime.date` has them (years 1..9999),
 * their day numbers (`date.toordinal()`), and their ISO text (`date.isoformat()`),
 * which is how the absence table stores them.
 */
module Calendar {
  import opened Base
  import opened Text

  const MinYear := 1
  const MaxYear := 9999

  datatype Date = Date(year: int, month: int, day: int)

  predicate IsLeap(y: int) {
    y % 4 == 0 && (y % 100 != 0 || y % 400 == 0)
  }

  function DaysInMonth(y: int, m: int): (n: int)
    requires 1 <= m <= 12
    ensures 28 <= n <= 31
    ensures m == 2 ==> (n == 29 <==> IsLeap(y))
  {
    if m == 2 then (if IsLeap(y) then 29 else 28)
    else if m == 4 || m == 6 || m == 9 || m == 11 then 30
    else 31
  }

  function DaysInYear(y: int): int {
    if IsLeap(y) then 366 else 365
  }

  predicate Valid(d: Date) {
    MinYear <= d.year <= MaxYear && 1 <= d.month <= 12 && 1 <= d.day <= DaysInMonth(d.year, d.month)
  }

  /** A date `datetime.date` can hold. */
  type Day = d: Date | Valid(d) witness Date(1, 1, 1)

  /** Calendar order: year, then month, then day. */
  predicate Before(a: Date, b: Date) {
    a.year < b.year || (a.year == b.year && (a.month < b.month || (a.month == b.month && a.day < b.day)))
  }

  /** Days in the years before `y` (CPython's _days_before_year). */
  function DaysBeforeYear(y: int): int
    requires y >= 1
  {
    var p := y - 1;
    p * 365 + p / 4 - p / 100 + p / 400
  }

  /** Days in the months of year `y` before month `m`. */
  function DaysBeforeMonth(y: int, m: int): int
    requires 1 <= m <= 12
  {
    var cumulative := [0, 31, 59, 90, 120, 151, 181, 212, 243, 273, 304, 334];
    cumulative[m - 1] + (if m > 2 && IsLeap(y) then 1 else 0)
  }

  /** date.toordinal(): 0001-01-01 is day 1. */
  function Ordinal(d: Date): int
    requires Valid(d)
  {
    DaysBeforeYear(d.year) + DaysBeforeMonth(d.year, d.month) + d.day
  }

  lemma YearStep(y: int)
    requires y >= 1
    ensures DaysBeforeYear(y + 1) == DaysBeforeYear(y) + DaysInYear(y)
  {
    LeapCounts(y - 1);
  }

  /** Counting one more year adds one multiple of 4, 100 or 400 exactly when that year is one. */
  lemma LeapCounts(p: int)
    requires p >= 0
    ensures (p + 1) / 4 == p / 4 + (if (p + 1) % 4 == 0 then 1 else 0)
    ensures (p + 1) / 100 == p / 100 + (if (p + 1) % 100 == 0 then 1 else 0)
    ensures (p + 1) / 400 == p / 400 + (if (p + 1) % 400 == 0 then 1 else 0)
  {
  }

  /** Every date of year `y` lies before the first day of year `y + 1`. */
  lemma WithinYear(d: Date)
    requires Valid(d)
    ensures DaysBeforeYear(d.year) < Ordinal(d) <= DaysBeforeYear(d.year) + DaysInYear(d.year)
  {
  }

  lemma {:induction false} YearsIncrease(a: int, b: int)
    requires 1 <= a < b
    ensures DaysBeforeYear(a) + DaysInYear(a) <= DaysBeforeYear(b)
    decreases b - a
  {
    YearStep(a);
    if a + 1 < b {
      YearsIncrease(a + 1, b);
    }
  }

  /** Day numbers follow calendar order. */
  lemma OrdinalMonotone(a: Date, b: Date)
    requires Valid(a) && Valid(b) && Before(a, b)
    ensures Ordinal(a) < Ordinal(b)
  {
    if a.year < b.year {
      WithinYear(a);
      WithinYear(b);
      YearsIncrease(a.year, b.year);
    } else if a.month < b.month {
      assert DaysBeforeMonth(a.year, a.month) + DaysInMonth(a.year, a.month) <= DaysBeforeMonth(a.year, b.month);
    }
  }

  /** Comparing day numbers is comparing dates, so the stored day numbers can stand in for dates. */
  lemma OrdinalOrder(a: Date, b: Date)
    requires Valid(a) && Valid(b)
    ensures Before(a, b) <==> Ordinal(a) < Ordinal(b)
    ensures a == b <==> Ordinal(a) == Ordinal(b)
  {
    if Before(a, b) {
      OrdinalMonotone(a, b);
    } else if Before(b, a) {
      OrdinalMonotone(b, a);
    }
  }

  /** date.isoformat(): "YYYY-MM-DD". */
  function IsoFormat(d: Date): (s: string)
    requires Valid(d)
    ensures |s| == 10
  {
    Digits(d.year, 4) + "-" + Digits(d.month, 2) + "-" + Digits(d.day, 2)
  }

  /** The "-MM-DD" part of an ISO date. */
  function MonthDayText(month: nat, day: nat): string {
    "-" + Digits(month, 2) + "-" + Digits(day, 2)
  }

  /** "-DD" texts compare as their days. */
  lemma DayTextOrder(d1: nat, d2: nat)
    requires d1 < 100 && d2 < 100
    ensures Less("-" + Digits(d1, 2), "-" + Digits(d2, 2)) <==> d1 < d2
    ensures "-" + Digits(d1, 2) == "-" + Digits(d2, 2) <==> d1 == d2
  {
    assert Pow10(2) == 100;
    DigitsOrder(d1, d2, 2);
    LessIrreflexive("-");
    LessAppend("-", Digits(d1, 2), "-", Digits(d2, 2));
    if "-" + Digits(d1, 2) == "-" + Digits(d2, 2) {
      assert Digits(d1, 2) == ("-" + Digits(d1, 2))[1..];
    }
  }

  /** "-MM-DD" texts compare as (month, day) pairs. */
  lemma MonthDayOrder(m1: nat, d1: nat, m2: nat, d2: nat)
    requires m1 < 100 && d1 < 100 && m2 < 100 && d2 < 100
    ensures Less(MonthDayText(m1, d1), MonthDayText(m2, d2)) <==> m1 < m2 || (m1 == m2 && d1 < d2)
    ensures MonthDayText(m1, d1) == MonthDayText(m2, d2) <==> m1 == m2 && d1 == d2
  {
    var x1, x2 := "-" + Digits(m1, 2), "-" + Digits(m2, 2);
    var y1, y2 := "-" + Digits(d1, 2), "-" + Digits(d2, 2);
    assert MonthDayText(m1, d1) == x1 + y1;
    assert MonthDayText(m2, d2) == x2 + y2;
    DayTextOrder(m1, m2);
    DayTextOrder(d1, d2);
    LessAppend(x1, y1, x2, y2);
    if x1 + y1 == x2 + y2 {
      assert x1 == (x1 + y1)[..3] && x2 == (x2 + y2)[..3];
      assert y1 == (x1 + y1)[3..] && y2 == (x2 + y2)[3..];
    }
  }

  /** Text comparison of ISO strings, as the SQL `end_date < $1` performs it, agrees
      with calendar order (the fields are zero-padded to fixed widths). */
  lemma IsoOrder(a: Date, b: Date)
    requires Valid(a) && Valid(b)
    ensures Less(IsoFormat(a), IsoFormat(b)) <==> Before(a, b)
    ensures IsoFormat(a) == IsoFormat(b) <==> a == b
  {
    var ya, yb := Digits(a.year, 4), Digits(b.year, 4);
    var ta, tb := MonthDayText(a.month, a.day), MonthDayText(b.month, b.day);
    assert Pow10(4) == 10000;
    DigitsOrder(a.year, b.year, 4);
    MonthDayOrder(a.month, a.day, b.month, b.day);
    IsoParts(a);
    IsoParts(b);
    LessAppend(ya, ta, yb, tb);
    if ya + ta == yb + tb {
      assert ya == (ya + ta)[..4] && yb == (yb + tb)[..4];
      assert ta == (ya + ta)[4..] && tb == (yb + tb)[4..];
    }
  }

  lemma IsoParts(d: Date)
    requires Valid(d)
    ensures IsoFormat(d) == Digits(d.year, 4) + MonthDayText(d.month, d.day)
  {
  }

  /** `d - timedelta(days=1)`; None where Python raises OverflowError (on 0001-01-01). */
  function PrevDay(d: Day): Option<Day> {
    if d.day > 1 then Some(Date(d.year, d.month, d.day - 1))
    else if d.month > 1 then Some(Date(d.year, d.month - 1, DaysInMonth(d.year, d.month - 1)))
    else if d.year > MinYear then Some(Date(d.year - 1, 12, 31))
    else None
  }

  /** The previous day exists for every date but the first, and its day number is one less. */
  lemma PrevDayOrdinal(d: Day)
    ensures PrevDay(d).None? <==> d == Date(1, 1, 1)
    ensures PrevDay(d).Some? ==> Ordinal(PrevDay(d).value) == Ordinal(d) - 1
  {
    if d.day == 1 && d.month > 1 {
      MonthStep(d.year, d.month);
    } else if d.day == 1 && d.month == 1 && d.year > MinYear {
      YearStep(d.year - 1);
      assert DaysBeforeMonth(d.year - 1, 12) + 31 == DaysInYear(d.year - 1);
    }
  }

  /** The days before month `m` are those before month `m - 1` and in it. */
  lemma MonthStep(y: int, m: int)
    requires 2 <= m <= 12
    ensures DaysBeforeMonth(y, m) == DaysBeforeMonth(y, m - 1) + DaysInMonth(y, m - 1)
  {
  }

  /** ISO text order, as SQL compares the stored dates, is day-number order. */
  lemma IsoLessIff(a: Day, b: Day)
    ensures Less(IsoFormat(a), IsoFormat(b)) <==> Ordinal(a) < Ordinal(b)
  {
    IsoOrder(a, b);
    OrdinalOrder(a, b);
  }
}
