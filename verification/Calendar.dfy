/** The calendar arithmetic behind `localtime` and `mktime`: the proleptic
    Gregorian calendar in UTC, over unbounded integers. An instant is counted in
    minutes since 1970-01-01 00:00. */
module Calendar {

  /** The broken-down time `{tm_year, tm_mon, tm_mday, tm_hour, tm_min}`. The
      year counts from 1900, the month from 0 and the day of the month from 1.
      The values may lie outside their calendar range, as they may in a `tm`
      handed to `mktime`. */
  type Fields = f: seq<int> | |f| == 5 witness [0, 0, 0, 0, 0]

  const YEAR := 0
  const MONTH := 1
  const DAY := 2
  const HOUR := 3
  const MINUTE := 4

  predicate IsLeap(y: int) {
    var g := y + 1900;
    g % 4 == 0 && (g % 100 != 0 || g % 400 == 0)
  }

  function DaysInMonth(y: int, m: int): (n: int)
    ensures 28 <= n <= 31
  {
    if m == 1 then if IsLeap(y) then 29 else 28
    else if m == 3 || m == 5 || m == 8 || m == 10 then 30
    else 31
  }

  function DaysInYear(y: int): int {
    if IsLeap(y) then 366 else 365
  }

  /** Days from 1970-01-01 to the first of January of year `y`. */
  function YearStart(y: int): int
    decreases if y >= 70 then y - 70 else 70 - y
  {
    if y == 70 then 0
    else if y > 70 then YearStart(y - 1) + DaysInYear(y - 1)
    else YearStart(y + 1) - DaysInYear(y)
  }

  /** Days from the first of January to the first of month `m`. */
  function MonthStart(y: int, m: int): int {
    var leap := if IsLeap(y) then 1 else 0;
    if m <= 0 then 0
    else if m == 1 then 31
    else if m == 2 then 59 + leap
    else if m == 3 then 90 + leap
    else if m == 4 then 120 + leap
    else if m == 5 then 151 + leap
    else if m == 6 then 181 + leap
    else if m == 7 then 212 + leap
    else if m == 8 then 243 + leap
    else if m == 9 then 273 + leap
    else if m == 10 then 304 + leap
    else 334 + leap
  }

  /** The day `mktime` resolves a possibly out-of-range date to. */
  function DayNumber(y: int, m: int, d: int): int {
    var y', m' := y + m / 12, m % 12;
    YearStart(y') + MonthStart(y', m') + d - 1
  }

  /** The instant `mktime` resolves possibly out-of-range fields to. */
  function Minutes(f: Fields): int {
    DayNumber(f[YEAR], f[MONTH], f[DAY]) * 1440 + f[HOUR] * 60 + f[MINUTE]
  }

  function YearOfFrom(n: int, y: int): (r: int)
    ensures YearStart(r) <= n < YearStart(r + 1)
    decreases n < YearStart(y), if n < YearStart(y) then YearStart(y) - n else n - YearStart(y)
  {
    YearLength(y); YearLength(y - 1);
    if n < YearStart(y) then YearOfFrom(n, y - 1)
    else if n >= YearStart(y + 1) then YearOfFrom(n, y + 1)
    else y
  }

  /** The year in which day `n` lies. */
  function YearOf(n: int): (r: int)
    ensures YearStart(r) <= n < YearStart(r + 1)
  {
    YearOfFrom(n, 70)
  }

  function MonthOfFrom(y: int, r: int, m: int): (k: int)
    requires 0 <= m <= 11 && MonthStart(y, m) <= r
    requires r < DaysInYear(y)
    ensures m <= k <= 11 && MonthStart(y, k) <= r < MonthStart(y, k) + DaysInMonth(y, k)
    decreases 12 - m
  {
    if r < MonthStart(y, m) + DaysInMonth(y, m) then m else MonthOfFrom(y, r, m + 1)
  }

  /** The broken-down time `localtime` gives for an instant. */
  function FieldsOf(t: int): Fields {
    var n := t / 1440;
    var y := YearOf(n);
    YearLength(y);
    var r := n - YearStart(y);
    var m := MonthOfFrom(y, r, 0);
    [y, m, r - MonthStart(y, m) + 1, t % 1440 / 60, t % 60]
  }

  /** The day of the week of an instant, Monday being 0. */
  function Weekday(t: int): (w: int)
    ensures 0 <= w <= 6
  {
    (t / 1440 + 3) % 7
  }

  /** The fields name a date and time of the calendar. */
  predicate Proper(f: Fields) {
    && 0 <= f[MONTH] <= 11
    && 1 <= f[DAY] <= DaysInMonth(f[YEAR], f[MONTH])
    && 0 <= f[HOUR] <= 23
    && 0 <= f[MINUTE] <= 59
  }

  predicate LexLess(a: Fields, b: Fields) {
    || a[0] < b[0]
    || (a[0] == b[0] && (
      || a[1] < b[1]
      || (a[1] == b[1] && (
        || a[2] < b[2]
        || (a[2] == b[2] && (
          || a[3] < b[3]
          || (a[3] == b[3] && a[4] < b[4])))))))
  }

  lemma YearLength(y: int)
    ensures YearStart(y + 1) == YearStart(y) + DaysInYear(y)
  {
  }

  lemma {:induction false} LaterYear(y: int, z: int)
    requires y < z
    ensures YearStart(y + 1) <= YearStart(z)
    decreases z - y
  {
    YearLength(y + 1);
    if y + 1 < z {
      LaterYear(y + 1, z);
    }
  }

  lemma LaterMonth(y: int, m: int, m': int)
    requires 0 <= m < m' <= 11
    ensures MonthStart(y, m) + DaysInMonth(y, m) <= MonthStart(y, m')
  {
  }

  lemma MonthEnd(y: int, m: int)
    requires 0 <= m <= 11
    ensures MonthStart(y, m) + DaysInMonth(y, m) <= DaysInYear(y)
  {
  }

  /** The days of a year lie between its start and the start of the next. */
  lemma DayWithinYear(y: int, m: int, d: int)
    requires 0 <= m <= 11 && 1 <= d
    ensures YearStart(y) <= DayNumber(y, m, d)
    ensures d <= DaysInMonth(y, m) ==> DayNumber(y, m, d) < YearStart(y + 1)
  {
    YearLength(y);
    MonthEnd(y, m);
  }

  lemma LaterMonthDay(y: int, m: int, d: int, m': int, d': int)
    requires 0 <= m < m' <= 11 && 1 <= d <= DaysInMonth(y, m) && 1 <= d'
    ensures DayNumber(y, m, d) < DayNumber(y, m', d')
  {
    LaterMonth(y, m, m');
  }

  /** A later calendar date has a larger day number. */
  lemma LaterDate(y: int, m: int, d: int, y': int, m': int, d': int)
    requires 0 <= m <= 11 && 1 <= d <= DaysInMonth(y, m)
    requires 0 <= m' <= 11 && 1 <= d'
    requires y < y' || (y == y' && m < m') || (y == y' && m == m' && d < d')
    ensures DayNumber(y, m, d) < DayNumber(y', m', d')
  {
    if y < y' {
      LaterYear(y, y');
      DayWithinYear(y, m, d);
      DayWithinYear(y', m', d');
    } else if m < m' {
      LaterMonthDay(y, m, d, m', d');
    }
  }

  /** `mktime` orders proper broken-down times as a reader would. */
  lemma LexLessIsEarlier(a: Fields, b: Fields)
    requires Proper(a) && Proper(b)
    ensures LexLess(a, b) <==> Minutes(a) < Minutes(b)
  {
    if LexLess(a, b) {
      EarlierWhenLess(a, b);
    } else if LexLess(b, a) {
      EarlierWhenLess(b, a);
    }
  }

  lemma EarlierWhenLess(a: Fields, b: Fields)
    requires Proper(a) && Proper(b) && LexLess(a, b)
    ensures Minutes(a) < Minutes(b)
  {
    if a[0] != b[0] || a[1] != b[1] || a[2] != b[2] {
      LaterDate(a[0], a[1], a[2], b[0], b[1], b[2]);
    }
  }

  /** `localtime` gives a proper time that `mktime` takes back to the instant. */
  lemma FieldsOfProper(t: int)
    ensures Proper(FieldsOf(t)) && Minutes(FieldsOf(t)) == t
  {
    YearLength(YearOf(t / 1440));
  }

  /** The number of leap years before year `y` by the Gregorian rule: every fourth, not
      every hundredth, but every four-hundredth. */
  function LeapYearsBefore(y: int): int {
    (y + 1899) / 4 - (y + 1899) / 100 + (y + 1899) / 400
  }

  /** Years have 365 days and one more for each leap year before. */
  lemma {:induction false} YearStartCounts(y: int)
    ensures YearStart(y) == 365 * (y - 70) + LeapYearsBefore(y) - LeapYearsBefore(70)
    decreases if y >= 70 then y - 70 else 70 - y
  {
    if y > 70 {
      YearStartCounts(y - 1);
      LeapYearCounted(y - 1);
    } else if y < 70 {
      YearStartCounts(y + 1);
      LeapYearCounted(y);
    }
  }

  lemma LeapYearCounted(y: int)
    ensures LeapYearsBefore(y + 1) == LeapYearsBefore(y) + if IsLeap(y) then 1 else 0
  {
    QuotientStep(y + 1899, 4);
    QuotientStep(y + 1899, 100);
    QuotientStep(y + 1899, 400);
    Divisors(y + 1900);
  }

  lemma Divisors(n: int)
    ensures (n % 400 == 0 ==> n % 100 == 0) && (n % 100 == 0 ==> n % 4 == 0)
  {
    if n % 400 == 0 {
      Multiple(n, 4 * (n / 400), 100);
    }
    if n % 100 == 0 {
      Multiple(n, 25 * (n / 100), 4);
    }
  }

  lemma Multiple(n: int, k: int, d: int)
    requires (d == 4 || d == 100) && n == d * k
    ensures n % d == 0
  {
  }

  lemma QuotientStep(n: int, d: int)
    requires d == 4 || d == 100 || d == 400
    ensures (n + 1) / d == n / d + if (n + 1) % d == 0 then 1 else 0
  {
  }

  /** The lengths of the months, and where they begin in a year. */
  lemma MonthTable(y: int, m: int)
    requires 0 <= m <= 11
    ensures var leap := if IsLeap(y) then 1 else 0;
            && DaysInMonth(y, m) == [31, 28 + leap, 31, 30, 31, 30, 31, 31, 30, 31, 30, 31][m]
            && MonthStart(y, m) == [0, 31, 59, 90, 120, 151, 181, 212, 243, 273, 304, 334][m]
                                   + if m > 1 then leap else 0
  {
  }

  /** The first of January 1970 is a Thursday, and the weekday goes on by one a day. */
  lemma WeekdaysFollow(t: int)
    ensures FieldsOf(0) == [70, 0, 1, 0, 0] && Weekday(0) == 3
    ensures Weekday(t + 1440) == (Weekday(t) + 1) % 7
    ensures Weekday(t / 1440 * 1440) == Weekday(t)
  {
    hide FieldsOf;
    EpochIsZero();
    MktimeKeepsProper([70, 0, 1, 0, 0]);
    hide Minutes;
  }

  lemma EpochIsZero()
    ensures Minutes([70, 0, 1, 0, 0]) == 0
  {
  }

  /** `mktime` followed by `localtime` changes exactly the fields that do not
      name a calendar time. */
  lemma MktimeKeepsProper(f: Fields)
    ensures Proper(f) <==> FieldsOf(Minutes(f)) == f
  {
    FieldsOfProper(Minutes(f));
    if Proper(f) {
      var n := FieldsOf(Minutes(f));
      LexLessIsEarlier(f, n);
      LexLessIsEarlier(n, f);
      assert n == [n[0], n[1], n[2], n[3], n[4]] && f == [f[0], f[1], f[2], f[3], f[4]];
    }
  }
}
