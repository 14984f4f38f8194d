/**
 * The part of Python's `datetime` that `datetime.utcfromtimestamp` relies
 * on: the proleptic Gregorian calendar, day ordinals (0001-01-01 is day 1,
 * as `date.toordinal()` counts), `date.weekday()` (Monday is 0) and the
 * conversion of whole epoch seconds to a UTC date and time, which fails for
 * years outside 1..9999 (Python raises `ValueError`).
 */
module Calendar {
  import opened Wrappers

  const MinYear := 1
  const MaxYear := 9999
  const SecondsPerDay := 86400
  /** The ordinal of 1970-01-01, the Unix epoch. */
  const EpochOrdinal := 719163
  /** The first and last timestamps whose UTC date lies in years 1..9999. */
  const MinTimestamp := -62135596800
  const MaxTimestamp := 253402300799

  predicate IsLeap(y: int) {
    y % 4 == 0 && (y % 100 != 0 || y % 400 == 0)
  }

  function DaysInYear(y: int): int {
    if IsLeap(y) then 366 else 365
  }

  function DaysInMonth(y: int, m: int): int
    requires 1 <= m <= 12
  {
    if m == 2 then (if IsLeap(y) then 29 else 28)
    else if m == 4 || m == 6 || m == 9 || m == 11 then 30
    else 31
  }

  /** Days in year y before the first of month m; m = 13 gives the whole year. */
  function DaysBeforeMonth(y: int, m: int): (r: int)
    requires 1 <= m <= 13
    ensures m == 13 ==> r == DaysInYear(y)
    ensures 0 <= r
  {
    [0, 31, 59, 90, 120, 151, 181, 212, 243, 273, 304, 334, 365][m - 1]
      + (if m > 2 && IsLeap(y) then 1 else 0)
  }

  lemma MonthStep(y: int, m: int)
    requires 1 <= m <= 12
    ensures DaysBeforeMonth(y, m + 1) == DaysBeforeMonth(y, m) + DaysInMonth(y, m)
  {
  }

  /** Days before January 1 of year y, counted from 0001-01-01 (floor division throughout). */
  function DaysBeforeYear(y: int): int {
    var x := y - 1;
    365 * x + x / 4 - x / 100 + x / 400
  }

  datatype Date = Date(year: int, month: int, day: int)

  predicate ValidDate(d: Date) {
    1 <= d.month <= 12 && 1 <= d.day <= DaysInMonth(d.year, d.month)
  }

  /** `date.toordinal()`. */
  function Ordinal(d: Date): int
    requires ValidDate(d)
  {
    DaysBeforeYear(d.year) + DaysBeforeMonth(d.year, d.month) + d.day
  }

  /** `date.weekday()`: Monday is 0 and Sunday is 6. */
  function Weekday(d: Date): (w: int)
    requires ValidDate(d)
    ensures 0 <= w < 7
  {
    (Ordinal(d) + 6) % 7
  }

  /**
   * Writing y - 1 as 400a + 100b + 4c + e with the cycle counts in range
   * splits the days before year y into whole 400-, 100-, 4- and 1-year
   * cycles, and decides whether y is a leap year.
   */
  lemma CycleSplit(a: int, b: int, c: int, e: int)
    requires 0 <= b <= 3 && 0 <= c <= 24 && 0 <= e <= 3
    ensures DaysBeforeYear(400 * a + 100 * b + 4 * c + e + 1)
         == 146097 * a + 36524 * b + 1461 * c + 365 * e
    ensures IsLeap(400 * a + 100 * b + 4 * c + e + 1) <==> (e == 3 && (c != 24 || b == 3))
  {
    CycleDays(a, b, c, e);
    CycleLeap(a, b, c, e);
  }

  lemma CycleDays(a: int, b: int, c: int, e: int)
    requires 0 <= b <= 3 && 0 <= c <= 24 && 0 <= e <= 3
    ensures DaysBeforeYear(400 * a + 100 * b + 4 * c + e + 1)
         == 146097 * a + 36524 * b + 1461 * c + 365 * e
  {
    var x := 400 * a + 100 * b + 4 * c + e;
    DivModUnique(x, 4, 100 * a + 25 * b + c, e);
    DivModUnique(x, 100, 4 * a + b, 4 * c + e);
    DivModUnique(x, 400, a, 100 * b + 4 * c + e);
  }

  lemma CycleLeap(a: int, b: int, c: int, e: int)
    requires 0 <= b <= 3 && 0 <= c <= 24 && 0 <= e <= 3
    ensures IsLeap(400 * a + 100 * b + 4 * c + e + 1) <==> (e == 3 && (c != 24 || b == 3))
  {
    var y := 400 * a + 100 * b + 4 * c + e + 1;
    if e == 3 {
      DivModUnique(y, 4, 100 * a + 25 * b + c + 1, 0);
      if c == 24 {
        DivModUnique(y, 100, 4 * a + b + 1, 0);
        if b == 3 {
          DivModUnique(y, 400, a + 1, 0);
        } else {
          DivModUnique(y, 400, a, 100 * (b + 1));
        }
      } else {
        DivModUnique(y, 100, 4 * a + b, 4 * (c + 1));
      }
    } else {
      DivModUnique(y, 4, 100 * a + 25 * b + c, e + 1);
    }
  }

  /** The date within year y whose zero-based day of the year is doy. */
  function DateInYear(y: int, doy: int, m: int): (d: Date)
    requires 1 <= m <= 12
    requires DaysBeforeMonth(y, m) <= doy < DaysInYear(y)
    ensures ValidDate(d) && d.year == y
    ensures DaysBeforeMonth(y, d.month) + d.day == doy + 1
    decreases 12 - m
  {
    MonthStep(y, m);
    if doy < DaysBeforeMonth(y, m + 1) then Date(y, m, doy - DaysBeforeMonth(y, m) + 1)
    else DateInYear(y, doy, m + 1)
  }

  /**
   * `date.fromordinal(n)`, extended to every integer: the day number is cut
   * into 400-, 100-, 4- and 1-year cycles, whose counts give the year; the
   * rest picks the month and day. The result is the one valid date whose
   * ordinal is n.
   */
  function FromOrdinal(n: int): (d: Date)
    ensures ValidDate(d) && Ordinal(d) == n
  {
    var n0 := n - 1;
    var n400, r400 := n0 / 146097, n0 % 146097;
    var n100, r100 := r400 / 36524, r400 % 36524;
    var n4, r4 := r100 / 1461, r100 % 1461;
    var n1, doy := r4 / 365, r4 % 365;
    var year := 400 * n400 + 100 * n100 + 4 * n4 + n1 + 1;
    if n100 == 4 then
      assert r400 == 146096 && r100 == 0 && n4 == 0 && n1 == 0;
      CycleSplit(n400, 3, 24, 3);
      Date(year - 1, 12, 31)
    else if n1 == 4 then
      assert n4 <= 23;
      CycleSplit(n400, n100, n4, 3);
      CycleSplit(n400, n100, n4 + 1, 0);
      Date(year - 1, 12, 31)
    else
      CycleSplit(n400, n100, n4, n1);
      DateInYear(year, doy, 1)
  }

  /** Consecutive years: the days before y + 1 add the length of year y. */
  lemma NextYear(y: int)
    ensures DaysBeforeYear(y + 1) == DaysBeforeYear(y) + DaysInYear(y)
  {
    var x := y - 1;
    var n400, r400 := x / 400, x % 400;
    var n100, r100 := r400 / 100, r400 % 100;
    var n4, n1 := r100 / 4, r100 % 4;
    assert x == 400 * n400 + 100 * n100 + 4 * n4 + n1;
    CycleSplit(n400, n100, n4, n1);
    if n1 < 3 {
      CycleSplit(n400, n100, n4, n1 + 1);
    } else if n4 < 24 {
      CycleSplit(n400, n100, n4 + 1, 0);
    } else if n100 < 3 {
      CycleSplit(n400, n100 + 1, 0, 0);
    } else {
      CycleSplit(n400 + 1, 0, 0, 0);
    }
  }

  lemma {:induction false} YearsMonotone(y: int, z: int)
    requires y <= z
    ensures DaysBeforeYear(y) + 365 * (z - y) <= DaysBeforeYear(z)
    decreases z - y
  {
    if y < z {
      YearsMonotone(y, z - 1);
      NextYear(z - 1);
    }
  }

  /** A date's ordinal lies after every day of earlier years and within its own year. */
  lemma OrdinalWithinYear(d: Date)
    requires ValidDate(d)
    ensures DaysBeforeYear(d.year) < Ordinal(d) <= DaysBeforeYear(d.year + 1)
  {
    NextYear(d.year);
    MonthStep(d.year, d.month);
    MonthsMonotone(d.year, d.month + 1, 13);
  }

  lemma {:induction false} MonthsMonotone(y: int, m: int, k: int)
    requires 1 <= m <= k <= 13
    ensures DaysBeforeMonth(y, m) <= DaysBeforeMonth(y, k)
    decreases k - m
  {
    if m < k {
      MonthStep(y, m);
      MonthsMonotone(y, m + 1, k);
    }
  }

  /** Distinct valid dates have distinct ordinals. */
  lemma OrdinalInjective(d1: Date, d2: Date)
    requires ValidDate(d1) && ValidDate(d2) && Ordinal(d1) == Ordinal(d2)
    ensures d1 == d2
  {
    OrdinalWithinYear(d1);
    OrdinalWithinYear(d2);
    if d1.year < d2.year {
      YearsMonotone(d1.year + 1, d2.year);
      assert false;
    } else if d2.year < d1.year {
      YearsMonotone(d2.year + 1, d1.year);
      assert false;
    }
    MonthStep(d1.year, d1.month);
    MonthStep(d2.year, d2.month);
    if d1.month < d2.month {
      MonthsMonotone(d1.year, d1.month + 1, d2.month);
      assert false;
    } else if d2.month < d1.month {
      MonthsMonotone(d2.year, d2.month + 1, d1.month);
      assert false;
    }
  }

  /** `date.fromordinal(d.toordinal()) == d`. */
  lemma FromOrdinalOfOrdinal(d: Date)
    requires ValidDate(d)
    ensures FromOrdinal(Ordinal(d)) == d
  {
    OrdinalInjective(FromOrdinal(Ordinal(d)), d);
  }

  /** A date's year lies in 1..9999 exactly when its ordinal lies in 1..3652059. */
  lemma YearRange(d: Date)
    requires ValidDate(d)
    ensures MinYear <= d.year <= MaxYear <==> 1 <= Ordinal(d) <= 3652059
  {
    OrdinalWithinYear(d);
    assert DaysBeforeYear(1) == 0;
    assert DaysBeforeYear(10000) == 3652059;
    if d.year < 1 {
      YearsMonotone(d.year + 1, 1);
    } else {
      YearsMonotone(1, d.year);
    }
    if d.year < 10000 {
      YearsMonotone(d.year + 1, 10000);
    } else {
      YearsMonotone(10000, d.year);
    }
  }

  /** Division with a positive divisor is determined by quotient and remainder. */
  lemma DivModUnique(x: int, d: int, q: int, r: int)
    requires 0 < d && x == q * d + r && 0 <= r < d
    ensures x / d == q && x % d == r
  {
    var q', r' := x / d, x % d;
    assert (q - q') * d == r' - r;
    if q' < q {
      MulAtLeast(q - q', d);
    } else if q < q' {
      MulAtLeast(q' - q, d);
    }
  }

  lemma MulAtLeast(k: int, d: int)
    requires 1 <= k && 0 < d
    ensures k * d >= d
  {
  }

  datatype DateTime = DateTime(date: Date, hour: int, minute: int, second: int)

  predicate ValidDateTime(dt: DateTime) {
    && ValidDate(dt.date)
    && 0 <= dt.hour < 24 && 0 <= dt.minute < 60 && 0 <= dt.second < 60
  }

  /** `calendar.timegm`: the epoch seconds of a UTC date and time. */
  function ToTimestamp(dt: DateTime): int
    requires ValidDateTime(dt)
  {
    (Ordinal(dt.date) - EpochOrdinal) * SecondsPerDay + dt.hour * 3600 + dt.minute * 60 + dt.second
  }

  /**
   * `datetime.utcfromtimestamp(t)` for whole seconds t: the UTC date and
   * time t seconds after the epoch (days and seconds split by floor
   * division), or None where Python raises `ValueError` because the year
   * falls outside 1..9999.
   */
  function UtcFromTimestamp(t: int): (r: Option<DateTime>)
    ensures r.Some? ==> ValidDateTime(r.value) && MinYear <= r.value.date.year <= MaxYear
    ensures r.Some? ==> ToTimestamp(r.value) == t
    ensures r.None? <==> t < MinTimestamp || MaxTimestamp < t
  {
    var days, secs := t / SecondsPerDay, t % SecondsPerDay;
    var date := FromOrdinal(days + EpochOrdinal);
    YearRange(date);
    DaysOfTimestamp(t);
    SecondsOfDay(secs);
    if MinYear <= date.year <= MaxYear then
      Some(DateTime(date, secs / 3600, secs % 3600 / 60, secs % 60))
    else
      None
  }

  /** The day of a timestamp has an ordinal in 1..3652059 exactly for the representable timestamps. */
  lemma DaysOfTimestamp(t: int)
    ensures t == (t / SecondsPerDay) * SecondsPerDay + t % SecondsPerDay
    ensures 1 <= t / SecondsPerDay + EpochOrdinal <= 3652059 <==> MinTimestamp <= t <= MaxTimestamp
  {
    assert t == 86400 * (t / 86400) + t % 86400;
  }

  /** Hours, minutes and seconds of a second of the day. */
  lemma SecondsOfDay(secs: int)
    requires 0 <= secs < SecondsPerDay
    ensures 0 <= secs / 3600 < 24 && 0 <= secs % 3600 / 60 < 60 && 0 <= secs % 60 < 60
    ensures (secs / 3600) * 3600 + (secs % 3600 / 60) * 60 + secs % 60 == secs
  {
    assert secs == 3600 * (secs / 3600) + secs % 3600;
    var m := secs % 3600;
    assert m == 60 * (m / 60) + m % 60;
    DivModUnique(secs, 60, 60 * (secs / 3600) + m / 60, m % 60);
  }

  /** Converting a representable date and time to seconds and back gives it again. */
  lemma TimestampRoundTrip(dt: DateTime)
    requires ValidDateTime(dt) && MinYear <= dt.date.year <= MaxYear
    ensures UtcFromTimestamp(ToTimestamp(dt)) == Some(dt)
  {
    var t := ToTimestamp(dt);
    YearRange(dt.date);
    assert MinTimestamp <= t <= MaxTimestamp;
    ToTimestampInjective(UtcFromTimestamp(t).value, dt);
  }

  /** Distinct valid date-times have distinct timestamps. */
  lemma ToTimestampInjective(a: DateTime, b: DateTime)
    requires ValidDateTime(a) && ValidDateTime(b) && ToTimestamp(a) == ToTimestamp(b)
    ensures a == b
  {
    var t := ToTimestamp(a);
    ClockRoundTrip(a.hour, a.minute, a.second);
    ClockRoundTrip(b.hour, b.minute, b.second);
    DivModUnique(t, SecondsPerDay, Ordinal(a.date) - EpochOrdinal, a.hour * 3600 + a.minute * 60 + a.second);
    DivModUnique(t, SecondsPerDay, Ordinal(b.date) - EpochOrdinal, b.hour * 3600 + b.minute * 60 + b.second);
    OrdinalInjective(a.date, b.date);
  }

  /** A time of day in seconds splits back into its hour, minute and second. */
  lemma ClockRoundTrip(h: int, m: int, s: int)
    requires 0 <= h < 24 && 0 <= m < 60 && 0 <= s < 60
    ensures var secs := h * 3600 + m * 60 + s;
      0 <= secs < SecondsPerDay && secs / 3600 == h && secs % 3600 / 60 == m && secs % 60 == s
  {
    var secs := h * 3600 + m * 60 + s;
    DivModUnique(secs, 3600, h, m * 60 + s);
    DivModUnique(m * 60 + s, 60, m, s);
    DivModUnique(secs, 60, h * 60 + m, s);
  }

  /** The weekday of a converted timestamp is (days + 3) mod 7: 1970-01-01 was a Thursday. */
  lemma WeekdayOfTimestamp(t: int)
    requires UtcFromTimestamp(t).Some?
    ensures Weekday(UtcFromTimestamp(t).value.date) == (t / SecondsPerDay + 3) % 7
  {
    var dt := UtcFromTimestamp(t).value;
    var days := t / SecondsPerDay;
    assert Ordinal(dt.date) == days + EpochOrdinal;
    DivModUnique(days + EpochOrdinal + 6, 7, days / 7 + 102738 + (days % 7 + 3) / 7, (days % 7 + 3) % 7);
    DivModUnique(days + 3, 7, days / 7 + (days % 7 + 3) / 7, (days % 7 + 3) % 7);
  }
}
