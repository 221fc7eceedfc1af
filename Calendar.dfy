/**
 * Timestamps and the date arithmetic of date-fns that the task manager
 * calls: addDays, addWeeks, addMonths and the calendar date of a timestamp
 * (the 'yyyy-MM-dd' key of the calendar view). Timestamps are milliseconds
 * since 1970-01-01T00:00:00Z and dates are proleptic Gregorian dates in UTC.
 */
module Calendar {

  type Time = int

  const DayMs: int := 86_400_000
  const HourMs: int := 3_600_000

  datatype Date = Date(year: int, month: int, day: int)

  predicate IsLeap(y: int) {
    y % 4 == 0 && (y % 100 != 0 || y % 400 == 0)
  }

  function DaysInYear(y: int): int {
    if IsLeap(y) then 366 else 365
  }

  function DaysInMonth(y: int, m: int): int
    requires 1 <= m <= 12
  {
    if m == 2 then (if IsLeap(y) then 29 else 28)
    else if m == 4 || m == 6 || m == 9 || m == 11 then 30
    else 31
  }

  predicate ValidDate(d: Date) {
    1 <= d.month <= 12 && 1 <= d.day <= DaysInMonth(d.year, d.month)
  }

  /** Days from 0000-01-01 to the first of January of year `y`. */
  function YearStart(y: int): int {
    365 * y + (y + 3) / 4 - (y + 99) / 100 + (y + 399) / 400
  }

  /** `(x + b) / b` exceeds `(x + b - 1) / b` by one exactly when `b` divides `x`. */
  lemma DivStep(x: int, b: int)
    requires b == 4 || b == 100 || b == 400
    ensures (x + b) / b - (x + b - 1) / b == if x % b == 0 then 1 else 0
  {
    var q, r := x / b, x % b;
    assert x == b * q + r && 0 <= r < b;
    assert (x + b) / b == q + 1;
    if r == 0 {
      assert (x + b - 1) / b == q;
    } else {
      assert (x + b - 1) / b == q + 1;
    }
  }

  lemma MultipleMod(k: int)
    ensures (4 * k) % 4 == 0 && (100 * k) % 100 == 0
  {
  }

  /** Every multiple of 400 is a multiple of 100, and every multiple of 100 a multiple of 4. */
  lemma DivisorChain(y: int)
    ensures y % 400 == 0 ==> y % 100 == 0
    ensures y % 100 == 0 ==> y % 4 == 0
  {
    if y % 400 == 0 {
      var k := y / 400;
      assert y == 400 * k;
      MultipleMod(4 * k);
      assert y == 100 * (4 * k);
    }
    if y % 100 == 0 {
      var k := y / 100;
      assert y == 100 * k;
      MultipleMod(25 * k);
      assert y == 4 * (25 * k);
    }
  }

  lemma YearStartStep(y: int)
    ensures YearStart(y + 1) == YearStart(y) + DaysInYear(y)
  {
    DivStep(y, 4);
    DivStep(y, 100);
    DivStep(y, 400);
    DivisorChain(y);
  }

  lemma {:induction false} YearStartMonotone(a: int, b: int)
    requires a <= b
    ensures YearStart(a) + 365 * (b - a) <= YearStart(b)
    decreases b - a
  {
    if a < b {
      YearStartMonotone(a, b - 1);
      YearStartStep(b - 1);
    }
  }

  /** Days from the first of January to the first of month `m` (13 stands for the next January). */
  function MonthStart(y: int, m: int): int
    requires 1 <= m <= 13
  {
    if m == 1 then 0 else MonthStart(y, m - 1) + DaysInMonth(y, m - 1)
  }

  /** The months of a year add up to the days of the year. */
  lemma MonthsFillYear(y: int)
    ensures MonthStart(y, 13) == DaysInYear(y)
  {
    var leap := if IsLeap(y) then 1 else 0;
    assert MonthStart(y, 2) == 31;
    assert MonthStart(y, 3) == 59 + leap;
    assert MonthStart(y, 4) == 90 + leap;
    assert MonthStart(y, 5) == 120 + leap;
    assert MonthStart(y, 6) == 151 + leap;
    assert MonthStart(y, 7) == 181 + leap;
    assert MonthStart(y, 8) == 212 + leap;
    assert MonthStart(y, 9) == 243 + leap;
    assert MonthStart(y, 10) == 273 + leap;
    assert MonthStart(y, 11) == 304 + leap;
    assert MonthStart(y, 12) == 334 + leap;
  }

  lemma MonthStartStep(y: int, m: int)
    requires 1 <= m <= 12
    ensures MonthStart(y, m + 1) == MonthStart(y, m) + DaysInMonth(y, m)
    ensures MonthStart(y, 13) == DaysInYear(y)
  {
    MonthsFillYear(y);
  }

  /** Day 0 is 1970-01-01. */
  const EpochDay: int := YearStart(1970)

  /** The number of days from 1970-01-01 to `d`. */
  function DayNumber(d: Date): int
    requires ValidDate(d)
  {
    YearStart(d.year) - EpochDay + MonthStart(d.year, d.month) + d.day - 1
  }

  function YearDown(z: int, y: int): (r: int)
    requires z < YearStart(y + 1)
    ensures YearStart(r) <= z < YearStart(r + 1)
    decreases YearStart(y) - z
  {
    YearStartStep(y - 1);
    if YearStart(y) <= z then y else YearDown(z, y - 1)
  }

  function YearUp(z: int, y: int): (r: int)
    requires YearStart(y) <= z
    ensures YearStart(r) <= z < YearStart(r + 1)
    decreases z - YearStart(y)
  {
    YearStartStep(y);
    if z < YearStart(y + 1) then y else YearUp(z, y + 1)
  }

  /** The year that holds day `z` counted from 0000-01-01. */
  function YearOf(z: int): (r: int)
    ensures YearStart(r) <= z < YearStart(r + 1)
    ensures z - YearStart(r) < DaysInYear(r)
  {
    var guess := 400 * z / 146097;
    var r := if YearStart(guess) <= z then YearUp(z, guess) else YearDown(z, guess - 1);
    YearStartStep(r);
    r
  }

  /** The month of year `y` that holds day `doy` of that year, searching down from `m`. */
  function MonthFrom(y: int, doy: int, m: int): (r: int)
    requires 1 <= m <= 12 && 0 <= doy < MonthStart(y, m + 1)
    ensures 1 <= r <= m && MonthStart(y, r) <= doy < MonthStart(y, r + 1)
  {
    if m == 1 || MonthStart(y, m) <= doy then m else MonthFrom(y, doy, m - 1)
  }

  /** The date of day `doy` (counted from 0) of year `y`. */
  function DateInYear(y: int, doy: int): (d: Date)
    requires 0 <= doy < DaysInYear(y)
    ensures ValidDate(d) && d.year == y
    ensures MonthStart(y, d.month) + d.day - 1 == doy
  {
    MonthStartStep(y, 12);
    var m := MonthFrom(y, doy, 12);
    MonthStartStep(y, m);
    Date(y, m, doy - MonthStart(y, m) + 1)
  }

  /** The date of day `n` counted from 1970-01-01. */
  function DateOfDay(n: int): (d: Date)
    ensures ValidDate(d) && DayNumber(d) == n
  {
    var z := n + EpochDay;
    var y := YearOf(z);
    DateInYear(y, z - YearStart(y))
  }

  lemma YearOfUnique(z: int, y: int)
    requires YearStart(y) <= z < YearStart(y + 1)
    ensures YearOf(z) == y
  {
    YearsDisjoint(z, YearOf(z), y);
  }

  /** The years partition the days: a day lies in only one year. */
  lemma YearsDisjoint(z: int, a: int, b: int)
    requires YearStart(a) <= z < YearStart(a + 1)
    requires YearStart(b) <= z < YearStart(b + 1)
    ensures a == b
  {
    if a < b {
      YearStartMonotone(a + 1, b);
    } else if a > b {
      YearStartMonotone(b + 1, a);
    }
  }

  lemma {:induction false} MonthStartMonotone(y: int, a: int, b: int)
    requires 1 <= a <= b <= 13
    ensures MonthStart(y, a) + 28 * (b - a) <= MonthStart(y, b)
    decreases b - a
  {
    if a < b {
      MonthStartMonotone(y, a, b - 1);
    }
  }

  lemma MonthFromUnique(y: int, doy: int, m: int)
    requires 1 <= m <= 12 && MonthStart(y, m) <= doy < MonthStart(y, m + 1)
    requires 0 <= doy < MonthStart(y, 13)
    ensures MonthFrom(y, doy, 12) == m
  {
    var r := MonthFrom(y, doy, 12);
    if r < m {
      MonthStartMonotone(y, r + 1, m);
    } else if r > m {
      MonthStartMonotone(y, m + 1, r);
    }
  }

  lemma DateInYearOf(d: Date, doy: int)
    requires ValidDate(d) && doy == MonthStart(d.year, d.month) + d.day - 1
    ensures 0 <= doy < DaysInYear(d.year)
    ensures DateInYear(d.year, doy) == d
  {
    MonthStartStep(d.year, d.month);
    MonthStartMonotone(d.year, 1, d.month);
    MonthStartMonotone(d.year, d.month + 1, 13);
    MonthFromUnique(d.year, doy, d.month);
  }

  /** Day `doy` of year `y`, counted from 1970-01-01, has the date DateInYear(y, doy). */
  lemma DateOfDayIn(n: int, y: int, doy: int)
    requires 0 <= doy < DaysInYear(y) && n + EpochDay == YearStart(y) + doy
    ensures DateOfDay(n) == DateInYear(y, doy)
  {
    YearStartStep(y);
    YearOfUnique(n + EpochDay, y);
    DateOfDayInYearOf(n, y, doy);
  }

  lemma DateOfDayInYearOf(n: int, y: int, doy: int)
    requires YearOf(n + EpochDay) == y && doy == n + EpochDay - YearStart(y)
    ensures DateOfDay(n) == DateInYear(y, doy)
  {
  }

  /** DateOfDay inverts DayNumber: distinct dates have distinct day numbers. */
  lemma DateOfDayNumber(d: Date)
    requires ValidDate(d)
    ensures DateOfDay(DayNumber(d)) == d
  {
    var doy := MonthStart(d.year, d.month) + d.day - 1;
    DateInYearOf(d, doy);
    DateOfDayIn(DayNumber(d), d.year, doy);
  }

  /** The UTC calendar date of timestamp `t`. */
  function DateOf(t: Time): (d: Date)
    ensures ValidDate(d) && DayNumber(d) == t / DayMs
  {
    DateOfDay(t / DayMs)
  }

  /** Milliseconds since midnight. */
  function TimeOfDay(t: Time): int {
    t % DayMs
  }

  /** A timestamp is its date's midnight plus its time of day. */
  lemma DateAndTimeOfDay(t: Time)
    ensures t == DayNumber(DateOf(t)) * DayMs + TimeOfDay(t)
    ensures 0 <= TimeOfDay(t) < DayMs
  {
  }

  /** date-fns addDays over UTC: `n` whole days later. */
  function AddDays(t: Time, n: int): (r: Time)
    ensures r / DayMs == t / DayMs + n && r % DayMs == t % DayMs
  {
    var r := t + n * DayMs;
    assert r / DayMs == t / DayMs + n;
    r
  }

  /** date-fns addWeeks: seven days per week. */
  function AddWeeks(t: Time, n: int): (r: Time)
    ensures r / DayMs == t / DayMs + 7 * n && r % DayMs == t % DayMs
  {
    AddDays(t, 7 * n)
  }

  /** Adding days moves the date by that many days and keeps the time of day. */
  lemma AddDaysDate(t: Time, n: int)
    ensures DayNumber(DateOf(AddDays(t, n))) == DayNumber(DateOf(t)) + n
    ensures TimeOfDay(AddDays(t, n)) == TimeOfDay(t)
  {
  }

  /** The date `n` months after the date `d`, with its day clamped to the length of that month. */
  function MonthsLater(d: Date, n: int): (r: Date)
    ensures ValidDate(r)
  {
    var total := d.year * 12 + (d.month - 1) + n;
    var y, m := total / 12, total % 12 + 1;
    Date(y, m, if d.day < 1 then 1 else if d.day <= DaysInMonth(y, m) then d.day else DaysInMonth(y, m))
  }

  /**
   * date-fns addMonths: the same day of the month `n` months later at the
   * same time of day, or the last day of that month when it is shorter.
   */
  function AddMonths(t: Time, n: int): (r: Time)
    ensures DateOf(r) == MonthsLater(DateOf(t), n)
    ensures TimeOfDay(r) == TimeOfDay(t)
  {
    var d := MonthsLater(DateOf(t), n);
    var r := DayNumber(d) * DayMs + TimeOfDay(t);
    assert r / DayMs == DayNumber(d);
    DateOfDayNumber(d);
    r
  }

  /** One month after a date is a later day. */
  lemma MonthLaterIsLater(d: Date)
    requires ValidDate(d)
    ensures DayNumber(MonthsLater(d, 1)) > DayNumber(d)
  {
    var r := MonthsLater(d, 1);
    if d.month < 12 {
      assert d.year * 12 + (d.month - 1) + 1 == 12 * d.year + d.month;
      assert r.year == d.year && r.month == d.month + 1;
      MonthStartStep(d.year, d.month);
    } else {
      assert d.year * 12 + (d.month - 1) + 1 == 12 * (d.year + 1);
      assert r.year == d.year + 1 && r.month == 1;
      YearStartStep(d.year);
      MonthStartStep(d.year, 12);
    }
  }

  /** date-fns addMonths by one month moves a timestamp strictly forward. */
  lemma AddMonthLater(t: Time)
    ensures AddMonths(t, 1) > t
  {
    DateAndTimeOfDay(t);
    MonthLaterIsLater(DateOf(t));
  }
}
