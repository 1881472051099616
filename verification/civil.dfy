/**
 The calendar of the timestamp codec: month lengths, leap years, and the closed form that counts the
 days since 1970-01-01, compared with counting them one by one.
 */
module Civil {

  datatype Date = Date(year: int, month: int, day: int)

  predicate IsLeapYear(year: int) {
    year % 4 == 0 && (year % 100 != 0 || year % 400 == 0)
  }

  function DaysInMonth(year: int, month: int): int {
    if month in {1, 3, 5, 7, 8, 10, 12} then 31
    else if month in {4, 6, 9, 11} then 30
    else if month == 2 then if IsLeapYear(year) then 29 else 28
    else 0
  }

  predicate ValidDate(d: Date) {
    1 <= d.month <= 12 && 1 <= d.day <= DaysInMonth(d.year, d.month)
  }

  /** Division of integers that truncates towards zero. */
  function TruncDiv(a: int, b: int): int
    requires b > 0
  {
    if a >= 0 then a / b else -((-a) / b)
  }

  /** divFloor, for a positive divisor. */
  function DivFloor(a: int, b: int): int
    requires b > 0
  {
    var q := TruncDiv(a, b);
    var r := a - q * b;
    if r < 0 then q - 1 else q
  }

  /** divFloor rounds down, also below zero. */
  lemma DivFloors(a: int)
    ensures DivFloor(a, 400) * 400 <= a < DivFloor(a, 400) * 400 + 400
  {
  }

  /** Days of the years that start in March, before year `y`, in the era cycle of 400 years. */
  function YearDays(y: int): int {
    var era := DivFloor(y, 400);
    var yoe := y - era * 400;
    era * 146097 + EraDays(yoe)
  }

  /** Days of the months from March on, before the month. */
  function MonthDays(month: int): int {
    (153 * (if month > 2 then month - 3 else month + 9) + 2) / 5
  }

  /** daysSinceUnixEpoch. */
  function DaysSinceEpoch(d: Date): int {
    YearDays(if d.month <= 2 then d.year - 1 else d.year) + MonthDays(d.month) + d.day - 1 - 719468
  }

  // ---------------------------------------------------------------- counting days

  function NextDay(d: Date): (r: Date)
    requires ValidDate(d)
    ensures ValidDate(r)
  {
    if d.day < DaysInMonth(d.year, d.month) then d.(day := d.day + 1)
    else if d.month < 12 then Date(d.year, d.month + 1, 1)
    else Date(d.year + 1, 1, 1)
  }

  /** Days of the years before year `yoe` of an era of 400. */
  function EraDays(yoe: int): int {
    yoe * 365 + yoe / 4 - yoe / 100
  }

  lemma EraStep(yoe: int)
    requires 0 <= yoe < 399
    ensures EraDays(yoe + 1) - EraDays(yoe) == if IsLeapYear(yoe + 1) then 366 else 365
  {
    var n := yoe + 1;
    assert n / 4 - yoe / 4 == if n % 4 == 0 then 1 else 0;
    assert n / 100 - yoe / 100 == if n % 100 == 0 then 1 else 0;
    assert n % 100 == 0 ==> n % 4 == 0;
    assert 0 < n < 400 ==> n % 400 != 0;
  }

  lemma Mod4(x: int, k: int)
    ensures (x + 400 * k) % 4 == x % 4
  {
    assert x + 400 * k == 4 * (x / 4 + 100 * k) + x % 4;
  }

  lemma Mod100(x: int, k: int)
    ensures (x + 400 * k) % 100 == x % 100
  {
    assert x + 400 * k == 100 * (x / 100 + 4 * k) + x % 100;
  }

  lemma Mod400(x: int, k: int)
    ensures (x + 400 * k) % 400 == x % 400
  {
    assert x + 400 * k == 400 * (x / 400 + k) + x % 400;
  }

  /** Leap years repeat every 400 years. */
  lemma LeapCycle(y: int, era: int)
    ensures IsLeapYear(y + 400 * era) <==> IsLeapYear(y)
  {
    Mod4(y, era);
    Mod100(y, era);
    Mod400(y, era);
  }

  lemma YearDaysIn(era: int, yoe: int)
    requires 0 <= yoe < 400
    ensures YearDays(400 * era + yoe) == era * 146097 + EraDays(yoe)
  {
    DivFloors(400 * era + yoe);
    assert DivFloor(400 * era + yoe, 400) == era;
  }

  /** A year from March on is as long as the February it ends with says. */
  lemma YearLength(y: int)
    ensures YearDays(y + 1) - YearDays(y) == if IsLeapYear(y + 1) then 366 else 365
  {
    DivFloors(y);
    var era := DivFloor(y, 400);
    var yoe := y - era * 400;
    YearDaysIn(era, yoe);
    LeapCycle(yoe + 1, era);
    hide YearDays, DivFloor, IsLeapYear, EraDays;
    assert y == 400 * era + yoe && y + 1 == (yoe + 1) + 400 * era;
    if yoe < 399 {
      YearDaysIn(era, yoe + 1);
      EraStep(yoe);
    } else {
      YearDaysIn(era + 1, 0);
      EraEnds();
    }
  }

  lemma EraEnds()
    ensures EraDays(399) == 146097 - 366 && EraDays(0) == 0 && IsLeapYear(400)
  {
  }

  lemma MonthLength(year: int, month: int)
    requires 1 <= month < 12 && month != 2
    ensures MonthDays(month + 1) - MonthDays(month) == DaysInMonth(year, month)
  {
  }

  /** The closed form counts: the next day has the next number. */
  lemma CountsDays(d: Date)
    requires ValidDate(d)
    ensures DaysSinceEpoch(NextDay(d)) == DaysSinceEpoch(d) + 1
  {
    if d.day == DaysInMonth(d.year, d.month) {
      hide YearDays;
      if d.month == 2 {
        YearLength(d.year - 1);
        assert MonthDays(3) == 0 && MonthDays(2) == 337;
      } else if d.month == 12 {
        assert MonthDays(1) == 306 && MonthDays(12) == 275;
      } else {
        MonthLength(d.year, d.month);
      }
    }
  }

  lemma EpochIsZero()
    ensures DaysSinceEpoch(Date(1970, 1, 1)) == 0
  {
  }

  /** Calendar order. */
  predicate Earlier(a: Date, b: Date) {
    a.year < b.year || (a.year == b.year && (a.month < b.month || (a.month == b.month && a.day < b.day)))
  }

  lemma {:induction false} Increasing(a: Date, b: Date)
    requires ValidDate(a) && ValidDate(b) && Earlier(a, b)
    ensures DaysSinceEpoch(a) < DaysSinceEpoch(b)
    decreases b.year - a.year, 12 - a.month, 31 - a.day
  {
    hide DaysSinceEpoch;
    CountsDays(a);
    if NextDay(a) != b {
      Increasing(NextDay(a), b);
    }
  }

  /** Different dates have different numbers. */
  lemma Injective(a: Date, b: Date)
    requires ValidDate(a) && ValidDate(b) && DaysSinceEpoch(a) == DaysSinceEpoch(b)
    ensures a == b
  {
    hide DaysSinceEpoch;
    if Earlier(a, b) {
      Increasing(a, b);
    } else if Earlier(b, a) {
      Increasing(b, a);
    }
  }

  // ---------------------------------------------------------------- from days to dates

  const FIRST_DAY := -719162

  /** The date `n` days after 0001-01-01. */
  function DateAfter(n: nat): (d: Date)
    ensures ValidDate(d)
  {
    if n == 0 then Date(1, 1, 1) else NextDay(DateAfter(n - 1))
  }

  lemma FirstAndLast()
    ensures YearDays(0) == 0 && YearDays(9999) == 3652059
    ensures DaysSinceEpoch(Date(1, 1, 1)) == FIRST_DAY
  {
    hide YearDays, EraDays;
    EraEnds();
    YearDaysIn(0, 0);
    YearDaysIn(24, 399);
    assert MonthDays(1) == 306;
  }

  lemma {:induction false} DateAfterDays(n: nat)
    ensures DaysSinceEpoch(DateAfter(n)) == FIRST_DAY + n
  {
    if n == 0 {
      FirstAndLast();
    } else {
      DateAfterDays(n - 1);
      hide DaysSinceEpoch;
      CountsDays(DateAfter(n - 1));
    }
  }

  /** The date of a day number. */
  function DateOf(days: int): Date
    requires days >= FIRST_DAY
  {
    DateAfter(days - FIRST_DAY)
  }

  /** `DateOf` gives the only date with that number. */
  lemma DateOfUnique(days: int, d: Date)
    requires days >= FIRST_DAY && ValidDate(d)
    ensures ValidDate(DateOf(days)) && DaysSinceEpoch(DateOf(days)) == days
    ensures DaysSinceEpoch(d) == days <==> d == DateOf(days)
  {
    hide DaysSinceEpoch, DateAfter, ValidDate;
    DateAfterDays(days - FIRST_DAY);
    if DaysSinceEpoch(d) == days {
      Injective(d, DateOf(days));
    }
  }

  // ---------------------------------------------------------------- the range of timestamps

  const MIN_SECONDS := -62135596800
  const MAX_SECONDS := 253402300799

  /** The bounds are the first second of year 1 and the last second of year 9999. */
  lemma BoundsExact()
    ensures DaysSinceEpoch(Date(1, 1, 1)) * 86400 == MIN_SECONDS
    ensures DaysSinceEpoch(Date(9999, 12, 31)) * 86400 + 86399 == MAX_SECONDS
  {
    hide YearDays;
    FirstAndLast();
    assert MonthDays(1) == 306 && MonthDays(12) == 275;
  }

  /** A date and a second of the day are in range exactly in the years 1 to 9999. */
  lemma YearsInRange(d: Date, second: nat)
    requires ValidDate(d) && second < 86400
    ensures MIN_SECONDS <= DaysSinceEpoch(d) * 86400 + second <= MAX_SECONDS <==> 1 <= d.year <= 9999
  {
    BoundsExact();
    hide DaysSinceEpoch;
    var first, last := Date(1, 1, 1), Date(9999, 12, 31);
    if Earlier(d, first) {
      Increasing(d, first);
    } else if d != first {
      Increasing(first, d);
    }
    if Earlier(last, d) {
      Increasing(last, d);
    } else if d != last {
      Increasing(d, last);
    }
  }
}
