/**
 * The proleptic Gregorian calendar of Python's datetime.date: day ordinals
 * (0001-01-01 is day 1), weekdays with Monday = 0, and adding days to a
 * date. The board's "Due This Week" and "Due This Month" windows are built
 * from these.
 */
module Dates {

  datatype Date = Date(year: int, month: int, day: int)

  predicate IsLeap(y: int) {
    y % 4 == 0 && (y % 100 != 0 || y % 400 == 0)
  }

  function DaysInMonth(y: int, m: int): (n: int)
    requires 1 <= m <= 12
    ensures 28 <= n <= 31
  {
    if m == 2 then (if IsLeap(y) then 29 else 28)
    else if m == 4 || m == 6 || m == 9 || m == 11 then 30
    else 31
  }

  predicate ValidDate(d: Date) {
    d.year >= 1 && 1 <= d.month <= 12 && 1 <= d.day <= DaysInMonth(d.year, d.month)
  }

  /** Days in the years before year y (y >= 1), as datetime's _days_before_year. */
  function DaysBeforeYear(y: int): int
    requires y >= 1
  {
    var p := y - 1;
    p * 365 + p / 4 - p / 100 + p / 400
  }

  /** Days in the months of year y before month m. */
  function DaysBeforeMonth(y: int, m: int): int
    requires 1 <= m <= 12
  {
    if m == 1 then 0 else DaysBeforeMonth(y, m - 1) + DaysInMonth(y, m - 1)
  }

  /** date.toordinal() */
  function ToOrdinal(d: Date): int
    requires ValidDate(d)
  {
    DaysBeforeYear(d.year) + DaysBeforeMonth(d.year, d.month) + d.day
  }

  /** date.weekday() of the date with ordinal o: Monday is 0, Sunday is 6. */
  function Weekday(o: int): (w: int)
    ensures 0 <= w < 7
  {
    (o + 6) % 7
  }

  /** The day after d. */
  function NextDay(d: Date): Date
    requires ValidDate(d)
  {
    if d.day < DaysInMonth(d.year, d.month) then d.(day := d.day + 1)
    else if d.month < 12 then Date(d.year, d.month + 1, 1)
    else Date(d.year + 1, 1, 1)
  }

  /** d + timedelta(days=n), taken one day at a time. */
  function AddDays(d: Date, n: nat): (r: Date)
    requires ValidDate(d)
    ensures ValidDate(r)
    decreases n
  {
    NextDayOrdinal(d);
    if n == 0 then d else AddDays(NextDay(d), n - 1)
  }

  lemma YearLength(y: int)
    requires y >= 1
    ensures DaysBeforeYear(y + 1) == DaysBeforeYear(y) + (if IsLeap(y) then 366 else 365)
  {
    assert y / 4 - (y - 1) / 4 == (if y % 4 == 0 then 1 else 0);
    assert y / 100 - (y - 1) / 100 == (if y % 100 == 0 then 1 else 0);
    assert y / 400 - (y - 1) / 400 == (if y % 400 == 0 then 1 else 0);
  }

  lemma DaysBeforeDecember(y: int)
    ensures DaysBeforeMonth(y, 12) == (if IsLeap(y) then 335 else 334)
  {
    var feb := DaysInMonth(y, 2);
    assert DaysBeforeMonth(y, 2) == 31;
    assert DaysBeforeMonth(y, 3) == 31 + feb;
    assert DaysBeforeMonth(y, 4) == 62 + feb;
    assert DaysBeforeMonth(y, 5) == 92 + feb;
    assert DaysBeforeMonth(y, 6) == 123 + feb;
    assert DaysBeforeMonth(y, 7) == 153 + feb;
    assert DaysBeforeMonth(y, 8) == 184 + feb;
    assert DaysBeforeMonth(y, 9) == 215 + feb;
    assert DaysBeforeMonth(y, 10) == 245 + feb;
    assert DaysBeforeMonth(y, 11) == 276 + feb;
  }

  /** The ordinal of the next day is one more, and the next day is a date. */
  lemma NextDayOrdinal(d: Date)
    requires ValidDate(d)
    ensures ValidDate(NextDay(d))
    ensures ToOrdinal(NextDay(d)) == ToOrdinal(d) + 1
  {
    if d.day == DaysInMonth(d.year, d.month) && d.month == 12 {
      YearLength(d.year);
      DaysBeforeDecember(d.year);
    }
  }

  /** Adding n days adds n to the ordinal, as timedelta arithmetic does. */
  lemma {:induction false} AddDaysOrdinal(d: Date, n: nat)
    requires ValidDate(d)
    ensures ToOrdinal(AddDays(d, n)) == ToOrdinal(d) + n
    decreases n
  {
    if n > 0 {
      NextDayOrdinal(d);
      AddDaysOrdinal(NextDay(d), n - 1);
    }
  }

  /** Within one month, adding days only moves the day of the month. */
  lemma {:induction false} AddDaysInMonth(d: Date, n: nat)
    requires ValidDate(d) && d.day + n <= DaysInMonth(d.year, d.month)
    ensures AddDays(d, n) == d.(day := d.day + n)
    decreases n
  {
    if n > 0 {
      AddDaysInMonth(NextDay(d), n - 1);
    }
  }

  lemma {:induction false} AddDaysSplit(d: Date, a: nat, b: nat)
    requires ValidDate(d)
    ensures AddDays(d, a + b) == AddDays(AddDays(d, a), b)
    decreases a
  {
    if a > 0 {
      NextDayOrdinal(d);
      AddDaysSplit(NextDay(d), a - 1, b);
    }
  }

  /** The first day of the month after d's. */
  function FirstOfNextMonth(d: Date): Date {
    if d.month < 12 then Date(d.year, d.month + 1, 1) else Date(d.year + 1, 1, 1)
  }

  /**
   * Thirty-two days after the first of a month always falls in the next
   * month, because no month is longer than 31 days.
   */
  lemma ThirtyTwoDaysLater(first: Date)
    requires ValidDate(first) && first.day == 1
    ensures AddDays(first, 32).year == FirstOfNextMonth(first).year
    ensures AddDays(first, 32).month == FirstOfNextMonth(first).month
  {
    var n := DaysInMonth(first.year, first.month);
    AddDaysSplit(first, n - 1, 33 - n);
    AddDaysInMonth(first, n - 1);
    var last := first.(day := n);
    assert AddDays(last, 33 - n) == AddDays(NextDay(last), 32 - n);
    AddDaysInMonth(NextDay(last), 32 - n);
  }

  /**
   * The end of today's month as the board computes it:
   * `today.replace(day=1) + timedelta(days=32)`, then `.replace(day=1)`,
   * then one day back. It is the ordinal of the last day of today's month.
   */
  function EndOfMonth(today: Date): (r: int)
    requires ValidDate(today)
    ensures r == ToOrdinal(today.(day := DaysInMonth(today.year, today.month)))
    ensures ToOrdinal(today) <= r
  {
    var first := today.(day := 1);
    var nextMonth := AddDays(first, 32);
    ThirtyTwoDaysLater(first);
    NextDayOrdinal(today.(day := DaysInMonth(today.year, today.month)));
    ToOrdinal(nextMonth.(day := 1)) - 1
  }

  /** `today + timedelta(days=6 - today.weekday())`, as an ordinal. */
  function EndOfWeek(today: int): (r: int)
    ensures Weekday(r) == 6
    ensures today <= r <= today + 6
    ensures forall o :: today <= o < r ==> Weekday(o) != 6
  {
    today + (6 - Weekday(today))
  }

  /** 0001-01-01 is day 1 and a Monday. */
  lemma FirstDayIsMonday()
    ensures ToOrdinal(Date(1, 1, 1)) == 1 && Weekday(1) == 0
  {
    assert DaysBeforeYear(1) == 0;
    assert DaysBeforeMonth(1, 1) == 0;
    assert (1 + 6) % 7 == 0;
  }
}
