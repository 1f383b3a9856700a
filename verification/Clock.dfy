/** A clock that counts seconds, independent of the year and day formulas: it starts at the Epoch, 1970-01-01
    00:00:00, and ticks through the ends of minutes, hours, days, months and years. */
module Clock {
  import opened Calendar

  /** The last day of a month, which counts from 0. */
  function LastDay(month: int, year: int): int
    requires 0 <= month < 12
  {
    if month == 1 && (year % 400 == 0 || (year % 4 == 0 && year % 100 != 0)) then 29
    else [31, 28, 31, 30, 31, 30, 31, 31, 30, 31, 30, 31][month]
  }

  function Tick(t: Tm): Tm
    requires 0 <= t.month < 12
  {
    if t.sec < 59 then t.(sec := t.sec + 1)
    else if t.min < 59 then t.(sec := 0, min := t.min + 1)
    else if t.hour < 23 then t.(sec := 0, min := 0, hour := t.hour + 1)
    else if t.day < LastDay(t.month, t.year) then Tm(0, 0, 0, t.day + 1, t.month, t.year)
    else if t.month < 11 then Tm(0, 0, 0, 1, t.month + 1, t.year)
    else Tm(0, 0, 0, 1, 0, t.year + 1)
  }

  function ClockAt(n: nat): (t: Tm)
    ensures 0 <= t.month < 12
  {
    if n == 0 then Tm(0, 0, 0, 1, 0, 1970) else Tick(ClockAt(n - 1))
  }

  lemma TimeGmOf(t: Tm)
    requires 0 <= t.month < 12
    ensures TimeGm(t) == (DaysBeforeYear(t.year) + DaysBeforeMonth(t.year, t.month) + t.day - 1) * 86400
                         + t.hour * 3600 + t.min * 60 + t.sec
  {
    hide DaysBeforeYear, DaysBeforeMonth;
  }

  lemma LastDayIs(month: int, year: int)
    requires 0 <= month < 12
    ensures LastDay(month, year) == MonthLength(year, month)
  {
  }

  /** The next valid second has the next number. */
  lemma TickIsOneSecond(t: Tm)
    requires Valid(t)
    ensures Valid(Tick(t)) && TimeGm(Tick(t)) == TimeGm(t) + 1
  {
    hide DaysBeforeYear, DaysBeforeMonth, TimeGm, LastDay, YearLength;
    LastDayIs(t.month, t.year);
    DaysOfMonth(t.year, t.month);
    FirstMonth(t.year + 1);
    YearOfTwelveMonths(t.year);
    YearStep(t.year);
    TimeGmOf(t);
    TimeGmOf(Tick(t));
  }

  lemma EpochIsZero()
    ensures Valid(Tm(0, 0, 0, 1, 0, 1970)) && TimeGm(Tm(0, 0, 0, 1, 0, 1970)) == 0
  {
    assert DaysBeforeYear(1970) == 0;
    FirstMonth(1970);
  }

  /** timegm is the number of ticks since the Epoch. */
  lemma {:induction false} TimeGmCountsSeconds(n: nat)
    ensures Valid(ClockAt(n)) && TimeGm(ClockAt(n)) == n
  {
    hide TimeGm, Valid, Tick;
    if n == 0 {
      EpochIsZero();
    } else {
      TimeGmCountsSeconds(n - 1);
      TickIsOneSecond(ClockAt(n - 1));
    }
  }

  /** Every valid date from the Epoch on is reached, after as many seconds as timegm says. */
  lemma EveryDateIsReached(t: Tm)
    requires Valid(t) && TimeGm(t) >= 0
    ensures ClockAt(TimeGm(t)) == t
  {
    hide ClockAt, TimeGm, Valid, GmTime;
    TimeGmCountsSeconds(TimeGm(t));
    GmTimeOfTimeGm(t);
    GmTimeOfTimeGm(ClockAt(TimeGm(t)));
  }
}
