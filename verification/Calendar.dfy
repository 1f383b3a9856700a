/** The time stamps of PS2 file systems and their trip through a tar header.
    Seconds are those of POSIX.1-2017 XBD section 4.16, "Seconds Since the Epoch",
    on the proleptic Gregorian calendar. */
module Calendar {
  import opened ByteStrings
  import Octal

  const NINE_HOURS := 32400

  /** The broken-down time of struct tm; month counts from 0 and year from year 0. */
  datatype Tm = Tm(sec: int, min: int, hour: int, day: int, month: int, year: int)

  predicate Leap(y: int) { y % 4 == 0 && (y % 100 != 0 || y % 400 == 0) }

  function YearLength(y: int): int { if Leap(y) then 366 else 365 }

  function MonthLength(y: int, m: int): (r: int)
    ensures 28 <= r <= 31
  {
    if m == 1 then if Leap(y) then 29 else 28
    else if m == 3 || m == 5 || m == 8 || m == 10 then 30
    else 31
  }

  /** Days from 1970-01-01 to the first of January of year y: the year terms of section 4.16. */
  function DaysBeforeYear(y: int): int
  {
    (y - 1970) * 365 + Whole(y - 1969, 4) - Whole(y - 1901, 100) + Whole(y - 1601, 400)
  }

  function Whole(n: int, d: int): int
    requires d > 0
  {
    n / d
  }

  function OneIfDivides(d: int, n: int): int
    requires d > 0
  {
    if n % d == 0 then 1 else 0
  }

  /** Days from the first of January to the first day of month m: tm_yday. */
  function DaysBeforeMonth(y: int, m: int): (r: int)
    requires 0 <= m <= 12
    ensures 28 * m <= r <= 31 * m
  {
    if m == 0 then 0 else DaysBeforeMonth(y, m - 1) + MonthLength(y, m - 1)
  }

  /** timegm: months beyond the year carry into it, every other field just adds up. */
  function TimeGm(t: Tm): int
  {
    var y, m := t.year + t.month / 12, t.month % 12;
    (DaysBeforeYear(y) + DaysBeforeMonth(y, m) + t.day - 1) * 86400
    + t.hour * 3600 + t.min * 60 + t.sec
  }

  /** A date and a time of day that exist. */
  predicate Valid(t: Tm)
  {
    && 0 <= t.sec < 60 && 0 <= t.min < 60 && 0 <= t.hour < 24
    && 0 <= t.month < 12 && 1 <= t.day <= MonthLength(t.year, t.month)
  }

  lemma YearStep(y: int)
    ensures DaysBeforeYear(y + 1) == DaysBeforeYear(y) + YearLength(y)
  {
    hide Whole, OneIfDivides, YearLength;
    Every4(y);
    Every100(y);
    Every400(y);
    YearLengthIs(y);
  }

  lemma YearLengthIs(y: int)
    ensures YearLength(y) == 365 + OneIfDivides(4, y) - OneIfDivides(100, y) + OneIfDivides(400, y)
  {
    var c, k := y / 100, y / 400;
    assert y % 100 == 0 ==> y == 4 * (25 * c);
    assert y % 400 == 0 ==> y == 100 * (4 * k);
  }

  lemma Every4(y: int)
    ensures Whole(y + 1 - 1969, 4) == Whole(y - 1969, 4) + OneIfDivides(4, y)
  {
  }

  lemma Every100(y: int)
    ensures Whole(y + 1 - 1901, 100) == Whole(y - 1901, 100) + OneIfDivides(100, y)
  {
  }

  lemma Every400(y: int)
    ensures Whole(y + 1 - 1601, 400) == Whole(y - 1601, 400) + OneIfDivides(400, y)
  {
  }

  /** The year that day number d, counted from 1970-01-01, falls in. */
  function YearOf(d: int, guess: int): (y: int)
    ensures DaysBeforeYear(y) <= d < DaysBeforeYear(y + 1)
    decreases d < DaysBeforeYear(guess),
              if d < DaysBeforeYear(guess) then DaysBeforeYear(guess) - d else d - DaysBeforeYear(guess)
  {
    YearStep(guess - 1);
    YearStep(guess);
    if d < DaysBeforeYear(guess) then YearOf(d, guess - 1)
    else if d >= DaysBeforeYear(guess + 1) then YearOf(d, guess + 1)
    else guess
  }

  /** The month that day number d of year y, counted from 0, falls in. */
  function MonthOf(y: int, d: int, guess: int): (m: int)
    requires 0 <= guess < 12 && DaysBeforeMonth(y, guess) <= d < YearLength(y)
    ensures 0 <= m < 12
    ensures DaysBeforeMonth(y, m) <= d < DaysBeforeMonth(y, m + 1)
    decreases 12 - guess
  {
    YearOfTwelveMonths(y);
    if d < DaysBeforeMonth(y, guess + 1) then guess else MonthOf(y, d, guess + 1)
  }

  lemma YearOfTwelveMonths(y: int)
    ensures DaysBeforeMonth(y, 12) == YearLength(y)
  {
    assert DaysBeforeMonth(y, 1) == 31;
    assert DaysBeforeMonth(y, 2) == 31 + MonthLength(y, 1);
    assert DaysBeforeMonth(y, 3) == 62 + MonthLength(y, 1);
    assert DaysBeforeMonth(y, 4) == 92 + MonthLength(y, 1);
    assert DaysBeforeMonth(y, 5) == 123 + MonthLength(y, 1);
    assert DaysBeforeMonth(y, 6) == 153 + MonthLength(y, 1);
    assert DaysBeforeMonth(y, 7) == 184 + MonthLength(y, 1);
    assert DaysBeforeMonth(y, 8) == 215 + MonthLength(y, 1);
    assert DaysBeforeMonth(y, 9) == 245 + MonthLength(y, 1);
    assert DaysBeforeMonth(y, 10) == 276 + MonthLength(y, 1);
    assert DaysBeforeMonth(y, 11) == 306 + MonthLength(y, 1);
  }

  /** Second s of the day as hours, minutes and seconds. */
  lemma TimeOfDay(s: int)
    requires 0 <= s < 86400
    ensures 0 <= s / 3600 < 24
    ensures s == s / 3600 * 3600 + s / 60 % 60 * 60 + s % 60
  {
    assert s / 3600 == s / 60 / 60;
  }

  lemma TimeOfDayIsUnique(hour: int, min: int, sec: int)
    requires 0 <= sec < 60 && 0 <= min < 60 && 0 <= hour < 24
    ensures var s := hour * 3600 + min * 60 + sec;
      0 <= s < 86400 && s % 60 == sec && s / 60 % 60 == min && s / 3600 == hour
  {
    var s := hour * 3600 + min * 60 + sec;
    assert s == (hour * 60 + min) * 60 + sec;
    assert s / 60 == hour * 60 + min;
  }

  lemma DayAndSecond(d: int, s: int)
    requires 0 <= s < 86400
    ensures (d * 86400 + s) / 86400 == d && (d * 86400 + s) % 86400 == s
  {
  }

  /** gmtime. */
  function GmTime(time: int): (t: Tm)
    ensures Valid(t)
  {
    var d, s := time / 86400, time % 86400;
    var y := YearOf(d, 1970);
    YearStep(y);
    var yday := d - DaysBeforeYear(y);
    var m := MonthOf(y, yday, 0);
    TimeOfDay(s);
    Tm(s % 60, s / 60 % 60, s / 3600, yday - DaysBeforeMonth(y, m) + 1, m, y)
  }

  lemma TimeGmOfGmTime(time: int)
    ensures TimeGm(GmTime(time)) == time
  {
    TimeOfDay(time % 86400);
    var t := GmTime(time);
    assert t.month / 12 == 0 && t.month % 12 == t.month;
    assert DaysBeforeYear(t.year) + DaysBeforeMonth(t.year, t.month) + t.day - 1 == time / 86400;
  }

  lemma {:induction false} YearsAreOrdered(y: int, z: int)
    requires y <= z
    ensures DaysBeforeYear(y) <= DaysBeforeYear(z)
    decreases z - y
  {
    if y < z {
      YearStep(z - 1);
      YearsAreOrdered(y, z - 1);
    }
  }

  lemma {:induction false} MonthsAreOrdered(y: int, m: int, n: int)
    requires 0 <= m <= n <= 12
    ensures DaysBeforeMonth(y, m) <= DaysBeforeMonth(y, n)
    decreases n - m
  {
    if m < n {
      MonthsAreOrdered(y, m, n - 1);
    }
  }

  /** Each second belongs to one valid date only, so gmtime undoes timegm on every valid date. */
  lemma GmTimeOfTimeGm(t: Tm)
    requires Valid(t)
    ensures GmTime(TimeGm(t)) == t
  {
    hide TimeGm, DaysBeforeYear, DaysBeforeMonth, YearOf, MonthOf;
    TimeGmOfValid(t);
    TimeOfDayIsUnique(t.hour, t.min, t.sec);
    YearIsUnique(t, TimeGm(t) / 86400);
    MonthIsUnique(t, TimeGm(t) / 86400 - DaysBeforeYear(t.year));
  }

  lemma TimeGmOfValid(t: Tm)
    requires Valid(t)
    ensures TimeGm(t) / 86400 == DaysBeforeYear(t.year) + DaysBeforeMonth(t.year, t.month) + t.day - 1
    ensures TimeGm(t) % 86400 == t.hour * 3600 + t.min * 60 + t.sec
  {
    hide DaysBeforeYear, DaysBeforeMonth;
    assert t.month / 12 == 0 && t.month % 12 == t.month;
    TimeOfDayIsUnique(t.hour, t.min, t.sec);
    DayAndSecond(DaysBeforeYear(t.year) + DaysBeforeMonth(t.year, t.month) + t.day - 1,
                 t.hour * 3600 + t.min * 60 + t.sec);
  }

  lemma DaysOfMonth(y: int, m: int)
    requires 0 <= m < 12
    ensures DaysBeforeMonth(y, m + 1) == DaysBeforeMonth(y, m) + MonthLength(y, m)
    ensures DaysBeforeMonth(y, m) >= 0
  {
  }

  lemma FirstMonth(y: int)
    ensures DaysBeforeMonth(y, 0) == 0
  {
  }

  lemma YearIsUnique(t: Tm, d: int)
    requires Valid(t) && d == DaysBeforeYear(t.year) + DaysBeforeMonth(t.year, t.month) + t.day - 1
    ensures YearOf(d, 1970) == t.year
    ensures 0 <= d - DaysBeforeYear(t.year) < YearLength(t.year)
  {
    hide DaysBeforeYear, DaysBeforeMonth;
    var y := YearOf(d, 1970);
    YearStep(t.year);
    DaysOfMonth(t.year, t.month);
    MonthsAreOrdered(t.year, t.month + 1, 12);
    YearOfTwelveMonths(t.year);
    if y < t.year {
      YearsAreOrdered(y + 1, t.year);
    } else if y > t.year {
      YearsAreOrdered(t.year + 1, y);
    }
  }

  lemma MonthIsUnique(t: Tm, yday: int)
    requires Valid(t) && yday == DaysBeforeMonth(t.year, t.month) + t.day - 1
    requires 0 <= yday < YearLength(t.year)
    ensures MonthOf(t.year, yday, 0) == t.month
  {
    FirstMonth(t.year);
    DaysOfMonth(t.year, t.month);
    hide DaysBeforeMonth, MonthOf, MonthLength, YearLength;
    OneMonthADay(t.year, MonthOf(t.year, yday, 0), t.month, yday);
  }

  lemma OneMonthADay(y: int, m: int, n: int, d: int)
    requires 0 <= m < 12 && DaysBeforeMonth(y, m) <= d < DaysBeforeMonth(y, m + 1)
    requires 0 <= n < 12 && DaysBeforeMonth(y, n) <= d < DaysBeforeMonth(y, n + 1)
    ensures m == n
  {
    hide DaysBeforeMonth;
    if m < n {
      MonthsAreOrdered(y, m + 1, n);
    } else if m > n {
      MonthsAreOrdered(y, n + 1, m);
    }
  }

  /** An iomanX time stamp: unused, second, minute, hour, day, month from 1, year low and high byte. */
  function TmOfStamp(b: Bytes): Tm
    requires |b| == 8
  {
    Tm(b[1], b[2], b[3], b[4], b[5] as int - 1, b[6] as int + 256 * (b[7] as int))
  }

  /** convert_iox_stat_time_to_posix */
  function PosixTime(b: Bytes): int
    requires |b| == 8
  {
    TimeGm(TmOfStamp(b)) + NINE_HOURS
  }

  /** convert_posix_time_to_iox_time; the assignments to bytes keep the low eight bits. */
  function StampOf(time: int): (b: Bytes)
    ensures |b| == 8
  {
    var t := GmTime(time - NINE_HOURS);
    [0, t.sec % 256, t.min % 256, t.hour % 256, t.day % 256, (t.month + 1) % 256,
     t.year % 256, t.year / 256 % 256]
  }

  /** The mtime field of the header, and the time that the reader finds in such a field. */
  function TimeField(b: Bytes): (r: Bytes)
    requires |b| == 8
    ensures |r| == 12
  {
    Octal.Field(U32(PosixTime(b)), 11)
  }

  function StampFromField(f: Bytes): (b: Bytes)
    ensures |b| == 8
  {
    StampOf(Octal.StrToL(CStr(f)))
  }

  /** A stamp that survives: a date that exists, whose POSIX time fits the unsigned field. */
  predicate Storable(b: Bytes)
  {
    |b| == 8 && b[0] == 0 && Valid(TmOfStamp(b)) && 0 <= PosixTime(b) < TWO_32
  }

  lemma TimeFieldValue(b: Bytes)
    requires |b| == 8
    ensures Octal.StrToL(CStr(TimeField(b))) == U32(PosixTime(b))
  {
    assert Octal.Power8(11) == 0x2_0000_0000 by {
      assert Octal.Power8(4) == 4096;
      assert Octal.Power8(8) == 4096 * 4096;
    }
    Octal.FieldRoundTrip(U32(PosixTime(b)), 11);
  }

  /** Years 0 to 9999 are far more than the field's 32 bits reach. */
  lemma YearInRange(time: int)
    requires -NINE_HOURS <= time < TWO_32
    ensures 1969 <= GmTime(time).year < 2107
  {
    var y := GmTime(time).year;
    var d := time / 86400;
    assert -1 <= d <= 49710;
    YearStep(y);
    if y < 1969 {
      YearsAreOrdered(y + 1, 1969);
    } else if y > 2106 {
      YearsAreOrdered(2107, y);
    }
  }

  lemma YearBytes(y: int)
    requires 0 <= y < 65536
    ensures y % 256 + 256 * (y / 256 % 256) == y
  {
  }

  /** Header and back gives the same eight bytes for the storable stamps and for no others. */
  lemma StampRoundTrip(b: Bytes)
    requires |b| == 8
    ensures StampFromField(TimeField(b)) == b <==> Storable(b)
  {
    hide GmTime, TimeGm;
    TimeFieldValue(b);
    var time := U32(PosixTime(b)) - NINE_HOURS;
    YearInRange(time);
    BytesOfTm(time);
    if Storable(b) {
      GmTimeOfTimeGm(TmOfStamp(b));
      StampIsItsTm(b, StampOf(U32(PosixTime(b))));
    }
    if StampFromField(TimeField(b)) == b {
      TimeGmOfGmTime(time);
      assert PosixTime(b) == U32(PosixTime(b));
    }
  }

  /** 30 February 2000 and 1 January 1960: the first is no date, the second lies before the field's range. */
  lemma StampsThatChange()
    ensures StampFromField(TimeField([0, 0, 0, 0, 30, 2, 208, 7])) != [0, 0, 0, 0, 30, 2, 208, 7]
    ensures StampFromField(TimeField([0, 0, 0, 0, 1, 1, 168, 7])) != [0, 0, 0, 0, 1, 1, 168, 7]
  {
    var noDate: Bytes, early: Bytes := [0, 0, 0, 0, 30, 2, 208, 7], [0, 0, 0, 0, 1, 1, 168, 7];
    assert !Storable(noDate) by { assert TmOfStamp(noDate).day == 30 && MonthLength(2000, 1) == 29; }
    assert !Storable(early) by {
      assert TmOfStamp(early) == Tm(0, 0, 0, 1, 0, 1960);
      assert DaysBeforeMonth(1960, 0) == 0 && DaysBeforeYear(1960) < -3000;
    }
    hide Storable, StampFromField, TimeField;
    StampRoundTrip(noDate);
    StampRoundTrip(early);
  }

  lemma BytesOfTm(time: int)
    requires -NINE_HOURS <= time < TWO_32 && 1969 <= GmTime(time).year < 2107
    ensures TmOfStamp(StampOf(time + NINE_HOURS)) == GmTime(time)
  {
    hide GmTime;
    YearBytes(GmTime(time).year);
  }

  lemma StampIsItsTm(b: Bytes, c: Bytes)
    requires |b| == 8 && |c| == 8 && b[0] == c[0] && TmOfStamp(b) == TmOfStamp(c)
    ensures b == c
  {
    assert b[6] == c[6] && b[7] == c[7];
  }
}
