/** The calendar fields of a UTC instant, their range checks, and the two
    conversions between fields and the instant as a count of microseconds
    since 1970-01-01T00:00:00 (POSIX "Seconds Since the Epoch": every day has
    86400 seconds, no leap seconds). */
module Stamp {
  import opened Calendar

  const MicrosPerSecond := 1000000
  const SecondsPerDay := 86400
  const MicrosPerDay := 86400000000

  /** Smallest and largest year that setYear accepts. */
  const MinYear := -1000
  const MaxYear := 2999

  datatype Fields = Fields(
    year: int, month: int, dayOfMonth: int, dayOfYear: int,
    hour: int, minute: int, second: int, microSecond: int)
  {
    function CivilDate(): Date
    {
      Date(year, month, dayOfMonth)
    }

    /** Seconds elapsed since midnight. */
    function SecondOfDay(): int
    {
      (hour * 60 + minute) * 60 + second
    }
  }

  /** The state of a freshly constructed or cleared UTC:
      1970-01-01T00:00:00.000000, day of year 1. */
  const Default := Fields(1970, 1, 1, 1, 0, 0, 0, 0)

  /** A real date whose day of year agrees with month and day, and a time of
      day whose every field is within its own range. The year is not bounded:
      setEpoch may produce any year. */
  predicate Valid(f: Fields)
  {
    && ValidDate(f.CivilDate())
    && f.dayOfYear == DaysBeforeMonth(f.year, f.month) + f.dayOfMonth
    && 0 <= f.hour <= 23
    && 0 <= f.minute <= 59
    && 0 <= f.second <= 59
    && 0 <= f.microSecond <= 999999
  }

  /** The default fields denote the epoch itself, in a year that is not a
      leap year, and they are valid. */
  lemma DefaultState()
    ensures Compose(Default) == 0
    ensures !IsLeapYear(Default.year)
    ensures Valid(Default)
  {
  }

  datatype Error =
    | YearOutOfRange
    | MonthOutOfRange
    | DayOfMonthOutOfRange
    | InvalidDate
    | DayOfYearOutOfRange
    | HourOutOfRange
    | MinuteOutOfRange
    | SecondOutOfRange
    | MicroSecondOutOfRange
    | BadLength(length: nat)
    | Malformed

  datatype Result<+T> = Success(value: T) | Failure(error: Error)
  {
    predicate IsFailure()
    {
      Failure?
    }

    function PropagateFailure<U>(): Result<U>
      requires Failure?
    {
      Failure(error)
    }

    function Extract(): T
      requires Success?
    {
      value
    }
  }

  // ---------------------------------------------------------------------
  // Fields to epoch and back

  /** getEpoch's recomputation: the day number of the date times 86400, plus
      the seconds of the day, in seconds; then the microseconds. */
  function Compose(f: Fields): int
    requires 1 <= f.month <= 12
  {
    (DaysFromCivil(f.CivilDate()) * SecondsPerDay + f.SecondOfDay()) * MicrosPerSecond + f.microSecond
  }

  /** Splits a stamp into whole seconds and microseconds, rounding the
      seconds down, so that the microseconds are never negative. */
  function Split(t: int): (r: (int, int))
    ensures r.0 * MicrosPerSecond + r.1 == t
    ensures 0 <= r.1 < MicrosPerSecond
  {
    (t / MicrosPerSecond, t % MicrosPerSecond)
  }

  /** The split as src/utc.cpp:19-21 writes it: the whole seconds are the
      stamp truncated toward zero and the fraction is what is left over, so
      it has the sign of the stamp. */
  function SplitTruncated(t: int): (r: (int, int))
    ensures r.0 * MicrosPerSecond + r.1 == t
    ensures -MicrosPerSecond < r.1 < MicrosPerSecond
  {
    var whole := if t >= 0 then t / MicrosPerSecond else -((-t) / MicrosPerSecond);
    (whole, t - whole * MicrosPerSecond)
  }

  /** Half a second before the epoch: the truncating split keeps 0 whole
      seconds and a microsecond of -500000, outside [0,999999]. */
  lemma SplitTruncatedNegativeFraction()
    ensures SplitTruncated(-500000) == (0, -500000)
    ensures Split(-500000) == (-1, 500000)
  {
  }

  /** The two splits agree exactly on the stamps that are not negative or
      are whole seconds; on all others the truncating one yields a negative
      microsecond. */
  lemma SplitsAgree(t: int)
    ensures SplitTruncated(t) == Split(t) <==> (t >= 0 || t % MicrosPerSecond == 0)
    ensures SplitTruncated(t) != Split(t) ==> SplitTruncated(t).1 < 0
  {
    if t < 0 {
      var n := -t;
      assert n / MicrosPerSecond * MicrosPerSecond + n % MicrosPerSecond == n;
      if t % MicrosPerSecond == 0 {
        assert n % MicrosPerSecond == 0;
      } else {
        assert n % MicrosPerSecond != 0;
      }
    }
  }

  /** setEpoch's decomposition: whole seconds and microseconds, the seconds
      floored to a day number and a second of the day, the day number turned
      into its proleptic Gregorian date. */
  function Decompose(t: int): (f: Fields)
    ensures Valid(f)
    ensures DaysFromCivil(f.CivilDate()) == t / MicrosPerDay
    ensures f.SecondOfDay() * MicrosPerSecond + f.microSecond == t % MicrosPerDay
  {
    var seconds := Split(t).0;
    var micro := Split(t).1;
    assert seconds / SecondsPerDay == t / MicrosPerDay
        && seconds % SecondsPerDay * MicrosPerSecond + micro == t % MicrosPerDay by {
      DayOfStamp(t, seconds, micro);
    }
    FromParts(seconds / SecondsPerDay, seconds % SecondsPerDay, micro)
  }

  /** The fields of a day number, a second of that day and a microsecond. */
  function FromParts(days: int, sod: int, micro: int): (f: Fields)
    requires 0 <= sod < SecondsPerDay && 0 <= micro < MicrosPerSecond
    ensures Valid(f)
    ensures DaysFromCivil(f.CivilDate()) == days
    ensures f.SecondOfDay() == sod && f.microSecond == micro
  {
    CivilFromDaysCorrect(days);
    SecondOfDaySplit(sod);
    var date := CivilFromDays(days);
    Fields(date.year, date.month, date.day, DayOfYear(date), sod / 3600, sod % 3600 / 60, sod % 60, micro)
  }

  /** A second of the day splits into hour, minute and second in range. */
  lemma SecondOfDaySplit(sod: int)
    requires 0 <= sod < SecondsPerDay
    ensures 0 <= sod / 3600 <= 23 && 0 <= sod % 3600 / 60 <= 59 && 0 <= sod % 60 <= 59
    ensures sod / 3600 * 3600 + sod % 3600 / 60 * 60 + sod % 60 == sod
  {
    assert sod % 3600 == sod % 3600 / 60 * 60 + sod % 3600 % 60;
    assert sod % 3600 % 60 == sod % 60;
  }

  /** Hour, minute and second are recovered from the second of the day. */
  lemma SecondOfDayParts(h: int, m: int, s: int)
    requires 0 <= h <= 23 && 0 <= m <= 59 && 0 <= s <= 59
    ensures (h * 3600 + m * 60 + s) / 3600 == h
    ensures (h * 3600 + m * 60 + s) % 3600 / 60 == m
    ensures (h * 3600 + m * 60 + s) % 60 == s
  {
    var sod := h * 3600 + m * 60 + s;
    assert sod == 3600 * h + (60 * m + s) && 0 <= 60 * m + s < 3600;
    assert sod % 3600 == 60 * m + s;
    assert sod == 60 * (60 * h + m) + s;
  }

  lemma DayOfStamp(t: int, seconds: int, micro: int)
    requires seconds * MicrosPerSecond + micro == t && 0 <= micro < MicrosPerSecond
    ensures seconds / SecondsPerDay == t / MicrosPerDay
    ensures seconds % SecondsPerDay * MicrosPerSecond + micro == t % MicrosPerDay
  {
    var days := seconds / SecondsPerDay;
    var sod := seconds % SecondsPerDay;
    assert t == days * MicrosPerDay + (sod * MicrosPerSecond + micro);
    assert 0 <= sod * MicrosPerSecond + micro < MicrosPerDay;
  }

  /** Decomposing and recomposing gives back the stamp. */
  lemma ComposeDecompose(t: int)
    ensures Compose(Decompose(t)) == t
  {
    var f := Decompose(t);
    assert t == (t / MicrosPerDay) * MicrosPerDay + t % MicrosPerDay;
    assert Compose(f) == DaysFromCivil(f.CivilDate()) * MicrosPerDay + (f.SecondOfDay() * MicrosPerSecond + f.microSecond);
  }

  /** Composing valid fields and decomposing the result gives back the
      fields. */
  lemma DecomposeCompose(f: Fields)
    requires Valid(f)
    ensures Decompose(Compose(f)) == f
  {
    var t := Compose(f);
    var day := DaysFromCivil(f.CivilDate());
    var sod := f.SecondOfDay();
    assert 0 <= sod < SecondsPerDay;
    assert t == (day * SecondsPerDay + sod) * MicrosPerSecond + f.microSecond;
    assert t / MicrosPerSecond == day * SecondsPerDay + sod;
    assert t % MicrosPerSecond == f.microSecond;
    assert (day * SecondsPerDay + sod) / SecondsPerDay == day;
    assert (day * SecondsPerDay + sod) % SecondsPerDay == sod;
    CivilFromDaysOfDate(f.CivilDate());
    SecondOfDayParts(f.hour, f.minute, f.second);
    assert Split(t) == (day * SecondsPerDay + sod, f.microSecond);
    assert Decompose(t) == FromParts(day, sod, f.microSecond);
  }

  /** Two valid field sets denote the same instant only if they are equal. */
  lemma ComposeInjective(f: Fields, g: Fields)
    requires Valid(f) && Valid(g)
    ensures Compose(f) == Compose(g) <==> f == g
  {
    if Compose(f) == Compose(g) {
      DecomposeCompose(f);
      DecomposeCompose(g);
    }
  }

  /** testing/utc.cpp:62-71: 1408117832.844 s is 2014-08-15T15:50:32.844000,
      day 227. */
  lemma DecomposeExample()
    ensures Decompose(1408117832844000) == Fields(2014, 8, 15, 227, 15, 50, 32, 844000)
  {
    var f := Fields(2014, 8, 15, 227, 15, 50, 32, 844000);
    assert DaysFromCivil(f.CivilDate()) == 16297;
    assert DaysFromCivil(Date(2014, 1, 1)) == 16071;
    assert Valid(f);
    DecomposeCompose(f);
  }

  /** testing/utc.cpp:11-30: 2012-05-07T15:13:58.000100 is day 128 and
      1336403638.0001 s. */
  lemma ComposeExample()
    ensures DayOfYear(Date(2012, 5, 7)) == 128
    ensures Compose(Fields(2012, 5, 7, 128, 15, 13, 58, 100)) == 1336403638000100
  {
    assert DaysFromCivil(Date(2012, 5, 7)) == 15467;
    assert DaysFromCivil(Date(2012, 1, 1)) == 15340;
  }

  // ---------------------------------------------------------------------
  // The checked field updates (the UTC setters), as transitions on fields

  /** setYear: the year must be in [MinYear, MaxYear]; the date must remain
      a real date in the new year; the day of year is recomputed. */
  function WithYear(f: Fields, y: int): (r: Result<Fields>)
    ensures r.Success? <==> MinYear <= y <= MaxYear && ValidDate(Date(y, f.month, f.dayOfMonth))
    ensures !(MinYear <= y <= MaxYear) ==> r == Failure(YearOutOfRange)
    ensures r.Success? && Valid(f) ==> Valid(r.value)
    ensures r.Success? ==> r.value.year == y
    ensures r.Success? ==> r.value == f.(year := y, dayOfYear := r.value.dayOfYear)
  {
    if y < MinYear || MaxYear < y then Failure(YearOutOfRange)
    else if !ValidDate(Date(y, f.month, f.dayOfMonth)) then Failure(InvalidDate)
    else Success(f.(year := y, dayOfYear := DayOfYear(Date(y, f.month, f.dayOfMonth))))
  }

  /** setMonthAndDay: the month must be in [1,12] and the day in [1,31]
      (a fixed bound); a day beyond the month's end is a separate error; the
      day of year is recomputed. */
  function WithMonthAndDay(f: Fields, m: int, d: int): (r: Result<Fields>)
    ensures r.Success? <==> ValidDate(Date(f.year, m, d))
    ensures !(1 <= m <= 12) ==> r == Failure(MonthOutOfRange)
    ensures 1 <= m <= 12 && !(1 <= d <= 31) ==> r == Failure(DayOfMonthOutOfRange)
    ensures r.Success? && Valid(f) ==> Valid(r.value)
    ensures r.Success? ==> r.value.month == m && r.value.dayOfMonth == d
    ensures r.Success? ==> r.value.dayOfYear == DaysBeforeMonth(f.year, m) + d
    ensures r.Success? ==> r.value == f.(month := m, dayOfMonth := d, dayOfYear := r.value.dayOfYear)
  {
    if m < 1 || 12 < m then Failure(MonthOutOfRange)
    else if d < 1 || 31 < d then Failure(DayOfMonthOutOfRange)
    else if !ValidDate(Date(f.year, m, d)) then Failure(InvalidDate)
    else Success(f.(month := m, dayOfMonth := d, dayOfYear := DayOfYear(Date(f.year, m, d))))
  }

  /** setDayOfYear: the day must be in [1,366] in a leap year and in [1,365]
      otherwise; month and day become those of January 1 plus doy - 1 days. */
  function WithDayOfYear(f: Fields, doy: int): (r: Result<Fields>)
    ensures r.Success? <==> 1 <= doy <= (if IsLeapYear(f.year) then 366 else 365)
    ensures r.Failure? ==> r.error == DayOfYearOutOfRange
    ensures r.Success? && Valid(f) ==> Valid(r.value)
    ensures r.Success? ==> r.value.dayOfYear == doy
    ensures r.Success? ==> r.value == f.(month := r.value.month, dayOfMonth := r.value.dayOfMonth, dayOfYear := doy)
  {
    if doy < 1 || YearLength(f.year) < doy then Failure(DayOfYearOutOfRange)
    else
      var date := DateOfDayOfYear(f.year, doy);
      Success(f.(month := date.month, dayOfMonth := date.day, dayOfYear := doy))
  }

  function WithHour(f: Fields, h: int): (r: Result<Fields>)
    ensures r.Success? <==> 0 <= h <= 23
    ensures r.Failure? ==> r.error == HourOutOfRange
    ensures r.Success? && Valid(f) ==> Valid(r.value)
    ensures r.Success? ==> r.value == f.(hour := h)
  {
    if h < 0 || 23 < h then Failure(HourOutOfRange) else Success(f.(hour := h))
  }

  function WithMinute(f: Fields, m: int): (r: Result<Fields>)
    ensures r.Success? <==> 0 <= m <= 59
    ensures r.Failure? ==> r.error == MinuteOutOfRange
    ensures r.Success? && Valid(f) ==> Valid(r.value)
    ensures r.Success? ==> r.value == f.(minute := m)
  {
    if m < 0 || 59 < m then Failure(MinuteOutOfRange) else Success(f.(minute := m))
  }

  function WithSecond(f: Fields, s: int): (r: Result<Fields>)
    ensures r.Success? <==> 0 <= s <= 59
    ensures r.Failure? ==> r.error == SecondOutOfRange
    ensures r.Success? && Valid(f) ==> Valid(r.value)
    ensures r.Success? ==> r.value == f.(second := s)
  {
    if s < 0 || 59 < s then Failure(SecondOutOfRange) else Success(f.(second := s))
  }

  function WithMicroSecond(f: Fields, us: int): (r: Result<Fields>)
    ensures r.Success? <==> 0 <= us <= 999999
    ensures r.Failure? ==> r.error == MicroSecondOutOfRange
    ensures r.Success? && Valid(f) ==> Valid(r.value)
    ensures r.Success? ==> r.value == f.(microSecond := us)
  {
    if us < 0 || 999999 < us then Failure(MicroSecondOutOfRange) else Success(f.(microSecond := us))
  }

  // ---------------------------------------------------------------------
  // How the date setters relate

  /** setDayOfYear moves month and day to the date of that day of the year;
      feeding that month and day back to setMonthAndDay restores the same
      day of year, and setting the current day of year changes nothing. */
  lemma DayOfYearThenMonthAndDay(f: Fields, doy: int)
    requires Valid(f) && WithDayOfYear(f, doy).Success?
    ensures var g := WithDayOfYear(f, doy).value;
      WithMonthAndDay(f, g.month, g.dayOfMonth) == Success(g)
    ensures WithDayOfYear(f, f.dayOfYear) == Success(f)
  {
    DateOfDayOfYearOfDate(f.CivilDate());
  }

  /** setMonthAndDay changes the day of year to the one of the new date, and
      setDayOfYear with that day gives back the same month and day. */
  lemma MonthAndDayThenDayOfYear(f: Fields, m: int, d: int)
    requires Valid(f) && WithMonthAndDay(f, m, d).Success?
    ensures var g := WithMonthAndDay(f, m, d).value;
      g.dayOfYear == DayOfYear(Date(f.year, m, d)) && WithDayOfYear(f, g.dayOfYear) == Success(g)
  {
    DateOfDayOfYearOfDate(Date(f.year, m, d));
  }

  /** testing/utc.cpp:43-46: 2012 is a leap year and its day 366 is
      December 31. */
  lemma DayOfYearExample()
    ensures YearLength(2012) == 366
    ensures DateOfDayOfYear(2012, 366) == Date(2012, 12, 31)
  {
    assert IsLeapYear(2012) by {
      assert 2012 % 4 == 0 && 2012 % 100 == 12;
    }
    var dec31 := Date(2012, 12, 31);
    assert ValidDate(dec31);
    NewYearsEve(2012);
    DateOfDayOfYearOfDate(dec31);
  }

  /** The year setter keeps the month and day and recomputes the day of
      year: February 29 survives only into leap years. */
  lemma LeapDayNeedsLeapYear(f: Fields, y: int)
    requires Valid(f) && f.month == 2 && f.dayOfMonth == 29 && MinYear <= y <= MaxYear
    ensures WithYear(f, y).Success? <==> IsLeapYear(y)
  {
  }

  // ---------------------------------------------------------------------
  // The intermediate dates of the one-field-at-a-time updates

  /** The date that the implementation checks (src/utc.cpp:56-62) after
      changing the month and before changing the day: new month, old day.
      setMonthAndDay (src/utc.cpp:282-283) and setEpoch (src/utc.cpp:32, on
      fields whose year is already the new one) both pass through it. From
      a valid state it is a real date exactly when the old day fits in the
      new month. */
  function DateAfterMonthUpdate(f: Fields, m: int): (date: Date)
    ensures Valid(f) && 1 <= m <= 12 ==> (ValidDate(date) <==> f.dayOfMonth <= DaysInMonth(f.year, m))
  {
    Date(f.year, m, f.dayOfMonth)
  }

  /** On the 31st of a month, setting a 30-day month with day 30 is a valid
      request, but the date checked on the way, the 31st of that month, is
      not a real date (January 31 to April 30, for one). */
  lemma MonthUpdateChecksStaleDay(f: Fields, m: int)
    requires Valid(f) && f.dayOfMonth == 31
    requires m == 4 || m == 6 || m == 9 || m == 11
    ensures WithMonthAndDay(f, m, 30).Success?
    ensures !ValidDate(DateAfterMonthUpdate(f, m))
  {
  }

  /** The date that setEpoch has the implementation check (src/utc.cpp:
      47-53) on its way from fields f to the fields g of the new stamp, after
      changing the year and before changing month and day (src/utc.cpp:
      31-33): new year, old month and day. From a valid state it is a real
      date unless the old date is February 29 and the new year is not a leap
      year. */
  function DateAfterYearUpdate(f: Fields, g: Fields): (date: Date)
    ensures Valid(f) ==> (ValidDate(date) <==> !(f.month == 2 && f.dayOfMonth == 29) || IsLeapYear(g.year))
  {
    Date(g.year, f.month, f.dayOfMonth)
  }

  /** On February 29, setting a stamp in a year that is not a leap year is
      a valid request, but the date checked on the way, February 29 of that
      year, is not a real date (2012-02-29 to the epoch 0, for one). */
  lemma YearUpdateChecksStaleDate(f: Fields, t: int)
    requires Valid(f) && f.month == 2 && f.dayOfMonth == 29
    requires !IsLeapYear(Decompose(t).year)
    ensures Valid(Decompose(t))
    ensures !ValidDate(DateAfterYearUpdate(f, Decompose(t)))
  {
  }

  /** The month step of setEpoch (src/utc.cpp:32) checks the new year and
      month with the old day: from the 31st, a stamp in a 30-day month is a
      valid request and passes the year step, but the month step checks the
      31st of that month (2012-01-31 to a stamp in April 2012, for one). */
  lemma EpochMonthUpdateChecksStaleDay(f: Fields, t: int)
    requires Valid(f) && f.dayOfMonth == 31
    requires var m := Decompose(t).month; m == 4 || m == 6 || m == 9 || m == 11
    ensures Valid(Decompose(t))
    ensures ValidDate(DateAfterYearUpdate(f, Decompose(t)))
    ensures !ValidDate(DateAfterMonthUpdate(f.(year := Decompose(t).year), Decompose(t).month))
  {
  }
}
