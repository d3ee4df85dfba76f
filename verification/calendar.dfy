/** The proleptic Gregorian calendar on integer day counts.
    Day 0 is 1970-01-01. `DaysFromCivil` and `CivilFromDays` are the standard
    integer algorithms (eras of 400 years, years that start on March 1); the
    library the original delegates to uses the same ones. Dafny's `/` and `%`
    are Euclidean, so with a positive divisor they floor, as the algorithms'
    era computation requires for negative years. */
module Calendar {

  datatype Date = Date(year: int, month: int, day: int)

  /** The Gregorian leap rule: divisible by 4, except centuries, except
      multiples of 400. */
  predicate IsLeapYear(y: int)
  {
    y % 4 == 0 && (y % 100 != 0 || y % 400 == 0)
  }

  function YearLength(y: int): int
  {
    if IsLeapYear(y) then 366 else 365
  }

  function DaysInMonth(y: int, m: int): int
    requires 1 <= m <= 12
  {
    if m == 2 then (if IsLeapYear(y) then 29 else 28)
    else if m == 4 || m == 6 || m == 9 || m == 11 then 30
    else 31
  }

  /** A real calendar date: month in [1,12] and day within that month. */
  predicate ValidDate(date: Date)
  {
    1 <= date.month <= 12 && 1 <= date.day <= DaysInMonth(date.year, date.month)
  }

  // ---------------------------------------------------------------------
  // Building blocks of the two algorithms

  /** Days from March 1 of year 0 of an era to March 1 of year k of it. */
  function YearStart(k: int): int
  {
    365 * k + k / 4 - k / 100 + k / 400
  }

  /** Days from March 1 to the first day of the mp-th month counted from
      March (mp = 0 is March, mp = 11 is February). */
  function MonthStart(mp: int): int
  {
    (153 * mp + 2) / 5
  }

  /** Length of the mp-th month counted from March; February is last. */
  function MarchMonthLength(mp: int, leapFebruary: bool): int
    requires 0 <= mp <= 11
  {
    if mp == 11 then (if leapFebruary then 29 else 28)
    else if mp == 1 || mp == 3 || mp == 6 || mp == 8 then 30
    else 31
  }

  /** The civil month (1..12) of the mp-th month counted from March. */
  function CivilMonth(mp: int): int
  {
    if mp < 10 then mp + 3 else mp - 9
  }

  /** The month counted from March (0..11) of a civil month. */
  function MarchMonth(m: int): int
  {
    if m > 2 then m - 3 else m + 9
  }

  /** Days from March 1 of its March-based year to a date. */
  function MarchDay(date: Date): int
    requires 1 <= date.month <= 12
  {
    MonthStart(MarchMonth(date.month)) + date.day - 1
  }

  /** The year whose March 1 starts the March-based year of a civil date. */
  function MarchYear(date: Date): int
  {
    if date.month <= 2 then date.year - 1 else date.year
  }

  /** Year of era recovered from a day of era (Hinnant's formula). */
  function YearOfEra(doe: int): int
  {
    (doe - doe / 1460 + doe / 36524 - doe / 146096) / 365
  }

  /** Days from 1970-01-01 to March 1 of year y, in closed form. */
  function MarchFirst(y: int): int
  {
    365 * y + y / 4 - y / 100 + y / 400 - 719468
  }

  // ---------------------------------------------------------------------
  // The two algorithms

  /** days_from_civil: the day number of a date. */
  function DaysFromCivil(date: Date): int
    requires 1 <= date.month <= 12
  {
    var y := MarchYear(date);
    var era := y / 400;
    var yoe := y % 400;
    var doy := MarchDay(date);
    var doe := yoe * 365 + yoe / 4 - yoe / 100 + doy;
    era * 146097 + doe - 719468
  }

  /** civil_from_days: the date of a day number (see CivilFromDaysCorrect). */
  function CivilFromDays(z: int): Date
  {
    var shifted := z + 719468;
    CivilFromDayOfEra(shifted / 146097, shifted % 146097)
  }

  /** The date of day `doe` (0..146096) of era `era`. */
  function CivilFromDayOfEra(era: int, doe: int): Date
  {
    var yoe := YearOfEra(doe);
    CivilFromMarchDay(era * 400 + yoe, doe - (365 * yoe + yoe / 4 - yoe / 100))
  }

  /** The date of day `doy` (0..365) of the March-based year y. */
  function CivilFromMarchDay(y: int, doy: int): Date
  {
    var mp := (5 * doy + 2) / 153;
    var m := CivilMonth(mp);
    Date(if m <= 2 then y + 1 else y, m, doy - MonthStart(mp) + 1)
  }

  // ---------------------------------------------------------------------
  // Lemmas about the building blocks

  lemma YearStartSplit(c: int, q: int, j: int)
    requires 0 <= c <= 3 && 0 <= q <= 24 && 0 <= j <= 3
    ensures YearStart(100 * c + 4 * q + j) == 36524 * c + 1461 * q + 365 * j
  {
    var k := 100 * c + 4 * q + j;
    assert k / 4 == 25 * c + q;
    assert k / 100 == c;
    assert k / 400 == 0;
  }

  /** The three quotients of the year-of-era formula, for a day of era
      written as c centuries, q four-year blocks and s further days. */
  lemma DayOfEraQuotients(c: int, q: int, s: int)
    requires 0 <= c <= 3 && 0 <= q <= 24 && 0 <= s < 1461 && (q == 24 ==> s <= 1459)
    ensures var doe := 36524 * c + 1461 * q + s;
      && doe / 1460 == 25 * c + q + (if 24 * c + q + s >= 1460 then 1 else 0)
      && doe / 36524 == c
      && doe / 146096 == 0
  {
    var doe := 36524 * c + 1461 * q + s;
    assert doe == 1460 * (25 * c + q) + (24 * c + q + s);
  }

  /** The final division by 365 picks the year within the four-year block;
      the correction b only matters on the block's leap day. */
  lemma YearInBlock(x: int, s: int, b: int)
    requires 0 <= s < 1461 && 0 <= b <= 1 && (b == 1 ==> s >= 1364) && (s == 1460 ==> b == 1)
    ensures (365 * x + (s - b)) / 365 == x + (if s == 1460 then 3 else s / 365)
  {
    var j := if s == 1460 then 3 else s / 365;
    assert (s - b) / 365 == j;
  }

  lemma YearOfEraSplit(c: int, q: int, s: int)
    requires 0 <= c <= 3 && 0 <= q <= 24 && 0 <= s < 1461 && (q == 24 ==> s <= 1459)
    ensures YearOfEra(36524 * c + 1461 * q + s) == 100 * c + 4 * q + (if s == 1460 then 3 else s / 365)
  {
    DayOfEraQuotients(c, q, s);
    YearInBlock(100 * c + 4 * q, s, if 24 * c + q + s >= 1460 then 1 else 0);
  }

  /** Where year j of block q of century c starts, and where the next year
      starts: one day later than 365 on in a leap year. */
  lemma YearStartBracket(c: int, q: int, j: int)
    requires 0 <= c <= 3 && 0 <= q <= 24 && 0 <= j <= 3
    ensures YearStart(100 * c + 4 * q + j) == 36524 * c + 1461 * q + 365 * j
    ensures YearStart(100 * c + 4 * q + j + 1)
         == 36524 * c + 1461 * q + 365 * (j + 1) + (if j == 3 && (q < 24 || c == 3) then 1 else 0)
  {
    YearStartSplit(c, q, j);
    if j < 3 {
      YearStartSplit(c, q, j + 1);
    } else if q < 24 {
      YearStartSplit(c, q + 1, 0);
    } else if c < 3 {
      YearStartSplit(c + 1, 0, 0);
    }
  }

  lemma DayInBlock(c: int, q: int, s: int)
    requires 0 <= c <= 3 && 0 <= q <= 24 && 0 <= s < 1461 && (q == 24 ==> s <= 1459)
    ensures var j := if s == 1460 then 3 else s / 365;
      && 0 <= j <= 3
      && 365 * j <= s < 365 * (j + 1) + (if j == 3 && (q < 24 || c == 3) then 1 else 0)
  {
  }

  lemma YearOfEraBoundsSplit(k: int, c: int, q: int, s: int)
    requires 0 <= c <= 3 && 0 <= q <= 24 && 0 <= s < 1461 && (q == 24 ==> s <= 1459)
    requires k == YearOfEra(36524 * c + 1461 * q + s)
    ensures 0 <= k <= 399
    ensures YearStart(k) <= 36524 * c + 1461 * q + s < YearStart(k + 1)
  {
    var j := if s == 1460 then 3 else s / 365;
    assert 365 * j <= s < 365 * (j + 1) + (if j == 3 && (q < 24 || c == 3) then 1 else 0) by {
      DayInBlock(c, q, s);
    }
    YearOfEraSplit(c, q, s);
    YearStartBracket(c, q, j);
  }

  /** A day of era (but the last) as centuries, four-year blocks and days;
      the last block of a century is one day short. */
  lemma DayOfEraParts(doe: int)
    requires 0 <= doe < 146096
    ensures var c, q, s := doe / 36524, doe % 36524 / 1461, doe % 36524 % 1461;
      && 0 <= c <= 3 && 0 <= q <= 24 && 0 <= s < 1461 && (q == 24 ==> s <= 1459)
      && doe == 36524 * c + 1461 * q + s
  {
  }

  /** The year-of-era formula finds the March-based year that contains the
      day: an era is four centuries of 25 four-year blocks (the last block of
      a century one day short) plus the leap day of its final year. */
  lemma YearOfEraBounds(doe: int)
    requires 0 <= doe <= 146096
    ensures 0 <= YearOfEra(doe) <= 399
    ensures YearStart(YearOfEra(doe)) <= doe < YearStart(YearOfEra(doe) + 1)
  {
    if doe == 146096 {
      assert YearOfEra(doe) == 399;
    } else {
      DayOfEraParts(doe);
      YearOfEraBoundsSplit(YearOfEra(doe), doe / 36524, doe % 36524 / 1461, doe % 36524 % 1461);
    }
  }

  /** A March-based year of an era has 366 days exactly when the February at
      its end is a leap February. */
  lemma MarchYearLength(era: int, yoe: int)
    requires 0 <= yoe <= 399
    ensures YearStart(yoe + 1) - YearStart(yoe) == YearLength(era * 400 + yoe + 1)
  {
    var k := yoe + 1;
    var y := era * 400 + k;
    assert y / 4 == era * 100 + k / 4;
    assert y / 100 == era * 4 + k / 100;
    assert y / 400 == era + k / 400;
    assert IsLeapYear(y) == (k % 4 == 0 && (k % 100 != 0 || k % 400 == 0));
    DivStep(yoe);
  }

  /** How the three leap-day counters of YearStart step from k to k + 1. */
  lemma DivStep(k: int)
    ensures (k + 1) / 4 - k / 4 == (if (k + 1) % 4 == 0 then 1 else 0)
    ensures (k + 1) / 100 - k / 100 == (if (k + 1) % 100 == 0 then 1 else 0)
    ensures (k + 1) / 400 - k / 400 == (if (k + 1) % 400 == 0 then 1 else 0)
  {
  }

  /** March 1 of year yoe of an era, in days from 1970-01-01. */
  lemma MarchFirstOfEra(era: int, yoe: int)
    requires 0 <= yoe <= 399
    ensures MarchFirst(era * 400 + yoe) == era * 146097 + YearStart(yoe) - 719468
  {
    var y := era * 400 + yoe;
    assert y / 4 == era * 100 + yoe / 4;
    assert y / 100 == era * 4 + yoe / 100;
    assert y / 400 == era;
  }

  /** civil_from_days's split of a day of era into the year yoe of the era
      and the day doy of that March-based year: doy is in range, and the
      day number is March 1 of that year plus doy. */
  lemma DayOfEraInYear(era: int, doe: int, yoe: int, doy: int)
    requires 0 <= doe <= 146096 && yoe == YearOfEra(doe)
    requires doy == doe - (365 * yoe + yoe / 4 - yoe / 100)
    ensures 0 <= doy < YearLength(era * 400 + yoe + 1)
    ensures MarchFirst(era * 400 + yoe) + doy == era * 146097 + doe - 719468
  {
    YearOfEraBounds(doe);
    assert yoe / 400 == 0;
    assert doy == doe - YearStart(yoe);
    MarchYearLength(era, yoe);
    MarchFirstOfEra(era, yoe);
  }

  /** The month formula finds the month (counted from March) that contains a
      day of a March-based year. */
  lemma MarchMonthOfDay(doy: int, leapFebruary: bool)
    requires 0 <= doy < (if leapFebruary then 366 else 365)
    ensures 0 <= (5 * doy + 2) / 153 <= 11
    ensures MonthStart((5 * doy + 2) / 153) <= doy
    ensures doy - MonthStart((5 * doy + 2) / 153) < MarchMonthLength((5 * doy + 2) / 153, leapFebruary)
  {
  }

  /** Conversely, a day inside the mp-th month is mapped back to mp. */
  lemma MonthOfMarchDay(mp: int, offset: int, leapFebruary: bool)
    requires 0 <= mp <= 11
    requires 0 <= offset < MarchMonthLength(mp, leapFebruary)
    ensures (5 * (MonthStart(mp) + offset) + 2) / 153 == mp
  {
  }

  lemma MarchMonthLengthIsDaysInMonth(mp: int, y: int)
    requires 0 <= mp <= 11
    ensures 1 <= CivilMonth(mp) <= 12
    ensures MarchMonth(CivilMonth(mp)) == mp
    ensures MarchMonthLength(mp, IsLeapYear(y)) == DaysInMonth(y, CivilMonth(mp))
  {
  }

  /** The era arithmetic of days_from_civil equals a closed form. */
  lemma {:induction false} DaysFromCivilClosedForm(date: Date)
    requires 1 <= date.month <= 12
    ensures DaysFromCivil(date) == MarchFirst(MarchYear(date)) + MarchDay(date)
  {
    var y := MarchYear(date);
    var era := y / 400;
    var yoe := y % 400;
    assert y == 400 * era + yoe;
    assert y / 4 == 100 * era + yoe / 4;
    assert y / 100 == 4 * era + yoe / 100;
  }

  lemma MarchFirstStep(y: int)
    ensures MarchFirst(y + 1) - MarchFirst(y) == YearLength(y + 1)
  {
    DivStep(y);
  }

  lemma MarchFirstMonotone(a: int, b: int)
    requires a <= b
    ensures MarchFirst(a) <= MarchFirst(b)
    ensures a < b ==> MarchFirst(a) + 365 <= MarchFirst(b)
  {
    assert (b / 4 - a / 4) * 4 >= b - a - 3;
    assert (b / 100 - a / 100) * 100 <= b - a + 99;
  }

  /** A day number falls in exactly one March-based year. */
  lemma MarchWindowUnique(ya: int, da: int, yb: int, db: int)
    requires 0 <= da < YearLength(ya + 1) && 0 <= db < YearLength(yb + 1)
    requires MarchFirst(ya) + da == MarchFirst(yb) + db
    ensures ya == yb && da == db
  {
    MarchFirstStep(ya);
    MarchFirstStep(yb);
    if ya < yb {
      MarchFirstMonotone(ya + 1, yb);
    } else if yb < ya {
      MarchFirstMonotone(yb + 1, ya);
    }
  }

  // ---------------------------------------------------------------------
  // Round trips, built up from March-based years to eras to day numbers

  lemma CivilFromMarchDayCorrect(y: int, doy: int)
    requires 0 <= doy < YearLength(y + 1)
    ensures ValidDate(CivilFromMarchDay(y, doy))
    ensures MarchYear(CivilFromMarchDay(y, doy)) == y
    ensures MarchDay(CivilFromMarchDay(y, doy)) == doy
  {
    MarchMonthOfDay(doy, IsLeapYear(y + 1));
    var mp := (5 * doy + 2) / 153;
    var r := CivilFromMarchDay(y, doy);
    MarchMonthLengthIsDaysInMonth(mp, r.year);
    assert mp == 11 ==> r.year == y + 1;
  }

  /** The date of day doy of March-based year y is a real date whose day
      number is March 1 of y plus doy. */
  lemma CivilFromMarchDayDays(y: int, doy: int)
    requires 0 <= doy < YearLength(y + 1)
    ensures ValidDate(CivilFromMarchDay(y, doy))
    ensures DaysFromCivil(CivilFromMarchDay(y, doy)) == MarchFirst(y) + doy
  {
    CivilFromMarchDayCorrect(y, doy);
    DaysFromCivilClosedForm(CivilFromMarchDay(y, doy));
  }

  lemma MarchDayDate(y: int, doy: int, r: Date, z: int)
    requires 0 <= doy < YearLength(y + 1)
    requires r == CivilFromMarchDay(y, doy) && z == MarchFirst(y) + doy
    ensures ValidDate(r) && DaysFromCivil(r) == z
  {
    CivilFromMarchDayDays(y, doy);
  }

  lemma DayOfEraDate(era: int, doe: int, yoe: int, doy: int, r: Date)
    requires 0 <= doe <= 146096 && yoe == YearOfEra(doe)
    requires doy == doe - (365 * yoe + yoe / 4 - yoe / 100)
    requires r == CivilFromMarchDay(era * 400 + yoe, doy)
    ensures ValidDate(r) && DaysFromCivil(r) == era * 146097 + doe - 719468
  {
    DayOfEraInYear(era, doe, yoe, doy);
    MarchDayDate(era * 400 + yoe, doy, r, era * 146097 + doe - 719468);
  }

  lemma CivilFromDayOfEraCorrect(era: int, doe: int)
    requires 0 <= doe <= 146096
    ensures ValidDate(CivilFromDayOfEra(era, doe))
    ensures DaysFromCivil(CivilFromDayOfEra(era, doe)) == era * 146097 + doe - 719468
  {
    var yoe := YearOfEra(doe);
    DayOfEraDate(era, doe, yoe, doe - (365 * yoe + yoe / 4 - yoe / 100), CivilFromDayOfEra(era, doe));
  }

  /** civil_from_days always yields a real date, and that date has exactly
      the given day number. */
  lemma CivilFromDaysCorrect(z: int)
    ensures ValidDate(CivilFromDays(z))
    ensures DaysFromCivil(CivilFromDays(z)) == z
  {
    var shifted := z + 719468;
    CivilFromDayOfEraCorrect(shifted / 146097, shifted % 146097);
  }

  /** The month counted from March of a real date is the one the month
      formula finds from its day of the March-based year, and that day is in
      range. */
  lemma MarchMonthOfDate(date: Date)
    requires ValidDate(date)
    ensures 0 <= MarchDay(date) < YearLength(MarchYear(date) + 1)
    ensures (5 * MarchDay(date) + 2) / 153 == MarchMonth(date.month)
  {
    var mp := MarchMonth(date.month);
    var leap := IsLeapYear(MarchYear(date) + 1);
    MarchMonthLengthIsDaysInMonth(mp, date.year);
    assert mp == 11 ==> date.year == MarchYear(date) + 1;
    assert date.day - 1 < MarchMonthLength(mp, leap);
    MonthOfMarchDay(mp, date.day - 1, leap);
  }

  /** A real date is determined by its March-based year and its day in it. */
  lemma DateOfMarchDay(a: Date, b: Date)
    requires ValidDate(a) && ValidDate(b)
    requires MarchYear(a) == MarchYear(b) && MarchDay(a) == MarchDay(b)
    ensures a == b
  {
    MarchMonthOfDate(a);
    MarchMonthOfDate(b);
  }

  /** days_from_civil is one-to-one on real dates. */
  lemma DaysFromCivilInjective(a: Date, b: Date)
    requires ValidDate(a) && ValidDate(b)
    ensures DaysFromCivil(a) == DaysFromCivil(b) <==> a == b
  {
    if DaysFromCivil(a) == DaysFromCivil(b) {
      DaysFromCivilClosedForm(a);
      DaysFromCivilClosedForm(b);
      MarchMonthOfDate(a);
      MarchMonthOfDate(b);
      MarchWindowUnique(MarchYear(a), MarchDay(a), MarchYear(b), MarchDay(b));
      DateOfMarchDay(a, b);
    }
  }

  lemma CivilFromDaysAt(z: int, date: Date)
    requires ValidDate(date) && z == DaysFromCivil(date)
    ensures CivilFromDays(z) == date
  {
    CivilFromDaysCorrect(z);
    DaysFromCivilInjective(CivilFromDays(z), date);
  }

  /** civil_from_days inverts days_from_civil on every real date. */
  lemma CivilFromDaysOfDate(date: Date)
    requires ValidDate(date)
    ensures CivilFromDays(DaysFromCivil(date)) == date
  {
    CivilFromDaysAt(DaysFromCivil(date), date);
  }

  // ---------------------------------------------------------------------
  // Years and days of the year

  function NewYear(y: int): int
  {
    DaysFromCivil(Date(y, 1, 1))
  }

  /** January 1 is day 306 of the March-based year that began the March
      before. */
  lemma NewYearClosedForm(y: int)
    ensures NewYear(y) == MarchFirst(y - 1) + 306
  {
    DaysFromCivilClosedForm(Date(y, 1, 1));
  }

  /** Consecutive New Year's days are one year length apart. */
  lemma NewYearStep(y: int)
    ensures NewYear(y + 1) - NewYear(y) == YearLength(y)
  {
    NewYearClosedForm(y);
    NewYearClosedForm(y + 1);
    MarchFirstStep(y - 1);
  }

  /** Days of year y in the months before month m: the cumulative month
      table, one more from March on in a leap year. */
  function DaysBeforeMonth(y: int, m: int): int
    requires 1 <= m <= 12
  {
    var common :=
      if m == 1 then 0 else if m == 2 then 31 else if m == 3 then 59
      else if m == 4 then 90 else if m == 5 then 120 else if m == 6 then 151
      else if m == 7 then 181 else if m == 8 then 212 else if m == 9 then 243
      else if m == 10 then 273 else if m == 11 then 304 else 334;
    common + (if m > 2 && IsLeapYear(y) then 1 else 0)
  }

  /** Day of the year, 1 on January 1 (the ordinal date of ISO 8601:2004
      section 4.1.2.3). */
  function DayOfYear(date: Date): (doy: int)
    requires ValidDate(date)
    ensures 1 <= doy <= YearLength(date.year)
  {
    DaysBeforeMonth(date.year, date.month) + date.day
  }

  /** The day of the year as src/utc.cpp:104-109 computes it: one plus the
      days elapsed since January 1 of the same year. */
  function ElapsedDayOfYear(date: Date): (doy: int)
    requires ValidDate(date)
    ensures doy == DayOfYear(date)
  {
    DayOfYearElapsed(date);
    DaysFromCivil(date) - NewYear(date.year) + 1
  }

  /** The days elapsed since New Year agree with the month table. */
  lemma DayOfYearElapsed(date: Date)
    requires ValidDate(date)
    ensures DaysFromCivil(date) - NewYear(date.year) + 1 == DayOfYear(date)
  {
    DaysFromCivilClosedForm(date);
    NewYearClosedForm(date.year);
    ElapsedByMonth(date.year, date.month, date.day);
  }

  /** The month table against March 1 of the March-based year and the
      month starts counted from March. */
  lemma ElapsedByMonth(y: int, m: int, d: int)
    requires 1 <= m <= 12
    ensures MarchFirst(if m <= 2 then y - 1 else y) + MonthStart(MarchMonth(m)) + d - 1
          - (MarchFirst(y - 1) + 306) + 1
         == DaysBeforeMonth(y, m) + d
  {
    MarchFirstStep(y - 1);
  }

  /** A real date lies between its year's New Year and the next one. */
  lemma YearWindow(date: Date)
    requires ValidDate(date)
    ensures NewYear(date.year) <= DaysFromCivil(date) < NewYear(date.year + 1)
  {
    DayOfYearElapsed(date);
    NewYearStep(date.year);
  }

  /** The month, from `m` on, that holds day `doy` of year y: the first
      whose end is not before it. */
  function MonthOfDayOfYear(y: int, doy: int, m: int): (r: int)
    requires 1 <= m <= 12 && DaysBeforeMonth(y, m) < doy <= YearLength(y)
    ensures m <= r <= 12
    ensures DaysBeforeMonth(y, r) < doy <= DaysBeforeMonth(y, r) + DaysInMonth(y, r)
    decreases 12 - m
  {
    if m == 12 || doy <= DaysBeforeMonth(y, m + 1) then m else MonthOfDayOfYear(y, doy, m + 1)
  }

  /** The search stops at the month whose days hold `doy`. */
  lemma {:induction false} MonthOfDayOfYearIs(y: int, doy: int, m: int, target: int)
    requires 1 <= m <= target <= 12
    requires DaysBeforeMonth(y, target) < doy <= DaysBeforeMonth(y, target) + DaysInMonth(y, target)
    ensures MonthOfDayOfYear(y, doy, m) == target
    decreases 12 - m
  {
    if m < target {
      assert DaysBeforeMonth(y, m + 1) <= DaysBeforeMonth(y, target);
      MonthOfDayOfYearIs(y, doy, m + 1, target);
    }
  }

  /** The date that is day `doy` of year y, read off the month table. */
  function DateOfDayOfYear(y: int, doy: int): (date: Date)
    requires 1 <= doy <= YearLength(y)
    ensures ValidDate(date) && date.year == y
    ensures DayOfYear(date) == doy
  {
    var m := MonthOfDayOfYear(y, doy, 1);
    Date(y, m, doy - DaysBeforeMonth(y, m))
  }

  /** Turning a date into its day of the year and back gives the date. */
  lemma DateOfDayOfYearOfDate(date: Date)
    requires ValidDate(date)
    ensures DateOfDayOfYear(date.year, DayOfYear(date)) == date
  {
    MonthOfDayOfYearIs(date.year, DayOfYear(date), 1, date.month);
  }

  /** The date as src/utc.cpp:116-117 computes it, January 1 plus doy - 1
      days, is the date the month table gives. */
  lemma DateOfDayOfYearElapsed(y: int, doy: int)
    requires 1 <= doy <= YearLength(y)
    ensures CivilFromDays(NewYear(y) + doy - 1) == DateOfDayOfYear(y, doy)
  {
    var date := DateOfDayOfYear(y, doy);
    DayOfYearElapsed(date);
    CivilFromDaysAt(NewYear(y) + doy - 1, date);
  }

  /** January 1 is day 1. */
  lemma NewYearsDay(y: int)
    ensures DayOfYear(Date(y, 1, 1)) == 1
  {
  }

  /** December 31 is the last day of the year. */
  lemma NewYearsEve(y: int)
    ensures DayOfYear(Date(y, 12, 31)) == YearLength(y)
  {
  }

  /** The next day of the same month has the next day number. */
  lemma DaysFromCivilNextDay(date: Date)
    requires 1 <= date.month <= 12
    ensures DaysFromCivil(date.(day := date.day + 1)) == DaysFromCivil(date) + 1
  {
  }

  /** Day 0 is 1970-01-01. */
  lemma EpochDay()
    ensures DaysFromCivil(Date(1970, 1, 1)) == 0
  {
    var y := 1969;
    assert y / 400 == 4 && y % 400 == 369;
    assert MarchDay(Date(1970, 1, 1)) == 306;
  }

  /** 1970-01-01 is day 0. */
  lemma EpochDate()
    ensures CivilFromDays(0) == Date(1970, 1, 1)
  {
    EpochDay();
    CivilFromDaysOfDate(Date(1970, 1, 1));
  }
}
