# Time::UTC in Dafny

This project models the `Time::UTC` value type of the `time` library and its
version query.

A `UTC` object holds the calendar fields of an instant. These are the year,
month, day of month and day of year, and the hour, minute, second and
microsecond. It also caches the instant's epoch, with a flag saying whether
the cache is current. Setters check their argument and either change the
object or reject the value (the original throws `std::invalid_argument`).
`setEpoch` turns a stamp into fields, and `getEpoch` turns the fields back
into a stamp when the cache is stale. Objects are read from and printed as
`YYYY-MM-DDTHH:MM:SS.ffffff` text. `+` and `-` go through the epoch, `==`
compares the fields, and `<` and `>` compare epochs.

The modules:

- `calendar.dfy` (`Calendar`) covers the proleptic Gregorian calendar. It has
  the leap rule, the integer `days_from_civil` / `civil_from_days`
  algorithms and the day of the year. It proves that the two algorithms are
  inverse for every integer day number and every real date, negative years
  included.
- `stamp.dfy` (`Stamp`) holds the fields as a value (`Fields`) and the
  conversions between fields and stamps. Following POSIX.1-2017 XBD section
  4.16, "Seconds Since the Epoch", every day has 86400 seconds. The module
  also has the checked setters, written as functions on fields that return
  `Result<Fields>`. It proves the round trips, the injectivity of the
  fields-to-stamp map, and how the date setters relate to each other.
- `text.dfy` (`StampText`) covers formatting (`operator<<`) and the scanning
  half of the string constructor. It proves that printing and then parsing
  gives back the same fields, that the short 19-character form loses
  only the microsecond, and that any accepted text is the printed form (or
  its first 19 characters) of the fields it yields.
- `utc.dfy` (`Utc`) is the `UTC` class itself. It has the fields, the cache
  and its flag, and the in-place setters, each proved against the
  corresponding `Stamp` function. It also has construction, copy, `clear`,
  `swap`, `+`/`-` and the comparisons. `Valid()` (the fields are consistent)
  and `CacheCoherent()` (a set flag means the cached epoch equals the
  fields' epoch) are the two invariants. Every operation except the setter
  that keeps the original's cache quirk preserves both.
- `version.dfy` (`Version`) models `isAtLeast` and the version getters. The
  configured release is a parameter.

Modelling choices:

- Stamps are whole microseconds since 1970-01-01T00:00:00, as `int`.
- The date checks that the original leaves to debug assertions are modelled
  as checked errors (`InvalidDate`). These are a day past the end of the
  month in `setMonthAndDay`, and February 29 given to `setYear` for a
  non-leap year. The header promises that the day must fit the month
  (include/time/utc.hpp:63-67), but the code only checks [1,31]
  (src/utc.cpp:278).
- The model follows the code: the fixed bound is checked first (error
  `DayOfMonthOutOfRange`), then the date (error `InvalidDate`).
- The string constructor's temporary starts from the default state. It gets
  the scanned numbers through the same checked setters, and only a fully
  successful run produces an object.

## Model

| member | source | states |
|---|---|---|
| Calendar.IsLeapYear | src/utc.cpp:264-267 | the Gregorian leap rule of `is_leap`; Calendar.NewYearStep proves that it is exactly the years whose January 1 to the next is 366 days |
| Calendar.ValidDate | src/utc.cpp:50-53 | `year_month_day::ok()` of the debug asserts (src/utc.cpp:52, 61, 70, 118): month in [1,12] and day within the month's length; Calendar.CivilFromDaysCorrect proves every decoded day number is such a date |
| Calendar.DaysFromCivil | src/utc.cpp:235 | `sys_days{ymd}`, the day number of a date (also src/utc.cpp:108); Calendar.DaysFromCivilInjective, Calendar.CivilFromDaysOfDate and Calendar.EpochDay state its properties |
| Calendar.CivilFromDays | src/utc.cpp:26-27 | `year_month_day{dayPoint}`, the date of a day number (also src/utc.cpp:115-116); Calendar.CivilFromDaysCorrect proves it the inverse of Calendar.DaysFromCivil |
| Calendar.CivilFromDaysCorrect | src/utc.cpp:26-30 | civil_from_days maps every integer day number, negative ones included, to a real date whose day number is that same number |
| Calendar.CivilFromDaysOfDate | src/utc.cpp:26-30 | for every real date, civil_from_days of its day number gives back the date |
| Calendar.CivilFromDaysAt | src/utc.cpp:26-30 | a day number that is some real date's day number decodes to exactly that date |
| Calendar.DaysFromCivilInjective | src/utc.cpp:235-236 | two real dates have the same day number if and only if they are the same date |
| Calendar.DaysFromCivilNextDay | src/utc.cpp:235-236 | the next day of the month has the next day number |
| Calendar.EpochDay | src/utc.cpp:126-138 | 1970-01-01 is day number 0 |
| Calendar.EpochDate | src/utc.cpp:126-138 | day number 0 is 1970-01-01 |
| Calendar.NewYearStep | src/utc.cpp:264-267 | consecutive January firsts are 366 days apart in a Gregorian leap year and 365 otherwise |
| Calendar.DayOfYear | src/utc.cpp:102-111 | the day of the year of a real date lies in [1, 365] or [1, 366] in a leap year |
| Calendar.ElapsedDayOfYear | src/utc.cpp:104-109 | one plus the days elapsed since January 1 equals the day of the year given by the month table |
| Calendar.DayOfYearElapsed | src/utc.cpp:104-109 | for every real date, day number minus January 1's day number plus one is its day of the year |
| Calendar.YearWindow | src/utc.cpp:104-109 | a real date's day number lies between its year's January 1 and the next year's |
| Calendar.MonthOfDayOfYear | src/utc.cpp:115-121 | the month found for a day of the year is the one whose days contain it |
| Calendar.DateOfDayOfYear | src/utc.cpp:113-124 | for a day of the year within the year's length, a real date in that year with that day of the year |
| Calendar.DateOfDayOfYearOfDate | src/utc.cpp:113-124 | the date of a real date's own day of the year is that date |
| Calendar.DateOfDayOfYearElapsed | src/utc.cpp:115-117 | January 1 plus doy - 1 days, decoded by civil_from_days, is the date with day of the year doy |
| Calendar.NewYearsDay | src/utc.cpp:102-111 | January 1 is day 1 of every year |
| Calendar.NewYearsEve | src/utc.cpp:102-111 | December 31 is day 365, or 366 in a leap year |
| Stamp.DefaultState | src/utc.cpp:126-138 | the default fields 1970-01-01T00:00:00.000000 (day 1) are valid, are not in a leap year and denote epoch 0 |
| Stamp.Split | src/utc.cpp:19-21 | the whole seconds and the microsecond sum back to the stamp, with the microsecond in [0, 999999] |
| Stamp.SplitTruncated | src/utc.cpp:19-21 | as written: the truncated seconds and the remainder sum back to the stamp, with a remainder in (-1000000, 1000000) |
| Stamp.SplitTruncatedNegativeFraction | src/utc.cpp:19-21 | half a second before the epoch, the truncating split gives microsecond -500000 where the floor split gives -1 s and 500000 |
| Stamp.SplitsAgree | src/utc.cpp:19-26 | the truncating and flooring splits agree exactly when the stamp is not negative or is a whole second; otherwise the truncating one has a negative microsecond |
| Stamp.SecondOfDaySplit | src/utc.cpp:35-38 | a second of the day splits into hour [0,23], minute [0,59] and second [0,59] that sum back to it |
| Stamp.SecondOfDayParts | src/utc.cpp:35-38 | an hour, minute and second in range are recovered from their second of the day |
| Stamp.DayOfStamp | src/utc.cpp:23-26 | flooring the whole seconds to days gives the same day, and the same time within it, as flooring the microsecond stamp |
| Stamp.FromParts | src/utc.cpp:26-41 | the fields of a day number, second of day and microsecond are valid and have exactly that day number, second of day and microsecond |
| Stamp.Decompose | src/utc.cpp:16-45 | setEpoch's fields are valid for every stamp; their day number is the stamp floored to days and their time of day is the remainder |
| Stamp.Compose | src/utc.cpp:235-238 | getEpoch's recomputation: day number times 86400 plus the time of day, in whole seconds, then the microsecond; Stamp.ComposeDecompose, Stamp.DecomposeCompose and Stamp.ComposeInjective state its properties |
| Stamp.ComposeDecompose | src/utc.cpp:231-242 | recomposing the fields of any stamp gives back the stamp |
| Stamp.DecomposeCompose | src/utc.cpp:16-45 | decomposing the stamp of valid fields gives back the fields |
| Stamp.ComposeInjective | src/utc.cpp:231-242 | two valid field sets have the same stamp if and only if they are equal |
| Stamp.DecomposeExample | testing/utc.cpp:62-71 | 1408117832.844 s is 2014-08-15T15:50:32.844000, day 227 |
| Stamp.ComposeExample | testing/utc.cpp:11-30 | 2012-05-07T15:13:58.000100 is day 128 and 1336403638.0001 s |
| Stamp.WithYear | src/utc.cpp:250-257 | accepts exactly the years in [-1000, 2999] that keep the date real; otherwise the year error first; on success only the year and the day of year change, and valid fields stay valid |
| Stamp.WithMonthAndDay | src/utc.cpp:270-284 | month outside [1,12] is the month error, then day outside [1,31] the day error; success exactly for a real date; month, day and the recomputed day of year change and nothing else |
| Stamp.WithDayOfYear | src/utc.cpp:302-319 | accepts exactly [1,366] in a leap year and [1,365] otherwise; on success the day of year is doy and only month and day change with it |
| Stamp.WithHour | src/utc.cpp:327-334 | accepts exactly [0,23]; on success only the hour changes |
| Stamp.WithMinute | src/utc.cpp:342-349 | accepts exactly [0,59]; on success only the minute changes |
| Stamp.WithSecond | src/utc.cpp:357-364 | accepts exactly [0,59]; on success only the second changes |
| Stamp.WithMicroSecond | src/utc.cpp:372-379 | accepts exactly [0,999999]; on success only the microsecond changes |
| Stamp.DayOfYearThenMonthAndDay | include/time/utc.hpp:78-84 | setDayOfYear moves month and day so that setting them back reproduces the result, and setting the current day of year changes nothing |
| Stamp.MonthAndDayThenDayOfYear | include/time/utc.hpp:63-69 | setMonthAndDay changes the day of year to that of the new date, and setDayOfYear with it gives the same fields |
| Stamp.DayOfYearExample | testing/utc.cpp:43-46 | 2012 has 366 days and its day 366 is December 31 |
| Stamp.LeapDayNeedsLeapYear | src/utc.cpp:47-55 | from February 29, setting a year in range succeeds exactly when that year is a leap year |
| Stamp.DateAfterMonthUpdate | src/utc.cpp:56-62 | the date updateMonth checks, the new month with the old day, is a real date exactly when the old day fits in the new month |
| Stamp.MonthUpdateChecksStaleDay | src/utc.cpp:56-64 | from the 31st, moving to day 30 of a 30-day month is a valid request whose intermediate date is not a real date |
| Stamp.DateAfterYearUpdate | src/utc.cpp:47-53 | the date updateYear checks on setEpoch's way, the new year with the old month and day, is a real date unless the old date is February 29 and the new year is not a leap year |
| Stamp.YearUpdateChecksStaleDate | src/utc.cpp:47-55 | from February 29, setting any stamp in a non-leap year is valid but its intermediate date is not a real date |
| Stamp.EpochMonthUpdateChecksStaleDay | src/utc.cpp:31-33 | from the 31st, setting any stamp in a 30-day month is valid and passes the year step, but the date the month step checks is not a real date |
| StampText.Pad | src/utc.cpp:455 | `%0<width>d` output has exactly width characters, all digits |
| StampText.DigitsValue | src/utc.cpp:165-167 | the value read from n digits is below 10^n |
| StampText.DigitsValuePad | src/utc.cpp:165-167 | reading a zero-padded number back gives the number whenever it fits the width |
| StampText.FormatYear | src/utc.cpp:455-456 | `%04d` of a year in [-999, 9999] takes four characters |
| StampText.Format | src/utc.cpp:450-460 | the text of valid fields has 26 characters with the separators `-`, `-`, `T`, `:`, `:`, `.` in place |
| StampText.Scan | src/utc.cpp:163-180 | a text is read exactly when it has one of the two layouts; a length other than 19 or 26 is the length error; the short form reads microsecond 0 |
| StampText.ApplySetters | src/utc.cpp:181-188 | the string constructor's setter calls, first failure winning; a success has the year in [-1000, 2999], a real date, and exactly the given year, month, day, time and microsecond with the day of year of that date, whatever the starting fields |
| StampText.Parse | src/utc.cpp:153-189 | text the string constructor accepts is in one of the two layouts and yields valid fields with a year in [-1000, 2999] whose year, month, day, hour, minute and second are the values of its digit groups, and whose microsecond is that of the fraction or 0 in the short form |
| StampText.ParseNeedsLayout | src/utc.cpp:163-180 | only text in one of the two layouts is accepted, and any length other than 19 or 26 is the length error |
| StampText.SettersReach | src/utc.cpp:181-188 | from any January 1 state, the setter calls given the values of valid fields with a year in range produce exactly those fields |
| StampText.JoinPieces | src/utc.cpp:455 | each piece of the joined text sits at its fixed offset |
| StampText.FormatPieces | src/utc.cpp:450-460 | each field's zero-padded digits sit at its offset in the printed text |
| StampText.ScanPieces | src/utc.cpp:163-174 | a 26-character text in the layout reads the values of its digit groups, and its first 19 characters read the same values with microsecond 0 |
| StampText.ScanFormat | src/utc.cpp:450-460 | scanning the printed text of valid fields reads back every field, and the short form every field but the microsecond |
| StampText.PadDigitsValue | src/utc.cpp:165-167 | printing the value of a digit string zero-padded to its length gives back the string |
| StampText.ParsedPieces | src/utc.cpp:153-189 | the digit groups of an accepted text are the zero-padded digits of the fields it yields |
| StampText.FormatOfPieces | src/utc.cpp:450-460 | a 26-character text in the layout whose digit groups are the fields' padded digits is exactly the printed text |
| StampText.FormatPrefixOfPieces | src/utc.cpp:450-460 | a 19-character text in the layout whose digit groups are the fields' padded digits is exactly the first 19 printed characters |
| StampText.FormatParse | src/utc.cpp:153-189 | parsing then printing gives back the text: an accepted 26-character text is the printed form of its fields, and an accepted 19-character one is its first 19 characters |
| StampText.ParseFormat | src/utc.cpp:153-189 | printing then parsing valid fields with a year in [0, 2999] gives back the same fields; the 19-character prefix gives them with microsecond 0 |
| Utc.UTC.constructor | src/utc.cpp:126-145 | a new object holds 1970-01-01T00:00:00.000000, day 1, with the cache current at epoch 0 |
| Utc.UTC.FromEpoch | src/utc.cpp:147-151 | a new object holds the fields of the stamp, with the stamp cached; it is valid and its cache coherent |
| Utc.UTC.Copy | src/utc.cpp:194-197 | a new object with the complete state of the original, cache included |
| Utc.UTC.Assign | src/utc.cpp:206-211 | copy assignment takes the other object's complete state; self-assignment changes nothing |
| Utc.UTC.Clear | src/utc.cpp:225-228 | the object is back to the default state, with the cache current at epoch 0 |
| Utc.UTC.SetEpoch | src/utc.cpp:244-247 | the fields become the decomposition of the stamp, the stamp is cached and the flag set; valid and coherent afterwards |
| Utc.UTC.GetEpoch | src/utc.cpp:231-242 | returns the cached epoch when the flag is set, else recomputes, caches and flags it; the calendar fields do not change; with a coherent cache the result is the fields' epoch |
| Utc.UTC.CurrentEpoch | src/utc.cpp:231-242 | the value getEpoch returns: the cached epoch when the flag is set, else the fields' epoch; Utc.UTC.GetEpoch returns it and Utc.EqualIffSameEpoch relates it to field equality |
| Utc.UTC.UpdateDayOfYear | src/utc.cpp:102-111 | the day of year becomes that of the current date; only it and the flag change |
| Utc.UTC.SetYear | src/utc.cpp:250-257 | on success the fields become WithYear's and the cache is stale; on an error the object is unchanged |
| Utc.UTC.IsLeap | src/utc.cpp:264-267 | true exactly when 366 days lie between January 1 of the current year and January 1 of the next |
| Utc.UTC.SetMonthAndDay | src/utc.cpp:270-284 | on success the fields become WithMonthAndDay's and the cache is stale; on an error the object is unchanged |
| Utc.UTC.SetDayOfYear | src/utc.cpp:302-319 | on success the fields become WithDayOfYear's, computed as January 1 plus doy - 1 days; the cache is stale; on an error the object is unchanged |
| Utc.UTC.SetHour | src/utc.cpp:327-334 | on success only the hour changes and the cache is stale; on an error the object is unchanged |
| Utc.UTC.SetMinute | src/utc.cpp:342-349 | on success only the minute changes and the cache is stale; on an error the object is unchanged |
| Utc.UTC.SetSecond | src/utc.cpp:357-364 | on success only the second changes and the cache is stale; on an error the object is unchanged |
| Utc.UTC.SetMicroSecond | src/utc.cpp:96-100 | on success only the microsecond changes and the cache is stale; on an error the object is unchanged |
| Utc.UTC.SetMicroSecondAsWritten | src/utc.cpp:372-379 | as written: the microsecond changes but flag and cached epoch stay, so a cached epoch and a changed microsecond leave the cache incoherent |
| Utc.UTC.RunSetters | src/utc.cpp:181-188 | the six setter calls on the object, setMicroSecond as written last, reach ApplySetters' result with a stale cache, or stop with its error |
| Utc.UTC.ToText | src/utc.cpp:450-460 | the printed text has 26 characters and, for a year in [0, 2999], parses back to the same fields |
| Utc.FromText | src/utc.cpp:153-189 | succeeds exactly when Parse does, with a fresh valid, coherent object holding Parse's fields; otherwise Parse's error |
| Utc.Swap | src/utc.cpp:387-390 | each object ends with the complete state the other had |
| Utc.AddOffset | src/utc.cpp:398-403 | a fresh valid, coherent object whose cached epoch is x's epoch plus the offset; x keeps its fields and epoch |
| Utc.SubtractOffset | src/utc.cpp:411-416 | a fresh valid, coherent object whose cached epoch is x's epoch minus the offset; x keeps its fields and epoch |
| Utc.Add | src/utc.cpp:393-396 | a fresh valid, coherent object at the sum of the two epochs; neither operand's fields change |
| Utc.Subtract | src/utc.cpp:406-409 | a fresh valid, coherent object at the difference of the two epochs; neither operand's fields change |
| Utc.Equal | src/utc.cpp:419-429 | true exactly when all eight calendar fields agree, whatever the caches hold |
| Utc.NotEqual | src/utc.cpp:432-435 | true exactly when some calendar field differs |
| Utc.Less | src/utc.cpp:444-447 | true exactly when lhs's epoch is below rhs's; neither object's fields change |
| Utc.Greater | src/utc.cpp:438-441 | true exactly when lhs's epoch is above rhs's; neither object's fields change |
| Utc.FieldsOfCachedEpoch | src/utc.cpp:231-242 | a valid object with a current cache holds exactly the decomposition of its cached epoch |
| Utc.EqualIffSameEpoch | src/utc.cpp:419-447 | for valid objects with coherent caches, `==` holds exactly when the epochs are equal, so exactly one of `<`, `==`, `>` holds |
| Version.GetMajor | src/version.cpp:6-9 | the configured major number |
| Version.GetMinor | src/version.cpp:11-14 | the configured minor number |
| Version.GetPatch | src/version.cpp:16-19 | the configured patch number |
| Version.IsAtLeast | src/version.cpp:21-30 | true exactly when the configured release is lexicographically at least (major, minor, patch) |
| Version.AtLeastItself | src/version.cpp:21-30 | the configured release is at least itself |
| Version.MajorDecides | src/version.cpp:24-25 | a larger configured major gives true and a smaller one false, whatever minor and patch are |
| Version.NotOlderIsTotalOrder | src/version.cpp:21-30 | the lexicographic order is reflexive, antisymmetric, transitive and total |
| Version.IsAtLeastMonotone | src/version.cpp:21-30 | if the configured release is at least a, it is at least every b not newer than a |

## Left out

- Floating point: stamps and offsets are integer microseconds. `lround` of the fraction (src/utc.cpp:21) is exact here, and a fraction rounding up to 1000000 cannot occur.
- Fixed-width integers: stamps, years and the other fields are unbounded `int`s. The model does not capture the `int64_t` casts at src/utc.cpp:19 and 237 (undefined for a double out of range), the `int` casts of year, month and day at src/utc.cpp:28-30, or the `int` fields and `date::year` construction at src/utc.cpp:49. `Stamp.Valid` does not bound the year, so `Stamp.Decompose` gives a year for every stamp, also where the original's integers would overflow; only `setYear` bounds the year, to [-1000, 2999].
- The `date` and `std::chrono` library is replaced by the integer calendar algorithms. `mYMD`, `mStartOfYear` and `mHMS` are always derived from the stored fields, so they are not separate fields.
- The NDEBUG behaviour of the debug assertions (src/utc.cpp:52, 61, 70, 106, 118) is not modelled. It depends on unseen library code. The model rejects the date instead (see Findings for the intermediate dates).
- `sscanf` leniency (signs, spaces, partial conversions leaving uninitialised numbers) is left out. Only the all-digit layout with its separators is accepted, and anything else of length 19 or 26 is the error `Malformed`.
- StampText.Format: requires a year in [-999, 9999]. Longer years overflow the 27-byte buffer at src/utc.cpp:453-455, and the year -1000 that setYear accepts is one of them.
- StampText.ParseFormat: covers years in [0, 2999]. Negative years print with a minus sign, which the digit-only scan does not read.
- Move construction and move assignment (src/utc.cpp:200-203, 214-219) are left out: the moved-from object with no state is outside the model. `swap` is modelled as the exchange of the two complete states, not of pointers.
- Version.GetMajor: the configured numbers come from a generated header that is not part of this model, so the release is a parameter. `getVersion`'s string is left out for the same reason.
- Utc.UTC.constructor: it does not state `Valid()`; Stamp.DefaultState states that the default fields are valid, are not in a leap year, and have epoch 0.
- Utc.UTC.Clear: the same as the constructor; see Stamp.DefaultState.
- I/O: `operator<<` is modelled as the text it writes, not the stream.
- The Python bindings are left out.

## Findings

| source | as written | input that shows it | evidently intended | confidence | as-written member | corrected member |
|---|---|---|---|---|---|---|
| src/utc.cpp:19-21 | the whole seconds are the stamp truncated toward zero, and the fraction keeps the stamp's sign | setEpoch(-0.5): second 0 of day 0 with microsecond -500000, outside [0, 999999] | floor to whole seconds so that the microsecond is in [0, 999999] (1969-12-31T23:59:59.500000) | not executed | Stamp.SplitTruncatedNegativeFraction | Stamp.Decompose |
| src/utc.cpp:282-283 | setMonthAndDay updates the month first and checks the date with the old day (src/utc.cpp:59-61) | from 2012-01-31, setMonthAndDay(4, 30): 2012-04-31 is checked on the way | check only the final date, 2012-04-30 | not executed | Stamp.MonthUpdateChecksStaleDay | Stamp.WithMonthAndDay |
| src/utc.cpp:31-33 | setEpoch updates the year first and checks the date with the old month and day (src/utc.cpp:50-52) | from 2012-02-29, setEpoch(0): 1970-02-29 is checked on the way | check only the final date, 1970-01-01 | not executed | Stamp.YearUpdateChecksStaleDate | Stamp.Decompose |
| src/utc.cpp:32 | setEpoch's month step checks the new year and month with the old day (src/utc.cpp:59-61) | from 2012-01-31, setEpoch to a stamp in April 2012: 2012-04-31 is checked on the way | check only the final date | not executed | Stamp.EpochMonthUpdateChecksStaleDay | Stamp.Decompose |
| src/utc.cpp:378 | setMicroSecond stores the microsecond but leaves the cache flag set | UTC t(0.0); t.setMicroSecond(5); then getEpoch returns 0 instead of 0.000005 | clear the flag as updateMicroSecond does (src/utc.cpp:96-100) | not executed | Utc.UTC.SetMicroSecondAsWritten | Utc.UTC.SetMicroSecond |
