/** The UTC object: calendar fields that the setters update in place, and
    an epoch cache with a flag saying whether the cached value is current.
    Epochs are whole microseconds since 1970-01-01T00:00:00. */
module Utc {
  import opened Calendar
  import opened Stamp
  import StampText

  /** What a checked setter reports: done, or the error it would throw
      before changing anything. */
  datatype Status = Ok | Failed(error: Error)

  class UTC {
    var year: int
    var month: int
    var dayOfMonth: int
    var dayOfYear: int
    var hour: int
    var minute: int
    var second: int
    var microSecond: int
    /** The cached epoch, meaningful only while haveEpoch is set. */
    var epoch: int
    var haveEpoch: bool

    /** The calendar fields as one value. */
    function AsFields(): Fields
      reads this
    {
      Fields(year, month, dayOfMonth, dayOfYear, hour, minute, second, microSecond)
    }

    /** The whole state, cache included: what copy and swap carry over. */
    function Snapshot(): (Fields, int, bool)
      reads this
    {
      (AsFields(), epoch, haveEpoch)
    }

    /** A real date, a day of year that agrees with it and a time of day
      within range; every operation keeps it. */
    predicate Valid()
      reads this
    {
      Stamp.Valid(AsFields())
    }

    /** A set flag means the cached epoch is the one the fields denote. */
    predicate CacheCoherent()
      reads this
    {
      haveEpoch ==> 1 <= month <= 12 && epoch == Compose(AsFields())
    }

    /** The epoch getEpoch returns: the cached one when the flag is set,
        otherwise the one recomputed from the fields. */
    function CurrentEpoch(): int
      reads this
      requires Valid()
    {
      if haveEpoch then epoch else Compose(AsFields())
    }

    /** A fresh object: 1970-01-01T00:00:00.000000, day of year 1, the
        cache current at epoch 0. */
    constructor()
      ensures AsFields() == Default && haveEpoch && epoch == 0
    {
      year, month, dayOfMonth, dayOfYear := 1970, 1, 1, 1;
      hour, minute, second, microSecond := 0, 0, 0, 0;
      epoch, haveEpoch := 0, true;
    }

    /** A default object set to the epoch t. */
    constructor FromEpoch(t: int)
      ensures AsFields() == Decompose(t) && haveEpoch && epoch == t
      ensures Valid() && CacheCoherent()
    {
      year, month, dayOfMonth, dayOfYear := 1970, 1, 1, 1;
      hour, minute, second, microSecond := 0, 0, 0, 0;
      epoch, haveEpoch := 0, true;
      new;
      SetEpoch(t);
    }

    /** A deep copy: the same state, in an object of its own. */
    constructor Copy(other: UTC)
      ensures Snapshot() == other.Snapshot()
    {
      year, month, dayOfMonth, dayOfYear := other.year, other.month, other.dayOfMonth, other.dayOfYear;
      hour, minute, second, microSecond := other.hour, other.minute, other.second, other.microSecond;
      epoch, haveEpoch := other.epoch, other.haveEpoch;
    }

    /** Copy assignment; assigning an object to itself changes nothing. */
    method Assign(other: UTC)
      modifies this
      ensures Snapshot() == old(other.Snapshot())
    {
      if other == this {
        return;
      }
      year, month, dayOfMonth, dayOfYear := other.year, other.month, other.dayOfMonth, other.dayOfYear;
      hour, minute, second, microSecond := other.hour, other.minute, other.second, other.microSecond;
      epoch, haveEpoch := other.epoch, other.haveEpoch;
    }

    /** Back to the state of a fresh object. */
    method Clear()
      modifies this
      ensures AsFields() == Default && haveEpoch && epoch == 0
    {
      year, month, dayOfMonth, dayOfYear := 1970, 1, 1, 1;
      hour, minute, second, microSecond := 0, 0, 0, 0;
      epoch, haveEpoch := 0, true;
    }

    /** setEpoch: the fields of the stamp, and the stamp itself cached. */
    method SetEpoch(t: int)
      modifies this
      ensures AsFields() == Decompose(t) && haveEpoch && epoch == t
      ensures Valid() && CacheCoherent()
    {
      var f := Decompose(t);
      microSecond := f.microSecond;
      year, month, dayOfMonth := f.year, f.month, f.dayOfMonth;
      UpdateDayOfYear();
      hour, minute, second := f.hour, f.minute, f.second;
      epoch, haveEpoch := t, true;
      ComposeDecompose(t);
    }

    /** getEpoch: recompute the stamp from the fields when the cache is
        stale, and cache it; the calendar fields stay as they are. */
    method GetEpoch() returns (t: int)
      requires Valid()
      modifies this
      ensures t == old(CurrentEpoch())
      ensures AsFields() == old(AsFields()) && haveEpoch && epoch == t
      ensures old(CacheCoherent()) ==> t == Compose(AsFields()) && CacheCoherent()
    {
      if !haveEpoch {
        epoch := Compose(AsFields());
        haveEpoch := true;
      }
      t := epoch;
    }

    /** updateDayOfYear: one plus the days from January 1 of the year to
        the date. */
    method UpdateDayOfYear()
      requires ValidDate(Date(year, month, dayOfMonth))
      modifies this
      ensures AsFields() == old(AsFields()).(dayOfYear := old(DayOfYear(Date(year, month, dayOfMonth))))
      ensures !haveEpoch && epoch == old(epoch)
    {
      dayOfYear := ElapsedDayOfYear(Date(year, month, dayOfMonth));
      haveEpoch := false;
    }

    /** setYear: the year must be in [MinYear, MaxYear] and keep the date a
        real one; the day of year is recomputed. */
    method SetYear(y: int) returns (status: Status)
      modifies this
      ensures var r := WithYear(old(AsFields()), y);
        if r.Success? then status == Ok && AsFields() == r.value && !haveEpoch && epoch == old(epoch)
        else status == Failed(r.error) && unchanged(this)
    {
      if y < MinYear || MaxYear < y {
        return Failed(YearOutOfRange);
      }
      if !ValidDate(Date(y, month, dayOfMonth)) {
        return Failed(InvalidDate);
      }
      year := y;
      UpdateDayOfYear();
      status := Ok;
    }

    /** isLeapYear: the current year has 366 days, counted from its
        January 1 to the next. */
    function IsLeap(): (leap: bool)
      reads this
      ensures leap <==> NewYear(year + 1) - NewYear(year) == 366
    {
      NewYearStep(year);
      IsLeapYear(year)
    }

    /** setMonthAndDay: the month must be in [1,12] and the day in [1,31],
        and together with the year they must make a real date; the day of
        year is recomputed. */
    method SetMonthAndDay(m: int, d: int) returns (status: Status)
      modifies this
      ensures var r := WithMonthAndDay(old(AsFields()), m, d);
        if r.Success? then status == Ok && AsFields() == r.value && !haveEpoch && epoch == old(epoch)
        else status == Failed(r.error) && unchanged(this)
    {
      if m < 1 || 12 < m {
        return Failed(MonthOutOfRange);
      }
      if d < 1 || 31 < d {
        return Failed(DayOfMonthOutOfRange);
      }
      if !ValidDate(Date(year, m, d)) {
        return Failed(InvalidDate);
      }
      month, dayOfMonth := m, d;
      UpdateDayOfYear();
      status := Ok;
    }

    /** setDayOfYear: the day must be in [1,366] in a leap year and in
        [1,365] otherwise; month and day become those of January 1 plus
        doy - 1 days. */
    method SetDayOfYear(doy: int) returns (status: Status)
      modifies this
      ensures var r := WithDayOfYear(old(AsFields()), doy);
        if r.Success? then status == Ok && AsFields() == r.value && !haveEpoch && epoch == old(epoch)
        else status == Failed(r.error) && unchanged(this)
    {
      var last := if IsLeap() then 366 else 365;
      if doy < 1 || last < doy {
        return Failed(DayOfYearOutOfRange);
      }
      DateOfDayOfYearElapsed(year, doy);
      var date := CivilFromDays(NewYear(year) + doy - 1);
      month, dayOfMonth, dayOfYear := date.month, date.day, doy;
      haveEpoch := false;
      status := Ok;
    }

    method SetHour(h: int) returns (status: Status)
      modifies this
      ensures var r := WithHour(old(AsFields()), h);
        if r.Success? then status == Ok && AsFields() == r.value && !haveEpoch && epoch == old(epoch)
        else status == Failed(r.error) && unchanged(this)
    {
      if h < 0 || 23 < h {
        return Failed(HourOutOfRange);
      }
      hour, haveEpoch := h, false;
      status := Ok;
    }

    method SetMinute(m: int) returns (status: Status)
      modifies this
      ensures var r := WithMinute(old(AsFields()), m);
        if r.Success? then status == Ok && AsFields() == r.value && !haveEpoch && epoch == old(epoch)
        else status == Failed(r.error) && unchanged(this)
    {
      if m < 0 || 59 < m {
        return Failed(MinuteOutOfRange);
      }
      minute, haveEpoch := m, false;
      status := Ok;
    }

    method SetSecond(s: int) returns (status: Status)
      modifies this
      ensures var r := WithSecond(old(AsFields()), s);
        if r.Success? then status == Ok && AsFields() == r.value && !haveEpoch && epoch == old(epoch)
        else status == Failed(r.error) && unchanged(this)
    {
      if s < 0 || 59 < s {
        return Failed(SecondOutOfRange);
      }
      second, haveEpoch := s, false;
      status := Ok;
    }

    /** setMicroSecond as it is meant to work, through updateMicroSecond:
        the new microsecond and a stale cache. */
    method SetMicroSecond(us: int) returns (status: Status)
      modifies this
      ensures var r := WithMicroSecond(old(AsFields()), us);
        if r.Success? then status == Ok && AsFields() == r.value && !haveEpoch && epoch == old(epoch)
        else status == Failed(r.error) && unchanged(this)
    {
      if us < 0 || 999999 < us {
        return Failed(MicroSecondOutOfRange);
      }
      microSecond, haveEpoch := us, false;
      status := Ok;
    }

    /** setMicroSecond as src/utc.cpp:372-379 writes it: the microsecond is
        stored but the cache flag is left as it was, so a cached epoch
        survives a change of the microsecond. */
    method SetMicroSecondAsWritten(us: int) returns (status: Status)
      modifies this
      ensures var r := WithMicroSecond(old(AsFields()), us);
        if r.Success? then status == Ok && AsFields() == r.value && haveEpoch == old(haveEpoch) && epoch == old(epoch)
        else status == Failed(r.error) && unchanged(this)
      ensures old(CacheCoherent()) && old(haveEpoch) && status == Ok && us != old(microSecond)
        ==> !CacheCoherent()
    {
      if us < 0 || 999999 < us {
        return Failed(MicroSecondOutOfRange);
      }
      microSecond := us;
      status := Ok;
      if old(CacheCoherent()) && old(haveEpoch) && us != old(microSecond) {
        assert Compose(AsFields()) - Compose(old(AsFields())) == us - old(microSecond);
      }
    }

    /** The setter calls of the string constructor, in order, on this
        object; the first that fails ends the run with its error. The last
        call is setMicroSecond as written; its leaving the cache flag alone
        does no harm here, because the successful setSecond before it has
        already cleared the flag. */
    method RunSetters(v: StampText.Scanned) returns (status: Status)
      modifies this
      ensures var r := StampText.ApplySetters(old(AsFields()), v);
        if r.Success? then status == Ok && AsFields() == r.value && !haveEpoch
        else status == Failed(r.error)
    {
      status := SetYear(v.year);
      if status.Failed? {
        return;
      }
      status := SetMonthAndDay(v.month, v.day);
      if status.Failed? {
        return;
      }
      status := SetHour(v.hour);
      if status.Failed? {
        return;
      }
      status := SetMinute(v.minute);
      if status.Failed? {
        return;
      }
      status := SetSecond(v.second);
      if status.Failed? {
        return;
      }
      status := SetMicroSecondAsWritten(v.microSecond);
    }

    /** operator<<: the 26-character text of the fields, which parses back
        to the same fields. */
    function ToText(): (s: string)
      reads this
      requires Valid() && -999 <= year <= 9999
      ensures |s| == 26
      ensures 0 <= year <= MaxYear ==> StampText.Parse(s) == Success(AsFields())
    {
      if 0 <= year <= MaxYear then StampText.ParseFormat(AsFields()); StampText.Format(AsFields())
      else StampText.Format(AsFields())
    }
  }

  /** The string constructor: a fresh object holding what the setters make
      of the scanned numbers, or the first error. */
  method FromText(s: string) returns (r: Result<UTC>)
    ensures r.Success? <==> StampText.Parse(s).Success?
    ensures r.Success? ==> fresh(r.value) && r.value.AsFields() == StampText.Parse(s).value
    ensures r.Success? ==> r.value.Valid() && r.value.CacheCoherent()
    ensures r.Failure? ==> r.error == StampText.Parse(s).error
  {
    var v :- StampText.Scan(s);
    var temp := new UTC();
    var status := temp.RunSetters(v);
    if status.Failed? {
      return Failure(status.error);
    }
    return Success(temp);
  }

  /** swap: each object ends with the complete state the other had. */
  method Swap(lhs: UTC, rhs: UTC)
    modifies lhs, rhs
    ensures lhs.Snapshot() == old(rhs.Snapshot()) && rhs.Snapshot() == old(lhs.Snapshot())
  {
    var saved := new UTC.Copy(lhs);
    lhs.Assign(rhs);
    rhs.Assign(saved);
  }

  /** x + offset: a new object at x's epoch plus the offset; x keeps its
      fields, though its cache may be filled. */
  method AddOffset(x: UTC, offset: int) returns (sum: UTC)
    requires x.Valid()
    modifies x
    ensures fresh(sum) && sum.Valid() && sum.CacheCoherent()
    ensures sum.haveEpoch && sum.epoch == old(x.CurrentEpoch()) + offset
    ensures x.AsFields() == old(x.AsFields()) && x.CurrentEpoch() == old(x.CurrentEpoch())
  {
    var t := x.GetEpoch();
    sum := new UTC.FromEpoch(t + offset);
  }

  /** x - offset, the same way. */
  method SubtractOffset(x: UTC, offset: int) returns (difference: UTC)
    requires x.Valid()
    modifies x
    ensures fresh(difference) && difference.Valid() && difference.CacheCoherent()
    ensures difference.haveEpoch && difference.epoch == old(x.CurrentEpoch()) - offset
    ensures x.AsFields() == old(x.AsFields()) && x.CurrentEpoch() == old(x.CurrentEpoch())
  {
    var t := x.GetEpoch();
    difference := new UTC.FromEpoch(t - offset);
  }

  /** x + y: y's epoch taken as an offset. */
  method Add(x: UTC, y: UTC) returns (sum: UTC)
    requires x.Valid() && y.Valid()
    modifies x, y
    ensures fresh(sum) && sum.Valid() && sum.CacheCoherent()
    ensures sum.CurrentEpoch() == old(x.CurrentEpoch()) + old(y.CurrentEpoch())
    ensures x.AsFields() == old(x.AsFields()) && y.AsFields() == old(y.AsFields())
  {
    var offset := y.GetEpoch();
    sum := AddOffset(x, offset);
  }

  /** x - y: y's epoch taken as an offset. */
  method Subtract(x: UTC, y: UTC) returns (difference: UTC)
    requires x.Valid() && y.Valid()
    modifies x, y
    ensures fresh(difference) && difference.Valid() && difference.CacheCoherent()
    ensures difference.CurrentEpoch() == old(x.CurrentEpoch()) - old(y.CurrentEpoch())
    ensures x.AsFields() == old(x.AsFields()) && y.AsFields() == old(y.AsFields())
  {
    var offset := y.GetEpoch();
    difference := SubtractOffset(x, offset);
  }

  /** operator==: year, month, day of year, day of month, hour, minute,
      second and microsecond compared one after the other; the cache takes
      no part. */
  function Equal(lhs: UTC, rhs: UTC): (same: bool)
    reads lhs, rhs
    ensures same <==> lhs.AsFields() == rhs.AsFields()
  {
    if lhs.year != rhs.year then false
    else if lhs.month != rhs.month then false
    else if lhs.dayOfYear != rhs.dayOfYear then false
    else if lhs.dayOfMonth != rhs.dayOfMonth then false
    else if lhs.hour != rhs.hour then false
    else if lhs.minute != rhs.minute then false
    else if lhs.second != rhs.second then false
    else lhs.microSecond == rhs.microSecond
  }

  /** operator!=: some calendar field differs. */
  function NotEqual(lhs: UTC, rhs: UTC): (differ: bool)
    reads lhs, rhs
    ensures differ <==> lhs.AsFields() != rhs.AsFields()
  {
    !Equal(lhs, rhs)
  }

  /** operator<: lhs is earlier, by the epochs getEpoch returns. */
  method Less(lhs: UTC, rhs: UTC) returns (earlier: bool)
    requires lhs.Valid() && rhs.Valid()
    modifies lhs, rhs
    ensures earlier <==> old(lhs.CurrentEpoch()) < old(rhs.CurrentEpoch())
    ensures lhs.AsFields() == old(lhs.AsFields()) && rhs.AsFields() == old(rhs.AsFields())
  {
    var a := lhs.GetEpoch();
    var b := rhs.GetEpoch();
    earlier := a < b;
  }

  /** operator>: lhs is later, by the epochs getEpoch returns. */
  method Greater(lhs: UTC, rhs: UTC) returns (later: bool)
    requires lhs.Valid() && rhs.Valid()
    modifies lhs, rhs
    ensures later <==> old(lhs.CurrentEpoch()) > old(rhs.CurrentEpoch())
    ensures lhs.AsFields() == old(lhs.AsFields()) && rhs.AsFields() == old(rhs.AsFields())
  {
    var a := lhs.GetEpoch();
    var b := rhs.GetEpoch();
    later := a > b;
  }

  /** A current cache determines the fields: they are the decomposition of
      the cached epoch. */
  lemma FieldsOfCachedEpoch(u: UTC)
    requires u.Valid() && u.CacheCoherent() && u.haveEpoch
    ensures u.AsFields() == Decompose(u.epoch)
  {
    DecomposeCompose(u.AsFields());
  }

  /** For valid objects with current caches, equal fields and equal epochs
      are the same thing, so exactly one of <, == and > holds. */
  lemma EqualIffSameEpoch(a: UTC, b: UTC)
    requires a.Valid() && b.Valid() && a.CacheCoherent() && b.CacheCoherent()
    ensures Equal(a, b) <==> a.CurrentEpoch() == b.CurrentEpoch()
  {
    if a.CurrentEpoch() == b.CurrentEpoch() {
      ComposeInjective(a.AsFields(), b.AsFields());
    }
  }
}
