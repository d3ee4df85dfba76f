/** The fixed-width text form of a UTC instant, YYYY-MM-DDTHH:MM:SS.ffffff
    (the extended complete date and time of ISO 8601:2004 section 4.3.2, with
    a six-digit fraction and no zone designator). The string constructor also
    accepts the 19-character form without the fraction. Only the all-digit
    layout is modelled. */
module StampText {
  import opened Calendar
  import opened Stamp

  function Pow10(n: nat): nat
  {
    if n == 0 then 1 else 10 * Pow10(n - 1)
  }

  predicate IsDigit(c: char)
  {
    '0' <= c <= '9'
  }

  predicate AllDigits(s: string)
  {
    forall i :: 0 <= i < |s| ==> IsDigit(s[i])
  }

  /** The lowest `width` decimal digits of n, zero-padded: what `%0<width>d`
      prints for a value that fits the width. */
  function Pad(n: nat, width: nat): (s: string)
    ensures |s| == width && AllDigits(s)
  {
    if width == 0 then "" else Pad(n / 10, width - 1) + [('0' as int + n % 10) as char]
  }

  /** The value of a string of decimal digits (most significant first). */
  function DigitsValue(s: string): (v: nat)
    requires AllDigits(s)
    ensures v < Pow10(|s|)
  {
    if s == [] then 0 else DigitsValue(s[..|s| - 1]) * 10 + (s[|s| - 1] as int - '0' as int)
  }

  /** Reading back a padded number gives the number, when it fits. */
  lemma {:induction false} DigitsValuePad(n: nat, width: nat)
    requires n < Pow10(width)
    ensures DigitsValue(Pad(n, width)) == n
  {
    if width > 0 {
      DigitsValuePad(n / 10, width - 1);
      var s := Pad(n, width);
      assert s[..|s| - 1] == Pad(n / 10, width - 1);
    }
  }

  // ---------------------------------------------------------------------
  // Output (operator<<)

  /** `%04d` of a year: four digits, or a minus sign and three digits. */
  function FormatYear(y: int): (s: string)
    requires -999 <= y <= 9999
    ensures |s| == 4
  {
    if y >= 0 then Pad(y, 4) else "-" + Pad(-y, 3)
  }

  /** The 26-character text of valid fields. A year outside [-999,9999] does
      not fit the four characters that the source's buffer allows. */
  function Format(f: Fields): (s: string)
    requires Valid(f) && -999 <= f.year <= 9999
    ensures |s| == 26
    ensures s[4] == '-' && s[7] == '-' && s[10] == 'T' && s[13] == ':' && s[16] == ':' && s[19] == '.'
  {
    FormatYear(f.year) + "-" + Pad(f.month, 2) + "-" + Pad(f.dayOfMonth, 2)
      + "T" + Pad(f.hour, 2) + ":" + Pad(f.minute, 2) + ":" + Pad(f.second, 2)
      + "." + Pad(f.microSecond, 6)
  }

  // ---------------------------------------------------------------------
  // Input (the string constructor)

  /** The numbers read from the text, before any range check. */
  datatype Scanned = Scanned(
    year: int, month: int, day: int, hour: int, minute: int, second: int, microSecond: int)

  /** Digits and separators where either accepted form has them. */
  predicate Layout(s: string)
  {
    && (|s| == 19 || |s| == 26)
    && AllDigits(s[0..4]) && s[4] == '-' && AllDigits(s[5..7]) && s[7] == '-' && AllDigits(s[8..10])
    && s[10] == 'T' && AllDigits(s[11..13]) && s[13] == ':' && AllDigits(s[14..16])
    && s[16] == ':' && AllDigits(s[17..19])
    && (|s| == 26 ==> s[19] == '.' && AllDigits(s[20..26]))
  }

  /** Reads the seven numbers of a 26-character text, or six and a zero
      microsecond from a 19-character one; any other length is an error. */
  function Scan(s: string): (r: Result<Scanned>)
    ensures r.Success? <==> Layout(s)
    ensures |s| != 19 && |s| != 26 ==> r == Failure(BadLength(|s|))
    ensures r.Success? ==> 0 <= r.value.year <= 9999 && 0 <= r.value.microSecond <= 999999
    ensures r.Success? && |s| == 19 ==> r.value.microSecond == 0
  {
    if |s| != 26 && |s| != 19 then Failure(BadLength(|s|))
    else if !Layout(s) then Failure(Malformed)
    else
      Success(Scanned(
        DigitsValue(s[0..4]), DigitsValue(s[5..7]), DigitsValue(s[8..10]),
        DigitsValue(s[11..13]), DigitsValue(s[14..16]), DigitsValue(s[17..19]),
        if |s| == 26 then DigitsValue(s[20..26]) else 0))
  }

  /** The setter calls of the string constructor on its temporary, in
      their order (src/utc.cpp:181-188): the first that fails is the error
      and the later ones are not made. */
  function ApplySetters(f: Fields, v: Scanned): (r: Result<Fields>)
    ensures r.Success? ==> Valid(r.value)
    ensures r.Success? ==> MinYear <= v.year <= MaxYear
    ensures r.Success? ==> ValidDate(Date(v.year, v.month, v.day)) && r.value == Fields(v.year, v.month, v.day, DayOfYear(Date(v.year, v.month, v.day)),
      v.hour, v.minute, v.second, v.microSecond)
  {
    var f1 :- WithYear(f, v.year);
    var f2 :- WithMonthAndDay(f1, v.month, v.day);
    var f3 :- WithHour(f2, v.hour);
    var f4 :- WithMinute(f3, v.minute);
    var f5 :- WithSecond(f4, v.second);
    WithMicroSecond(f5, v.microSecond)
  }

  /** The string constructor: scan the text, then apply the setters to a
      default value (the constructor's temporary). */
  function Parse(s: string): (r: Result<Fields>)
    ensures r.Success? ==> Valid(r.value) && MinYear <= r.value.year <= MaxYear
    ensures r.Success? ==>
      && Layout(s)
      && r.value.year == DigitsValue(s[0..4]) && r.value.month == DigitsValue(s[5..7])
      && r.value.dayOfMonth == DigitsValue(s[8..10]) && r.value.hour == DigitsValue(s[11..13])
      && r.value.minute == DigitsValue(s[14..16]) && r.value.second == DigitsValue(s[17..19])
      && r.value.microSecond == (if |s| == 26 then DigitsValue(s[20..26]) else 0)
  {
    var v :- Scan(s);
    ApplySetters(Default, v)
  }

  /** Only text in one of the two layouts is parsed, and a length other
      than 19 or 26 is the length error. */
  lemma ParseNeedsLayout(s: string)
    ensures Parse(s).Success? ==> Layout(s)
    ensures |s| != 19 && |s| != 26 ==> Parse(s) == Failure(BadLength(|s|))
  {
  }

  /** Starting from January 1, the setters reach exactly the valid fields
      whose values they are given. */
  lemma SettersReach(start: Fields, f: Fields)
    requires start.month == 1 && start.dayOfMonth == 1
    requires Valid(f) && MinYear <= f.year <= MaxYear
    ensures ApplySetters(start, Scanned(f.year, f.month, f.dayOfMonth, f.hour, f.minute, f.second, f.microSecond)) == Success(f)
  {
    NewYearsDay(f.year);
    var f1 := start.(year := f.year, dayOfYear := 1);
    assert WithYear(start, f.year) == Success(f1);
    var f2 := f.(hour := start.hour, minute := start.minute, second := start.second, microSecond := start.microSecond);
    assert WithMonthAndDay(f1, f.month, f.dayOfMonth) == Success(f2);
  }

  // ---------------------------------------------------------------------
  // Round trip

  /** Where each piece sits in a text joined like the printed form. */
  lemma JoinPieces(y: string, mo: string, d: string, h: string, mi: string, sec: string, us: string)
    requires |y| == 4 && |mo| == 2 && |d| == 2 && |h| == 2 && |mi| == 2 && |sec| == 2 && |us| == 6
    ensures var t := y + "-" + mo + "-" + d + "T" + h + ":" + mi + ":" + sec + "." + us;
      t[0..4] == y && t[5..7] == mo && t[8..10] == d && t[11..13] == h
      && t[14..16] == mi && t[17..19] == sec && t[20..26] == us
  {
  }

  /** Each field's digits sit at their offset in the printed text. */
  lemma FormatPieces(f: Fields)
    requires Valid(f) && 0 <= f.year <= 9999
    ensures Format(f)[0..4] == Pad(f.year, 4)
    ensures Format(f)[5..7] == Pad(f.month, 2)
    ensures Format(f)[8..10] == Pad(f.dayOfMonth, 2)
    ensures Format(f)[11..13] == Pad(f.hour, 2)
    ensures Format(f)[14..16] == Pad(f.minute, 2)
    ensures Format(f)[17..19] == Pad(f.second, 2)
    ensures Format(f)[20..26] == Pad(f.microSecond, 6)
  {
    JoinPieces(Pad(f.year, 4), Pad(f.month, 2), Pad(f.dayOfMonth, 2), Pad(f.hour, 2),
      Pad(f.minute, 2), Pad(f.second, 2), Pad(f.microSecond, 6));
  }

  /** Scanning printed fields reads back every field. */
  lemma ScanFormat(f: Fields)
    requires Valid(f) && 0 <= f.year <= 9999
    ensures Scan(Format(f)) == Success(Scanned(f.year, f.month, f.dayOfMonth, f.hour, f.minute, f.second, f.microSecond))
    ensures Scan(Format(f)[..19]) == Success(Scanned(f.year, f.month, f.dayOfMonth, f.hour, f.minute, f.second, 0))
  {
    FormatPieces(f);
    assert Pow10(2) == 100 && Pow10(4) == 10000 && Pow10(6) == 1000000;
    DigitsValuePad(f.year, 4);
    DigitsValuePad(f.month, 2);
    DigitsValuePad(f.dayOfMonth, 2);
    DigitsValuePad(f.hour, 2);
    DigitsValuePad(f.minute, 2);
    DigitsValuePad(f.second, 2);
    DigitsValuePad(f.microSecond, 6);
    ScanPieces(Format(f), Scanned(f.year, f.month, f.dayOfMonth, f.hour, f.minute, f.second, f.microSecond));
  }

  /** A 26-character text in the layout scans to the values of its digit
      groups, and its first 19 characters to the same values without the
      microsecond. */
  lemma ScanPieces(s: string, v: Scanned)
    requires |s| == 26 && Layout(s)
    requires DigitsValue(s[0..4]) == v.year && DigitsValue(s[5..7]) == v.month
    requires DigitsValue(s[8..10]) == v.day && DigitsValue(s[11..13]) == v.hour
    requires DigitsValue(s[14..16]) == v.minute && DigitsValue(s[17..19]) == v.second
    requires DigitsValue(s[20..26]) == v.microSecond
    ensures Scan(s) == Success(v)
    ensures Scan(s[..19]) == Success(v.(microSecond := 0))
  {
    var t := s[..19];
    assert t[0..4] == s[0..4] && t[5..7] == s[5..7] && t[8..10] == s[8..10];
    assert t[11..13] == s[11..13] && t[14..16] == s[14..16] && t[17..19] == s[17..19];
  }

  /** Any valid fields with a year the setters accept and the text can hold
      are printed and parsed back unchanged; the short form loses only the
      microsecond. */
  lemma ParseFormat(f: Fields)
    requires Valid(f) && 0 <= f.year <= MaxYear
    ensures Parse(Format(f)) == Success(f)
    ensures Parse(Format(f)[..19]) == Success(f.(microSecond := 0))
  {
    ScanFormat(f);
    SettersReach(Default, f);
    SettersReach(Default, f.(microSecond := 0));
  }

  /** Padding the value of a digit string to its own length gives back the
      string. */
  lemma {:induction false} PadDigitsValue(s: string)
    requires AllDigits(s)
    ensures Pad(DigitsValue(s), |s|) == s
  {
    if s != [] {
      var init := s[..|s| - 1];
      PadDigitsValue(init);
      assert s == init + [s[|s| - 1]];
    }
  }

  /** Printed fields equal a text in the layout whose digit groups are the
      fields' zero-padded digits. */
  lemma FormatOfPieces(f: Fields, s: string)
    requires Valid(f) && 0 <= f.year <= 9999
    requires |s| == 26 && Layout(s)
    requires s[0..4] == Pad(f.year, 4) && s[5..7] == Pad(f.month, 2) && s[8..10] == Pad(f.dayOfMonth, 2)
    requires s[11..13] == Pad(f.hour, 2) && s[14..16] == Pad(f.minute, 2) && s[17..19] == Pad(f.second, 2)
    requires s[20..26] == Pad(f.microSecond, 6)
    ensures Format(f) == s
  {
    var t := Format(f);
    FormatPieces(f);
    forall i | 0 <= i < 26
      ensures t[i] == s[i]
    {
      if i < 4 { assert t[i] == t[0..4][i]; assert s[i] == s[0..4][i]; }
      else if 4 < i < 7 { assert t[i] == t[5..7][i - 5]; assert s[i] == s[5..7][i - 5]; }
      else if 7 < i < 10 { assert t[i] == t[8..10][i - 8]; assert s[i] == s[8..10][i - 8]; }
      else if 10 < i < 13 { assert t[i] == t[11..13][i - 11]; assert s[i] == s[11..13][i - 11]; }
      else if 13 < i < 16 { assert t[i] == t[14..16][i - 14]; assert s[i] == s[14..16][i - 14]; }
      else if 16 < i < 19 { assert t[i] == t[17..19][i - 17]; assert s[i] == s[17..19][i - 17]; }
      else if 19 < i { assert t[i] == t[20..26][i - 20]; assert s[i] == s[20..26][i - 20]; }
    }
  }

  /** The first 19 printed characters of fields equal a short text in the layout whose digit groups are the fields' digits. */
  lemma FormatPrefixOfPieces(f: Fields, s: string)
    requires Valid(f) && 0 <= f.year <= 9999
    requires |s| == 19 && Layout(s)
    requires s[0..4] == Pad(f.year, 4) && s[5..7] == Pad(f.month, 2) && s[8..10] == Pad(f.dayOfMonth, 2)
    requires s[11..13] == Pad(f.hour, 2) && s[14..16] == Pad(f.minute, 2) && s[17..19] == Pad(f.second, 2)
    ensures Format(f)[..19] == s
  {
    var t := Format(f);
    FormatPieces(f);
    forall i | 0 <= i < 19
      ensures t[i] == s[i]
    {
      if i < 4 { assert t[i] == t[0..4][i]; assert s[i] == s[0..4][i]; }
      else if 4 < i < 7 { assert t[i] == t[5..7][i - 5]; assert s[i] == s[5..7][i - 5]; }
      else if 7 < i < 10 { assert t[i] == t[8..10][i - 8]; assert s[i] == s[8..10][i - 8]; }
      else if 10 < i < 13 { assert t[i] == t[11..13][i - 11]; assert s[i] == s[11..13][i - 11]; }
      else if 13 < i < 16 { assert t[i] == t[14..16][i - 14]; assert s[i] == s[14..16][i - 14]; }
      else if 16 < i { assert t[i] == t[17..19][i - 17]; assert s[i] == s[17..19][i - 17]; }
    }
  }

  /** The digit groups of a text that parses are the zero-padded fields it
      parses to. */
  lemma ParsedPieces(s: string, f: Fields)
    requires Parse(s) == Success(f)
    ensures Valid(f) && 0 <= f.year <= 9999 && Layout(s)
    ensures s[0..4] == Pad(f.year, 4) && s[5..7] == Pad(f.month, 2) && s[8..10] == Pad(f.dayOfMonth, 2)
    ensures s[11..13] == Pad(f.hour, 2) && s[14..16] == Pad(f.minute, 2) && s[17..19] == Pad(f.second, 2)
    ensures |s| == 26 ==> s[20..26] == Pad(f.microSecond, 6)
    ensures |s| == 19 ==> f.microSecond == 0
  {
    PadDigitsValue(s[0..4]);
    PadDigitsValue(s[5..7]);
    PadDigitsValue(s[8..10]);
    PadDigitsValue(s[11..13]);
    PadDigitsValue(s[14..16]);
    PadDigitsValue(s[17..19]);
    if |s| == 26 {
      PadDigitsValue(s[20..26]);
    }
  }

  /** Any text that parses is what the fields it parses to print as: all
      26 characters of the long form, and the first 19 of the short form. */
  lemma FormatParse(s: string, f: Fields)
    requires Parse(s) == Success(f)
    ensures |s| == 26 ==> Format(f) == s
    ensures |s| == 19 ==> Format(f)[..19] == s
  {
    ParsedPieces(s, f);
    if |s| == 26 {
      FormatOfPieces(f, s);
    } else if |s| == 19 {
      FormatPrefixOfPieces(f, s);
    }
  }
}
