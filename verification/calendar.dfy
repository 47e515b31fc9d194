/** Calendar dates and minute-precision local date-times, in place of
    JavaScript `Date` objects, with the two text shapes the forms submit:
    `YYYY-MM-DD` (`<input type="date">`) and `YYYY-MM-DDTHH:MM`
    (`<input type="datetime-local">`). Comparisons are lexicographic, which
    for real calendar dates is chronological order. */
module Calendar {
  import opened Optional
  import opened Numerals

  datatype Date = Date(year: int, month: int, day: int)

  datatype DateTime = DateTime(date: Date, hour: int, minute: int)

  predicate IsLeapYear(y: int) {
    y % 4 == 0 && (y % 100 != 0 || y % 400 == 0)
  }

  function DaysInMonth(y: int, m: int): int {
    if m == 2 then (if IsLeapYear(y) then 29 else 28)
    else if m == 4 || m == 6 || m == 9 || m == 11 then 30
    else 31
  }

  /** A real calendar date with a four-digit year. */
  predicate ValidDate(d: Date) {
    0 <= d.year <= 9999 && 1 <= d.month <= 12 && 1 <= d.day <= DaysInMonth(d.year, d.month)
  }

  predicate ValidDateTime(t: DateTime) {
    ValidDate(t.date) && 0 <= t.hour <= 23 && 0 <= t.minute <= 59
  }

  /** `a` is an earlier day than `b`. */
  predicate Before(a: Date, b: Date) {
    || a.year < b.year
    || (a.year == b.year && a.month < b.month)
    || (a.year == b.year && a.month == b.month && a.day < b.day)
  }

  /** `a` is an earlier instant than `b`. */
  predicate TimeBefore(a: DateTime, b: DateTime) {
    || Before(a.date, b.date)
    || (a.date == b.date && a.hour < b.hour)
    || (a.date == b.date && a.hour == b.hour && a.minute < b.minute)
  }

  /** `new Date(null)` is the epoch, 1 January 1970. */
  const Epoch := Date(1970, 1, 1)

  function FormatDate(d: Date): string
    requires ValidDate(d)
  {
    Padded(d.year, 4) + "-" + Padded(d.month, 2) + "-" + Padded(d.day, 2)
  }

  function FormatLocal(t: DateTime): string
    requires ValidDateTime(t)
  {
    FormatDate(t.date) + "T" + Padded(t.hour, 2) + ":" + Padded(t.minute, 2)
  }

  /** The date a `YYYY-MM-DD` text denotes; nothing (an Invalid Date) for any
      other text. */
  function ParseDate(s: string): (r: Option<Date>)
    ensures r.Some? ==> ValidDate(r.value) && FormatDate(r.value) == s
  {
    if |s| == 10 && s[4] == '-' && s[7] == '-'
      && AllDigits(s[..4]) && AllDigits(s[5..7]) && AllDigits(s[8..])
    then
      var d := Date(Value(s[..4]), Value(s[5..7]), Value(s[8..]));
      if ValidDate(d) then
        ValuePadded(s[..4]);
        ValuePadded(s[5..7]);
        ValuePadded(s[8..]);
        assert s == s[..4] + "-" + s[5..7] + "-" + s[8..];
        Some(d)
      else None
    else None
  }

  /** The instant a `YYYY-MM-DDTHH:MM` text denotes; nothing for any other text. */
  function ParseDateTime(s: string): (r: Option<DateTime>)
    ensures r.Some? ==> ValidDateTime(r.value) && FormatLocal(r.value) == s
  {
    if |s| == 16 && s[10] == 'T' && s[13] == ':'
      && AllDigits(s[11..13]) && AllDigits(s[14..])
    then
      var d := ParseDate(s[..10]);
      var t := DateTime(d.GetOr(Epoch), Value(s[11..13]), Value(s[14..]));
      if d.Some? && ValidDateTime(t) then
        LocalTextParts(s, t);
        Some(t)
      else None
    else None
  }

  lemma LocalTextParts(s: string, t: DateTime)
    requires |s| == 16 && s[10] == 'T' && s[13] == ':'
    requires AllDigits(s[11..13]) && AllDigits(s[14..])
    requires ValidDateTime(t) && FormatDate(t.date) == s[..10]
    requires t.hour == Value(s[11..13]) && t.minute == Value(s[14..])
    ensures FormatLocal(t) == s
  {
    ValuePadded(s[11..13]);
    ValuePadded(s[14..]);
    assert s == s[..10] + "T" + s[11..13] + ":" + s[14..];
  }

  lemma FormatDateShape(d: Date)
    requires ValidDate(d)
    ensures var s := FormatDate(d);
      && |s| == 10 && s[4] == '-' && s[7] == '-'
      && s[..4] == Padded(d.year, 4) && s[5..7] == Padded(d.month, 2) && s[8..] == Padded(d.day, 2)
  {
  }

  /** Where the separators of a `YYYY-MM-DDTHH:MM` text are: its only 'T'
      is at index 10 and its only ':' at index 13. */
  lemma FormatLocalShape(t: DateTime)
    requires ValidDateTime(t)
    ensures var s := FormatLocal(t);
      && |s| == 16 && s[10] == 'T' && s[13] == ':'
      && 'T' !in s[..10] && ':' !in s[..13] && ':' !in s[14..]
  {
    var s := FormatLocal(t);
    var d := FormatDate(t.date);
    FormatDateShape(t.date);
    var h, m := Padded(t.hour, 2), Padded(t.minute, 2);
    assert s == d + "T" + h + ":" + m;
    assert forall k | 0 <= k < 10 :: s[k] == d[k];
    assert forall k | 0 <= k < 10 :: d[k] == '-' || IsDigit(d[k]) by {
      assert forall k | 0 <= k < 4 :: d[k] == d[..4][k];
      assert forall k | 5 <= k < 7 :: d[k] == d[5..7][k - 5];
      assert forall k | 8 <= k < 10 :: d[k] == d[8..][k - 8];
    }
    assert forall k | 11 <= k < 13 :: s[k] == h[k - 11];
    assert forall k | 14 <= k < 16 :: s[k] == m[k - 14];
    assert s[..13] == d + "T" + h;
    assert s[14..] == m;
  }

  /** Formatting then parsing a date gives the date back. */
  lemma ParseFormatDate(d: Date)
    requires ValidDate(d)
    ensures ParseDate(FormatDate(d)) == Some(d)
  {
    FormatDateShape(d);
    assert Pow10(2) == 100 && Pow10(4) == 10000;
    PaddedValue(d.year, 4);
    PaddedValue(d.month, 2);
    PaddedValue(d.day, 2);
  }

  /** Formatting then parsing a date-time gives it back. */
  lemma ParseFormatLocal(t: DateTime)
    requires ValidDateTime(t)
    ensures ParseDateTime(FormatLocal(t)) == Some(t)
  {
    var s := FormatLocal(t);
    ParseFormatDate(t.date);
    assert s[..10] == FormatDate(t.date);
    assert s[11..13] == Padded(t.hour, 2) && s[14..] == Padded(t.minute, 2);
    assert Pow10(2) == 100;
    PaddedValue(t.hour, 2);
    PaddedValue(t.minute, 2);
  }

  /** The route's under-age test, on year, month and day differences. */
  predicate IsUnder18(dob: Date, today: Date) {
    var age := today.year - dob.year;
    var monthDiff := today.month - dob.month;
    var dayDiff := today.day - dob.day;
    age < 18 || (age == 18 && (monthDiff < 0 || (monthDiff == 0 && dayDiff < 0)))
  }

  /** Whole years lived: the year difference, less one when this year's
      birthday is still to come. */
  function AgeInYears(dob: Date, today: Date): int {
    var birthdayPassed := today.month > dob.month || (today.month == dob.month && today.day >= dob.day);
    today.year - dob.year - (if birthdayPassed then 0 else 1)
  }

  /** The under-age test is exactly "fewer than 18 whole years". */
  lemma Under18IffAgeBelow18(dob: Date, today: Date)
    ensures IsUnder18(dob, today) <==> AgeInYears(dob, today) < 18
  {
  }

  /** Equivalently: today comes before the 18th birthday, so a date of birth
      whose 18th birthday is today passes and one a day later fails. */
  lemma Under18IffBeforeEighteenthBirthday(dob: Date, today: Date)
    ensures IsUnder18(dob, today) <==> Before(today, Date(dob.year + 18, dob.month, dob.day))
  {
  }
}
