/** Timestamps of chat messages as written by the chat export (`%d.%m.%y, %H:%M`),
    their calendar validity, and the day and week numbering used by the aggregation. */
module Calendar {
  import opened TextUtil

  /** A minute-precision timestamp; `year` is the two-digit year of the export. */
  datatype DateTime = DateTime(day: nat, month: nat, year: nat, hour: nat, minute: nat)

  /** The `%y` convention: 69..99 are 1969..1999, 00..68 are 2000..2068. */
  function FullYear(yy: nat): (y: nat)
    requires yy < 100
    ensures 1969 <= y <= 2068 && y % 100 == yy
  {
    if yy <= 68 then 2000 + yy else 1900 + yy
  }

  predicate IsLeapYear(y: nat)
  {
    y % 4 == 0 && (y % 100 != 0 || y % 400 == 0)
  }

  function DaysInMonth(month: nat, y: nat): (n: nat)
    requires 1 <= month <= 12
    ensures 28 <= n <= 31
  {
    if month == 2 then (if IsLeapYear(y) then 29 else 28)
    else if month == 4 || month == 6 || month == 9 || month == 11 then 30
    else 31
  }

  /** The timestamps `datetime.strptime` can build: a real calendar day and a real time of day. */
  predicate Valid(t: DateTime)
  {
    && t.year < 100
    && 1 <= t.month <= 12
    && 1 <= t.day <= DaysInMonth(t.month, FullYear(t.year))
    && t.hour < 24
    && t.minute < 60
  }

  /** The timestamps a parsed log can hold. */
  type Timestamp = t: DateTime | Valid(t) witness DateTime(1, 1, 0, 0, 0)

  /** A number below 100 as two digits, with a leading zero. */
  function TwoDigits(n: nat): (s: string)
    requires n < 100
    ensures |s| == 2 && AllDigits(s)
  {
    [DigitChar(n / 10), DigitChar(n % 10)]
  }

  /** The text `dd.mm.yy, HH:MM` of a timestamp. */
  function Format(t: DateTime): (s: string)
    requires Valid(t)
    ensures |s| == 15
  {
    TwoDigits(t.day) + "." + TwoDigits(t.month) + "." + TwoDigits(t.year) + ", "
    + TwoDigits(t.hour) + ":" + TwoDigits(t.minute)
  }

  /** The two-digit field of `text` starting at `i`, if both characters are digits. */
  function FieldAt(text: string, i: nat): (r: Option<nat>)
    requires i + 2 <= |text|
    ensures r.Some? ==> r.value < 100 && TwoDigits(r.value) == text[i..i + 2]
  {
    if IsDigit(text[i]) && IsDigit(text[i + 1]) then
      var v := DigitValue(text[i]) * 10 + DigitValue(text[i + 1]);
      assert DigitChar(v / 10) == text[i] && DigitChar(v % 10) == text[i + 1];
      Some(v)
    else None
  }

  /** Parsing of a date text with the fixed format `%d.%m.%y, %H:%M`: the shape must
      match and the fields must name a real day and time, otherwise there is no value
      (where `strptime` raises `ValueError`). */
  function ParseDate(text: string): (r: Option<DateTime>)
    ensures r.Some? ==> Valid(r.value) && Format(r.value) == text
  {
    if |text| != 15 || text[2] != '.' || text[5] != '.' || text[8] != ',' || text[9] != ' ' || text[12] != ':' then None
    else
      match (FieldAt(text, 0), FieldAt(text, 3), FieldAt(text, 6), FieldAt(text, 10), FieldAt(text, 13))
      case (Some(d), Some(m), Some(y), Some(h), Some(mi)) =>
        var t := DateTime(d, m, y, h, mi);
        if Valid(t) then
          FormatOfFields(text, t);
          Some(t)
        else None
      case _ => None
  }

  /** A text of the date shape whose five fields spell the fields of `t` is the text of `t`. */
  lemma FormatOfFields(text: string, t: DateTime)
    requires Valid(t) && |text| == 15
    requires text[2] == '.' && text[5] == '.' && text[8] == ',' && text[9] == ' ' && text[12] == ':'
    requires text[0..2] == TwoDigits(t.day) && text[3..5] == TwoDigits(t.month) && text[6..8] == TwoDigits(t.year)
    requires text[10..12] == TwoDigits(t.hour) && text[13..15] == TwoDigits(t.minute)
    ensures Format(t) == text
  {
    var f := Format(t);
    forall i | 0 <= i < 15 ensures f[i] == text[i] {
      if i < 2 { assert f[i] == TwoDigits(t.day)[i] == text[0..2][i]; }
      else if 3 <= i < 5 { assert f[i] == TwoDigits(t.month)[i - 3] == text[3..5][i - 3]; }
      else if 6 <= i < 8 { assert f[i] == TwoDigits(t.year)[i - 6] == text[6..8][i - 6]; }
      else if 10 <= i < 12 { assert f[i] == TwoDigits(t.hour)[i - 10] == text[10..12][i - 10]; }
      else if 13 <= i { assert f[i] == TwoDigits(t.minute)[i - 13] == text[13..15][i - 13]; }
    }
  }

  /** A field spelled by `TwoDigits(n)` reads back as `n`. */
  lemma FieldAtTwoDigits(text: string, i: nat, n: nat)
    requires n < 100 && i + 2 <= |text| && text[i..i + 2] == TwoDigits(n)
    ensures FieldAt(text, i) == Some(n)
  {
    assert text[i] == TwoDigits(n)[0] && text[i + 1] == TwoDigits(n)[1];
  }

  /** Every valid timestamp survives formatting and parsing. */
  lemma ParseFormat(t: DateTime)
    requires Valid(t)
    ensures ParseDate(Format(t)) == Some(t)
  {
    var s := Format(t);
    assert s[0..2] == TwoDigits(t.day) && s[3..5] == TwoDigits(t.month) && s[6..8] == TwoDigits(t.year);
    assert s[10..12] == TwoDigits(t.hour) && s[13..15] == TwoDigits(t.minute);
    FieldAtTwoDigits(s, 0, t.day);
    FieldAtTwoDigits(s, 3, t.month);
    FieldAtTwoDigits(s, 6, t.year);
    FieldAtTwoDigits(s, 10, t.hour);
    FieldAtTwoDigits(s, 13, t.minute);
  }

  /** Days of the years 1969 .. y - 1. */
  function DaysBeforeYear(y: nat): int
  {
    365 * (y - 1969) + LeapsBefore(y) - LeapsBefore(1969)
  }

  /** Leap years among 1 .. y - 1 in the proleptic Gregorian calendar. */
  function LeapsBefore(y: nat): int
  {
    (y - 1) / 4 - (y - 1) / 100 + (y - 1) / 400
  }

  /** Days of the months 1 .. month - 1 of year y. */
  function DaysBeforeMonth(month: nat, y: nat): nat
    requires 1 <= month <= 13
  {
    [0, 31, 59, 90, 120, 151, 181, 212, 243, 273, 304, 334, 365][month - 1]
    + (if month > 2 && IsLeapYear(y) then 1 else 0)
  }

  /** The month table agrees with the month lengths. */
  lemma DaysBeforeNextMonth(month: nat, y: nat)
    requires 1 <= month <= 12
    ensures DaysBeforeMonth(month + 1, y) == DaysBeforeMonth(month, y) + DaysInMonth(month, y)
  {
  }

  /** The calendar day of a timestamp as a day number; day 0 is Monday 29 December 1969,
      so the time of day is discarded and `DayNumber(t) % 7 == 0` exactly on Mondays. The
      two-digit years reach from 1 January 1969 (day -362) to 31 December 2068. */
  function DayNumber(t: DateTime): (d: int)
    requires Valid(t)
    ensures -362 <= d <= 36162
    ensures t.hour != 0 || t.minute != 0 ==> DayNumber(t.(hour := 0, minute := 0)) == d
    decreases if t.hour == 0 && t.minute == 0 then 0 else 1
  {
    var y := FullYear(t.year);
    DaysBeforeYear(y) + DaysBeforeMonth(t.month, y) + t.day - 1 - 362
  }

  /** Two timestamps of the same date are grouped into the same day, whatever their times. */
  lemma SameDay(t1: DateTime, t2: DateTime)
    requires Valid(t1) && Valid(t2)
    requires t1.day == t2.day && t1.month == t2.month && t1.year == t2.year
    ensures DayNumber(t1) == DayNumber(t2)
  {
    assert t1.(hour := 0, minute := 0) == t2.(hour := 0, minute := 0);
  }

  /** The Monday-to-Sunday week holding a day number (pandas' weekly frequency `W`,
      whose buckets end on Sunday). */
  function WeekIndex(d: int): (w: int)
    ensures 7 * w <= d < 7 * w + 7
  {
    d / 7
  }

  /** The Sunday that closes a week, as a day number: pandas labels each weekly bucket with it. */
  function WeekEnd(w: int): (d: int)
    ensures WeekIndex(d) == w && d % 7 == 6
  {
    7 * w + 6
  }

  /** The numbering is anchored on Mondays: 29 December 1969 is day 0, and Monday
      1 January 2018 is day `7 * 2505`, the first day of week 2505, which Sunday 7 January
      closes. */
  lemma WeekAnchors(epoch: DateTime, monday: DateTime, sunday: DateTime)
    requires epoch == DateTime(29, 12, 69, 0, 0)
    requires monday == DateTime(1, 1, 18, 0, 0) && sunday == DateTime(7, 1, 18, 0, 0)
    ensures Valid(epoch) && DayNumber(epoch) == 0
    ensures Valid(monday) && DayNumber(monday) == 7 * 2505
    ensures Valid(sunday) && DayNumber(sunday) == WeekEnd(2505)
  {
    assert LeapsBefore(1969) == 477 && LeapsBefore(2018) == 489;
    assert DaysBeforeYear(1969) == 0 && DaysBeforeYear(2018) == 17897;
    assert DaysBeforeMonth(12, 1969) == 334 && DaysBeforeMonth(1, 2018) == 0;
  }

  lemma WeekIndexMonotone(d1: int, d2: int)
    requires d1 <= d2
    ensures WeekIndex(d1) <= WeekIndex(d2)
  {
  }

  /** Days in the same week are fewer than seven apart, and the week runs up to its Sunday. */
  lemma SameWeek(d1: int, d2: int)
    requires WeekIndex(d1) == WeekIndex(d2)
    ensures -7 < d1 - d2 < 7 && d1 <= WeekEnd(WeekIndex(d1))
  {
  }

  function YearLength(y: nat): nat
  {
    if IsLeapYear(y) then 366 else 365
  }

  /** Stepping `y` by one moves `(y - 1) / k` exactly when `k` divides `y`. */
  lemma PredDiv(y: int, k: int)
    requires k == 4 || k == 100 || k == 400
    ensures (y - 1) / k == (if y % k == 0 then y / k - 1 else y / k)
  {
  }

  lemma CenturyDivides(y: int)
    ensures y % 400 == 0 ==> y % 100 == 0
    ensures y % 100 == 0 ==> y % 4 == 0
  {
  }

  lemma LeapsStep(y: nat)
    requires y >= 1
    ensures LeapsBefore(y + 1) == LeapsBefore(y) + (if IsLeapYear(y) then 1 else 0)
  {
    PredDiv(y, 4);
    PredDiv(y, 100);
    PredDiv(y, 400);
    CenturyDivides(y);
  }

  lemma DaysBeforeMonthTotal(y: nat)
    ensures DaysBeforeMonth(13, y) == YearLength(y)
  {
  }

  /** Consecutive calendar days have consecutive day numbers: the day after the last day
      of a month is the first of the next month, and 31 December is followed by 1 January. */
  lemma NextDay(t: DateTime, u: DateTime)
    requires Valid(t) && Valid(u)
    requires if t.day < DaysInMonth(t.month, FullYear(t.year)) then
               u == t.(day := t.day + 1)
             else if t.month < 12 then
               u == t.(day := 1, month := t.month + 1)
             else
               u == t.(day := 1, month := 1, year := (t.year + 1) % 100) && t.year != 68
    ensures DayNumber(u) == DayNumber(t) + 1
  {
    DayNumberOf(t);
    DayNumberOf(u);
    var y := FullYear(t.year);
    if t.day < DaysInMonth(t.month, y) {
    } else if t.month < 12 {
      DaysBeforeNextMonth(t.month, y);
    } else {
      NextYearStep(t.year);
      DaysBeforeMonthTotal(y);
      assert FullYear(u.year) == y + 1 && u.month == 1 && u.day == 1 && t.month == 12;
    }
  }

  /** The day number spelled out from the date's fields. */
  lemma DayNumberOf(t: DateTime)
    requires Valid(t)
    ensures DayNumber(t) == DaysBeforeYear(FullYear(t.year)) + DaysBeforeMonth(t.month, FullYear(t.year)) + t.day - 1 - 362
  {
  }

  /** The two-digit year after `yy` (other than 68, the last one) starts the next full year. */
  lemma NextYearStep(yy: nat)
    requires yy < 100 && yy != 68
    ensures FullYear((yy + 1) % 100) == FullYear(yy) + 1
    ensures DaysBeforeYear(FullYear(yy) + 1) == DaysBeforeYear(FullYear(yy)) + YearLength(FullYear(yy))
  {
    if yy == 99 {
      assert (yy + 1) % 100 == 0;
    } else {
      assert (yy + 1) % 100 == yy + 1;
    }
    YearStep(FullYear(yy));
  }

  /** A year adds its own length to the days before the next one. */
  lemma YearStep(y: nat)
    requires y >= 1969
    ensures DaysBeforeYear(y + 1) == DaysBeforeYear(y) + YearLength(y)
  {
    LeapsStep(y);
  }
}
