/** Arithmetic on naive UTC timestamps (whole seconds): splitting a duration
    into days and hours, and rendering an instant the way
    `strftime('%Y-%m-%d %H:%M:%S UTC')` does. */
module Time {
  import opened Types
  import Text

  const SecondsPerHour := 3600
  const SecondsPerDay := 86400

  /** A duration as whole days and the whole hours left over, both rounded
      down: what `floor(h / 24)` and `int(h % 24)` give for the duration in
      hours `h` (for a negative duration the days are negative and the hours
      still lie in 0..23). */
  function DaysHours(secs: int): (r: (int, nat))
    ensures r.1 < 24
    ensures r.0 * SecondsPerDay + r.1 * SecondsPerHour <= secs
    ensures secs < r.0 * SecondsPerDay + (r.1 + 1) * SecondsPerHour
  {
    (secs / SecondsPerDay, (secs % SecondsPerDay) / SecondsPerHour)
  }

  /** The Gregorian leap-year rule. */
  predicate IsLeapYear(y: int)
  {
    y % 4 == 0 && (y % 100 != 0 || y % 400 == 0)
  }

  function DaysInYear(y: int): nat
  {
    if IsLeapYear(y) then 366 else 365
  }

  function DaysInMonth(y: int, m: int): nat
  {
    if m == 2 then (if IsLeapYear(y) then 29 else 28)
    else if m == 4 || m == 6 || m == 9 || m == 11 then 30
    else 31
  }

  /** The year and the day within it (from 0) of the day `z` days after
      1 January of year `y`, for `z >= 0`. */
  function YearOnOrAfter(y: int, z: nat): (r: (int, nat))
    ensures r.1 < DaysInYear(r.0)
    decreases z
  {
    if z < DaysInYear(y) then (y, z) else YearOnOrAfter(y + 1, z - DaysInYear(y))
  }

  /** The same for `z < 0`: the day lies in an earlier year. */
  function YearBefore(y: int, z: int): (r: (int, nat))
    requires z < 0
    ensures r.1 < DaysInYear(r.0)
    decreases -z
  {
    var z' := z + DaysInYear(y - 1);
    if z' >= 0 then (y - 1, z') else YearBefore(y - 1, z')
  }

  /** The month and the day of the month (both from 1) of the day `d` (from
      0) of year `y`, counting from month `m`. */
  function MonthAndDay(y: int, m: nat, d: nat): (r: (nat, nat))
    requires 1 <= m <= 12
    ensures 1 <= r.0 <= 12 && r.1 >= 1
    decreases 12 - m
  {
    if m == 12 || d < DaysInMonth(y, m) then (m, d + 1)
    else MonthAndDay(y, m + 1, d - DaysInMonth(y, m))
  }

  /** The proleptic Gregorian (year, month, day) of the `z`-th day after
      1970-01-01. */
  function CivilFromDays(z: int): (r: (int, nat, nat))
    ensures 1 <= r.1 <= 12 && r.2 >= 1
  {
    var (y, d) := if z >= 0 then YearOnOrAfter(1970, z) else YearBefore(1970, z);
    var (m, day) := MonthAndDay(y, 1, d);
    (y, m, day)
  }

  // ------------------------------------------------ reference calendar

  /** The leap years among the years 1 to `y - 1` (counted negatively
      before year 1). */
  function Leaps(y: int): int
  {
    (y - 1) / 4 - (y - 1) / 100 + (y - 1) / 400
  }

  /** The day number of 1 January of year `y`, counted from 1970-01-01. */
  function YearStart(y: int): int
  {
    365 * (y - 1970) + Leaps(y) - Leaps(1970)
  }

  /** The days of year `y` before the first of month `m`. */
  function MonthStart(y: int, m: int): nat
    requires 1 <= m <= 12
  {
    [0, 31, 59, 90, 120, 151, 181, 212, 243, 273, 304, 334][m - 1] + (if m > 2 && IsLeapYear(y) then 1 else 0)
  }

  /** A calendar date that exists. */
  predicate ValidDate(y: int, m: int, d: int)
  {
    1 <= m <= 12 && 1 <= d <= DaysInMonth(y, m)
  }

  /** The day number of a date, counted from 1970-01-01. */
  function DaysFromCivil(y: int, m: int, d: int): int
    requires 1 <= m <= 12
  {
    YearStart(y) + MonthStart(y, m) + d - 1
  }

  lemma DivStep(y: int)
    ensures y / 4 - (y - 1) / 4 == if y % 4 == 0 then 1 else 0
    ensures y / 100 - (y - 1) / 100 == if y % 100 == 0 then 1 else 0
    ensures y / 400 - (y - 1) / 400 == if y % 400 == 0 then 1 else 0
  {
  }

  /** Consecutive years start a year's length apart. */
  lemma YearStartStep(y: int)
    ensures YearStart(y + 1) == YearStart(y) + DaysInYear(y)
  {
    DivStep(y);
  }

  lemma {:induction false} YearStartMonotone(a: int, b: int)
    requires a <= b
    ensures YearStart(a) <= YearStart(b)
    decreases b - a
  {
    if a < b {
      YearStartStep(a);
      YearStartMonotone(a + 1, b);
    }
  }

  lemma MonthStartStep(y: int, m: int)
    requires 1 <= m <= 12
    ensures m < 12 ==> MonthStart(y, m + 1) == MonthStart(y, m) + DaysInMonth(y, m)
    ensures m == 12 ==> MonthStart(y, m) + DaysInMonth(y, m) == DaysInYear(y)
  {
  }

  lemma {:induction false} MonthStartMonotone(y: int, a: int, b: int)
    requires 1 <= a <= b <= 12
    ensures MonthStart(y, a) <= MonthStart(y, b)
    decreases b - a
  {
    if a < b {
      MonthStartStep(y, a);
      MonthStartMonotone(y, a + 1, b);
    }
  }

  /** A date lies within its year. */
  lemma DayOfYearBound(y: int, m: int, d: int)
    requires ValidDate(y, m, d)
    ensures 0 <= MonthStart(y, m) + d - 1 < DaysInYear(y)
  {
    MonthStartMonotone(y, m, 12);
    MonthStartStep(y, 12);
  }

  lemma {:induction false} YearOnOrAfterStart(y: int, z: nat)
    ensures var r := YearOnOrAfter(y, z); YearStart(r.0) + r.1 == YearStart(y) + z
    decreases z
  {
    if z >= DaysInYear(y) {
      YearStartStep(y);
      YearOnOrAfterStart(y + 1, z - DaysInYear(y));
    }
  }

  lemma {:induction false} YearBeforeStart(y: int, z: int)
    requires z < 0
    ensures var r := YearBefore(y, z); YearStart(r.0) + r.1 == YearStart(y) + z
    decreases -z
  {
    var z' := z + DaysInYear(y - 1);
    assert YearStart(y - 1) + z' == YearStart(y) + z by { YearStartStep(y - 1); }
    if z' < 0 {
      YearBeforeStart(y - 1, z');
    }
  }

  lemma {:induction false} MonthAndDayStart(y: int, m: nat, d: nat)
    requires 1 <= m <= 12 && MonthStart(y, m) + d < DaysInYear(y)
    ensures var r := MonthAndDay(y, m, d);
            ValidDate(y, r.0, r.1) && MonthStart(y, r.0) + r.1 - 1 == MonthStart(y, m) + d
    decreases 12 - m
  {
    MonthStartStep(y, m);
    if m < 12 && d >= DaysInMonth(y, m) {
      MonthAndDayStart(y, m + 1, d - DaysInMonth(y, m));
    }
  }

  /** `CivilFromDays` names an existing date, and that date's day number is
      the day it was given. */
  lemma CivilFromDaysRoundTrip(z: int)
    ensures var c := CivilFromDays(z); ValidDate(c.0, c.1, c.2) && DaysFromCivil(c.0, c.1, c.2) == z
  {
    var (y, d) := if z >= 0 then YearOnOrAfter(1970, z) else YearBefore(1970, z);
    if z >= 0 { YearOnOrAfterStart(1970, z); } else { YearBeforeStart(1970, z); }
    MonthAndDayStart(y, 1, d);
  }

  /** Two existing dates with the same day number are the same date. */
  lemma DaysFromCivilInjective(y1: int, m1: int, d1: int, y2: int, m2: int, d2: int)
    requires ValidDate(y1, m1, d1) && ValidDate(y2, m2, d2)
    requires DaysFromCivil(y1, m1, d1) == DaysFromCivil(y2, m2, d2)
    ensures y1 == y2 && m1 == m2 && d1 == d2
  {
    DayOfYearBound(y1, m1, d1);
    DayOfYearBound(y2, m2, d2);
    SameYear(y1, MonthStart(y1, m1) + d1 - 1, y2, MonthStart(y2, m2) + d2 - 1);
    SameMonth(y1, m1, d1, m2, d2);
  }

  /** A day number falls in one year only. */
  lemma SameYear(y1: int, o1: int, y2: int, o2: int)
    requires 0 <= o1 < DaysInYear(y1) && 0 <= o2 < DaysInYear(y2)
    requires YearStart(y1) + o1 == YearStart(y2) + o2
    ensures y1 == y2
  {
    if y1 < y2 {
      YearStartStep(y1);
      YearStartMonotone(y1 + 1, y2);
    } else if y2 < y1 {
      YearStartStep(y2);
      YearStartMonotone(y2 + 1, y1);
    }
  }

  /** A day of a year falls in one month only. */
  lemma SameMonth(y: int, m1: int, d1: int, m2: int, d2: int)
    requires ValidDate(y, m1, d1) && ValidDate(y, m2, d2)
    requires MonthStart(y, m1) + d1 == MonthStart(y, m2) + d2
    ensures m1 == m2 && d1 == d2
  {
    if m1 < m2 {
      MonthStartStep(y, m1);
      MonthStartMonotone(y, m1 + 1, m2);
    } else if m2 < m1 {
      MonthStartStep(y, m2);
      MonthStartMonotone(y, m2 + 1, m1);
    }
  }

  /** Every existing date is the civil date of its own day number. */
  lemma CivilFromDaysOfDate(y: int, m: int, d: int)
    requires ValidDate(y, m, d)
    ensures CivilFromDays(DaysFromCivil(y, m, d)) == (y, m, d)
  {
    var z := DaysFromCivil(y, m, d);
    var c := CivilFromDays(z);
    CivilFromDaysRoundTrip(z);
    DaysFromCivilInjective(c.0, c.1, c.2, y, m, d);
  }

  /** A digit string with leading zeros up to `width` characters. */
  function ZeroPadded(s: string, width: nat): (r: string)
    ensures |r| >= width && |r| >= |s|
    decreases width - |s|
  {
    if |s| >= width then s else ZeroPadded("0" + s, width)
  }

  /** A number with leading zeros up to `width` digits. */
  function Padded(n: nat, width: nat): (s: string)
    ensures |s| >= width
  {
    ZeroPadded(Text.NatToString(n), width)
  }

  /** The text `strftime('%Y-%m-%d %H:%M:%S UTC')` writes for a year already
      rendered, a month, a day and the seconds into that day. */
  function StampText(year: string, month: nat, day: nat, secs: nat): (r: string)
    ensures |r| >= |year| + 19 && r[|r| - 4..] == " UTC"
  {
    var clock := Padded(secs / SecondsPerHour, 2) + ":" + Padded(secs % SecondsPerHour / 60, 2)
                   + ":" + Padded(secs % 60, 2);
    var r := year + "-" + Padded(month, 2) + "-" + Padded(day, 2) + " " + clock + " UTC";
    assert r[|r| - 4..] == " UTC";
    r
  }

  /** `t.strftime('%Y-%m-%d %H:%M:%S UTC')`. */
  function FormatUtc(t: Instant): (r: string)
    ensures |r| >= 21 && r[|r| - 4..] == " UTC"
  {
    var (y, m, d) := CivilFromDays(t / SecondsPerDay);
    var year := if y < 0 then Text.IntToString(y) else Padded(y, 4);
    assert |year| >= 2;
    StampText(year, m, d, t % SecondsPerDay)
  }

  /** Zero padding keeps a digit string's value, and pads a short one to
      exactly the width. */
  lemma {:induction false} ZeroPaddedDigits(s: string, width: nat)
    requires Text.AllDigits(s)
    ensures Text.AllDigits(ZeroPadded(s, width))
    ensures Text.DigitsValue(ZeroPadded(s, width)) == Text.DigitsValue(s)
    ensures |s| <= width ==> |ZeroPadded(s, width)| == width
    decreases width - |s|
  {
    if |s| < width {
      Text.DigitsValueLeadingZero(s);
      ZeroPaddedDigits("0" + s, width);
    }
  }

  /** A two-digit or four-digit field reads back as its number. */
  lemma PaddedReadsBack(n: nat, width: nat)
    requires (width == 2 && n < 100) || (width == 4 && n < 10000)
    ensures |Padded(n, width)| == width && Text.AllDigits(Padded(n, width))
    ensures Text.DigitsValue(Padded(n, width)) == n
  {
    Text.NatToStringShort(n);
    Text.DigitsValueOfNatToString(n);
    ZeroPaddedDigits(Text.NatToString(n), width);
  }

  /** Where the pieces of a stamp sit. */
  lemma Layout(year: string, month: string, day: string, hh: string, mi: string, ss: string)
    requires |year| == 4 && |month| == 2 && |day| == 2 && |hh| == 2 && |mi| == 2 && |ss| == 2
    ensures var r := year + "-" + month + "-" + day + " " + (hh + ":" + mi + ":" + ss) + " UTC";
            && |r| == 23 && r[..4] == year && r[4] == '-' && r[5..7] == month && r[7] == '-'
            && r[8..10] == day && r[10] == ' ' && r[11..13] == hh && r[13] == ':' && r[14..16] == mi
            && r[16] == ':' && r[17..19] == ss && r[19..] == " UTC"
  {
  }

  /** The stamp of a four-character year: the fields sit at fixed columns,
      each the two-digit rendering of its number. */
  lemma StampLayout(year: string, month: nat, day: nat, secs: nat)
    requires |year| == 4 && month < 100 && day < 100 && secs < SecondsPerDay
    ensures var r := StampText(year, month, day, secs);
            && |r| == 23 && r[..4] == year && r[4] == '-' && r[7] == '-' && r[10] == ' '
            && r[13] == ':' && r[16] == ':' && r[19..] == " UTC"
            && r[5..7] == Padded(month, 2) && r[8..10] == Padded(day, 2)
            && r[11..13] == Padded(secs / SecondsPerHour, 2)
            && r[14..16] == Padded(secs % SecondsPerHour / 60, 2)
            && r[17..19] == Padded(secs % 60, 2)
  {
    PaddedReadsBack(month, 2);
    PaddedReadsBack(day, 2);
    PaddedReadsBack(secs / SecondsPerHour, 2);
    PaddedReadsBack(secs % SecondsPerHour / 60, 2);
    PaddedReadsBack(secs % 60, 2);
    Layout(year, Padded(month, 2), Padded(day, 2), Padded(secs / SecondsPerHour, 2),
           Padded(secs % SecondsPerHour / 60, 2), Padded(secs % 60, 2));
  }

  /** `r` is a `YYYY-MM-DD HH:MM:SS UTC` stamp that names the instant `t`:
      its fields are digits, the date exists, the clock is a time of day,
      and together they count `t` seconds from the epoch. */
  predicate StampOf(r: string, t: Instant)
  {
    && |r| == 23 && r[4] == '-' && r[7] == '-' && r[10] == ' ' && r[13] == ':' && r[16] == ':'
    && r[19..] == " UTC"
    && Text.AllDigits(r[..4]) && Text.AllDigits(r[5..7]) && Text.AllDigits(r[8..10])
    && Text.AllDigits(r[11..13]) && Text.AllDigits(r[14..16]) && Text.AllDigits(r[17..19])
    && var y, mo, d := Text.DigitsValue(r[..4]), Text.DigitsValue(r[5..7]), Text.DigitsValue(r[8..10]);
       var h, mi, s := Text.DigitsValue(r[11..13]), Text.DigitsValue(r[14..16]), Text.DigitsValue(r[17..19]);
       && ValidDate(y, mo, d) && h < 24 && mi < 60 && s < 60
       && DaysFromCivil(y, mo, d) * SecondsPerDay + h * SecondsPerHour + mi * 60 + s == t
  }

  /** The seconds of a day as hours, minutes and seconds. */
  lemma ClockFields(secs: nat)
    requires secs < SecondsPerDay
    ensures secs / SecondsPerHour < 24 && secs % SecondsPerHour / 60 < 60
    ensures secs / SecondsPerHour * SecondsPerHour + secs % SecondsPerHour / 60 * 60 + secs % 60 == secs
  {
    var h, rest := secs / SecondsPerHour, secs % SecondsPerHour;
    assert secs == h * 3600 + rest;
    assert rest == rest / 60 * 60 + rest % 60;
    assert secs == (h * 60 + rest / 60) * 60 + rest % 60;
  }

  /** The year of a day number between the first day of year 1 and the
      last day of year 9999 lies in that range. */
  lemma CivilYearInRange(z: int)
    requires YearStart(1) <= z < YearStart(10000)
    ensures 1 <= CivilFromDays(z).0 <= 9999
  {
    var c := CivilFromDays(z);
    CivilFromDaysRoundTrip(z);
    DayOfYearBound(c.0, c.1, c.2);
    YearStartStep(c.0);
    if c.0 < 1 {
      YearStartMonotone(c.0 + 1, 1);
    } else if c.0 > 9999 {
      YearStartMonotone(10000, c.0);
    }
  }

  /** For the instants of years 1 to 9999 (the range of Python's
      `datetime`), the rendering is a stamp that reads back as the instant. */
  lemma FormatUtcReadsBack(t: Instant)
    requires YearStart(1) <= t / SecondsPerDay < YearStart(10000)
    ensures StampOf(FormatUtc(t), t)
  {
    var z, secs := t / SecondsPerDay, t % SecondsPerDay;
    var (y, m, d) := CivilFromDays(z);
    CivilFromDaysRoundTrip(z);
    CivilYearInRange(z);
    var year := Padded(y, 4);
    PaddedReadsBack(y, 4);
    StampLayout(year, m, d, secs);
    PaddedReadsBack(m, 2);
    PaddedReadsBack(d, 2);
    ClockFields(secs);
    PaddedReadsBack(secs / SecondsPerHour, 2);
    PaddedReadsBack(secs % SecondsPerHour / 60, 2);
    PaddedReadsBack(secs % 60, 2);
    var r := FormatUtc(t);
    assert r == StampText(year, m, d, secs);
  }

  /** Whole days and the seconds into the day are determined by the instant. */
  lemma DayAndClockUnique(z1: int, c1: int, z2: int, c2: int)
    requires 0 <= c1 < SecondsPerDay && 0 <= c2 < SecondsPerDay
    requires z1 * SecondsPerDay + c1 == z2 * SecondsPerDay + c2
    ensures z1 == z2 && c1 == c2
  {
  }

  /** Hours, minutes and seconds are determined by the seconds of the day. */
  lemma ClockUnique(h1: int, mi1: int, s1: int, h2: int, mi2: int, s2: int)
    requires 0 <= mi1 < 60 && 0 <= s1 < 60 && 0 <= mi2 < 60 && 0 <= s2 < 60
    requires h1 * SecondsPerHour + mi1 * 60 + s1 == h2 * SecondsPerHour + mi2 * 60 + s2
    ensures h1 == h2 && mi1 == mi2 && s1 == s2
  {
  }

  /** The converse of `FormatUtcReadsBack`: the instant of an existing date
      and time of day in years 1 to 9999 renders with exactly those fields. */
  lemma FormatUtcOfFields(t: Instant, y: int, mo: int, d: int, h: int, mi: int, s: int)
    requires ValidDate(y, mo, d) && 1 <= y <= 9999
    requires 0 <= h < 24 && 0 <= mi < 60 && 0 <= s < 60
    requires t == DaysFromCivil(y, mo, d) * SecondsPerDay + h * SecondsPerHour + mi * 60 + s
    ensures StampOf(FormatUtc(t), t)
    ensures var r := FormatUtc(t);
            && Text.DigitsValue(r[..4]) == y && Text.DigitsValue(r[5..7]) == mo
            && Text.DigitsValue(r[8..10]) == d && Text.DigitsValue(r[11..13]) == h
            && Text.DigitsValue(r[14..16]) == mi && Text.DigitsValue(r[17..19]) == s
  {
    var z := DaysFromCivil(y, mo, d);
    var clock := h * SecondsPerHour + mi * 60 + s;
    assert YearStart(1) <= t / SecondsPerDay < YearStart(10000) by {
      DayAndClockUnique(t / SecondsPerDay, t % SecondsPerDay, z, clock);
      DayOfYearBound(y, mo, d);
      YearStartMonotone(1, y);
      YearStartStep(y);
      YearStartMonotone(y + 1, 10000);
    }
    FormatUtcReadsBack(t);
    StampFields(FormatUtc(t), t, y, mo, d, h, mi, s);
  }

  /** A stamp of the instant of given fields shows those fields. */
  lemma StampFields(r: string, t: Instant, y: int, mo: int, d: int, h: int, mi: int, s: int)
    requires StampOf(r, t)
    requires ValidDate(y, mo, d) && 0 <= mi < 60 && 0 <= s < 60 && 0 <= h < 24
    requires t == DaysFromCivil(y, mo, d) * SecondsPerDay + h * SecondsPerHour + mi * 60 + s
    ensures Text.DigitsValue(r[..4]) == y && Text.DigitsValue(r[5..7]) == mo
    ensures Text.DigitsValue(r[8..10]) == d && Text.DigitsValue(r[11..13]) == h
    ensures Text.DigitsValue(r[14..16]) == mi && Text.DigitsValue(r[17..19]) == s
  {
    var y', mo', d' := Text.DigitsValue(r[..4]), Text.DigitsValue(r[5..7]), Text.DigitsValue(r[8..10]);
    var h', mi', s' := Text.DigitsValue(r[11..13]), Text.DigitsValue(r[14..16]), Text.DigitsValue(r[17..19]);
    DayAndClockUnique(DaysFromCivil(y', mo', d'), h' * SecondsPerHour + mi' * 60 + s',
                      DaysFromCivil(y, mo, d), h * SecondsPerHour + mi * 60 + s);
    DaysFromCivilInjective(y', mo', d', y, mo, d);
    ClockUnique(h', mi', s', h, mi, s);
  }

  /** The first day of the epoch in the civil calendar. */
  lemma CivilEpoch()
    ensures CivilFromDays(0) == (1970, 1, 1)
  {
  }

  /** The zero-padded fields of the epoch. */
  lemma EpochFields()
    ensures Padded(1970, 4) == "1970" && Padded(1, 2) == "01" && Padded(0, 2) == "00"
  {
    assert Text.NatToString(197) == "197";
    assert Text.NatToString(1970) == "1970";
    assert ZeroPadded("1", 2) == "01" && ZeroPadded("0", 2) == "00";
  }

  /** The stamp of the epoch's fields. */
  lemma EpochStamp()
    ensures StampText("1970", 1, 1, 0) == "1970-01-01 00:00:00 UTC"
  {
    EpochFields();
    var clock := "00" + ":" + "00" + ":" + "00";
    assert clock == "00:00:00";
    assert "1970" + "-" + "01" + "-" + "01" + " " + clock + " UTC" == "1970-01-01 00:00:00 UTC";
  }

  /** The epoch renders as midnight of 1 January 1970. */
  lemma FormatUtcEpoch()
    ensures FormatUtc(0) == "1970-01-01 00:00:00 UTC"
  {
    CivilEpoch();
    EpochFields();
    EpochStamp();
  }
}
