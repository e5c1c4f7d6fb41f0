/** Week-to-day arithmetic of Lib/_strptime.py over the proleptic Gregorian calendar. */
module WeekDates {

  // ----- datetime.date, by year and day of year

  predicate IsLeap(year: int)
  {
    year % 4 == 0 && (year % 100 != 0 || year % 400 == 0)
  }

  function YearLength(year: int): (n: int)
    ensures n == 365 || n == 366
  {
    if IsLeap(year) then 366 else 365
  }

  /** Days before 1 January of a year; day 1 of year 1 has ordinal 1. */
  function DaysBefore(year: int): int
  {
    var y := year - 1;
    y * 365 + y / 4 - y / 100 + y / 400
  }

  /** date(year, 1, 1).toordinal() + yday - 1 */
  function Ordinal(year: int, yday: int): int
  {
    DaysBefore(year) + yday
  }

  /** date.weekday(): Monday is 0. */
  function Weekday(ordinal: int): (w: int)
    ensures 0 <= w < 7
  {
    (ordinal + 6) % 7
  }

  lemma Residue(q: int, r: int)
    requires 0 <= r < 7
    ensures (7 * q + r) % 7 == r && (7 * q + r) / 7 == q
  {
  }

  /** Ordinals in whole weeks and a weekday. */
  lemma WeeksOf(ordinal: int) returns (q: int)
    ensures ordinal + 6 == 7 * q + Weekday(ordinal)
  {
    q := (ordinal + 6) / 7;
  }

  lemma WeekdayIs(ordinal: int, q: int, w: int)
    requires ordinal + 6 == 7 * q + w && 0 <= w < 7
    ensures Weekday(ordinal) == w
  {
    Residue(q, w);
  }

  /** Days since the last Sunday, from days since the last Monday. */
  lemma Shift(w: int)
    requires 0 <= w < 7
    ensures (w + 1) % 7 == if w == 6 then 0 else w + 1
    ensures (7 - w) % 7 == if w == 0 then 0 else 7 - w
  {
  }

  predicate IsDate(year: int, yday: int)
  {
    year >= 1 && 1 <= yday <= YearLength(year)
  }

  lemma Carry4(y: int)
    ensures (y + 1) / 4 == y / 4 + if (y + 1) % 4 == 0 then 1 else 0
  {
  }

  lemma Carry100(y: int)
    ensures (y + 1) / 100 == y / 100 + if (y + 1) % 100 == 0 then 1 else 0
  {
  }

  lemma Carry400(y: int)
    ensures (y + 1) / 400 == y / 400 + if (y + 1) % 400 == 0 then 1 else 0
  {
  }

  /** A year that 400 divides is one that 100 divides, and that one that 4 divides. */
  lemma Centuries(year: int)
    ensures year % 100 == 0 ==> year % 4 == 0
    ensures year % 400 == 0 ==> year % 100 == 0
  {
    if year % 100 == 0 {
      Fours(25 * (year / 100));
    }
    if year % 400 == 0 {
      Hundreds(4 * (year / 400));
    }
  }

  lemma Fours(t: int)
    ensures (4 * t) % 4 == 0
  {
  }

  lemma Hundreds(t: int)
    ensures (100 * t) % 100 == 0
  {
  }

  lemma NextYear(year: int)
    ensures DaysBefore(year + 1) == DaysBefore(year) + YearLength(year)
  {
    var y := year - 1;
    Carry4(y);
    Carry100(y);
    Carry400(y);
    Centuries(year);
  }

  lemma {:induction false} YearsGrow(a: int, b: int)
    requires a <= b
    ensures DaysBefore(a) + 365 * (b - a) <= DaysBefore(b)
    decreases b - a
  {
    hide DaysBefore;
    if a < b {
      NextYear(a);
      YearsGrow(a + 1, b);
    }
  }

  /** An ordinal belongs to one date only. */
  lemma OneDate(y1: int, d1: int, y2: int, d2: int)
    requires 1 <= d1 <= YearLength(y1) && 1 <= d2 <= YearLength(y2) && Ordinal(y1, d1) == Ordinal(y2, d2)
    ensures y1 == y2 && d1 == d2
  {
    hide DaysBefore, YearLength;
    NextYear(y1);
    NextYear(y2);
    if y1 < y2 {
      YearsGrow(y1 + 1, y2);
    } else if y2 < y1 {
      YearsGrow(y2 + 1, y1);
    }
  }

  /** A year and a day of it. */
  datatype Date = Date(year: int, yday: int)

  /** date.fromordinal, seen as year and day of year: the date the ordinal belongs to, sought from
      a year at or before it. */
  function FromOrdinal(year: int, ordinal: int): (d: Date)
    requires DaysBefore(year) < ordinal
    ensures Ordinal(d.year, d.yday) == ordinal && 1 <= d.yday <= YearLength(d.year) && d.year >= year
    decreases ordinal - DaysBefore(year)
  {
    NextYear(year);
    if ordinal - DaysBefore(year) <= YearLength(year) then Date(year, ordinal - DaysBefore(year))
    else FromOrdinal(year + 1, ordinal)
  }

  // ----- The code

  /** _calc_julian_from_U_or_W */
  function CalcJulianFromUorW(year: int, weekOfYear: int, dayOfWeek: int, weekStartsMon: bool): int
  {
    var jan1 := Weekday(Ordinal(year, 1));
    var firstWeekday := if weekStartsMon then jan1 else (jan1 + 1) % 7;
    var day := if weekStartsMon then dayOfWeek else (dayOfWeek + 1) % 7;
    var week0Length := (7 - firstWeekday) % 7;
    if weekOfYear == 0 then 1 + day - firstWeekday
    else 1 + week0Length + 7 * (weekOfYear - 1) + day
  }

  /** _calc_julian_from_V: the year may move back by one. */
  function CalcJulianFromV(isoYear: int, isoWeek: int, isoWeekday: int): Date
  {
    var correction := Weekday(Ordinal(isoYear, 4)) + 1 + 3;
    var ordinal := isoWeek * 7 + isoWeekday - correction;
    if ordinal < 1 then Date(isoYear - 1, ordinal + Ordinal(isoYear, 1) - Ordinal(isoYear - 1, 1))
    else Date(isoYear, ordinal)
  }

  /** What `_strptime` does with a day of year that is not positive. */
  function BorrowYear(d: Date): Date
  {
    if d.yday <= 0 then Date(d.year - 1, d.yday + YearLength(d.year - 1)) else d
  }

  /** What `_strptime` returns for a year and day of year: the calendar date of that ordinal, and
      the day-of-year field, which is not brought back into range. */
  datatype Parsed = Parsed(date: Date, julian: int)

  function Settle(d: Date): (p: Parsed)
    requires BorrowYear(d).yday >= 1
  {
    var b := BorrowYear(d);
    Parsed(FromOrdinal(b.year, b.yday - 1 + Ordinal(b.year, 1)), b.yday)
  }

  // ----- What the directives mean

  /** %U or %W of C11 section 7.27.3.5: week 1 starts on the first Sunday (Monday); the days
      before it are week 0. */
  function WeekOfYear(year: int, yday: int, weekStartsMon: bool): int
  {
    var w := Weekday(Ordinal(year, yday));
    var sinceStart := if weekStartsMon then w else (w + 1) % 7;
    (yday - 1 + 7 - sinceStart) / 7
  }

  /** How many weeks start on days 1 to yday. */
  function WeekStarts(year: int, yday: nat, weekStartsMon: bool): nat
  {
    if yday == 0 then 0
    else
      WeekStarts(year, yday - 1, weekStartsMon)
      + if Weekday(Ordinal(year, yday)) == (if weekStartsMon then 0 else 6) then 1 else 0
  }

  /** The week number is the number of Sundays, or Mondays, in the year so far. */
  lemma {:induction false} WeekCountsStarts(year: int, yday: nat, weekStartsMon: bool)
    ensures WeekOfYear(year, yday, weekStartsMon) == WeekStarts(year, yday, weekStartsMon)
  {
    hide DaysBefore, Weekday;
    var w := Weekday(Ordinal(year, yday));
    Shift(w);
    var since := if weekStartsMon then w else if w == 6 then 0 else w + 1;
    assert WeekOfYear(year, yday, weekStartsMon) == (yday + 6 - since) / 7;
    if yday > 0 {
      WeekCountsStarts(year, yday - 1, weekStartsMon);
      NextWeekday(Ordinal(year, yday - 1));
      Shift(Weekday(Ordinal(year, yday - 1)));
      WeekLater(yday - 1);
    }
  }

  lemma NextWeekday(ordinal: int)
    ensures Weekday(ordinal + 1) == if Weekday(ordinal) == 6 then 0 else Weekday(ordinal) + 1
  {
    var q := WeeksOf(ordinal);
    var w := Weekday(ordinal);
    if w == 6 {
      WeekdayIs(ordinal + 1, q + 1, 0);
    } else {
      WeekdayIs(ordinal + 1, q, w + 1);
    }
  }

  lemma WeekLater(n: int)
    ensures (n + 7) / 7 == n / 7 + 1
  {
  }

  /** The Thursday of the week, Monday to Sunday, that holds the ordinal. */
  function ThursdayOf(ordinal: int): int
  {
    ordinal - Weekday(ordinal) + 3
  }

  /** The ISO 8601:2004 section 4.1.4 year and week of a date: those of its Thursday. */
  ghost predicate IsIsoWeek(year: int, yday: int, isoYear: int, isoWeek: int)
  {
    var t := ThursdayOf(Ordinal(year, yday));
    var d := t - DaysBefore(isoYear);
    1 <= d <= YearLength(isoYear) && isoWeek == (d - 1) / 7 + 1
  }

  /** Every date has exactly one ISO year and week. */
  lemma IsoWeekExists(year: int, yday: int) returns (isoYear: int, isoWeek: int)
    requires IsDate(year, yday)
    ensures IsIsoWeek(year, yday, isoYear, isoWeek) && year - 1 <= isoYear <= year + 1
  {
    hide DaysBefore, YearLength;
    var t := ThursdayOf(Ordinal(year, yday)) - DaysBefore(year);
    NextYear(year - 1);
    NextYear(year);
    YearsGrow(year - 1, year);
    LongEnough(year - 1);
    LongEnough(year);
    LongEnough(year + 1);
    isoYear := if t < 1 then year - 1 else if t > YearLength(year) then year + 1 else year;
    isoWeek := (ThursdayOf(Ordinal(year, yday)) - DaysBefore(isoYear) - 1) / 7 + 1;
  }

  /** The ISO year of a date that datetime can hold is one that it can hold. */
  lemma IsoYearInRange(year: int, yday: int, isoYear: int, isoWeek: int)
    requires IsDate(year, yday) && year <= 9999 && IsIsoWeek(year, yday, isoYear, isoWeek)
    ensures 1 <= isoYear <= 9999
  {
    var y0, w0 := IsoWeekExists(year, yday);
    IsoWeekUnique(year, yday, isoYear, isoWeek, y0, w0);
    assert DaysBefore(1) == 0 && DaysBefore(0) == -366;
    assert DaysBefore(9999) == 3651694 && DaysBefore(10000) == 3652059;
  }

  lemma LongEnough(year: int)
    ensures 365 <= YearLength(year) <= 366
  {
  }

  lemma IsoWeekUnique(year: int, yday: int, y1: int, w1: int, y2: int, w2: int)
    requires IsIsoWeek(year, yday, y1, w1) && IsIsoWeek(year, yday, y2, w2)
    ensures y1 == y2 && w1 == w2
  {
    var t := ThursdayOf(Ordinal(year, yday));
    OneDate(y1, t - DaysBefore(y1), y2, t - DaysBefore(y2));
  }

  // ----- The conversions invert the calendar

  /** The %U or %W week and the weekday of a date give back its day of year. */
  lemma UorWInverts(year: int, yday: int, weekStartsMon: bool)
    requires IsDate(year, yday)
    ensures var week, weekday := WeekOfYear(year, yday, weekStartsMon), Weekday(Ordinal(year, yday));
            CalcJulianFromUorW(year, week, weekday, weekStartsMon) == yday
  {
    hide DaysBefore;
    WeekArithmetic(DaysBefore(year), yday, weekStartsMon);
  }

  lemma WeekArithmetic(b: int, yday: int, weekStartsMon: bool)
    requires yday >= 1
    ensures var jan1 := Weekday(b + 1);
            var first := if weekStartsMon then jan1 else (jan1 + 1) % 7;
            var w := Weekday(b + yday);
            var day := if weekStartsMon then w else (w + 1) % 7;
            var week := (yday - 1 + 7 - day) / 7;
            yday == if week == 0 then 1 + day - first else 1 + (7 - first) % 7 + 7 * (week - 1) + day
  {
    hide Weekday;
    var jan1, w := Weekday(b + 1), Weekday(b + yday);
    Shift(jan1);
    Shift(w);
    var first := if weekStartsMon then jan1 else (jan1 + 1) % 7;
    var day := if weekStartsMon then w else (w + 1) % 7;
    Shift(first);
    var q := WeeksOf(b + 1);
    var r := WeeksOf(b + yday);
    // first and day are moved by the same number of days, up to whole weeks
    var turns := (if weekStartsMon || jan1 != 6 then 0 else 1) - (if weekStartsMon || w != 6 then 0 else 1);
    var m := r - q - turns;
    assert yday - 1 == 7 * m + day - first;
    var k, left := if first == 0 then m + 1 else m, if first == 0 then 0 else 7 - first;
    assert yday - 1 + 7 - day == 7 * k + left;
    Residue(k, left);
  }

  /** For any week number the day computed has the weekday asked for. */
  lemma UorWHasWeekday(year: int, week: int, dayOfWeek: int, weekStartsMon: bool)
    requires 0 <= dayOfWeek < 7
    ensures Weekday(Ordinal(year, CalcJulianFromUorW(year, week, dayOfWeek, weekStartsMon))) == dayOfWeek
  {
    hide DaysBefore, Weekday;
    var b := DaysBefore(year);
    var jan1 := Weekday(b + 1);
    Shift(jan1);
    Shift(dayOfWeek);
    var first := if weekStartsMon then jan1 else (jan1 + 1) % 7;
    var day := if weekStartsMon then dayOfWeek else (dayOfWeek + 1) % 7;
    Shift(first);
    var j := CalcJulianFromUorW(year, week, dayOfWeek, weekStartsMon);
    var k := if week == 0 then 0 else week - (if first == 0 then 1 else 0);
    assert j == 1 + day - first + 7 * k;
    var q := WeeksOf(b + 1);
    var turns := (if weekStartsMon || jan1 != 6 then 0 else 1) - (if weekStartsMon || dayOfWeek != 6 then 0 else 1);
    assert b + j + 6 == 7 * (q + k + turns) + dayOfWeek;
    WeekdayIs(b + j, q + k + turns, dayOfWeek);
  }

  /** 1 January starts a week: the year has no week 0. */
  predicate NoWeekZero(year: int, weekStartsMon: bool)
  {
    Weekday(Ordinal(year, 1)) == if weekStartsMon then 0 else 6
  }

  /** Where the day computed lies in the year, its week is the one asked for, except that week 0
      of a year without one is taken for week 1. */
  lemma UorWComesBack(year: int, week: int, dayOfWeek: int, weekStartsMon: bool)
    requires week >= 0 && 0 <= dayOfWeek < 7
    requires 1 <= CalcJulianFromUorW(year, week, dayOfWeek, weekStartsMon) <= YearLength(year)
    ensures WeekOfYear(year, CalcJulianFromUorW(year, week, dayOfWeek, weekStartsMon), weekStartsMon) == week
            <==> !(week == 0 && NoWeekZero(year, weekStartsMon))
  {
    UorWHasWeekday(year, week, dayOfWeek, weekStartsMon);
    hide DaysBefore;
    var jan1 := Weekday(Ordinal(year, 1));
    var first := if weekStartsMon then jan1 else (jan1 + 1) % 7;
    var day := if weekStartsMon then dayOfWeek else (dayOfWeek + 1) % 7;
    var j := CalcJulianFromUorW(year, week, dayOfWeek, weekStartsMon);
    assert WeekOfYear(year, j, weekStartsMon) == (j - 1 + 7 - day) / 7;
    if week > 0 {
      Residue(week, (7 - first) % 7);
    }
  }

  /** 2018 starts on a Monday: Monday of its week 0 is taken for Monday of week 1. */
  lemma NoWeekZeroIn2018()
    ensures NoWeekZero(2018, true)
    ensures CalcJulianFromUorW(2018, 0, 0, true) == CalcJulianFromUorW(2018, 1, 0, true) == 1
  {
    assert DaysBefore(2018) == 736694;
  }

  /** The ordinal of the day computed from an ISO week, whichever year it is counted in: the
      weekday asked for, in the week of that number. */
  lemma VOrdinal(isoYear: int, isoWeek: int, isoWeekday: int)
    ensures var d := CalcJulianFromV(isoYear, isoWeek, isoWeekday);
            Ordinal(d.year, d.yday)
            == Ordinal(isoYear, 4) - Weekday(Ordinal(isoYear, 4)) + 7 * (isoWeek - 1) + isoWeekday - 1
  {
  }

  lemma VHasWeekday(isoYear: int, isoWeek: int, isoWeekday: int)
    requires 1 <= isoWeekday <= 7
    ensures var d := CalcJulianFromV(isoYear, isoWeek, isoWeekday);
            Weekday(Ordinal(d.year, d.yday)) + 1 == isoWeekday
  {
    VOrdinal(isoYear, isoWeek, isoWeekday);
    hide CalcJulianFromV, DaysBefore;
  }

  /** Borrowing a year keeps the day. */
  lemma BorrowKeepsOrdinal(d: Date)
    ensures var b := BorrowYear(d); Ordinal(b.year, b.yday) == Ordinal(d.year, d.yday)
  {
    NextYear(d.year - 1);
  }

  /** The week that holds 4 January is the week whose Thursday comes first in the year. */
  lemma WeekOneThursday(b: int, t: int)
    requires Weekday(b + t) == 3 && t >= 1
    ensures b + t == b + 4 - Weekday(b + 4) + 7 * ((t - 1) / 7) + 3
  {
  }

  /** Settling keeps the day, and gives its date. The day-of-year field beside it is right exactly
      when the day did not lie beyond the end of the year it was counted in. */
  lemma SettleExactly(d: Date)
    requires BorrowYear(d).yday >= 1
    ensures var p := Settle(d);
            && Ordinal(p.date.year, p.date.yday) == Ordinal(d.year, d.yday)
            && 1 <= p.date.yday <= YearLength(p.date.year)
            && (p.julian == p.date.yday <==> d.yday <= YearLength(d.year))
            && (p.date.year == d.year <==> 1 <= d.yday <= YearLength(d.year))
  {
    BorrowKeepsOrdinal(d);
    var b := BorrowYear(d);
    var p := Settle(d).date;
    hide DaysBefore, YearLength, FromOrdinal;
    if b.yday <= YearLength(b.year) {
      OneDate(p.year, p.yday, b.year, b.yday);
    }
    if p.year == b.year {
      OneDate(p.year, p.yday, b.year, p.yday);
    }
    LongEnough(d.year);
    if p.yday == b.yday {
      SameStart(p.year, b.year);
    }
  }

  lemma SameStart(a: int, b: int)
    requires DaysBefore(a) == DaysBefore(b)
    ensures a == b
  {
    hide DaysBefore;
    if a < b {
      YearsGrow(a, b);
    } else if b < a {
      YearsGrow(b, a);
    }
  }

  lemma ThursdayIs(ordinal: int)
    ensures Weekday(ThursdayOf(ordinal)) == 3
  {
    hide Weekday;
    var q := WeeksOf(ordinal);
    WeekdayIs(ThursdayOf(ordinal), q, 3);
  }

  /** The ISO week date of any date leads back to its ordinal. */
  lemma VInvertsOrdinal(year: int, yday: int, isoYear: int, isoWeek: int)
    requires IsDate(year, yday) && IsIsoWeek(year, yday, isoYear, isoWeek)
    ensures var d := CalcJulianFromV(isoYear, isoWeek, Weekday(Ordinal(year, yday)) + 1);
            Ordinal(d.year, d.yday) == Ordinal(year, yday)
  {
    var o := Ordinal(year, yday);
    VOrdinal(isoYear, isoWeek, Weekday(o) + 1);
    hide CalcJulianFromV, DaysBefore, Weekday, YearLength;
    var t := ThursdayOf(o) - DaysBefore(isoYear);
    ThursdayIs(o);
    WeekOneThursday(DaysBefore(isoYear), t);
  }

  /** After normalisation the ISO week date of a date gives back its year and day of year; but the
      day-of-year field that is returned beside them is right exactly when the ISO year is not
      the year before. */
  lemma VInverts(year: int, yday: int, isoYear: int, isoWeek: int)
    requires IsDate(year, yday) && IsIsoWeek(year, yday, isoYear, isoWeek)
    ensures var d := CalcJulianFromV(isoYear, isoWeek, Weekday(Ordinal(year, yday)) + 1);
            && BorrowYear(d).yday >= 1
            && Settle(d).date == Date(year, yday)
            && (Settle(d).julian == yday <==> isoYear >= year)
  {
    var d := CalcJulianFromV(isoYear, isoWeek, Weekday(Ordinal(year, yday)) + 1);
    VInvertsOrdinal(year, yday, isoYear, isoWeek);
    VYear(year, yday, isoYear, isoWeek);
    var y0, w0 := IsoWeekExists(year, yday);
    IsoWeekUnique(year, yday, isoYear, isoWeek, y0, w0);
    SettleExactly(d);
    hide CalcJulianFromV, DaysBefore, YearLength, FromOrdinal;
    var p := Settle(d).date;
    OneDate(p.year, p.yday, year, yday);
  }

  /** Which year the computed day is counted in, before and after borrowing: the ISO year, unless
      that is ahead of the date. */
  lemma VYear(year: int, yday: int, isoYear: int, isoWeek: int)
    requires IsDate(year, yday) && IsIsoWeek(year, yday, isoYear, isoWeek)
    ensures var d := CalcJulianFromV(isoYear, isoWeek, Weekday(Ordinal(year, yday)) + 1);
            && d.yday >= 1 && BorrowYear(d) == d
            && d.year == (if isoYear > year then isoYear - 1 else isoYear)
            && (d.year == year <==> isoYear >= year)
  {
    hide DaysBefore, YearLength, Weekday, CalcJulianFromV;
    var o := Ordinal(year, yday);
    VInvertsOrdinal(year, yday, isoYear, isoWeek);
    VCase(isoYear, isoWeek, Weekday(o) + 1);
    var y0, w0 := IsoWeekExists(year, yday);
    IsoWeekUnique(year, yday, isoYear, isoWeek, y0, w0);
    NextYear(year);
    NextYear(year - 1);
    NextYear(isoYear - 1);
    LongEnough(year);
    LongEnough(year - 1);
  }

  /** The year is the ISO year unless the day lies before its start. */
  lemma VCase(isoYear: int, isoWeek: int, isoWeekday: int)
    ensures var d := CalcJulianFromV(isoYear, isoWeek, isoWeekday);
            && (d.year == isoYear <==> Ordinal(d.year, d.yday) > DaysBefore(isoYear))
            && (d.year == isoYear || d.year == isoYear - 1)
            && (d.year == isoYear ==> d.yday >= 1)
  {
    hide DaysBefore, Weekday;
  }

  /** The first of January 2021 lies in week 53 of ISO year 2020: the date comes out right, the
      day-of-year field as 367. */
  lemma DayOfYear367()
    ensures IsIsoWeek(2021, 1, 2020, 53)
    ensures Settle(CalcJulianFromV(2020, 53, 5)) == Parsed(Date(2021, 1), 367)
  {
    hide FromOrdinal, DaysBefore, IsLeap;
    Year2020();
    assert Weekday(Ordinal(2021, 1)) == 4;
    assert Weekday(Ordinal(2020, 4)) == 5;
    assert CalcJulianFromV(2020, 53, 5) == Date(2020, 367);
    VInverts(2021, 1, 2020, 53);
  }

  lemma Year2020()
    ensures DaysBefore(2020) == 737424 && DaysBefore(2021) == 737790
    ensures YearLength(2020) == 366 && YearLength(2021) == 365
  {
  }

  /** %U and %W, for every week number and weekday: the date settled on has the weekday asked for.
      It lies in the year and week asked for exactly when the day computed lies in the year and the
      week is not week 0 of a year without one; and the day-of-year field returned beside it is
      right exactly when the day computed does not lie beyond the end of the year. */
  lemma UorWSettles(year: int, week: int, dayOfWeek: int, weekStartsMon: bool)
    requires week >= 0 && 0 <= dayOfWeek < 7
    ensures var j := CalcJulianFromUorW(year, week, dayOfWeek, weekStartsMon);
            && BorrowYear(Date(year, j)).yday >= 1
            && var p := Settle(Date(year, j));
               && Ordinal(p.date.year, p.date.yday) == Ordinal(year, j)
               && Weekday(Ordinal(p.date.year, p.date.yday)) == dayOfWeek
               && (p.date.year == year && WeekOfYear(year, p.date.yday, weekStartsMon) == week
                   <==> 1 <= j <= YearLength(year) && !(week == 0 && NoWeekZero(year, weekStartsMon)))
               && (p.julian == p.date.yday <==> j <= YearLength(year))
  {
    var j := CalcJulianFromUorW(year, week, dayOfWeek, weekStartsMon);
    var d := Date(year, j);
    assert j >= -5;
    LongEnough(year - 1);
    UorWHasWeekday(year, week, dayOfWeek, weekStartsMon);
    SettleExactly(d);
    hide CalcJulianFromUorW, DaysBefore, YearLength, FromOrdinal, WeekOfYear, NoWeekZero;
    if 1 <= j <= YearLength(year) {
      OneDate(Settle(d).date.year, Settle(d).date.yday, year, j);
      UorWComesBack(year, week, dayOfWeek, weekStartsMon);
    }
  }

  /** Tuesday of %W week 53 of 2018, which has no such day: the date is 1 January 2019, and the
      day-of-year field 366. */
  lemma NoWeek53In2018()
    ensures Settle(Date(2018, CalcJulianFromUorW(2018, 53, 1, true))) == Parsed(Date(2019, 1), 366)
    ensures WeekOfYear(2019, 1, true) == 0
  {
    assert DaysBefore(2018) == 736694 && DaysBefore(2019) == 737059;
    var d := Date(2018, CalcJulianFromUorW(2018, 53, 1, true));
    assert d.yday == 366;
    SettleExactly(d);
    hide FromOrdinal, DaysBefore;
    OneDate(Settle(d).date.year, Settle(d).date.yday, 2019, 1);
  }

  /** %V, for every week number and weekday: the date settled on has the weekday asked for, and the
      day-of-year field is right exactly when the day computed does not lie beyond the end of the
      year it is counted in. */
  lemma VSettles(isoYear: int, isoWeek: int, isoWeekday: int)
    requires isoWeek >= 0 && 1 <= isoWeekday <= 7
    ensures var d := CalcJulianFromV(isoYear, isoWeek, isoWeekday);
            && BorrowYear(d) == d && d.yday >= 1
            && var p := Settle(d);
               && Ordinal(p.date.year, p.date.yday) == Ordinal(d.year, d.yday)
               && Weekday(Ordinal(p.date.year, p.date.yday)) + 1 == isoWeekday
               && (p.julian == p.date.yday <==> d.yday <= YearLength(d.year))
  {
    var d := CalcJulianFromV(isoYear, isoWeek, isoWeekday);
    VHasWeekday(isoYear, isoWeek, isoWeekday);
    NextYear(isoYear - 1);
    LongEnough(isoYear - 1);
    assert d.yday >= 1;
    SettleExactly(d);
  }

  /** Day of year of the Thursday in week 1: the week of 4 January. */
  function FirstThursday(isoYear: int): (t: int)
    ensures 1 <= t <= 7
  {
    7 - Weekday(Ordinal(isoYear, 4))
  }

  /** The ISO week of the date settled on is the one asked for exactly when the ISO year has a week
      of that number: its Thursday lies in the year. */
  lemma VComesBack(isoYear: int, isoWeek: int, isoWeekday: int)
    requires isoWeek >= 0 && 1 <= isoWeekday <= 7
    ensures var p := Settle(CalcJulianFromV(isoYear, isoWeek, isoWeekday)).date;
            IsIsoWeek(p.year, p.yday, isoYear, isoWeek)
            <==> isoWeek >= 1 && FirstThursday(isoYear) + 7 * (isoWeek - 1) <= YearLength(isoYear)
  {
    VSettles(isoYear, isoWeek, isoWeekday);
    VOrdinal(isoYear, isoWeek, isoWeekday);
    hide CalcJulianFromV, Settle, DaysBefore, YearLength;
    var p := Settle(CalcJulianFromV(isoYear, isoWeek, isoWeekday)).date;
    var t := FirstThursday(isoYear) + 7 * (isoWeek - 1);
    assert ThursdayOf(Ordinal(p.year, p.yday)) == DaysBefore(isoYear) + t;
  }

  // ----- The years that datetime accepts

  predicate Accepted(year: int)
  {
    1 <= year <= 9999
  }

  /** Settling asks datetime for the year borrowed from and for the date. For a day within the next
      year it raises ValueError exactly when it borrows from year 1 or passes the end of year 9999. */
  lemma SettleAccepted(d: Date)
    requires Accepted(d.year) && BorrowYear(d).yday >= 1 && d.yday <= 730
    ensures Accepted(BorrowYear(d).year) && Accepted(Settle(d).date.year)
            <==> !(d.year == 1 && d.yday <= 0) && !(d.year == 9999 && d.yday > 365)
  {
    SettleExactly(d);
    SettledYear(d);
    assert !IsLeap(9999);
  }

  /** The date is of the year, the one before or the one after. */
  lemma SettledYear(d: Date)
    requires BorrowYear(d).yday >= 1 && d.yday <= 730
    ensures var y := Settle(d).date.year;
            y == if d.yday <= 0 then d.year - 1 else if d.yday <= YearLength(d.year) then d.year else d.year + 1
  {
    hide DaysBefore, YearLength, FromOrdinal, Settle;
    SettleExactly(d);
    BorrowKeepsOrdinal(d);
    NextYear(d.year);
    var p := Settle(d).date;
    LongEnough(d.year - 1);
    LongEnough(d.year);
    LongEnough(d.year + 1);
    if d.yday <= 0 {
      OneDate(p.year, p.yday, d.year - 1, BorrowYear(d).yday);
    } else if d.yday > YearLength(d.year) {
      OneDate(p.year, p.yday, d.year + 1, d.yday - YearLength(d.year));
    }
  }

  /** %U and %W, for the week numbers that the directives match. */
  lemma UorWAccepted(year: int, week: int, dayOfWeek: int, weekStartsMon: bool)
    requires Accepted(year) && 0 <= week <= 53 && 0 <= dayOfWeek < 7
    ensures var j := CalcJulianFromUorW(year, week, dayOfWeek, weekStartsMon);
            var d := Date(year, j);
            && BorrowYear(d).yday >= 1
            && (Accepted(BorrowYear(d).year) && Accepted(Settle(d).date.year)
                <==> !(year == 1 && j <= 0) && !(year == 9999 && j > 365))
  {
    UorWSettles(year, week, dayOfWeek, weekStartsMon);
    var j := CalcJulianFromUorW(year, week, dayOfWeek, weekStartsMon);
    assert j <= 730;
    SettleAccepted(Date(year, j));
  }

  /** %V likewise: ValueError exactly for week 0 of year 1 and days past the end of year 9999. */
  lemma VAccepted(isoYear: int, isoWeek: int, isoWeekday: int)
    requires Accepted(isoYear) && 0 <= isoWeek <= 53 && 1 <= isoWeekday <= 7
    ensures var d := CalcJulianFromV(isoYear, isoWeek, isoWeekday);
            && BorrowYear(d).yday >= 1
            && (Accepted(d.year) && Accepted(Settle(d).date.year)
                <==> !(isoYear == 1 && isoWeek == 0) && !(d.year == 9999 && d.yday > 365))
  {
    VSettles(isoYear, isoWeek, isoWeekday);
    var d := CalcJulianFromV(isoYear, isoWeek, isoWeekday);
    VCase(isoYear, isoWeek, isoWeekday);
    if isoYear == 1 {
      FirstYear(isoWeek, isoWeekday);
    }
    hide CalcJulianFromV, DaysBefore, FromOrdinal, YearLength;
    if d.year != 0 {
      SettleAccepted(d);
    }
  }

  lemma FirstYear(isoWeek: int, isoWeekday: int)
    requires 0 <= isoWeek && 1 <= isoWeekday <= 7
    ensures CalcJulianFromV(1, isoWeek, isoWeekday).year == 0 <==> isoWeek == 0
  {
    assert DaysBefore(1) == 0;
    WeekdayIs(4, 1, 3);
    hide Weekday;
  }

  /** Sunday of %U week 0 of year 1 would lie in year 0: there is no such date. */
  lemma NoYearZero()
    ensures CalcJulianFromUorW(1, 0, 6, false) == 0 && !Accepted(BorrowYear(Date(1, 0)).year)
  {
    assert Weekday(Ordinal(1, 1)) == 0;
  }
}
