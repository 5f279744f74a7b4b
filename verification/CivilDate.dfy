/**
 `secs_to_ymd_hms` of the state file: Howard Hinnant's civil-from-days arithmetic,
 proved against a calendar that is advanced one day at a time.
 Every intermediate is typed `nat`, so verification also shows that none of the
 unsigned subtractions underflows.
 */
module CivilDate {

  datatype Date = Date(year: nat, month: nat, day: nat)
  datatype Clock = Clock(hour: nat, minute: nat, second: nat)

  // ----- the Gregorian calendar, one day at a time -----

  /** Appendix C of RFC 3339. */
  predicate IsLeap(year: nat) {
    year % 4 == 0 && (year % 100 != 0 || year % 400 == 0)
  }

  function DaysInMonth(year: nat, month: nat): nat {
    if month == 2 then (if IsLeap(year) then 29 else 28)
    else if month in {4, 6, 9, 11} then 30
    else 31
  }

  predicate ValidDate(d: Date) {
    1 <= d.month <= 12 && 1 <= d.day <= DaysInMonth(d.year, d.month)
  }

  function Tomorrow(d: Date): Date {
    if d.day < DaysInMonth(d.year, d.month) then d.(day := d.day + 1)
    else if d.month < 12 then Date(d.year, d.month + 1, 1)
    else Date(d.year + 1, 1, 1)
  }

  /** The date `n` days after 1970-01-01. */
  function DateAfter(n: nat): Date {
    if n == 0 then Date(1970, 1, 1) else Tomorrow(DateAfter(n - 1))
  }

  // ----- the arithmetic of the source -----

  function DayOfEra(z: nat): (doe: nat)
    ensures doe < 146097
  {
    z - z / 146097 * 146097
  }

  /** Year within the 400-year era of the day `doe` of that era; years start on 1 March. */
  function YearOfEra(doe: nat): nat
    requires doe < 146097
  {
    var shifted: nat := doe - doe / 1460;
    var corrected: nat := shifted + doe / 36524 - doe / 146096;
    corrected / 365
  }

  /** Days of the era before its March-based year `yoe`. */
  function YearStart(yoe: nat): nat {
    var leaps: nat := yoe / 4 - yoe / 100;
    365 * yoe + leaps
  }

  /** Position of a day: era, March-based year of the era, day of that year. */
  predicate Located(days: nat, era: nat, yoe: nat, doy: nat) {
    yoe < 400 && doy < YearLength(yoe) &&
    days + 719468 == era * 146097 + YearStart(yoe) + doy
  }

  function Position(days: nat): (p: (nat, nat, nat))
    ensures Located(days, p.0, p.1, p.2)
  {
    var z := days + 719468;
    var era := z / 146097;
    var doe := DayOfEra(z);
    var yoe := YearOfEra(doe);
    YearOfEraCorrect(doe);
    var doy: nat := doe - YearStart(yoe);
    (era, yoe, doy)
  }

  /** The date `days` after 1970-01-01, before the year is narrowed to 32 bits. */
  function CivilFromDays(days: nat): (d: Date)
    ensures ValidDate(d)
  {
    var (era, yoe, doy) := Position(days);
    MarchDateValid(era, yoe, doy);
    MarchDate(era, yoe, doy)
  }

  /** Civil date of day `doy` of March-based year `yoe` of `era`. */
  function MarchDate(era: nat, yoe: nat, doy: nat): Date
    requires doy <= 365
  {
    var mp: nat := (5 * doy + 2) / 153;
    var monthStart: nat := (153 * mp + 2) / 5;
    var day: nat := doy - monthStart + 1;
    var month: nat := if mp < 10 then mp + 3 else mp - 9;
    var y := yoe + era * 400;
    Date(y + if month <= 2 then 1 else 0, month, day)
  }

  const YEAR_LIMIT: nat := 0x1_0000_0000

  /** The whole conversion; the year is cast to `u32`. */
  function SecsToYmdHms(secs: nat): (Date, Clock) {
    (NarrowYear(CivilFromDays(secs / 86400)), TimeOfDay(secs))
  }

  function TimeOfDay(secs: nat): Clock {
    Clock((secs / 3600) % 24, (secs / 60) % 60, secs % 60)
  }

  function NarrowYear(d: Date): Date { d.(year := d.year % YEAR_LIMIT) }

  // ----- the era arithmetic -----

  /** Whether the March-based year `yoe` ends on a 29 February. */
  predicate LongYear(yoe: nat) {
    IsLeap(yoe + 1)
  }

  function YearLength(yoe: nat): nat { if LongYear(yoe) then 366 else 365 }

  /** The year that contains a day of the era is the one whose window holds it. */
  lemma YearOfEraCorrect(doe: nat)
    requires doe < 146097
    ensures var yoe := YearOfEra(doe);
            yoe < 400 && YearStart(yoe) <= doe < YearStart(yoe) + YearLength(yoe)
  {
    // Split the era into centuries, four-year cycles and days.
    var c := if doe == 146096 then 3 else doe / 36524;
    var r := doe - 36524 * c;
    var q := r / 1461;
    var t := r - 1461 * q;
    var a := if t == 1460 then 3 else t / 365;
    EraDigits(doe, c, q, t, a);
    var yoe := YearOfEra(doe);
    assert yoe == 100 * c + 4 * q + a;
    assert yoe / 4 == 25 * c + q;
    assert yoe / 100 == c;
    assert YearStart(yoe) == 36524 * c + 1461 * q + 365 * a;
    if t == 1460 {
      assert LongYear(yoe) by {
        assert (yoe + 1) == 100 * c + 4 * (q + 1);
      }
    }
  }

  lemma EraDigits(doe: nat, c: nat, q: nat, t: nat, a: nat)
    requires doe == 36524 * c + 1461 * q + t
    requires c <= 3 && q <= 24 && t <= 1460
    requires q == 24 && c < 3 ==> t <= 1459
    requires 365 * a <= t && a <= 3 && (t < 365 * a + 365 || (a == 3 && t == 1460))
    ensures doe < 146097
    ensures YearOfEra(doe) == 100 * c + 4 * q + a
  {
    var e := if 24 * c + q + t >= 1460 then 1 else 0;
    assert doe / 1460 == 25 * c + q + e by {
      assert doe == 1460 * (25 * c + q) + (24 * c + q + t);
    }
    assert doe / 36524 - doe / 146096 == c by {
      if doe == 146096 { assert c == 3; } else if c == 3 { assert doe < 4 * 36524; }
    }
    assert doe - doe / 1460 + doe / 36524 - doe / 146096 == 365 * (100 * c + 4 * q) + (t - e);
    assert 365 * a <= t - e < 365 * a + 365;
  }

  lemma MarchDateValid(era: nat, yoe: nat, doy: nat)
    requires yoe < 400 && doy < YearLength(yoe)
    ensures ValidDate(MarchDate(era, yoe, doy))
  {
    LeapOfLongYear(era, yoe);
    MonthWindow(doy, (5 * doy + 2) / 153);
  }

  /** Month `mp` after March is the one whose window of the year holds the day. */
  lemma MonthWindow(doy: nat, mp: nat)
    requires doy <= 365 && mp == (5 * doy + 2) / 153
    ensures mp <= 11 && (153 * mp + 2) / 5 <= doy
    ensures doy < (153 * mp + 2) / 5 + if mp in {1, 3, 6, 8} then 30 else 31
    ensures mp == 11 ==> (153 * mp + 2) / 5 == 337
  {
  }

  /** The leap rule repeats every 400 years. */
  lemma {:induction false} LeapPeriod(year: nat, era: nat)
    ensures IsLeap(year + era * 400) == IsLeap(year)
  {
    if era == 0 {
    } else {
      LeapPeriod(year, era - 1);
      LeapRepeats(year + (era - 1) * 400);
    }
  }

  lemma LeapRepeats(year: nat)
    ensures IsLeap(year + 400) == IsLeap(year)
  {
    Rem4(year + 400, year / 4 + 100, year % 4);
    Rem100(year + 400, year / 100 + 4, year % 100);
    Rem400(year + 400, year / 400 + 1, year % 400);
  }

  lemma Rem4(n: nat, q: nat, r: nat)
    requires n == 4 * q + r && r < 4
    ensures n % 4 == r
  {
  }

  lemma Rem100(n: nat, q: nat, r: nat)
    requires n == 100 * q + r && r < 100
    ensures n % 100 == r
  {
  }

  lemma Rem400(n: nat, q: nat, r: nat)
    requires n == 400 * q + r && r < 400
    ensures n % 400 == r
  {
  }

  lemma LeapOfLongYear(era: nat, yoe: nat)
    ensures IsLeap(yoe + era * 400 + 1) == LongYear(yoe)
  {
    LeapPeriod(yoe + 1, era);
  }

  // ----- the arithmetic follows the calendar -----

  /** Inside a March-based year the next day number is the next calendar date. */
  lemma SameYearStep(era: nat, yoe: nat, doy: nat)
    requires yoe < 400 && doy + 1 < YearLength(yoe)
    ensures MarchDate(era, yoe, doy + 1) == Tomorrow(MarchDate(era, yoe, doy))
  {
    LeapOfLongYear(era, yoe);
    var mp: nat := (5 * doy + 2) / 153;
    MonthWindow(doy, mp);
    NextWindow(doy, mp);
  }

  /** The next day stays in the month or is the first of the following one. */
  lemma NextWindow(doy: nat, mp: nat)
    requires doy < 365 && mp == (5 * doy + 2) / 153
    ensures var next: nat, length := (5 * (doy + 1) + 2) / 153, if mp in {1, 3, 6, 8} then 30 else 31;
            if doy + 1 < (153 * mp + 2) / 5 + length || mp == 11 then next == mp
            else next == mp + 1 && (153 * next + 2) / 5 == doy + 1
  {
    MonthWindow(doy, mp);
  }

  /** The last day of February is followed by 1 March of the same civil year. */
  lemma NewYearStep(era: nat, yoe: nat)
    requires yoe < 400
    ensures Tomorrow(MarchDate(era, yoe, YearLength(yoe) - 1)) == Date(yoe + era * 400 + 1, 3, 1)
  {
    LeapOfLongYear(era, yoe);
  }

  /** A day number has one year window. */
  lemma YearWindowsDisjoint(doe: nat, y1: nat, y2: nat)
    requires y1 < 400 && y2 < 400
    requires YearStart(y1) <= doe < YearStart(y1) + YearLength(y1)
    requires YearStart(y2) <= doe < YearStart(y2) + YearLength(y2)
    ensures y1 == y2
  {
    if y1 < y2 { YearStartsAfter(y1, y2); }
    if y2 < y1 { YearStartsAfter(y2, y1); }
  }

  lemma {:induction false} YearStartsAfter(y1: nat, y2: nat)
    requires y1 < y2 <= 400
    ensures y2 < 400 ==> YearStart(y1) + YearLength(y1) <= YearStart(y2)
    decreases y2 - y1
  {
    YearStartStep(y1);
    if y1 + 1 >= y2 {
    } else {
      YearStartsAfter(y1 + 1, y2);
    }
  }

  lemma YearStartStep(yoe: nat)
    requires yoe < 400
    ensures yoe < 399 ==> YearStart(yoe + 1) == YearStart(yoe) + YearLength(yoe)
    ensures yoe == 399 ==> YearStart(yoe) + YearLength(yoe) == 146097
  {
    assert (yoe + 1) / 4 == yoe / 4 + (if (yoe + 1) % 4 == 0 then 1 else 0);
    assert (yoe + 1) / 100 == yoe / 100 + (if (yoe + 1) % 100 == 0 then 1 else 0);
  }

  lemma EraUnique(doe1: nat, era1: nat, doe2: nat, era2: nat)
    requires doe1 < 146097 && doe2 < 146097
    requires era1 * 146097 + doe1 == era2 * 146097 + doe2
    ensures era1 == era2 && doe1 == doe2
  {
  }

  lemma WithinEra(yoe: nat, doy: nat)
    requires yoe < 400 && doy < YearLength(yoe)
    ensures YearStart(yoe) + doy < 146097
  {
  }

  /** A day has one position, so its date can be read off any of them. */
  lemma DateAt(days: nat, era: nat, yoe: nat, doy: nat)
    requires Located(days, era, yoe, doy)
    ensures CivilFromDays(days) == MarchDate(era, yoe, doy)
  {
    var (e, y, d) := Position(days);
    WithinEra(yoe, doy);
    WithinEra(y, d);
    EraUnique(YearStart(yoe) + doy, era, YearStart(y) + d, e);
    YearWindowsDisjoint(YearStart(yoe) + doy, yoe, y);
  }

  /** One day later in position is one day later in the calendar. */
  lemma StepPosition(days: nat, era: nat, yoe: nat, doy: nat) returns (e: nat, y: nat, d: nat)
    requires Located(days, era, yoe, doy)
    ensures Located(days + 1, e, y, d)
    ensures MarchDate(e, y, d) == Tomorrow(MarchDate(era, yoe, doy))
  {
    YearStartStep(yoe);
    if doy + 1 < YearLength(yoe) {
      SameYearStep(era, yoe, doy);
      return era, yoe, doy + 1;
    }
    NewYearStep(era, yoe);
    if yoe < 399 {
      return era, yoe + 1, 0;
    }
    return era + 1, 0, 0;
  }

  lemma EpochPosition() returns (era: nat, yoe: nat, doy: nat)
    ensures Located(0, era, yoe, doy) && MarchDate(era, yoe, doy) == DateAfter(0)
  {
    era, yoe, doy := 4, 369, 306;
  }

  lemma {:induction false} CalendarPosition(days: nat) returns (era: nat, yoe: nat, doy: nat)
    ensures Located(days, era, yoe, doy)
    ensures MarchDate(era, yoe, doy) == DateAfter(days)
  {
    if days == 0 {
      era, yoe, doy := EpochPosition();
    } else {
      var e, y, d := CalendarPosition(days - 1);
      era, yoe, doy := StepPosition(days - 1, e, y, d);
    }
  }

  /** The arithmetic agrees with the day-by-day calendar on every day. */
  lemma CivilMatchesCalendar(days: nat)
    ensures CivilFromDays(days) == DateAfter(days)
  {
    var era, yoe, doy := CalendarPosition(days);
    DateAt(days, era, yoe, doy);
  }

  // ----- the whole conversion -----

  const LAST_ERA: nat := 10737418

  /** Seconds from the epoch to 1 January of the first year that does not fit `u32`. */
  const REPRESENTABLE_SECS: nat := 86400 * (LIMIT_DAY - 719468)

  /** Position of 1 January of the first year that does not fit, as a day of the era arithmetic. */
  const LIMIT_DAY: nat := LAST_ERA * 146097 + YearStart(95) + 306

  lemma YearFitsAt(era: nat, yoe: nat, doy: nat)
    requires yoe < 400 && doy < YearLength(yoe)
    ensures MarchDate(era, yoe, doy).year < YEAR_LIMIT <==> era * 146097 + YearStart(yoe) + doy < LIMIT_DAY
  {
    WithinEra(yoe, doy);
    var y := MarchDate(era, yoe, doy).year;
    assert yoe + era * 400 <= y <= yoe + era * 400 + 1;
    if era == LAST_ERA {
      if yoe < 95 { YearStartsAfter(yoe, 95); }
      if 95 < yoe { YearStartsAfter(95, yoe); }
    } else if era < LAST_ERA {
      assert y <= 400 * LAST_ERA;
    }
  }

  lemma YearFitsExactly(days: nat)
    ensures CivilFromDays(days).year < YEAR_LIMIT <==> days + 719468 < LIMIT_DAY
  {
    var (era, yoe, doy) := Position(days);
    YearFitsAt(era, yoe, doy);
  }

  /** The time of day recombines to the seconds since midnight. */
  lemma ClockExact(secs: nat)
    ensures var c := TimeOfDay(secs);
            c.hour < 24 && c.minute < 60 && c.second < 60 &&
            3600 * c.hour + 60 * c.minute + c.second == secs % 86400
  {
    ClockDigits(secs / 86400, secs / 3600 % 24, secs / 60 % 60, secs % 60, secs);
  }

  lemma ClockDigits(d: nat, h: nat, m: nat, s: nat, secs: nat)
    requires d == secs / 86400 && h == secs / 3600 % 24 && m == secs / 60 % 60 && s == secs % 60
    ensures secs == 86400 * d + 3600 * h + 60 * m + s
  {
    var minutes := secs / 60;
    var hours := minutes / 60;
    assert hours == secs / 3600;
    assert hours / 24 == d;
  }

  /**
   The timestamp is right for exactly the inputs whose year fits 32 bits; beyond them the
   `as u32` cast drops the high bits of the year. The source claims only 1970-2099.
   */
  lemma TimestampCorrect(secs: nat)
    ensures SecsToYmdHms(secs).0 == DateAfter(secs / 86400) <==> secs < REPRESENTABLE_SECS
    ensures secs < REPRESENTABLE_SECS ==> ValidDate(SecsToYmdHms(secs).0)
  {
    var days := secs / 86400;
    CivilMatchesCalendar(days);
    YearFitsExactly(days);
    NarrowYearExact(CivilFromDays(days));
  }

  lemma NarrowYearExact(d: Date)
    ensures NarrowYear(d) == d <==> d.year < YEAR_LIMIT
  {
  }

  /** Adding a day's worth of seconds moves to the next date and keeps the time of day. */
  lemma NextDay(secs: nat)
    requires secs + 86400 < REPRESENTABLE_SECS
    ensures SecsToYmdHms(secs + 86400) == (Tomorrow(SecsToYmdHms(secs).0), SecsToYmdHms(secs).1)
  {
    TimestampCorrect(secs);
    TimestampCorrect(secs + 86400);
    TomorrowDate(secs);
    SameClock(secs);
  }

  lemma TomorrowDate(secs: nat)
    ensures DateAfter((secs + 86400) / 86400) == Tomorrow(DateAfter(secs / 86400))
  {
  }

  lemma SameClock(secs: nat)
    ensures TimeOfDay(secs + 86400) == TimeOfDay(secs)
  {
    DayInUnits(secs);
    SameHour(secs / 3600);
    SameSixtieth(secs / 60, 24);
    SameSixtieth(secs, 1440);
  }

  lemma DayInUnits(secs: nat)
    ensures (secs + 86400) / 3600 == secs / 3600 + 24
    ensures (secs + 86400) / 60 == secs / 60 + 1440
  {
  }

  lemma SameHour(hours: nat)
    ensures (hours + 24) % 24 == hours % 24
  {
  }

  lemma SameSixtieth(n: nat, sixties: nat)
    ensures (n + 60 * sixties) % 60 == n % 60
  {
  }
}
