/**
 * The calendar rules of DeCamp's Timestamp.cs, as pure functions: the
 * Interval enumeration, the five month tables, the leap-year rules, year
 * lengths, the month-table walk behind getDate, the weekday rules and the
 * fuzzy time of day.  The stateful SimpleDate class in module Timestamps is
 * specified in terms of these.
 */
module CalendarRules {
  import opened CSharpInt

  /** Timestamp.Interval.  C# compares enum members by declaration position. */
  datatype Interval = Year | Month | Week | Day | Time | Hour | Minute | Second
  {
    function Rank(): nat
    {
      match this
      case Year => 0
      case Month => 1
      case Week => 2
      case Day => 3
      case Time => 4
      case Hour => 5
      case Minute => 6
      case Second => 7
    }
  }

  /** The C# comparison `u <= v` on intervals. */
  predicate AtMost(u: Interval, v: Interval)
  {
    u.Rank() <= v.Rank()
  }

  /** SimpleDate.Month: a run of days; festivals are virtual months.  The
      month names are not part of the model; the tables name them in comments. */
  datatype MonthInfo = MonthInfo(days: int, isVirtual: bool)

  /** The concrete subclasses of SimpleDate. */
  datatype Calendar = Campaign | Greyhawk | Eberron | ForgottenRealms | Gregorian

  /** C#'s int.MaxValue, the length of CampaignDate's single month. */
  const IntMaxValue: int := 0x7fff_ffff

  const GreyhawkMonths: seq<MonthInfo> := [
    MonthInfo(7, true), MonthInfo(28, false),  // Needfest, Fireseek
    MonthInfo(28, false), MonthInfo(28, false),  // Readying, Coldeven
    MonthInfo(7, true), MonthInfo(28, false),  // Growfest, Planting
    MonthInfo(28, false), MonthInfo(28, false),  // Flocktime, Wealsun
    MonthInfo(7, true), MonthInfo(28, false),  // Richfest, Reaping
    MonthInfo(28, false), MonthInfo(28, false),  // Goodmonth, Harvester
    MonthInfo(7, true), MonthInfo(28, false),  // Brewfest, Patchwall
    MonthInfo(28, false), MonthInfo(28, false)]  // Ready'reat, Sunsebb

  const EberronMonths: seq<MonthInfo> := [
    MonthInfo(28, false), MonthInfo(28, false),  // Zarantyr, Olarune
    MonthInfo(28, false), MonthInfo(28, false),  // Therendor, Eyre
    MonthInfo(28, false), MonthInfo(28, false),  // Dravago, Nymm
    MonthInfo(28, false), MonthInfo(28, false),  // Lharvion, Barrakas
    MonthInfo(28, false), MonthInfo(28, false),  // Rhaan, Sypheros
    MonthInfo(28, false), MonthInfo(28, false)]  // Aryth, Vult

  const RealmsMonths: seq<MonthInfo> := [
    MonthInfo(30, false), MonthInfo(1, true),  // Hammer, Midwinter
    MonthInfo(30, false), MonthInfo(30, false),  // Alturiak, Ches
    MonthInfo(30, false), MonthInfo(1, true),  // Tarsakh, Greengrass
    MonthInfo(30, false), MonthInfo(30, false),  // Mirtul, Kythorn
    MonthInfo(30, false), MonthInfo(1, true),  // Flamerule, Midsummer
    MonthInfo(0, true), MonthInfo(30, false),  // Shieldmeet, Eleasis
    MonthInfo(30, false), MonthInfo(1, true),  // Eleint, Highharvestide
    MonthInfo(30, false), MonthInfo(30, false),  // Marpenoth, Uktar
    MonthInfo(1, true), MonthInfo(30, false)]  // Feast of the Moon, Nightal

  const GregorianMonths: seq<MonthInfo> := [
    MonthInfo(31, false), MonthInfo(28, false),  // January, February
    MonthInfo(31, false), MonthInfo(30, false),  // March, April
    MonthInfo(31, false), MonthInfo(30, false),  // May, June
    MonthInfo(31, false), MonthInfo(31, false),  // July, August
    MonthInfo(30, false), MonthInfo(31, false),  // September, October
    MonthInfo(30, false), MonthInfo(31, false)]  // November, December

  /** The Greyhawk table: a festival week before every three regular months of four weeks. */
  lemma GreyhawkEntries()
    ensures |GreyhawkMonths| == 16
    ensures forall m :: 0 <= m < 16 ==>
      GreyhawkMonths[m] == if m % 4 == 0 then MonthInfo(7, true) else MonthInfo(28, false)
  {
  }

  /** Index of Shieldmeet in the Forgotten Realms table and of February in the Gregorian one. */
  const Shieldmeet: nat := 10
  const February: nat := 1

  /** The month table each constructor installs. */
  function Months(cal: Calendar): (t: seq<MonthInfo>)
    ensures |t| > 0
    ensures forall i :: 0 <= i < |t| ==> t[i].days >= 0
  {
    match cal
    case Campaign => [MonthInfo(IntMaxValue, false)]
    case Greyhawk => GreyhawkMonths
    case Eberron => EberronMonths
    case ForgottenRealms => RealmsMonths
    case Gregorian => GregorianMonths
  }

  /** FRDate.isLeapYear: Shieldmeet is kept in years divisible by four. */
  predicate RealmsLeapYear(year: int)
  {
    Mod(year, 4) == 0
  }

  /** GregorianDate.isLeapYear: before year 8 only the irregular leap years
      -45..-9 (every third year); from year 8 on, the 400-year rule. */
  predicate GregorianLeapYear(year: int)
  {
    if year < 8 then -45 <= year <= -9 && Mod(year, 3) == 0
    else if Mod(year, 4) != 0 then false
    else if Mod(year, 400) == 0 then true
    else Mod(year, 100) != 0
  }

  /** From year 8 on, GregorianDate.isLeapYear is the 400-year rule, and the
      year has 366 days exactly in a leap year. */
  lemma GregorianLeapRule(year: int)
    requires year >= 8
    ensures GregorianLeapYear(year) <==> year % 4 == 0 && (year % 100 != 0 || year % 400 == 0)
    ensures YearLength(Gregorian, year) == if GregorianLeapYear(year) then 366 else 365
  {
    NonNegativeAgrees(year, 4);
    NonNegativeAgrees(year, 100);
    NonNegativeAgrees(year, 400);
  }

  lemma GregorianLeapExamples()
    ensures GregorianLeapYear(2000) && GregorianLeapYear(2024)
    ensures !GregorianLeapYear(1900) && !GregorianLeapYear(2023)
    ensures YearLength(Gregorian, 2024) == 366 && YearLength(Gregorian, 2023) == 365
  {
    GregorianLeapRule(2000);
    GregorianLeapRule(2024);
    GregorianLeapRule(1900);
    GregorianLeapRule(2023);
  }

  /** The leap year of the calendars that have one; the others never leap. */
  predicate LeapYear(cal: Calendar, year: int)
  {
    match cal
    case ForgottenRealms => RealmsLeapYear(year)
    case Gregorian => GregorianLeapYear(year)
    case _ => false
  }

  /** The month table getDate walks in a given year: FRDate gives Shieldmeet one
      day and GregorianDate gives February 29 days while the lookup runs. */
  function EffectiveMonths(cal: Calendar, year: int): (t: seq<MonthInfo>)
    ensures |t| == |Months(cal)|
    ensures forall i :: 0 <= i < |t| ==> t[i].isVirtual == Months(cal)[i].isVirtual && t[i].days >= 0
    ensures !LeapYear(cal, year) ==> t == Months(cal)
  {
    var base := Months(cal);
    if cal == ForgottenRealms && RealmsLeapYear(year) then base[Shieldmeet := base[Shieldmeet].(days := 1)]
    else if cal == Gregorian && GregorianLeapYear(year) then base[February := base[February].(days := 29)]
    else base
  }

  /** Days in the months before month index m. */
  function DaysBefore(table: seq<MonthInfo>, m: nat): int
    requires m <= |table|
  {
    if m == 0 then 0 else DaysBefore(table, m - 1) + table[m - 1].days
  }

  /** Sum of all month lengths (the loop of SimpleDate.getYearLength). */
  function TotalDays(table: seq<MonthInfo>): int
  {
    DaysBefore(table, |table|)
  }

  /** getYearLength: the month sum, except that FRDate and GregorianDate count 365
      days plus one in a leap year. */
  function YearLength(cal: Calendar, year: int): int
  {
    match cal
    case ForgottenRealms => 365 + (if RealmsLeapYear(year) then 1 else 0)
    case Gregorian => 365 + (if GregorianLeapYear(year) then 1 else 0)
    case _ => TotalDays(Months(cal))
  }

  /** The fixed year lengths, and the month tables summing to getYearLength in
      every year: the patched Shieldmeet and February are exactly the leap day. */
  lemma {:induction false} YearLengthIsMonthSum(cal: Calendar, year: int)
    ensures YearLength(cal, year) == TotalDays(EffectiveMonths(cal, year))
    ensures cal == Greyhawk ==> YearLength(cal, year) == 364
    ensures cal == Eberron ==> YearLength(cal, year) == 336
    ensures cal == Campaign ==> YearLength(cal, year) == IntMaxValue
    ensures YearLength(cal, year) == (if LeapYear(cal, year) then 366 else if cal == Greyhawk then 364
      else if cal == Eberron then 336 else if cal == Campaign then IntMaxValue else 365)
  {
    match cal
    case Campaign =>
      assert DaysBefore(Months(cal), 1) == IntMaxValue;
    case Greyhawk =>
      GreyhawkTotal();
    case Eberron =>
      EberronTotal();
    case ForgottenRealms =>
      RealmsYearSum(year);
    case Gregorian =>
      GregorianYearSum(year);
  }

  /** A Realms year is 365 days, and Shieldmeet adds the 366th in a leap year. */
  lemma RealmsYearSum(year: int)
    ensures TotalDays(EffectiveMonths(ForgottenRealms, year)) == if RealmsLeapYear(year) then 366 else 365
  {
    RealmsTotal();
    if RealmsLeapYear(year) {
      DaysBeforePatched(RealmsMonths, Shieldmeet, 1, 18);
    }
  }

  /** A Gregorian year is 365 days, and February's 29th is the 366th in a leap year. */
  lemma GregorianYearSum(year: int)
    ensures TotalDays(EffectiveMonths(Gregorian, year)) == if GregorianLeapYear(year) then 366 else 365
  {
    GregorianTotal();
    if GregorianLeapYear(year) {
      DaysBeforePatched(GregorianMonths, February, 29, 12);
    }
  }

  /** The Greyhawk months add up to 364 days. */
  lemma GreyhawkTotal()
    ensures TotalDays(GreyhawkMonths) == 364
  {
    assert DaysBefore(GreyhawkMonths, 4) == 91;
    assert DaysBefore(GreyhawkMonths, 8) == 182;
    assert DaysBefore(GreyhawkMonths, 12) == 273;
    assert DaysBefore(GreyhawkMonths, 16) == 364;
  }

  /** The Eberron months add up to 336 days. */
  lemma EberronTotal()
    ensures TotalDays(EberronMonths) == 336
  {
    assert DaysBefore(EberronMonths, 3) == 84;
    assert DaysBefore(EberronMonths, 6) == 168;
    assert DaysBefore(EberronMonths, 9) == 252;
    assert DaysBefore(EberronMonths, 12) == 336;
  }

  /** The Realms months add up to 365 days, Shieldmeet counting none. */
  lemma RealmsTotal()
    ensures TotalDays(RealmsMonths) == 365 && RealmsMonths[Shieldmeet].days == 0
  {
    assert DaysBefore(RealmsMonths, 3) == 61;
    assert DaysBefore(RealmsMonths, 6) == 122;
    assert DaysBefore(RealmsMonths, 9) == 212;
    assert DaysBefore(RealmsMonths, 12) == 243;
    assert DaysBefore(RealmsMonths, 15) == 304;
    assert DaysBefore(RealmsMonths, 18) == 365;
  }

  /** The Gregorian months add up to 365 days, February counting 28. */
  lemma GregorianTotal()
    ensures TotalDays(GregorianMonths) == 365 && GregorianMonths[February].days == 28
  {
    assert DaysBefore(GregorianMonths, 3) == 90;
    assert DaysBefore(GregorianMonths, 6) == 181;
    assert DaysBefore(GregorianMonths, 9) == 273;
    assert DaysBefore(GregorianMonths, 12) == 365;
  }

  /** Changing the length of month i changes the day count before every later month by the difference. */
  lemma {:induction false} DaysBeforePatched(table: seq<MonthInfo>, i: nat, days: int, m: nat)
    requires i < |table| && m <= |table|
    ensures DaysBefore(table[i := table[i].(days := days)], m)
         == DaysBefore(table, m) + (if m > i then days - table[i].days else 0)
  {
    if m > 0 {
      DaysBeforePatched(table, i, days, m - 1);
    }
  }

  /** Every month has a non-negative length, so the day counts grow with the month index. */
  predicate NonNegativeMonths(table: seq<MonthInfo>)
  {
    forall i :: 0 <= i < |table| ==> table[i].days >= 0
  }

  lemma TablesNonNegative(cal: Calendar, year: int)
    ensures NonNegativeMonths(Months(cal)) && NonNegativeMonths(EffectiveMonths(cal, year))
  {
  }

  lemma {:induction false} DaysBeforeMonotone(table: seq<MonthInfo>, a: nat, b: nat)
    requires NonNegativeMonths(table) && a <= b <= |table|
    ensures DaysBefore(table, a) <= DaysBefore(table, b)
  {
    if a < b {
      DaysBeforeMonotone(table, a, b - 1);
    }
  }

  /** The walk of SimpleDate.getDate from month index m with d days still to
      place: whole months are skipped while d exceeds them.  The result is the
      1-based month and the day within it. */
  function LocateFrom(table: seq<MonthInfo>, m: nat, d: int): (int, int)
    requires m <= |table|
    decreases |table| - m
  {
    if m < |table| && d > table[m].days then LocateFrom(table, m + 1, d - table[m].days)
    else (m + 1, d)
  }

  /** The (month, day) getDate reports for a 1-based day of the year. */
  function Locate(table: seq<MonthInfo>, dayOfYear: int): (int, int)
  {
    LocateFrom(table, 0, dayOfYear)
  }

  /** What getDate's answer means: day d of month m lies d days after the months
      before m; the walk passes no month that doy does not exceed, so d never
      exceeds its month; and a day number inside the year lands inside the table
      on a day >= 1.  A day number past the year's end lands on the index just
      past the table (where callers that index the table fail). */
  lemma {:induction false} LocateMeaning(table: seq<MonthInfo>, doy: int)
    requires NonNegativeMonths(table)
    ensures var (m, d) := Locate(table, doy);
      && 1 <= m <= |table| + 1
      && DaysBefore(table, m - 1) + d == doy
      && (m <= |table| ==> d <= table[m - 1].days)
      && (m > 1 ==> d >= 1)
      && (forall j :: 1 <= j < m ==> DaysBefore(table, j) < doy)
      && (1 <= doy <= TotalDays(table) ==> m <= |table| && d >= 1)
  {
    LocateFromMeaning(table, 0, doy);
  }

  lemma {:induction false} LocateFromMeaning(table: seq<MonthInfo>, k: nat, rest: int)
    requires NonNegativeMonths(table) && k <= |table|
    requires k > 0 ==> rest >= 1
    ensures var (m, d) := LocateFrom(table, k, rest);
      && k + 1 <= m <= |table| + 1
      && DaysBefore(table, m - 1) + d == DaysBefore(table, k) + rest
      && (m <= |table| ==> d <= table[m - 1].days)
      && (m > 1 ==> d >= 1)
      && (forall j :: k < j < m ==> DaysBefore(table, j) < DaysBefore(table, k) + rest)
    decreases |table| - k
  {
    if k < |table| && rest > table[k].days {
      LocateFromMeaning(table, k + 1, rest - table[k].days);
    }
  }

  /** getDate inverts the day count: the day that lies d days into month m0 is
      reported as (m0 + 1, d). */
  lemma {:induction false} LocateDaysBefore(table: seq<MonthInfo>, m0: nat, d: int)
    requires NonNegativeMonths(table) && m0 < |table| && 1 <= d <= table[m0].days
    ensures Locate(table, DaysBefore(table, m0) + d) == (m0 + 1, d)
  {
    LocateFromBefore(table, 0, m0, d);
  }

  lemma {:induction false} LocateFromBefore(table: seq<MonthInfo>, j: nat, m0: nat, d: int)
    requires NonNegativeMonths(table) && j <= m0 < |table| && 1 <= d <= table[m0].days
    ensures LocateFrom(table, j, DaysBefore(table, m0) - DaysBefore(table, j) + d) == (m0 + 1, d)
    decreases m0 - j
  {
    if j < m0 {
      DaysBeforeMonotone(table, j + 1, m0);
      LocateFromBefore(table, j + 1, m0, d);
    }
  }

  /** getDayOfYear of the month-table calendars: whole days elapsed, counted
      from 1.  A day is getDayLength's 86400 seconds; the model writes the
      number itself wherever it multiplies or divides, so that the arithmetic
      stays linear (C# division, so a negative time lands on day 0 or earlier). */
  function DayOfYear(time: int): int
  {
    Div(time, 86400) + 1
  }

  /** getTime: the seconds into the current day (C# remainder). */
  function TimeOfDay(time: int): int
  {
    Mod(time, 86400)
  }

  /** setDayOfYear followed by getDayOfYear and getTime: the day is the one
      written and the time of day is the one kept. */
  lemma {:induction false} SetDayOfYearRoundTrip(time: int, day: int)
    requires time >= 0 && day >= 1
    ensures DayOfYear((day - 1) * 86400 + TimeOfDay(time)) == day
    ensures TimeOfDay((day - 1) * 86400 + TimeOfDay(time)) == TimeOfDay(time)
  {
    var t := (day - 1) * 86400 + TimeOfDay(time);
    assert 0 <= TimeOfDay(time) < 86400;
    assert t >= 0;
    NonNegativeAgrees(t, 86400);
    assert t / 86400 == day - 1 && t % 86400 == TimeOfDay(time);
  }

  /** setTime followed by getTime and getDayOfYear: the new time of day is
      read back and the day is kept. */
  lemma {:induction false} SetTimeRoundTrip(time: int, t: int)
    requires time >= 0 && 0 <= t < 86400
    ensures TimeOfDay(time - TimeOfDay(time) + t) == t
    ensures DayOfYear(time - TimeOfDay(time) + t) == DayOfYear(time)
  {
    var q := Div(time, 86400);
    assert time - TimeOfDay(time) == q * 86400;
    var n := q * 86400 + t;
    assert q >= 0 && n >= 0;
    NonNegativeAgrees(n, 86400);
    assert n / 86400 == q && n % 86400 == t;
  }

  /** The hour, minute and second SimpleDate.toString shows for a time value:
      successive C# remainders by 60, then the hour modulo 24. */
  function Clock(time: int): (int, int, int)
  {
    var seconds := Mod(time, 60);
    var minutes := Mod(Div(time, 60), 60);
    var hours := Mod(Div(Div(time, 60), 60), 24);
    (hours, minutes, seconds)
  }

  /** The seconds setTime(hour, minute, second) adds to the start of the day. */
  function ClockSeconds(hour: int, minute: int, second: int): int
  {
    hour * 60 * 60 + minute * 60 + second
  }

  /** For a non-negative time the clock reading is in range and spells out the
      time of day. */
  lemma {:induction false} ClockMeaning(time: int)
    requires time >= 0
    ensures var (h, m, s) := Clock(time);
      && 0 <= h < 24 && 0 <= m < 60 && 0 <= s < 60
      && ClockSeconds(h, m, s) == TimeOfDay(time)
  {
    NonNegativeAgrees(time, 60);
    var q1, s := time / 60, time % 60;
    NonNegativeAgrees(q1, 60);
    var q2, m := q1 / 60, q1 % 60;
    NonNegativeAgrees(q2, 24);
    var q3, h := q2 / 24, q2 % 24;
    assert Clock(time) == (h, m, s);
    var c := h * 3600 + m * 60 + s;
    assert ClockSeconds(h, m, s) == c;
    assert time == q3 * 86400 + c;
    DivUnique(time, 86400, q3, c);
    NonNegativeAgrees(time, 86400);
  }

  /** setTime(hour, minute, second) followed by the clock reading gives back the
      three fields when they are in range, and keeps the day. */
  lemma {:induction false} ClockRoundTrip(time: int, hour: int, minute: int, second: int)
    requires time >= 0 && 0 <= hour < 24 && 0 <= minute < 60 && 0 <= second < 60
    ensures Clock(time - TimeOfDay(time) + ClockSeconds(hour, minute, second)) == (hour, minute, second)
    ensures DayOfYear(time - TimeOfDay(time) + ClockSeconds(hour, minute, second)) == DayOfYear(time)
  {
    var t := ClockSeconds(hour, minute, second);
    assert 0 <= t < 86400;
    SetTimeRoundTrip(time, t);
    ClockOfTime(time - TimeOfDay(time) + t, hour, minute, second);
  }

  /** A non-negative time whose time of day is a clock reading in range shows that reading. */
  lemma ClockOfTime(n: int, hour: int, minute: int, second: int)
    requires n >= 0 && 0 <= hour < 24 && 0 <= minute < 60 && 0 <= second < 60
    requires TimeOfDay(n) == ClockSeconds(hour, minute, second)
    ensures Clock(n) == (hour, minute, second)
  {
    ClockMeaning(n);
    var c := Clock(n);
    ClockFieldsUnique(c.0, c.1, c.2, hour, minute, second);
  }

  /** The C# remainders of a non-negative time by an hour and by a minute
      are the tails of its clock reading. */
  lemma ClockTails(time: int)
    requires time >= 0
    ensures var (h, m, s) := Clock(time);
      && Mod(time, 60 * 60) == m * 60 + s && Mod(time, 60) == s
      && Mod(m * 60 + s, 60) == s && Mod(TimeOfDay(time), 60 * 60) == m * 60 + s
  {
    ClockMeaning(time);
    var (h, m, s) := Clock(time);
    NonNegativeAgrees(time, 86400);
    var d := time / 86400;
    assert time == d * 86400 + (h * 3600 + m * 60 + s);
    DivUnique(time, 3600, d * 24 + h, m * 60 + s);
    DivUnique(time, 60, d * 1440 + h * 60 + m, s);
    DivUnique(m * 60 + s, 60, m, s);
    DivUnique(h * 3600 + m * 60 + s, 3600, h, m * 60 + s);
    NonNegativeAgrees(time, 3600);
    NonNegativeAgrees(time, 60);
    NonNegativeAgrees(m * 60 + s, 60);
    NonNegativeAgrees(TimeOfDay(time), 3600);
  }

  /** A clock reading in range is determined by its seconds, which lie within a day. */
  lemma ClockFieldsUnique(h: int, m: int, s: int, h2: int, m2: int, s2: int)
    requires 0 <= h < 24 && 0 <= m < 60 && 0 <= s < 60
    requires 0 <= h2 < 24 && 0 <= m2 < 60 && 0 <= s2 < 60
    ensures 0 <= ClockSeconds(h, m, s) < 86400
    ensures ClockSeconds(h, m, s) == ClockSeconds(h2, m2, s2) ==> h == h2 && m == m2 && s == s2
  {
    var c := ClockSeconds(h, m, s);
    assert c == (h * 60 + m) * 60 + s;
    assert ClockSeconds(h2, m2, s2) == (h2 * 60 + m2) * 60 + s2;
    if c == ClockSeconds(h2, m2, s2) {
      DivUnique(c, 60, h * 60 + m, s);
      DivUnique(c, 60, h2 * 60 + m2, s2);
      DivUnique(h * 60 + m, 60, h, m);
      DivUnique(h2 * 60 + m2, 60, h2, m2);
    }
  }

  /** The words of SimpleDate.getFuzzyTime. */
  datatype FuzzyTime = Midnight | EarlyMorning | Morning | LateMorning | Noon | Afternoon | Evening | Night
  {
    function Order(): nat
    {
      match this
      case Midnight => 0
      case EarlyMorning => 1
      case Morning => 2
      case LateMorning => 3
      case Noon => 4
      case Afternoon => 5
      case Evening => 6
      case Night => 7
    }
  }

  /** getFuzzyTime: the period of the day an hour falls in. */
  function Fuzzy(hours: int): FuzzyTime
  {
    if hours < 1 then Midnight
    else if hours < 6 then EarlyMorning
    else if hours < 11 then Morning
    else if hours < 12 then LateMorning
    else if hours < 13 then Noon
    else if hours < 17 then Afternoon
    else if hours < 21 then Evening
    else Night
  }

  /** The periods follow one another through the day: a later hour never gets
      an earlier period, and each period starts at its own hour. */
  lemma FuzzyOrdered(h1: int, h2: int)
    requires h1 <= h2
    ensures Fuzzy(h1).Order() <= Fuzzy(h2).Order()
    ensures Fuzzy(12) == Noon && Fuzzy(0) == Midnight && Fuzzy(23) == Night
  {
  }

  /** Year numbering without a year 0 (Greyhawk's common reckoning and the
      Gregorian common era), mapped onto consecutive integers: 1 stays 1 and -1
      becomes 0. */
  function Astronomical(year: int): int
  {
    if year > 0 then year else year + 1
  }

  /** Days from the start of year 0 to the start of `year` in a calendar whose
      years follow one another back to back (negative before year 0). */
  ghost function YearStartDays(cal: Calendar, year: int): int
    decreases if year >= 0 then year else -year
  {
    if year == 0 then 0
    else if year > 0 then YearStartDays(cal, year - 1) + YearLength(cal, year - 1)
    else YearStartDays(cal, year + 1) - YearLength(cal, year)
  }

  lemma YearStartStep(cal: Calendar, year: int)
    ensures YearStartDays(cal, year + 1) == YearStartDays(cal, year) + YearLength(cal, year)
  {
  }

  /** Seconds from the start of year 0 to the moment `time` seconds into `year`. */
  ghost function Instant(cal: Calendar, year: int, time: int): int
  {
    YearStartDays(cal, year) * 86400 + time
  }

  /** The normal form the adjust methods restore: the time lies inside its year. */
  ghost predicate Normal(cal: Calendar, year: int, time: int)
  {
    0 <= time < YearLength(cal, year) * 86400
  }

  lemma YearLengthPositive(cal: Calendar, year: int)
    ensures YearLength(cal, year) >= 336
  {
    YearLengthIsMonthSum(cal, year);
  }

  /** Later years start after the end of earlier ones. */
  lemma {:induction false} YearStartMonotone(cal: Calendar, a: int, b: int)
    requires a < b
    ensures YearStartDays(cal, a) + YearLength(cal, a) <= YearStartDays(cal, b)
    decreases b - a
  {
    YearStartStep(cal, b - 1);
    if a < b - 1 {
      YearStartMonotone(cal, a, b - 1);
      YearLengthPositive(cal, b - 1);
    }
  }

  /** A moment has exactly one normal (year, time) form, so an adjust that
      promises the normal form and the moment determines its whole result. */
  lemma {:induction false} NormalUnique(cal: Calendar, y1: int, t1: int, y2: int, t2: int)
    requires Normal(cal, y1, t1) && Normal(cal, y2, t2)
    requires Instant(cal, y1, t1) == Instant(cal, y2, t2)
    ensures y1 == y2 && t1 == t2
  {
    if y1 < y2 {
      YearStartMonotone(cal, y1, y2);
    } else if y2 < y1 {
      YearStartMonotone(cal, y2, y1);
    }
  }

  /** In the calendars without leap years every year has the same length, so a
      year starts a whole number of years after year 0. */
  lemma {:induction false} FixedYearStart(cal: Calendar, year: int)
    requires !cal.ForgottenRealms? && !cal.Gregorian?
    ensures YearStartDays(cal, year) == year * TotalDays(Months(cal))
    decreases if year >= 0 then year else -year
  {
    if year > 0 {
      FixedYearStart(cal, year - 1);
    } else if year < 0 {
      FixedYearStart(cal, year + 1);
    }
  }
}
