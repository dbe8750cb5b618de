/**
 * SimpleDate of DeCamp's Timestamp.cs and its five calendars as one class.
 * The C# subclass an object belongs to is the constant `calendar`; each
 * virtual method dispatches on it.  The month table is the array `months`,
 * which copies share and which FRDate and GregorianDate patch while
 * getDate runs; every method leaves it as the constructor installed it.
 * Methods return `ok == false` where the C# code throws an
 * IndexOutOfRangeException, and then change nothing.
 */
module Timestamps {
  import opened CSharpInt
  import opened Wrappers
  import opened CalendarRules
  import opened MonthWalks
  import opened Weekdays

  /** Seconds per unit in the conversions of adjust (`if (unit <= Interval.day)
      amount *= 24`, then hours and minutes). */
  function UnitSeconds(unit: Interval): (s: int)
    ensures s > 0
    ensures AtMost(unit, Day) ==> s == 86400
    ensures unit == Second ==> s == 1
  {
    if AtMost(unit, Day) then 86400
    else if AtMost(unit, Hour) then 60 * 60
    else if AtMost(unit, Minute) then 60
    else 1
  }

  /** The seconds SimpleDate.adjust adds, as written: its first loops strip
      whole year lengths off `amount` and count each as a year, whatever the
      unit of `amount`; only the rest is converted with the unit's length. */
  function StrippedShift(amount: int, yearLength: int, unit: Interval): int
    requires yearLength > 0
  {
    Div(amount, yearLength) * yearLength * 86400 + Mod(amount, yearLength) * UnitSeconds(unit)
  }

  /** The stripping is exact for day units, and for amounts shorter than a year. */
  lemma StrippedShiftExact(amount: int, yearLength: int, unit: Interval)
    requires yearLength > 0
    requires UnitSeconds(unit) == 86400 || -yearLength < amount < yearLength
    ensures StrippedShift(amount, yearLength, unit) == amount * UnitSeconds(unit)
  {
    var q, r, f := Div(amount, yearLength), Mod(amount, yearLength), UnitSeconds(unit);
    assert amount == q * yearLength + r;
    if f == 86400 {
      calc {
        q * yearLength * 86400 + r * 86400;
        (q * yearLength + r) * 86400;
      }
    } else {
      assert q == 0;
    }
  }

  /** Adding 364 hours to a Greyhawk date moves it a whole year (364 days):
      the stripping loop compares the hours with the year length in days. */
  lemma StrippedShiftHoursCountAsYears()
    ensures YearLength(Greyhawk, 591) == 364
    ensures StrippedShift(364, 364, Hour) == 364 * 86400
    ensures 364 * UnitSeconds(Hour) == 364 * 60 * 60
  {
    YearLengthIsMonthSum(Greyhawk, 591);
  }

  /** GreyhawkDate.adjust and GregorianDate.adjust for years: there is no year
      0, so a change that reaches or crosses it moves one year further. */
  function YearAdjusted(year: int, amount: int): int
  {
    var y1 := if year < 0 && year + amount >= 0 then year + 1 else year;
    var y2 := if y1 > 0 && y1 + amount <= 0 then y1 - 1 else y1;
    y2 + amount
  }

  /** From a year other than 0 the year reached is not 0, and on the
      consecutive numbering (where -1 is 0) it is exactly `amount` further. */
  lemma YearAdjustedSkipsZero(year: int, amount: int)
    requires year != 0
    ensures YearAdjusted(year, amount) != 0
    ensures Astronomical(YearAdjusted(year, amount)) == Astronomical(year) + amount
  {
  }

  /** The day count before a month index that setDate starts from (its loop
      does not run for a negative index). */
  function MonthsBefore(month: int): nat
  {
    if month > 0 then month else 0
  }

  /** The time setDate(month, date) writes: `date` plus the days of the months
      before index `month`, as a day of the year, with the old time of day. */
  function DateTime(table: seq<MonthInfo>, month: int, date: int, time: int): int
    requires month <= |table|
  {
    (DaysBefore(table, MonthsBefore(month)) + date - 1) * 86400 + TimeOfDay(time)
  }

  /** The leap day FRDate.setDate and GregorianDate.setDate add for month index
      i: FRDate for a month of zero days, GregorianDate for February. */
  function SetDateExtra(cal: Calendar, year: int, i: nat): int
    requires i < |Months(cal)|
  {
    match cal
    case ForgottenRealms => if Months(cal)[i].days == 0 && RealmsLeapYear(year) then 1 else 0
    case Gregorian => if i == February && GregorianLeapYear(year) then 1 else 0
    case _ => 0
  }

  /** The days setDate adds for one month are those of the month table getDate
      walks that year: Shieldmeet is the only month without days. */
  lemma SetDateCountsEffectiveMonths(cal: Calendar, year: int, i: nat)
    requires i < |Months(cal)|
    ensures EffectiveMonths(cal, year)[i].days == Months(cal)[i].days + SetDateExtra(cal, year, i)
  {
    if cal.ForgottenRealms? {
      assert Months(cal)[i].days == 0 <==> i == Shieldmeet;
    }
  }

  /** The hour, minute and second setters of SimpleDate.set. */
  function WithHour(time: int, hour: int): int
  {
    var tail := Mod(time, 86400);
    time - tail + hour * 60 * 60 + Mod(tail, 60 * 60)
  }

  function WithMinute(time: int, minute: int): int
  {
    var tail := Mod(time, 60 * 60);
    time - tail + minute * 60 + Mod(tail, 60)
  }

  function WithSecond(time: int, second: int): int
  {
    time - Mod(time, 60) + second
  }

  /** Setting the hour of a non-negative time to one of 0..23 reads back as
      that hour, keeps the minutes, the seconds and the day. */
  lemma {:induction false} WithHourMeaning(time: int, hour: int)
    requires time >= 0 && 0 <= hour < 24
    ensures Clock(WithHour(time, hour)) == (hour, Clock(time).1, Clock(time).2)
    ensures DayOfYear(WithHour(time, hour)) == DayOfYear(time)
  {
    ClockTails(time);
    var (h, m, s) := Clock(time);
    assert WithHour(time, hour) == time - TimeOfDay(time) + ClockSeconds(hour, m, s);
    ClockRoundTrip(time, hour, m, s);
  }

  /** Setting the minute to one of 0..59 keeps the hour, the second and the day. */
  lemma {:induction false} WithMinuteMeaning(time: int, minute: int)
    requires time >= 0 && 0 <= minute < 60
    ensures Clock(WithMinute(time, minute)) == (Clock(time).0, minute, Clock(time).2)
    ensures DayOfYear(WithMinute(time, minute)) == DayOfYear(time)
  {
    ClockMeaning(time);
    ClockTails(time);
    var (h, m, s) := Clock(time);
    assert WithMinute(time, minute) == time - TimeOfDay(time) + ClockSeconds(h, minute, s);
    ClockRoundTrip(time, h, minute, s);
  }

  /** Setting the second to one of 0..59 keeps the hour, the minute and the day. */
  lemma {:induction false} WithSecondMeaning(time: int, second: int)
    requires time >= 0 && 0 <= second < 60
    ensures Clock(WithSecond(time, second)) == (Clock(time).0, Clock(time).1, second)
    ensures DayOfYear(WithSecond(time, second)) == DayOfYear(time)
  {
    ClockMeaning(time);
    ClockTails(time);
    var (h, m, s) := Clock(time);
    assert WithSecond(time, second) == time - TimeOfDay(time) + ClockSeconds(h, m, second);
    ClockRoundTrip(time, h, m, second);
  }

  /** The year and time the constructors start from. */
  function DefaultYear(cal: Calendar): int
  {
    match cal
    case Campaign => 0
    case Greyhawk => 591
    case Eberron => 998
    case ForgottenRealms => 1491
    case Gregorian => 2018
  }

  /** Days per unit in CampaignDate.adjust: a year is 365 days, a month 30 and
      a week 7. */
  function CampaignDays(unit: Interval): int
  {
    match unit
    case Year => 365
    case Month => 30
    case Week => 7
    case _ => 1
  }

  class SimpleDate {
    /** The C# subclass. */
    const calendar: Calendar
    /** The month table, shared with every copy. */
    const months: array<MonthInfo>
    var year: int
    /** Seconds since the start of the year. */
    var time: int
    var precision: Interval
    /** CampaignDate's day counter (the other calendars keep it at 0). */
    var date: int

    ghost predicate Valid()
      reads this, months
    {
      months[..] == Months(calendar)
    }

    /** The constructors of the five calendars. */
    constructor (cal: Calendar)
      ensures Valid() && fresh(months)
      ensures calendar == cal && year == DefaultYear(cal) && time == 12 * 60 * 60 && precision == Time
      ensures date == if cal.Campaign? then 1 else 0
    {
      calendar := cal;
      var table := Months(cal);
      months := new MonthInfo[|table|](i requires 0 <= i < |table| => table[i]);
      year := DefaultYear(cal);
      time := 12 * 60 * 60;
      precision := Time;
      date := if cal.Campaign? then 1 else 0;
    }

    /** The field-by-field copy behind Timestamp.copy. */
    constructor Clone(other: SimpleDate)
      ensures calendar == other.calendar && months == other.months
      ensures year == other.year && time == other.time && precision == other.precision && date == other.date
    {
      calendar := other.calendar;
      months := other.months;
      year := other.year;
      time := other.time;
      precision := other.precision;
      date := other.date;
    }

    /** Timestamp.copy: a new object with the same fields; the month table is
        the same array, not a copy of it. */
    method Copy() returns (c: SimpleDate)
      requires Valid()
      ensures fresh(c) && c.Valid() && c.months == months
      ensures c.calendar == calendar && c.year == year && c.time == time
      ensures c.precision == precision && c.date == date
    {
      c := new SimpleDate.Clone(this);
    }

    /** Timestamp.setPrecision. */
    method SetPrecision(p: Interval)
      modifies this`precision
      ensures precision == p
    {
      precision := p;
    }

    /** getDayOfYear: CampaignDate's day counter, otherwise the whole days
        elapsed in the year, counted from 1. */
    function GetDayOfYear(): int
      reads this
    {
      if calendar.Campaign? then date else DayOfYear(time)
    }

    /** getTime: the seconds into the current day. */
    function GetTime(): (t: int)
      reads this
      ensures time >= 0 ==> 0 <= t < 86400
      ensures time < 0 ==> -86400 < t <= 0
      ensures time == Div(time, 86400) * 86400 + t
    {
      TimeOfDay(time)
    }

    /** isLeapYear of FRDate and GregorianDate; the other calendars have none. */
    predicate IsLeapYear()
      reads this
    {
      LeapYear(calendar, year)
    }

    /** getYearLength: FRDate and GregorianDate count 365 days and the leap day,
        the others add up the month table. */
    method GetYearLength() returns (n: int)
      requires Valid()
      ensures n == YearLength(calendar, year)
      ensures n == TotalDays(EffectiveMonths(calendar, year))
    {
      YearLengthIsMonthSum(calendar, year);
      if calendar.ForgottenRealms? || calendar.Gregorian? {
        n := 365 + (if IsLeapYear() then 1 else 0);
        return;
      }
      n := 0;
      var i := 0;
      while i < months.Length
        invariant 0 <= i <= months.Length
        invariant n == DaysBefore(months[..], i)
      {
        n := n + months[i].days;
        i := i + 1;
      }
    }

    /** The loop of SimpleDate.getDate on the table as it stands. */
    method WalkMonths(dayOfYear: int) returns (month: int, day: int)
      ensures (month, day) == Locate(months[..], dayOfYear)
    {
      var m := 0;
      day := dayOfYear;
      while m < months.Length && day > months[m].days
        invariant 0 <= m <= months.Length
        invariant LocateFrom(months[..], m, day) == Locate(months[..], dayOfYear)
        decreases months.Length - m
      {
        day := day - months[m].days;
        m := m + 1;
      }
      month := m + 1;
    }

    /** getDate: the 1-based month and the day of the month.  FRDate gives
        Shieldmeet a day and GregorianDate gives February 29 days in a leap
        year while the walk runs, and then put the old length back. */
    method GetDate() returns (month: int, day: int)
      requires Valid()
      modifies months
      ensures Valid() && months[..] == old(months[..])
      ensures (month, day) == Locate(EffectiveMonths(calendar, year), GetDayOfYear())
    {
      if calendar.ForgottenRealms? || calendar.Gregorian? {
        var patched := if calendar.ForgottenRealms? then Shieldmeet else February;
        var oldDays := months[patched].days;
        if IsLeapYear() {
          months[patched] := months[patched].(days := if calendar.ForgottenRealms? then 1 else 29);
        }
        assert months[..] == EffectiveMonths(calendar, year);
        month, day := WalkMonths(GetDayOfYear());
        months[patched] := months[patched].(days := oldDays);
        assert months[..] == Months(calendar);
      } else {
        month, day := WalkMonths(GetDayOfYear());
      }
    }

    /** setDayOfYear: the given day of the year at the current time of day. */
    method SetDayOfYear(day: int)
      modifies this`time
      ensures time == (day - 1) * 86400 + TimeOfDay(old(time))
      ensures old(time) >= 0 && day >= 1 ==> DayOfYear(time) == day && TimeOfDay(time) == TimeOfDay(old(time))
    {
      if old(time) >= 0 && day >= 1 {
        SetDayOfYearRoundTrip(time, day);
      }
      time := (day - 1) * 86400 + GetTime();
    }

    /** setTime(int): the given seconds into the current day. */
    method SetTime(t: int)
      modifies this`time
      ensures time == old(time) - TimeOfDay(old(time)) + t
      ensures old(time) >= 0 && 0 <= t < 86400 ==> TimeOfDay(time) == t && DayOfYear(time) == DayOfYear(old(time))
    {
      if time >= 0 && 0 <= t < 86400 {
        SetTimeRoundTrip(time, t);
      }
      time := time - GetTime();
      time := time + t;
    }

    /** setTime(hour, minute, second). */
    method SetClock(hour: int, minute: int, second: int)
      modifies this`time
      ensures time == old(time) - TimeOfDay(old(time)) + ClockSeconds(hour, minute, second)
      ensures old(time) >= 0 && 0 <= hour < 24 && 0 <= minute < 60 && 0 <= second < 60 ==>
        Clock(time) == (hour, minute, second) && DayOfYear(time) == DayOfYear(old(time))
    {
      if time >= 0 && 0 <= hour < 24 && 0 <= minute < 60 && 0 <= second < 60 {
        ClockRoundTrip(time, hour, minute, second);
      }
      SetTime(hour * 60 * 60 + minute * 60 + second);
    }

    /** setDate(month, date), where `month` counts the months before the date
        (a 0-based index).  FRDate adds Shieldmeet's leap day and
        GregorianDate February's when the year leaps, so the day counted is
        the one getDate reads back: setDate followed by getDate returns the
        1-based month and the day, for a day inside its month. */
    method SetDate(month: int, date: int) returns (ok: bool)
      requires Valid()
      modifies this`time
      ensures ok == (month <= months.Length)
      ensures ok ==> time == DateTime(EffectiveMonths(calendar, year), month, date, old(time))
      ensures !ok ==> time == old(time)
      ensures ok && !calendar.Campaign? && 0 <= month < months.Length && old(time) >= 0
              && 1 <= date <= EffectiveMonths(calendar, year)[month].days ==>
        Locate(EffectiveMonths(calendar, year), GetDayOfYear()) == (month + 1, date)
        && TimeOfDay(time) == TimeOfDay(old(time))
    {
      if month > months.Length {
        // the first pass of the loop reads months[month - 1]
        return false;
      }
      ok := true;
      ghost var table := EffectiveMonths(calendar, year);
      var day := SetDateDayOfYear(month, date);
      ghost var oldTime := time;
      SetDayOfYear(day);
      assert time == DateTime(table, month, date, oldTime);
      if !calendar.Campaign? && 0 <= month < months.Length && oldTime >= 0 && 1 <= date <= table[month].days {
        TablesNonNegative(calendar, year);
        DaysBeforeMonotone(table, 0, month);
        LocateDaysBefore(table, month, date);
      }
    }

    /** setDate's loop: `date` plus the days of the months before index
        `month`, as getDate counts them that year. */
    method SetDateDayOfYear(month: int, date: int) returns (day: int)
      requires Valid() && month <= months.Length
      ensures day == date + DaysBefore(EffectiveMonths(calendar, year), MonthsBefore(month))
    {
      ghost var table := EffectiveMonths(calendar, year);
      var m := month;
      day := date;
      while m > 0
        invariant 0 <= MonthsBefore(m) <= MonthsBefore(month) <= months.Length
        invariant m > 0 ==> m == MonthsBefore(m)
        invariant day == date + DaysBefore(table, MonthsBefore(month)) - DaysBefore(table, MonthsBefore(m))
      {
        m := m - 1;
        var days := SetDateMonthDays(m);
        assert DaysBefore(table, m + 1) == DaysBefore(table, m) + table[m].days;
        day := day + days;
      }
    }

    /** One pass of setDate's loop: the days of month index m, plus the leap
        day FRDate adds to its month of no days and GregorianDate to
        February in a leap year. */
    method SetDateMonthDays(m: int) returns (days: int)
      requires Valid() && 0 <= m < months.Length
      ensures days == EffectiveMonths(calendar, year)[m].days
    {
      SetDateCountsEffectiveMonths(calendar, year, m);
      assert months[m] == Months(calendar)[m];
      days := months[m].days;
      if calendar.ForgottenRealms? && months[m].days == 0 && IsLeapYear() {
        days := days + 1;
      } else if calendar.Gregorian? && m == February && IsLeapYear() {
        days := days + 1;
      }
    }

    /** SimpleDate.adjust.  A week or a time of day changes nothing; years are
        added to the year; months are converted to the days of the months
        walked from the current one; then whole year lengths are stripped off
        the amount, the rest converted to seconds and added, and the time
        brought back into the year.  The year length is read once, so for
        the calendars without a leap year the result is the normal form. */
    method AdjustBase(amount: int, unit: Interval) returns (ok: bool)
      requires Valid()
      modifies this`year, this`time, months
      ensures Valid()
      ensures unit == Week || unit == Time ==> ok && year == old(year) && time == old(time)
      ensures unit == Year ==> ok && year == old(year) + amount && time == old(time)
      ensures unit == Month ==>
        var m0 := old(Locate(EffectiveMonths(calendar, year), GetDayOfYear())).0 - 1;
        && ok == !(m0 == months.Length && amount > 0)
        && (!ok ==> year == old(year) && time == old(time))
        && (ok ==> Stripped(old(year), old(time), BaseMonthDays(Months(calendar), m0, amount), Day,
                            old(YearLength(calendar, year)), year, time))
      ensures unit != Week && unit != Time && unit != Year && unit != Month ==>
        ok && Stripped(old(year), old(time), amount, unit, old(YearLength(calendar, year)), year, time)
    {
      if unit == Week || unit == Time {
        return true;
      }
      if unit == Year {
        year := year + amount;
        return true;
      }
      ghost var year0, time0 := year, time;
      var days := amount;
      var u := unit;
      if unit == Month {
        ok, days := MonthsToDays(amount);
        if !ok {
          return false;
        }
        u := Day;
      }
      ok := true;
      var yearLength := GetYearLength();
      YearLengthPositive(calendar, year);
      StripAndNormalise(days, u, yearLength);
    }

    /** The month branch of SimpleDate.adjust up to the stripping: the
        current month from getDate, the refusal to walk forward from past
        the last month, and the days of the months walked. */
    method MonthsToDays(amount: int) returns (ok: bool, days: int)
      requires Valid()
      modifies months
      ensures Valid() && months[..] == old(months[..])
      ensures var m0 := old(Locate(EffectiveMonths(calendar, year), GetDayOfYear())).0 - 1;
        && ok == !(m0 == months.Length && amount > 0)
        && (ok ==> days == BaseMonthDays(Months(calendar), m0, amount))
    {
      var m1, _ := GetDate();
      var month := m1 - 1;
      TablesNonNegative(calendar, year);
      LocateMeaning(EffectiveMonths(calendar, year), GetDayOfYear());
      if month == months.Length && amount > 0 {
        return false, 0;
      }
      assert months[..] == Months(calendar);
      days := MonthDays(month, amount);
      ok := true;
    }

    /** The month-to-day loops of SimpleDate.adjust from month index m. */
    method MonthDays(m: int, amount: int) returns (days: int)
      requires months.Length > 0 && 0 <= m <= months.Length && (amount > 0 ==> m < months.Length)
      ensures days == BaseMonthDays(months[..], m, amount)
    {
      var month := m;
      var n := amount;
      days := 0;
      while n > 0
        invariant 0 <= month <= months.Length && (amount > 0 ==> month < months.Length)
        invariant amount > 0 ==> 0 <= n <= amount && days + ForwardDays(months[..], month, n) == ForwardDays(months[..], m, amount)
        invariant amount <= 0 ==> n == amount && days == 0 && month == m
        invariant amount > 0 ==> n >= 0
      {
        days := days + months[month].days;
        month := month + 1;
        if month >= months.Length {
          month := 0;
        }
        n := n - 1;
      }
      while n < 0
        invariant 0 <= month <= months.Length && n <= 0 && (amount < 0 ==> amount <= n)
        invariant amount < 0 ==> days + BackwardDays(months[..], month, -n) == BackwardDays(months[..], m, -amount)
        invariant amount >= 0 ==> n == 0
        invariant amount > 0 ==> days == ForwardDays(months[..], m, amount)
        invariant amount == 0 ==> days == 0
      {
        month := month - 1;
        if month < 0 {
          month := months.Length - 1;
        }
        days := days - months[month].days;
        n := n + 1;
      }
    }

    /** The stripping and normalising tail of SimpleDate.adjust, with the year
        length read once at its start. */
    method StripAndNormalise(amount: int, unit: Interval, yearLength: int)
      requires yearLength > 0
      modifies this`year, this`time
      ensures Stripped(old(year), old(time), amount, unit, yearLength, year, time)
    {
      var rest := StripYears(amount, yearLength);
      time := time + rest * UnitSeconds(unit);
      ghost var year1, time1 := year, time;
      NormaliseTime(yearLength * 86400);
      StrippedMoment(old(year), old(time), amount, unit, yearLength, year1, time1, year, time);
    }

    /** The first two loops of SimpleDate.adjust: whole years of `amount` go
        into the year, C#'s quotient of them, and the remainder is returned. */
    method StripYears(amount: int, yearLength: int) returns (rest: int)
      requires yearLength > 0
      modifies this`year
      ensures year == old(year) + Div(amount, yearLength) && rest == Mod(amount, yearLength)
    {
      rest := amount;
      ghost var years := 0;
      while rest >= yearLength
        invariant year == old(year) + years && rest == amount - years * yearLength
        invariant amount >= 0 ==> rest >= 0 && years >= 0
        invariant amount < 0 ==> years == 0
        decreases rest
      {
        MulStep(years, yearLength);
        year := year + 1;
        rest := rest - yearLength;
        years := years + 1;
      }
      while rest <= -yearLength
        invariant year == old(year) + years && rest == amount - years * yearLength
        invariant rest < yearLength
        invariant amount >= 0 ==> rest >= 0
        invariant amount < 0 ==> rest <= 0 && years <= 0
        decreases -rest
      {
        MulStep(years - 1, yearLength);
        year := year - 1;
        rest := rest + yearLength;
        years := years - 1;
      }
      StripCounts(amount, rest, yearLength, years);
    }

    /** The last two loops of SimpleDate.adjust: whole years of seconds move
        from the time into the year until the time lies within one year. */
    method NormaliseTime(yearSeconds: int)
      requires yearSeconds > 0
      modifies this`year, this`time
      ensures 0 <= time < yearSeconds
      ensures year * yearSeconds + time == old(year) * yearSeconds + old(time)
    {
      while time >= yearSeconds
        invariant year * yearSeconds + time == old(year) * yearSeconds + old(time)
        decreases time
      {
        MulStep(year, yearSeconds);
        year := year + 1;
        time := time - yearSeconds;
      }
      while time < 0
        invariant year * yearSeconds + time == old(year) * yearSeconds + old(time)
        invariant time < yearSeconds
        decreases -time
      {
        MulStep(year - 1, yearSeconds);
        year := year - 1;
        time := time + yearSeconds;
      }
    }

    /** The last step of FRDate.adjust and GregorianDate.adjust for the finer
        units: the seconds are added to the time, and the normalising loops
        then read the length of each year as they pass it. */
    method NormaliseByYear(seconds: int)
      requires Valid()
      modifies this`year, this`time
      ensures Normal(calendar, year, time)
      ensures Instant(calendar, year, time) == old(Instant(calendar, year, time)) + seconds
    {
      time := time + seconds;
      var length := GetYearLength();
      YearLengthPositive(calendar, year);
      while time >= length * 86400
        invariant Instant(calendar, year, time) == old(Instant(calendar, year, time)) + seconds
        invariant length == YearLength(calendar, year) && length > 0
        decreases time
      {
        YearStartStep(calendar, year);
        time := time - length * 86400;
        year := year + 1;
        length := GetYearLength();
        YearLengthPositive(calendar, year);
      }
      while time < 0
        invariant Instant(calendar, year, time) == old(Instant(calendar, year, time)) + seconds
        invariant time < YearLength(calendar, year) * 86400
        decreases -time
      {
        year := year - 1;
        YearStartStep(calendar, year);
        length := GetYearLength();
        YearLengthPositive(calendar, year);
        time := time + length * 86400;
      }
    }

    /** CampaignDate.adjust: years, months and weeks are 365, 30 and 7 days,
        and days only move the day counter; hours, minutes and seconds move
        the time, which is brought back into one day by carrying whole days
        into the counter.  A time of day is ignored. */
    method AdjustCampaign(amount: int, unit: Interval)
      requires calendar.Campaign?
      modifies this`date, this`time
      ensures CampaignAdjusted(old(date), old(time), amount, unit, date, time)
    {
      if unit == Time {
        return;
      }
      var n := amount;
      var u := unit;
      if u == Year {
        n := n * 365;
        u := Day;
      }
      if u == Month {
        n := n * 30;
        u := Day;
      }
      if u == Week {
        n := n * 7;
        u := Day;
      }
      if AtMost(u, Day) {
        date := date + n;
        return;
      }
      if AtMost(u, Hour) {
        n := n * 60;
      }
      if AtMost(u, Minute) {
        n := n * 60;
      }
      time := time + n;
      while time >= 86400
        invariant date * 86400 + time == old(date) * 86400 + old(time) + amount * UnitSeconds(unit)
        decreases time
      {
        date := date + 1;
        time := time - 86400;
      }
      while time < 0
        invariant date * 86400 + time == old(date) * 86400 + old(time) + amount * UnitSeconds(unit)
        invariant time < 86400
        decreases -time
      {
        date := date - 1;
        time := time + 86400;
      }
    }

    /** GreyhawkDate.adjust.  Years skip year 0; months are converted to the
        days of the months walked, stepping over festivals (forward as
        written, see FestivalStepAsWritten); weeks are seven days; the rest is
        SimpleDate.adjust.  Greyhawk years all have 364 days, so the result is
        the normal form of the moment moved by the days (or, for hours,
        minutes and seconds, by the stripped shift). */
    method AdjustGreyhawk(amount: int, unit: Interval) returns (ok: bool)
      requires Valid() && calendar.Greyhawk?
      modifies this`year, this`time, months
      ensures Valid()
      ensures GreyhawkAdjusted(old(year), old(time), amount, unit, ok, year, time)
    {
      if unit == Year {
        if year < 0 && year + amount >= 0 {
          year := year + 1;
        }
        if year > 0 && year + amount <= 0 {
          year := year - 1;
        }
        year := year + amount;
        return true;
      }
      if unit == Time {
        return true;
      }
      if unit == Month {
        ok := GreyhawkMonthShift(amount);
        return;
      }
      var days := amount;
      var u := unit;
      if u == Week {
        days := days * 7;
        u := Day;
      }
      ok := GreyhawkShift(days, u);
    }

    /** The month branch of GreyhawkDate.adjust: the month walk's days,
        handed on to the day shift. */
    method GreyhawkMonthShift(amount: int) returns (ok: bool)
      requires Valid() && calendar.Greyhawk?
      modifies this`year, this`time, months
      ensures Valid()
      ensures GreyhawkMonthsMoved(old(year), old(time), amount, ok, year, time)
    {
      var days;
      ok, days := GreyhawkMonthsToDays(amount);
      if !ok {
        return;
      }
      ok := GreyhawkShift(days, Day);
    }

    /** SimpleDate.adjust on a Greyhawk date for days, hours, minutes and
        seconds: whole years of the amount move the moment by 364 days each,
        the rest by the unit. */
    method GreyhawkShift(amount: int, unit: Interval) returns (ok: bool)
      requires Valid() && calendar.Greyhawk? && AtMost(Day, unit) && unit != Time
      modifies this`year, this`time, months
      ensures Valid() && ok && Normal(calendar, year, time)
      ensures Instant(calendar, year, time) == old(Instant(calendar, year, time)) + StrippedShift(amount, 364, unit)
      ensures unit == Day ==> Instant(calendar, year, time) == old(Instant(calendar, year, time)) + amount * 86400
    {
      YearLengthIsMonthSum(calendar, year);
      ghost var year0, time0 := year, time;
      ok := AdjustBase(amount, unit);
      StrippedInstant(calendar, year0, time0, amount, unit, year, time);
      if unit == Day {
        StrippedShiftExact(amount, 364, Day);
      }
    }

    /** The month branch of GreyhawkDate.adjust: the days the month walk
        from the current month covers, or false when the current month is
        past the table and the walk goes forward. */
    method GreyhawkMonthsToDays(amount: int) returns (ok: bool, days: int)
      requires Valid() && calendar.Greyhawk?
      modifies months
      ensures Valid() && months[..] == old(months[..])
      ensures var m0 := old(Locate(EffectiveMonths(calendar, year), GetDayOfYear())).0 - 1;
        && ok == !(m0 == |GreyhawkMonths| && amount > 0)
        && (ok ==> 0 <= m0 <= |GreyhawkMonths| && days == FestivalDays(GreyhawkMonths, m0, amount))
    {
      var m1, _ := GetDate();
      var month := m1 - 1;
      TablesNonNegative(calendar, year);
      LocateMeaning(EffectiveMonths(calendar, year), GetDayOfYear());
      if month == months.Length && amount > 0 {
        return false, 0;
      }
      days := GreyhawkMonthDays(month, amount);
      ok := true;
    }

    /** The month-to-day loops of GreyhawkDate.adjust from month index m:
        forward a festival the walk stands on and the month after it,
        backward a month and the festival before it. */
    method GreyhawkMonthDays(m: int, amount: int) returns (days: int)
      requires 0 < months.Length && 0 <= m <= months.Length && (amount > 0 ==> m < months.Length)
      ensures days == FestivalDays(months[..], m, amount)
    {
      var month := m;
      var n := amount;
      days := 0;
      while n > 0
        invariant 0 <= month <= months.Length && (amount > 0 ==> month < months.Length)
        invariant amount > 0 ==> 0 <= n && days + FestivalForwardAsWritten(months[..], month, n) == FestivalForwardAsWritten(months[..], m, amount)
        invariant amount <= 0 ==> n == amount && days == 0 && month == m
      {
        var d, next := FestivalStepForward(month);
        days := days + d;
        month := next;
        n := n - 1;
      }
      while n < 0
        invariant 0 <= month <= months.Length && n <= 0 && (amount < 0 ==> amount <= n)
        invariant amount < 0 ==> days + FestivalBackward(months[..], month, -n) == FestivalBackward(months[..], m, -amount)
        invariant amount >= 0 ==> n == 0 && days == FestivalDays(months[..], m, amount)
      {
        var d, prev := FestivalStepBackward(month);
        days := days + d;
        month := prev;
        n := n + 1;
      }
    }

    /** One month forward in GreyhawkDate.adjust: a festival the walk stands
        on with its days, then the month's days. */
    method FestivalStepForward(month: int) returns (d: int, next: int)
      requires 0 <= month < months.Length
      ensures (d, next) == FestivalStepAsWritten(months[..], month)
    {
      d, next := 0, month;
      if months[next].isVirtual {
        d := months[next].days;
        next := next + 1;
        if next >= months.Length {
          next := 0;
        }
      }
      d := d + months[next].days;
      next := next + 1;
      if next >= months.Length {
        next := 0;
      }
    }

    /** One month backward in GreyhawkDate.adjust: the previous month's days,
        and before a festival the month before it too. */
    method FestivalStepBackward(month: int) returns (d: int, prev: int)
      requires 0 < months.Length && 0 <= month <= months.Length
      ensures (d, prev) == FestivalStepBack(months[..], month)
    {
      prev := month - 1;
      if prev < 0 {
        prev := months.Length - 1;
      }
      d := -months[prev].days;
      if months[prev].isVirtual {
        prev := prev - 1;
        if prev < 0 {
          prev := months.Length - 1;
        }
        d := d - months[prev].days;
      }
    }

    /** EberronDate.adjust: a month is 28 days and a week 7; the rest is
        SimpleDate.adjust, whose result is the normal form of the moved
        moment (Eberron years all have 336 days). */
    method AdjustEberron(amount: int, unit: Interval) returns (ok: bool)
      requires Valid() && calendar.Eberron?
      modifies this`year, this`time, months
      ensures Valid() && ok
      ensures EberronAdjusted(old(year), old(time), amount, unit, year, time)
    {
      YearLengthIsMonthSum(calendar, year);
      ghost var year0, time0 := year, time;
      var days := amount;
      var u := unit;
      if u == Month {
        days := days * 28;
        u := Day;
      }
      if u == Week {
        days := days * 7;
        u := Day;
      }
      ok := AdjustBase(days, u);
      if u != Time && u != Year {
        StrippedInstant(calendar, year0, time0, days, u, year, time);
        if u == Day {
          StrippedShiftExact(days, 336, Day);
        }
      }
    }

    /** FRDate.adjust.  A time of day is ignored and years are added.  Months
        and tendays (the unit `week`) move the date along the twelve regular
        months as RealmsShift describes, carrying the year, and setDate
        places it in the year reached; a date past the year's end makes the
        first table read fail.  Days, hours, minutes and seconds move the
        moment, which is then brought into the normal form with the year
        length of each year passed. */
    method AdjustRealms(amount: int, unit: Interval) returns (ok: bool)
      requires Valid() && calendar.ForgottenRealms?
      modifies this`year, this`time, months
      ensures Valid()
      ensures RealmsAdjusted(old(year), old(time), amount, unit, ok, year, time)
    {
      if unit == Time {
        return true;
      }
      if unit == Year {
        year := year + amount;
        return true;
      }
      if unit == Month || unit == Week {
        ok := RealmsMonthShift(amount, unit == Week);
        return;
      }
      ok := true;
      var n := amount;
      if AtMost(unit, Day) {
        n := n * 24;
      }
      if AtMost(unit, Hour) {
        n := n * 60;
      }
      if AtMost(unit, Minute) {
        n := n * 60;
      }
      assert n == amount * UnitSeconds(unit);
      NormaliseByYear(n);
    }

    /** The month and tenday branch of FRDate.adjust. */
    method RealmsMonthShift(amount: int, weeks: bool) returns (ok: bool)
      requires Valid() && calendar.ForgottenRealms?
      modifies this`year, this`time, months
      ensures Valid()
      ensures RealmsMonthsMoved(old(year), old(time), amount, weeks, ok, year, time)
    {
      var m1, date := GetDate();
      TablesNonNegative(calendar, year);
      LocateMeaning(EffectiveMonths(calendar, year), GetDayOfYear());
      var month := m1 - 1;
      if month >= months.Length {
        // months[month].isVirtual reads past the table
        return false;
      }
      month, date := RealmsTarget(month, date, amount, weeks);
      ok := SetDate(month, date);
    }

    /** FRDate.adjust's month walk from day `date` of month index m: the
        month index and day handed to setDate, with the years carried into
        the year on the way. */
    method RealmsTarget(m: int, date: int, amount: int, weeks: bool) returns (month: int, date1: int)
      requires Valid() && calendar.ForgottenRealms? && 0 <= m < months.Length
      modifies this`year
      ensures var r := RealmsShift(m, date, amount, weeks);
        month == r.month && date1 == r.date && year == old(year) + r.years
    {
      var wasFestival, wasMidsummer;
      month, wasFestival, wasMidsummer := RealmsStartMonth(m);
      var n := amount;
      date1 := date;
      if weeks {
        n, date1, wasFestival, wasMidsummer := SplitTendays(amount, date, wasFestival, wasMidsummer);
      }
      month := RealmsWalkMonths(month, n);
      month := FestivalLandingMonth(month, wasFestival, wasMidsummer);
    }

    /** FRDate.adjust's month loops: forward for a positive count, backward
        for a negative one. */
    method RealmsWalkMonths(m: int, n: int) returns (month: int)
      requires Valid() && calendar.ForgottenRealms? && 0 <= m < months.Length
      modifies this`year
      ensures (month, year - old(year)) == RealmsWalk(m, n)
    {
      assert months[..] == RealmsMonths;
      if n >= 0 {
        month := RealmsForward(m, n);
      } else {
        month := RealmsBackward(m, -n);
      }
    }

    /** Timestamp.adjust, dispatched to the calendar's override.  Whatever
        the calendar, a time of day changes nothing; the four calendars with
        years leave a normalised time after days, hours, minutes and seconds
        (and GregorianDate after weeks), CampaignDate a time within the day
        after hours, minutes and seconds; GreyhawkDate and GregorianDate
        never reach year 0 from another year.  Where the moment moves is
        each override's: CampaignDate counts days, GreyhawkDate walks its
        festival months as written, EberronDate has 28-day months, FRDate
        walks its regular months and tendays, and GregorianDate its twelve
        months. */
    method Adjust(amount: int, unit: Interval) returns (ok: bool)
      requires Valid()
      modifies this`year, this`time, this`date, months
      ensures Valid()
      ensures calendar.Campaign? ==>
        ok && year == old(year) && CampaignAdjusted(old(date), old(time), amount, unit, date, time)
      ensures !calendar.Campaign? ==> date == old(date)
      ensures calendar.Greyhawk? ==> GreyhawkAdjusted(old(year), old(time), amount, unit, ok, year, time)
      ensures calendar.Eberron? ==> ok && EberronAdjusted(old(year), old(time), amount, unit, year, time)
      ensures calendar.ForgottenRealms? ==> RealmsAdjusted(old(year), old(time), amount, unit, ok, year, time)
      ensures calendar.Gregorian? ==> ok && GregorianAdjusted(old(year), old(time), amount, unit, year, time)
    {
      match calendar
      case Campaign =>
        AdjustCampaign(amount, unit);
        ok := true;
      case Greyhawk =>
        ok := AdjustGreyhawk(amount, unit);
      case Eberron =>
        ok := AdjustEberron(amount, unit);
      case ForgottenRealms =>
        ok := AdjustRealms(amount, unit);
      case Gregorian =>
        AdjustGregorian(amount, unit);
        ok := true;
    }

    /** SimpleDate.set.  A year is written as given; a month goes through
        setDate with the day of the month kept, and a day with the month
        getDate reports (1-based, which setDate reads as the count of months
        before, so the day lands in the following month); hour, minute and
        second replace that field of the time.  A week changes nothing.  The
        precision rises to the unit set, unless setDate read past the month
        table. */
    method Set(value: int, unit: Interval) returns (ok: bool)
      requires Valid()
      modifies this`year, this`time, this`precision, months
      ensures Valid()
      ensures unit == Year ==> ok && year == value && time == old(time)
      ensures unit != Year ==> year == old(year)
      ensures unit == Month ==>
        var d := old(Locate(EffectiveMonths(calendar, year), GetDayOfYear())).1;
        && ok == (value <= months.Length)
        && time == if ok then DateTime(EffectiveMonths(calendar, year), value, d, old(time)) else old(time)
      ensures unit == Day ==>
        var m := old(Locate(EffectiveMonths(calendar, year), GetDayOfYear())).0;
        && ok == (m <= months.Length)
        && time == if ok then DateTime(EffectiveMonths(calendar, year), m, value, old(time)) else old(time)
      ensures unit == Time || unit == Hour ==> ok && time == WithHour(old(time), value)
      ensures unit == Minute ==> ok && time == WithMinute(old(time), value)
      ensures unit == Second ==> ok && time == WithSecond(old(time), value)
      ensures unit == Week ==> ok && time == old(time)
      ensures precision == if ok && old(precision).Rank() < unit.Rank() then unit else old(precision)
    {
      ok := true;
      match unit {
      case Year =>
        year := value;
      case Month =>
        var _, d := GetDate();
        ok := SetDate(value, d);
      case Day =>
        var m, _ := GetDate();
        ok := SetDate(m, value);
      case Time =>
        time := WithHour(time, value);
      case Hour =>
        time := WithHour(time, value);
      case Minute =>
        time := WithMinute(time, value);
      case Second =>
        time := WithSecond(time, value);
      case Week =>
      }
      if ok && precision.Rank() < unit.Rank() {
        precision := unit;
      }
    }

    /** getWeekday, as the index into the calendar's day names, or no weekday
        (C# null): none in CampaignDate and FRDate and on a Greyhawk
        festival.  An index read outside an array fails: the Greyhawk month
        table past the year's end, and the day names at a negative index. */
    method GetWeekday() returns (r: Result<Option<int>>)
      requires Valid()
      modifies months
      ensures Valid()
      ensures calendar.Campaign? || calendar.ForgottenRealms? ==> r == Ok(None)
      ensures calendar.Greyhawk? ==>
        r == if Locate(GreyhawkMonths, GetDayOfYear()).0 > |GreyhawkMonths| then Fail(IndexOutOfRange)
             else Ok(GreyhawkWeekday(GetDayOfYear()))
      ensures calendar.Eberron? ==>
        r == if Mod(GetDayOfYear() - 1, 7) < 0 then Fail(IndexOutOfRange) else Ok(Some(EberronWeekday(GetDayOfYear())))
      ensures calendar.Gregorian? ==>
        var w := GregorianWeekday(year, GetDayOfYear());
        r == if w < 0 then Fail(IndexOutOfRange) else Ok(Some(w))
    {
      match calendar
      case Greyhawk =>
        r := GreyhawkWeekdayOf();
      case Eberron =>
        var w := Mod(GetDayOfYear() - 1, 7);
        if w < 0 {
          return Fail(IndexOutOfRange);
        }
        r := Ok(Some(w));
      case Gregorian =>
        var w := GregorianWeekdayIndex();
        if w < 0 {
          return Fail(IndexOutOfRange);
        }
        r := Ok(Some(w));
      case _ =>
        r := Ok(None);
    }

    /** GreyhawkDate.getWeekday: no weekday on a festival, else the day of
        the month counted round Starday..Freeday. */
    method GreyhawkWeekdayOf() returns (r: Result<Option<int>>)
      requires Valid() && calendar.Greyhawk?
      modifies months
      ensures Valid()
      ensures r == if Locate(GreyhawkMonths, GetDayOfYear()).0 > |GreyhawkMonths| then Fail(IndexOutOfRange)
                   else Ok(GreyhawkWeekday(GetDayOfYear()))
    {
      var m, d := GetDate();
      assert EffectiveMonths(calendar, year) == GreyhawkMonths;
      GreyhawkWeekdayOfDate(GetDayOfYear());
      if m - 1 >= months.Length {
        return Fail(IndexOutOfRange);
      }
      if months[m - 1].isVirtual {
        return Ok(None);
      }
      r := Ok(Some(Mod(d - 1, 7)));
    }

    /** GregorianDate.getWeekday. */
    method GregorianWeekdayIndex() returns (day: int)
      ensures day == GregorianWeekday(year, GetDayOfYear())
    {
      var y := CycleInto2001(year);
      day := Mod(GetDayOfYear(), 7);
      y, day := CenturySteps(y, day);
      y, day := QuadrenniumSteps(y, day);
      day := YearSteps(y, day);
    }

    /** Its first two loops: the year moved by 400-year cycles into 2001..2400. */
    static method CycleInto2001(year: int) returns (y: int)
      ensures y == CycleYear(year)
    {
      y := year;
      ghost var cycles := 0;
      while y < 2001
        invariant y >= year && y == year + 400 * cycles
        decreases 2001 - y
      {
        y := y + 400;
        cycles := cycles + 1;
      }
      while y >= 2401
        invariant y >= 2001 && y == year + 400 * cycles
        decreases y
      {
        y := y - 400;
        cycles := cycles - 1;
      }
      DivUnique(year - 2001, 400, -cycles, y - 2001);
    }

    /** The century loop: 100 years down, the weekday 124 days on, until the
        year is at most 2100. */
    static method CenturySteps(y0: int, day0: int) returns (y: int, day: int)
      requires 2001 <= y0 < 2401
      ensures 2001 <= y <= 2100 && Quadrennia(y) == Quadrennia(y0) && SingleYears(y) == SingleYears(y0)
      ensures day == Rotate(day0, 124, Centuries(y0))
    {
      y, day := y0, day0;
      while y > 2100
        invariant 2001 <= y <= y0
        invariant Rotate(day, 124, Centuries(y)) == Rotate(day0, 124, Centuries(y0))
        invariant Quadrennia(y) == Quadrennia(y0) && SingleYears(y) == SingleYears(y0)
        decreases y
      {
        y := y - 100;
        day := Mod(day + 124, 7);
      }
    }

    /** The four-year loop: 4 years down, the weekday 5 days on, until the
        year is at most 2004. */
    static method QuadrenniumSteps(y0: int, day0: int) returns (y: int, day: int)
      requires 2001 <= y0 <= 2100
      ensures 2001 <= y <= 2004 && y - 2001 == SingleYears(y0)
      ensures day == Rotate(day0, 5, Quadrennia(y0))
    {
      FirstCentury(y0);
      y, day := y0, day0;
      while y > 2004
        invariant 2001 <= y <= y0
        invariant Rotate(day, 5, (y - 2001) / 4) == Rotate(day0, 5, (y0 - 2001) / 4)
        invariant (y - 2001) % 4 == (y0 - 2001) % 4
        decreases y
      {
        y := y - 4;
        day := Mod(day + 5, 7);
      }
    }

    /** The single-year loop: one year down, the weekday one day on, until
        the year is 2001. */
    static method YearSteps(y0: int, day0: int) returns (day: int)
      requires 2001 <= y0
      ensures day == Rotate(day0, 1, y0 - 2001)
    {
      var y := y0;
      day := day0;
      while y > 2001
        invariant 2001 <= y <= y0
        invariant Rotate(day, 1, y - 2001) == Rotate(day0, 1, y0 - 2001)
        decreases y
      {
        y := y - 1;
        day := Mod(day + 1, 7);
      }
    }

    /** The start of FRDate.adjust's month branch: a festival counts as the
        first of the following month (Midsummer as the month after
        Shieldmeet). */
    method RealmsStartMonth(m: int) returns (month: int, wasFestival: bool, wasMidsummer: bool)
      requires Valid() && calendar.ForgottenRealms? && 0 <= m < months.Length
      ensures (month, wasFestival, wasMidsummer) == RealmsStart(m)
    {
      month := m;
      wasFestival, wasMidsummer := months[month].isVirtual, false;
      if wasFestival {
        month := month + 1;
        if months[month].isVirtual {
          wasMidsummer := true;
          month := month + 1;
        }
      }
    }

    /** The tenday conversion of FRDate.adjust: whole months by floor
        division by 3, and ten days for each tenday left over (one fewer from
        a festival, which then no longer counts as one). */
    static method SplitTendays(amount: int, date: int, wasFestival: bool, wasMidsummer: bool)
      returns (n: int, date1: int, festival: bool, midsummer: bool)
      requires wasMidsummer ==> wasFestival
      ensures n == TendaySplit(amount).0
      ensures var extra := TendaySplit(amount).1;
        && date1 == (if extra > 0 then date + extra * 10 - (if wasFestival then 1 else 0) else date)
        && festival == (wasFestival && !(extra > 0)) && midsummer == (wasMidsummer && !(extra > 0))
    {
      n, date1, festival, midsummer := amount, date, wasFestival, wasMidsummer;
      var extra := Mod(n, 3);
      if extra < 0 {
        extra := extra + 3;
        n := n - 3;
      }
      n := Div(n, 3);
      if extra > 0 {
        date1 := date1 + extra * 10;
        if festival {
          date1 := date1 - 1;
          festival := false;
          midsummer := false;
        }
      }
    }

    /** The end of the month branch: after starting on a festival, step back
        onto the festival before the month reached, and onto Midsummer after
        starting there. */
    method FestivalLandingMonth(m: int, wasFestival: bool, wasMidsummer: bool) returns (month: int)
      requires Valid() && calendar.ForgottenRealms? && 0 <= m < months.Length
      ensures month == FestivalLanding(m, wasFestival, wasMidsummer)
    {
      month := m;
      if wasFestival && month > 0 && months[month - 1].isVirtual {
        month := month - 1;
        if wasMidsummer && month > 0 && months[month - 1].isVirtual {
          month := month - 1;
        }
      }
    }

    /** The forward month loop of FRDate.adjust: n times the next month,
        wrapping into the next year, then past any festivals. */
    method RealmsForward(m: int, n: int) returns (month: int)
      requires FestivalsInside(months[..]) && 0 <= m < months.Length && n >= 0
      modifies this`year
      ensures 0 <= month < months.Length
      ensures (month, year - old(year)) == WalkForward(months[..], m, n)
    {
      month := m;
      var k := n;
      while k > 0
        invariant 0 <= month < months.Length && 0 <= k
        invariant WalkForward(months[..], month, k).0 == WalkForward(months[..], m, n).0
        invariant year - old(year) + WalkForward(months[..], month, k).1 == WalkForward(months[..], m, n).1
      {
        ghost var step := MonthStep(months[..], month);
        month := month + 1;
        if month >= months.Length {
          month := 0;
          year := year + 1;
        }
        month := SkipFestivalsForward(month);
        assert month == step.0;
        k := k - 1;
      }
    }

    /** The backward month loop: n times the previous month, wrapping into
        the previous year, then back past any festivals. */
    method RealmsBackward(m: int, n: int) returns (month: int)
      requires FestivalsInside(months[..]) && 0 <= m < months.Length && n >= 0
      modifies this`year
      ensures 0 <= month < months.Length
      ensures (month, year - old(year)) == WalkBackward(months[..], m, n)
    {
      month := m;
      var k := -n;
      while k < 0
        invariant 0 <= month < months.Length && k <= 0
        invariant WalkBackward(months[..], month, -k).0 == WalkBackward(months[..], m, n).0
        invariant year - old(year) + WalkBackward(months[..], month, -k).1 == WalkBackward(months[..], m, n).1
      {
        ghost var step := MonthStepBack(months[..], month);
        month := month - 1;
        if month < 0 {
          month := months.Length - 1;
          year := year - 1;
        }
        month := SkipFestivalsBackward(month);
        assert month == step.0;
        k := k + 1;
      }
    }

    /** FRDate.adjust's `while (months[month].isVirtual) month++`. */
    method SkipFestivalsForward(from: int) returns (month: int)
      requires FestivalsInside(months[..]) && 0 <= from < months.Length
      ensures month == SkipForward(months[..], from)
    {
      month := from;
      while months[month].isVirtual
        invariant from <= month < months.Length
        invariant SkipForward(months[..], month) == SkipForward(months[..], from)
        decreases months.Length - month
      {
        month := month + 1;
      }
    }

    /** FRDate.adjust's `while (months[month].isVirtual) month--`. */
    method SkipFestivalsBackward(from: int) returns (month: int)
      requires FestivalsInside(months[..]) && 0 <= from < months.Length
      ensures month == SkipBackward(months[..], from)
    {
      month := from;
      while months[month].isVirtual
        invariant 0 <= month <= from
        invariant SkipBackward(months[..], month) == SkipBackward(months[..], from)
        decreases month
      {
        month := month - 1;
      }
    }

    /** GregorianDate.adjust.  A time of day is ignored; years skip year 0;
        months move the month index with the year carried (from the index
        past December when getDate ran past the year's end) and setDate
        places the same day there; weeks, days, hours, minutes and seconds
        move the moment, which is brought into the normal form with the year
        length of each year passed. */
    method AdjustGregorian(amount: int, unit: Interval)
      requires Valid() && calendar.Gregorian?
      modifies this`year, this`time, months
      ensures Valid()
      ensures GregorianAdjusted(old(year), old(time), amount, unit, year, time)
    {
      if unit == Time {
        return;
      }
      if unit == Year {
        if year < 0 && year + amount >= 0 {
          year := year + 1;
        }
        if year > 0 && year + amount <= 0 {
          year := year - 1;
        }
        year := year + amount;
        return;
      }
      if unit == Month {
        GregorianMonthShift(amount);
        return;
      }
      var n := amount;
      if AtMost(unit, Week) {
        n := n * 7;
      }
      if AtMost(unit, Day) {
        n := n * 24;
      }
      if AtMost(unit, Hour) {
        n := n * 60;
      }
      if AtMost(unit, Minute) {
        n := n * 60;
      }
      assert n == amount * (if unit == Week then 7 * 86400 else UnitSeconds(unit));
      NormaliseByYear(n);
    }

    /** The month branch of GregorianDate.adjust: walk the month index,
        carrying the year, and set the same day of the month reached. */
    method GregorianMonthShift(amount: int)
      requires Valid() && calendar.Gregorian?
      modifies this`year, this`time, months
      ensures Valid()
      ensures GregorianMonthsMoved(old(year), old(time), amount, year, time)
    {
      var m1, date := GetDate();
      TablesNonNegative(calendar, year);
      LocateMeaning(EffectiveMonths(calendar, year), GetDayOfYear());
      var month := GregorianMonthLoops(m1 - 1, amount);
      var _ := SetDate(month, date);
    }

    /** The month loops of GregorianDate.adjust from month index m (12 when
        getDate ran past the year's end), carrying the year. */
    method GregorianMonthLoops(m: int, amount: int) returns (month: int)
      requires 0 <= m <= 12 && months.Length == 12
      modifies this`year
      ensures 0 <= month <= 12
      ensures (month, year - old(year)) == GregorianWalk(m, amount)
    {
      month := m;
      var n := amount;
      while n > 0
        invariant 0 <= month <= 12 && GregorianWalk(month, n).0 == GregorianWalk(m, amount).0
        invariant year - old(year) + GregorianWalk(month, n).1 == GregorianWalk(m, amount).1
      {
        month := month + 1;
        if month >= months.Length {
          month := 0;
          year := year + 1;
        }
        n := n - 1;
      }
      while n < 0
        invariant n <= 0
        invariant 0 <= month <= 12 && GregorianWalk(month, n).0 == GregorianWalk(m, amount).0
        invariant year - old(year) + GregorianWalk(month, n).1 == GregorianWalk(m, amount).1
      {
        month := month - 1;
        if month < 0 {
          month := months.Length - 1;
          year := year - 1;
        }
        n := n + 1;
      }
    }
  }

  /** In 2001..2100 the four-year and single-year counts of
      GregorianDate.getWeekday are the quotient and remainder by 4. */
  lemma FirstCentury(y: int)
    requires 2001 <= y <= 2100
    ensures Centuries(y) == 0 && Quadrennia(y) == (y - 2001) / 4 && SingleYears(y) == (y - 2001) % 4
  {
  }

  /** CampaignDate.adjust from day counter date0 and time time0: a time of
      day changes nothing, years, months, weeks and days move the counter
      by their days, and hours, minutes and seconds move the moment and
      leave the time within one day. */
  ghost predicate CampaignAdjusted(date0: int, time0: int, amount: int, unit: Interval, date: int, time: int)
  {
    && (unit == Time ==> date == date0 && time == time0)
    && (AtMost(unit, Day) ==> date == date0 + amount * CampaignDays(unit) && time == time0)
    && (AtMost(Hour, unit) ==>
          0 <= time < 86400 && date * 86400 + time == date0 * 86400 + time0 + amount * UnitSeconds(unit))
  }

  /** GreyhawkDate.adjust from (year0, time0): a time of day changes nothing,
      years skip year 0, months walk the month table as written, and weeks
      and finer units move the moment; the result is in normal form. */
  ghost predicate GreyhawkAdjusted(year0: int, time0: int, amount: int, unit: Interval, ok: bool, year: int, time: int)
  {
    && (unit == Time ==> ok && year == year0 && time == time0)
    && (unit == Year ==> ok && year == YearAdjusted(year0, amount) && time == time0)
    && (unit == Month ==> GreyhawkMonthsMoved(year0, time0, amount, ok, year, time))
    && (unit == Week ==>
          ok && Normal(Greyhawk, year, time)
          && Instant(Greyhawk, year, time) == Instant(Greyhawk, year0, time0) + amount * 7 * 86400)
    && (AtMost(Day, unit) && unit != Time ==>
          ok && Normal(Greyhawk, year, time)
          && Instant(Greyhawk, year, time) == Instant(Greyhawk, year0, time0) + StrippedShift(amount, 364, unit))
  }

  /** EberronDate.adjust from (year0, time0): years add, months are 28 days
      and weeks 7, and the finer units go through the stripped shift of the
      336-day year; the result is in normal form. */
  ghost predicate EberronAdjusted(year0: int, time0: int, amount: int, unit: Interval, year: int, time: int)
  {
    && (unit == Time ==> year == year0 && time == time0)
    && (unit == Year ==> year == year0 + amount && time == time0)
    && (unit == Month || unit == Week ==>
          Normal(Eberron, year, time)
          && Instant(Eberron, year, time)
             == Instant(Eberron, year0, time0) + amount * (if unit == Month then 28 else 7) * 86400)
    && (AtMost(Day, unit) && unit != Time ==>
          Normal(Eberron, year, time)
          && Instant(Eberron, year, time) == Instant(Eberron, year0, time0) + StrippedShift(amount, 336, unit))
  }

  /** FRDate.adjust from (year0, time0): years add, months and tendays are
      RealmsShift, and days and finer units move the moment exactly and
      leave it in normal form. */
  ghost predicate RealmsAdjusted(year0: int, time0: int, amount: int, unit: Interval, ok: bool, year: int, time: int)
  {
    && (unit == Time ==> ok && year == year0 && time == time0)
    && (unit == Year ==> ok && year == year0 + amount && time == time0)
    && (unit == Month || unit == Week ==> RealmsMonthsMoved(year0, time0, amount, unit == Week, ok, year, time))
    && (AtMost(Day, unit) && unit != Time ==>
          ok && Normal(ForgottenRealms, year, time)
          && Instant(ForgottenRealms, year, time) == Instant(ForgottenRealms, year0, time0) + amount * UnitSeconds(unit))
  }

  /** GregorianDate.adjust from (year0, time0): years skip year 0, months
      follow GregorianWalk, and weeks and finer units move the moment
      exactly and leave it in normal form. */
  ghost predicate GregorianAdjusted(year0: int, time0: int, amount: int, unit: Interval, year: int, time: int)
  {
    && (unit == Time ==> year == year0 && time == time0)
    && (unit == Year ==> year == YearAdjusted(year0, amount) && time == time0)
    && (unit == Month ==> GregorianMonthsMoved(year0, time0, amount, year, time))
    && (AtMost(Week, unit) && unit != Time ==>
          Normal(Gregorian, year, time)
          && Instant(Gregorian, year, time)
             == Instant(Gregorian, year0, time0) + amount * (if unit == Week then 7 * 86400 else UnitSeconds(unit)))
  }

  /** GreyhawkDate.adjust's month branch from (year0, time0): it fails going
      forward from past the last month, and otherwise moves the moment by
      the days of the month walk and leaves it in normal form. */
  ghost predicate GreyhawkMonthsMoved(year0: int, time0: int, amount: int, ok: bool, year: int, time: int)
  {
    var m0 := Locate(EffectiveMonths(Greyhawk, year0), DayOfYear(time0)).0 - 1;
    && ok == !(m0 == |GreyhawkMonths| && amount > 0)
    && (!ok ==> year == year0 && time == time0)
    && (ok ==> 0 <= m0 <= |GreyhawkMonths| && Normal(Greyhawk, year, time)
               && Instant(Greyhawk, year, time) == Instant(Greyhawk, year0, time0) + FestivalDays(GreyhawkMonths, m0, amount) * 86400)
  }

  /** FRDate.adjust's month and tenday branch from (year0, time0): it fails
      past the month table, and otherwise sets the month and day RealmsShift
      computes, with its years. */
  ghost predicate RealmsMonthsMoved(year0: int, time0: int, amount: int, week: bool, ok: bool, year: int, time: int)
  {
    var (m1, d) := Locate(EffectiveMonths(ForgottenRealms, year0), DayOfYear(time0));
    && ok == (m1 - 1 < |RealmsMonths|)
    && (!ok ==> year == year0 && time == time0)
    && (ok ==> 0 <= m1 - 1 && var r := RealmsShift(m1 - 1, d, amount, week);
          year == year0 + r.years && time == DateTime(EffectiveMonths(ForgottenRealms, year), r.month, r.date, time0))
  }

  /** GregorianDate.adjust's month branch from (year0, time0): the month and
      year GregorianWalk reaches, with the day of the month kept. */
  ghost predicate GregorianMonthsMoved(year0: int, time0: int, amount: int, year: int, time: int)
  {
    var (m1, d) := Locate(EffectiveMonths(Gregorian, year0), DayOfYear(time0));
    && 0 <= m1 - 1 <= 12
    && var (m2, years) := GregorianWalk(m1 - 1, amount);
    year == year0 + years && time == DateTime(EffectiveMonths(Gregorian, year), m2, d, time0)
  }

  /** The days GreyhawkDate.adjust counts for `amount` months from month
      index m, forward and backward as written. */
  function FestivalDays(table: seq<MonthInfo>, m: int, amount: int): int
  {
    if amount > 0 && 0 <= m < |table| then FestivalForwardAsWritten(table, m, amount)
    else if amount < 0 && 0 <= m <= |table| && |table| > 0 then FestivalBackward(table, m, -amount)
    else 0
  }

  /** In a calendar whose years all have the same length, the stripped shift
      of SimpleDate.adjust moves the moment by exactly that shift and leaves
      the normal form. */
  lemma StrippedInstant(cal: Calendar, year0: int, time0: int, amount: int, unit: Interval, year: int, time: int)
    requires !cal.ForgottenRealms? && !cal.Gregorian?
    requires Stripped(year0, time0, amount, unit, YearLength(cal, year0), year, time)
    ensures Normal(cal, year, time)
    ensures Instant(cal, year, time) == Instant(cal, year0, time0) + StrippedShift(amount, YearLength(cal, year0), unit)
  {
    FixedYearStart(cal, year);
    FixedYearStart(cal, year0);
    var n := TotalDays(Months(cal));
    assert YearLength(cal, year) == n && YearLength(cal, year0) == n;
    assert year * n * 86400 == (year * n) * 86400;
    assert year0 * n * 86400 == (year0 * n) * 86400;
  }

  /** The days SimpleDate.adjust counts for `amount` months from month index
      m: forward through the months from m, or backward through the months
      before it. */
  function BaseMonthDays(table: seq<MonthInfo>, m: int, amount: int): int
  {
    if amount > 0 && 0 <= m < |table| then ForwardDays(table, m, amount)
    else if amount < 0 && 0 <= m <= |table| && |table| > 0 then BackwardDays(table, m, -amount)
    else 0
  }

  /** The outcome of the stripping and normalising tail of SimpleDate.adjust:
      the time lies inside a year of the given length and the moment (counted
      in years of that length) moved by StrippedShift. */
  ghost predicate Stripped(year0: int, time0: int, amount: int, unit: Interval, yearLength: int, year: int, time: int)
  {
    && yearLength > 0
    && 0 <= time < yearLength * 86400
    && year * yearLength * 86400 + time == year0 * yearLength * 86400 + time0 + StrippedShift(amount, yearLength, unit)
  }

  /** Stripping the years and then normalising the time lands on the moment
      StrippedShift names. */
  lemma StrippedMoment(year0: int, time0: int, amount: int, unit: Interval, yearLength: int,
                       year1: int, time1: int, year: int, time: int)
    requires yearLength > 0
    requires year1 == year0 + Div(amount, yearLength)
    requires time1 == time0 + Mod(amount, yearLength) * UnitSeconds(unit)
    requires 0 <= time < yearLength * 86400
    requires year * (yearLength * 86400) + time == year1 * (yearLength * 86400) + time1
    ensures Stripped(year0, time0, amount, unit, yearLength, year, time)
  {
    var ys := yearLength * 86400;
    var q := Div(amount, yearLength);
    MulDistributes(year0, q, ys);
    MulAssociates(q, yearLength, 86400);
    MulAssociates(year, yearLength, 86400);
    MulAssociates(year0, yearLength, 86400);
  }

  /** The stripping loops take C#'s quotient of years and leave its remainder. */
  lemma StripCounts(amount: int, rest: int, yearLength: int, years: int)
    requires yearLength > 0
    requires years * yearLength + rest == amount
    requires -yearLength < rest < yearLength
    requires amount >= 0 ==> rest >= 0
    requires amount < 0 ==> rest <= 0
    ensures years == Div(amount, yearLength) && rest == Mod(amount, yearLength)
  {
    if amount >= 0 {
      DivUnique(amount, yearLength, years, rest);
    } else {
      assert -amount == (-years) * yearLength + (-rest);
      DivUnique(-amount, yearLength, -years, -rest);
    }
  }
}
