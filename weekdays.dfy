/**
 * The getWeekday overrides of Timestamp.cs: Greyhawk (no weekday on
 * festivals, every month starting on Starday), Eberron (every month starting
 * on Sul) and the Gregorian reduction of a year to 2001..2004 by 400-, 100-,
 * 4- and 1-year steps.  Each is given as the index into the calendar's
 * list of day names.
 */
module Weekdays {
  import opened CSharpInt
  import opened Wrappers
  import opened CalendarRules

  /** GreyhawkDate.getWeekday: no weekday on a festival; otherwise the index
      (day - 1) % 7 into Starday..Freeday.  The source reads the month entry of
      getDate's answer, so the day must not lie past the year's end. */
  function GreyhawkWeekday(doy: int): (r: Option<int>)
    requires Locate(GreyhawkMonths, doy).0 <= |GreyhawkMonths|
    ensures r.Some? ==> 0 <= r.value < 7
    ensures r.None? <==> var m := Locate(GreyhawkMonths, doy).0; 1 <= m && GreyhawkMonths[m - 1].isVirtual
  {
    TablesNonNegative(Greyhawk, 0);
    FestivalWeekday(GreyhawkMonths, doy)
  }

  /** The Greyhawk weekday read off getDate's month and day. */
  lemma GreyhawkWeekdayOfDate(doy: int)
    ensures var (m, d) := Locate(GreyhawkMonths, doy);
      && 1 <= m
      && (m <= |GreyhawkMonths| ==>
            GreyhawkWeekday(doy) == if GreyhawkMonths[m - 1].isVirtual then None else Some(Mod(d - 1, 7)))
  {
    TablesNonNegative(Greyhawk, 0);
    FestivalWeekdayOfDate(GreyhawkMonths, doy);
  }

  /** On any table opening with a festival, the weekday is read off the month
      and day that Locate finds. */
  lemma FestivalWeekdayOfDate(table: seq<MonthInfo>, doy: int)
    requires NonNegativeMonths(table) && |table| > 0 && table[0].isVirtual
    ensures var (m, d) := Locate(table, doy);
      && 1 <= m
      && (m <= |table| ==> FestivalWeekday(table, doy) == if table[m - 1].isVirtual then None else Some(Mod(d - 1, 7)))
  {
    LocateMeaning(table, doy);
  }

  /** The weekday rule of GreyhawkDate on any month table. */
  function FestivalWeekday(table: seq<MonthInfo>, doy: int): (r: Option<int>)
    requires NonNegativeMonths(table) && |table| > 0 && table[0].isVirtual && Locate(table, doy).0 <= |table|
    ensures r.Some? ==> 0 <= r.value < 7
    ensures r.None? <==> var m := Locate(table, doy).0; 1 <= m && table[m - 1].isVirtual
  {
    LocateMeaning(table, doy);
    var (m, d) := Locate(table, doy);
    if table[m - 1].isVirtual then None else Some(Mod(d - 1, 7))
  }

  lemma FestivalWeekdayOfMonth(table: seq<MonthInfo>, m0: nat, d: int)
    requires NonNegativeMonths(table) && m0 < |table| && table[0].isVirtual && 1 <= d <= table[m0].days
    ensures Locate(table, DaysBefore(table, m0) + d) == (m0 + 1, d)
    ensures FestivalWeekday(table, DaysBefore(table, m0) + d)
         == if table[m0].isVirtual then None else Some((d - 1) % 7)
  {
    LocateDaysBefore(table, m0, d);
    NonNegativeAgrees(d - 1, 7);
  }

  /** Every Greyhawk month begins on Starday and festival days have no weekday. */
  lemma GreyhawkMonthWeekdays(m0: nat, d: int)
    requires m0 < |GreyhawkMonths| && 1 <= d <= GreyhawkMonths[m0].days
    ensures Locate(GreyhawkMonths, DaysBefore(GreyhawkMonths, m0) + d).0 <= |GreyhawkMonths|
    ensures GreyhawkWeekday(DaysBefore(GreyhawkMonths, m0) + d)
         == if GreyhawkMonths[m0].isVirtual then None else Some((d - 1) % 7)
  {
    var t := GreyhawkMonths;
    var x := DaysBefore(t, m0) + d;
    TablesNonNegative(Greyhawk, 0);
    FestivalWeekdayOfMonth(t, m0, d);
    var w := FestivalWeekday(t, x);
    assert w == if t[m0].isVirtual then None else Some((d - 1) % 7);
    assert GreyhawkWeekday(x) == w;
  }

  /** EberronDate.getWeekday: index (dayOfYear - 1) % 7 into Sul..Sar, with the
      C# remainder; the source indexes the name list with it, so it must not be
      negative. */
  function EberronWeekday(doy: int): (r: int)
    requires Mod(doy - 1, 7) >= 0
    ensures 0 <= r < 7
    ensures doy >= 1 ==> r == (doy - 1) % 7
  {
    Mod(doy - 1, 7)
  }

  lemma {:induction false} EberronDaysBefore(m: nat)
    requires m <= |EberronMonths|
    ensures DaysBefore(EberronMonths, m) == 28 * m
  {
    if m > 0 {
      EberronDaysBefore(m - 1);
    }
  }

  /** Eberron months have four whole weeks, so every month begins on Sul and a
      day of the month has the same weekday in every month. */
  lemma EberronMonthWeekdays(m0: nat, d: int)
    requires m0 < |EberronMonths| && 1 <= d <= 28
    ensures DaysBefore(EberronMonths, m0) == 28 * m0
    ensures EberronWeekday(DaysBefore(EberronMonths, m0) + d) == (d - 1) % 7
  {
    EberronDaysBefore(m0);
    var x := 28 * m0 + d;
    NonNegativeAgrees(x - 1, 7);
    ModAfterAdding(x - 1, d - 1, 4 * m0);
    assert EberronWeekday(x) == (x - 1) % 7;
  }

  /** The first two loops of GregorianDate.getWeekday: the year moved by whole
      400-year cycles into 2001..2400. */
  function CycleYear(year: int): (y: int)
    ensures 2001 <= y < 2401
    ensures (y - year) % 400 == 0
  {
    2001 + (year - 2001) % 400
  }

  /** k applications of the loop step `day = (day + step) % 7` (C# remainder). */
  function Rotate(day: int, step: int, k: nat): int
    decreases k
  {
    if k == 0 then day else Rotate(Mod(day + step, 7), step, k - 1)
  }

  /** How many 100-, 4- and 1-year steps the last three loops take from a
      year in 2001..2400 down to 2001. */
  function Centuries(y: int): int { (y - 2001) / 100 }
  function Quadrennia(y: int): int { (y - 2001 - 100 * Centuries(y)) / 4 }
  function SingleYears(y: int): int { y - 2001 - 100 * Centuries(y) - 4 * Quadrennia(y) }

  /** GregorianDate.getWeekday: the index into Sunday..Saturday the loops
      compute, starting from dayOfYear % 7. */
  function GregorianWeekday(year: int, doy: int): (r: int)
    ensures -7 < r < 7
    ensures doy >= 0 ==> 0 <= r
  {
    var y := CycleYear(year);
    var c := Centuries(y);
    var f := Quadrennia(y);
    var g := SingleYears(y);
    RotateBounds(Mod(doy, 7), 124, c);
    RotateBounds(Rotate(Mod(doy, 7), 124, c), 5, f);
    RotateBounds(Rotate(Rotate(Mod(doy, 7), 124, c), 5, f), 1, g);
    Rotate(Rotate(Rotate(Mod(doy, 7), 124, c), 5, f), 1, g)
  }

  lemma {:induction false} RotateBounds(day: int, step: int, k: nat)
    requires -7 < day < 7 && step >= 0
    ensures -7 < Rotate(day, step, k) < 7
    ensures day >= 0 ==> Rotate(day, step, k) >= 0
    decreases k
  {
    if k > 0 {
      RotateBounds(Mod(day + step, 7), step, k - 1);
    }
  }

  lemma {:induction false} RotateClosed(day: int, step: int, k: nat)
    requires 0 <= day < 7 && step >= 0
    ensures Rotate(day, step, k) == (day + step * k) % 7
    decreases k
  {
    if k > 0 {
      var s := day + step;
      NonNegativeAgrees(s, 7);
      var d1 := s % 7;
      RotateClosed(d1, step, k - 1);
      MulStep(k - 1, step);
      assert step * k == step * (k - 1) + step;
      assert s == 7 * (s / 7) + d1;
      ModAfterAdding(day + step * k, d1 + step * (k - 1), s / 7);
    }
  }

  /** The shift every reduced year contributes. */
  function Offset(y: int): int
  {
    124 * Centuries(y) + 5 * Quadrennia(y) + SingleYears(y)
  }

  lemma GregorianWeekdayClosed(year: int, doy: int)
    requires doy >= 0
    ensures GregorianWeekday(year, doy) == (doy + Offset(CycleYear(year))) % 7
  {
    var y := CycleYear(year);
    var c, f, g := Centuries(y), Quadrennia(y), SingleYears(y);
    assert 0 <= c && 0 <= f && 0 <= g;
    NonNegativeAgrees(doy, 7);
    var d0 := doy % 7;
    RotationsClosed(d0, c, f, g);
    assert doy + Offset(y) == d0 + 124 * c + 5 * f + g + 7 * (doy / 7);
    ModAfterAdding(doy + Offset(y), d0 + 124 * c + 5 * f + g, doy / 7);
  }

  /** The three rotations of getWeekday add up their shifts. */
  lemma RotationsClosed(d0: int, c: nat, f: nat, g: nat)
    requires 0 <= d0 < 7
    ensures Rotate(Rotate(Rotate(d0, 124, c), 5, f), 1, g) == (d0 + 124 * c + 5 * f + g) % 7
  {
    RotateClosed(d0, 124, c);
    var d1 := (d0 + 124 * c) % 7;
    RotateClosed(d1, 5, f);
    var d2 := (d1 + 5 * f) % 7;
    RotateClosed(d2, 1, g);
    ModAfterAdding(d0 + 124 * c + 5 * f + g, d1 + 5 * f + g, (d0 + 124 * c) / 7);
    ModAfterAdding(d1 + 5 * f + g, d2 + g, (d1 + 5 * f) / 7);
  }

  lemma ModAfterAdding(a: int, b: int, k: int)
    requires a == b + 7 * k
    ensures a % 7 == b % 7
  {
  }

  /** Within one 400-year cycle, moving one year on shifts the weekday by the
      length of the year passed. */
  lemma OffsetStep(y: int)
    requires 2001 <= y < 2400
    ensures (Offset(y + 1) - Offset(y) - YearLength(Gregorian, y)) % 7 == 0
  {
    var c, f, g := Centuries(y), Quadrennia(y), SingleYears(y);
    assert y == 2001 + 100 * c + 4 * f + g;
    assert 0 <= c <= 3 && 0 <= f <= 24 && 0 <= g <= 3;
    if g < 3 {
      assert Centuries(y + 1) == c && Quadrennia(y + 1) == f && SingleYears(y + 1) == g + 1;
      assert Mod(y, 4) != 0;
    } else if f < 24 {
      assert Centuries(y + 1) == c && Quadrennia(y + 1) == f + 1 && SingleYears(y + 1) == 0;
      assert Mod(y, 4) == 0 && Mod(y, 100) != 0;
    } else {
      assert y == 2100 + 100 * c && c < 3;
      assert Centuries(y + 1) == c + 1 && Quadrennia(y + 1) == 0 && SingleYears(y + 1) == 0;
      assert Mod(y, 4) == 0 && Mod(y, 400) != 0 && Mod(y, 100) == 0;
    }
  }

  /** From year 8 on the leap rule repeats every 400 years. */
  lemma LeapCycle(year: int)
    requires year >= 8
    ensures YearLength(Gregorian, year) == YearLength(Gregorian, CycleYear(year))
  {
    var y := CycleYear(year);
    var k := (year - 2001) / 400;
    assert year == y + 400 * k;
    ModAfterMultiple(year, y, 4, 100 * k);
    ModAfterMultiple(year, y, 100, 4 * k);
    ModAfterMultiple(year, y, 400, k);
    GregorianLeapRule(year);
    GregorianLeapRule(y);
  }

  /** Moving one year on changes the reduced year's shift by that year's length. */
  lemma CycleStep(year: int)
    requires year >= 8
    ensures (Offset(CycleYear(year + 1)) - Offset(CycleYear(year)) - YearLength(Gregorian, year)) % 7 == 0
  {
    var y := CycleYear(year);
    LeapCycle(year);
    var k, r := (year - 2001) / 400, (year - 2001) % 400;
    assert y == 2001 + r;
    if y < 2400 {
      DivUnique(year + 1 - 2001, 400, k, r + 1);
      assert CycleYear(year + 1) == y + 1;
      OffsetStep(y);
    } else {
      DivUnique(year + 1 - 2001, 400, k + 1, 0);
      assert CycleYear(year + 1) == 2001;
      assert Offset(2400) == 495 && Offset(2001) == 0;
      GregorianLeapRule(2400);
    }
  }

  /** Gregorian weekdays advance by each year's length: from year 8 on (where
      the 400-year rule applies), a day of the next year falls as many
      weekdays later as the year has days. */
  lemma {:induction false} GregorianWeekdayYearStep(year: int, doy: int)
    requires year >= 8 && doy >= 0
    ensures GregorianWeekday(year + 1, doy) == (GregorianWeekday(year, doy) + YearLength(Gregorian, year)) % 7
  {
    GregorianWeekdayClosed(year, doy);
    GregorianWeekdayClosed(year + 1, doy);
    CycleStep(year);
    var o1 := Offset(CycleYear(year + 1));
    var o := Offset(CycleYear(year));
    var n := YearLength(Gregorian, year);
    ModSum(doy, o, o1, n);
  }

  lemma ModSum(doy: int, o: int, o1: int, n: int)
    requires (o1 - o - n) % 7 == 0
    ensures (doy + o1) % 7 == ((doy + o) % 7 + n) % 7
  {
    var k := (o1 - o - n) / 7;
    assert o1 == o + n + 7 * k;
    ModAfterAdding(doy + o1, (doy + o) % 7 + n, (doy + o) / 7 + k);
  }

  /** Days from Jan 1, 2001 to Jan 1 of year, adding up the Gregorian year lengths between. */
  ghost function YearDaysSince2001(year: int): int
    decreases if year >= 2001 then year - 2001 else 2001 - year
  {
    if year == 2001 then 0
    else if year > 2001 then YearDaysSince2001(year - 1) + YearLength(Gregorian, year - 1)
    else YearDaysSince2001(year + 1) - YearLength(Gregorian, year)
  }

  /** Days from Jan 1, 2001 to day doy of year. */
  ghost function DaysSince2001(year: int, doy: int): int
  {
    YearDaysSince2001(year) + doy - 1
  }

  /** The weekday of a day of the year is the same 400 years earlier or later. */
  lemma GregorianWeekdayCycle(year: int, doy: int)
    ensures GregorianWeekday(year + 400, doy) == GregorianWeekday(year, doy)
    ensures GregorianWeekday(year - 400, doy) == GregorianWeekday(year, doy)
  {
    ModAfterMultiple(year + 400 - 2001, year - 2001, 400, 1);
    ModAfterMultiple(year - 2001, year - 400 - 2001, 400, 1);
    assert CycleYear(year + 400) == CycleYear(year) == CycleYear(year - 400);
  }

  /** Jan 1, 2001 was a Monday (index 1). */
  lemma GregorianAnchor()
    ensures GregorianWeekday(2001, 1) == 1
  {
    GregorianWeekdayClosed(2001, 1);
  }

  /** From year 8 on the reduced year's shift agrees, modulo 7, with the days
      from Jan 1, 2001 to the start of the year. */
  lemma {:induction false} OffsetCounts(year: int)
    requires year >= 8
    ensures OffsetAgrees(year)
    decreases if year >= 2001 then year - 2001 else 2001 - year
  {
    if year == 2001 {
      assert CycleYear(2001) == 2001 && Offset(2001) == 0;
    } else if year > 2001 {
      OffsetCounts(year - 1);
      OffsetAgreesStep(year - 1);
    } else {
      OffsetCounts(year + 1);
      OffsetAgreesStep(year);
    }
  }

  /** The reduced year's shift agrees, modulo 7, with the days since 2001. */
  ghost predicate OffsetAgrees(year: int)
  {
    (Offset(CycleYear(year)) - YearDaysSince2001(year)) % 7 == 0
  }

  /** Agreement carries from each year to the next and back. */
  lemma OffsetAgreesStep(year: int)
    requires year >= 8
    ensures OffsetAgrees(year) <==> OffsetAgrees(year + 1)
  {
    CycleStep(year);
    YearDaysStep(year);
    CongruenceStep(Offset(CycleYear(year)), YearDaysSince2001(year),
      Offset(CycleYear(year + 1)), YearDaysSince2001(year + 1), YearLength(Gregorian, year));
  }

  /** The day count grows by each year's length. */
  lemma YearDaysStep(year: int)
    ensures YearDaysSince2001(year + 1) == YearDaysSince2001(year) + YearLength(Gregorian, year)
  {
  }

  /** When a shift moves on by a year's length modulo 7 and the day count by
      the same length, one agrees with the other before the year exactly when
      it does after it. */
  lemma CongruenceStep(o0: int, d0: int, o1: int, d1: int, n: int)
    requires (o1 - o0 - n) % 7 == 0 && d1 == d0 + n
    ensures (o0 - d0) % 7 == 0 <==> (o1 - d1) % 7 == 0
  {
    var k := (o1 - o0 - n) / 7;
    assert o1 - d1 == (o0 - d0) + 7 * k;
    ModAfterAdding(o1 - d1, o0 - d0, k);
  }

  /** From year 8 on every day is as many weekdays after Monday, Jan 1, 2001 as
      days have passed since then. */
  lemma GregorianWeekdayCounts(year: int, doy: int)
    requires year >= 8 && doy >= 0
    ensures GregorianWeekday(year, doy) == (DaysSince2001(year, doy) + 1) % 7
  {
    GregorianWeekdayClosed(year, doy);
    OffsetCounts(year);
    var o, d := Offset(CycleYear(year)), YearDaysSince2001(year);
    assert DaysSince2001(year, doy) + 1 == d + doy;
    ModAfterAdding(doy + o, d + doy, (o - d) / 7);
  }
}
