# DeCamp timestamps, events and characters in Dafny

A model of the core of DeCamp, a campaign manager for tabletop role-playing
games, with proofs about it. The model covers three parts of the program:

- **Timestamps** (`DeCamp/Timestamp.cs`). `SimpleDate` counts seconds into
  a year. Its five calendars are CampaignDate, Greyhawk, Eberron, the
  Forgotten Realms and Gregorian. Each has its own month table with
  festival ("virtual") months, its own leap rule, adjust and set, and its
  own weekday rule. In the model, `SimpleDate` is one class; its constant
  `calendar` picks the C# subclass, and the month table is the array
  `months`. Pure calendar rules are functions in `CalendarRules`,
  `MonthWalks` and `Weekdays`. The loops of the C# methods are methods
  proved against those functions. C# integer division and remainder are
  modelled in `CSharpInt`.
- **Characters** (`DeCamp/Character.cs`). An `Attribute` is a type tag and
  a boxed value. `adjust` adds to it or appends to it, and the inverse
  adjustment undoes it. A `Character` keeps a dictionary from names to
  attributes.
- **Events** (`DeCamp/Event.cs`). An event has permission predicates and a
  list of results, each of which may hold a sub-event. The three result
  classes add, remove or edit a party character. The two attribute mods
  adjust or replace an attribute. `apply` and `revert` walk the results
  against a campaign state, which is a dictionary from keys to characters.

Exceptions are outcomes. A function returns `Result` with an `Error` (for
example `InvalidCast` for a wrong unboxing cast). A method returns an
`Option<Error>` or an `ok` flag, and changes nothing when it fails.

Each C# method that updates fields becomes a Dafny method. Its contract
ties the new state to a specification function of the old state. The
properties are proved about those functions: round trips, normal forms,
closed forms of the month walks, weekday cycles, and the permission
hierarchy.

## Model

| member | source | states |
|---|---|---|
| CSharpInt.Div | DeCamp/Timestamp.cs:97-105 | C#'s truncating quotient: the sign of the operands decides the rounding, and for non-negative operands it agrees with Euclidean division |
| CSharpInt.Mod | DeCamp/Timestamp.cs:141 | C#'s remainder: it takes the dividend's sign, its magnitude is below the divisor's, and quotient times divisor plus remainder is the dividend |
| CSharpInt.Wrap | DeCamp/Character.cs:24-25 | 32-bit two's-complement wrap-around of unchecked `int` arithmetic: the result is in range, and it is the input when the input is in range |
| CSharpInt.WrapAddSub | DeCamp/Character.cs:24-25 | subtracting an offset after adding it with wrap-around gives back the original int |
| CalendarRules.Months | DeCamp/Timestamp.cs:280-295 | every calendar's month table is non-empty and has no negative month length |
| CalendarRules.GreyhawkEntries | DeCamp/Timestamp.cs:280-295 | the Greyhawk table has 16 months: a 7-day festival before every three 28-day months |
| CalendarRules.GregorianLeapRule | DeCamp/Timestamp.cs:560-567 | from year 8 on, isLeapYear is the 400-year Gregorian rule, and the year has 366 days exactly when it is a leap year |
| CalendarRules.GregorianLeapExamples | DeCamp/Timestamp.cs:556-567 | 2000 and 2024 are leap years and 1900 and 2023 are not; the year lengths are 366 and 365 |
| CalendarRules.EffectiveMonths | DeCamp/Timestamp.cs:416-424 | the table getDate walks has the same months and festivals as the constructor's table, and outside leap years it is that table |
| CalendarRules.YearLengthIsMonthSum | DeCamp/Timestamp.cs:200-206 | getYearLength is the sum of the month lengths getDate walks; Greyhawk has 364 days, Eberron 336, CampaignDate int.MaxValue, and the Realms and Gregorian calendars 365 or 366 |
| CalendarRules.RealmsYearSum | DeCamp/Timestamp.cs:416-432 | the Realms months getDate walks add up to 366 days in a leap year and 365 otherwise |
| CalendarRules.GregorianYearSum | DeCamp/Timestamp.cs:546-567 | the Gregorian months getDate walks add up to 366 days in a leap year and 365 otherwise |
| CalendarRules.GreyhawkTotal | DeCamp/Timestamp.cs:280-295 | the Greyhawk months add up to 364 days |
| CalendarRules.EberronTotal | DeCamp/Timestamp.cs:353-371 | the Eberron months add up to 336 days |
| CalendarRules.RealmsTotal | DeCamp/Timestamp.cs:395-412 | the Realms months add up to 365 days, with Shieldmeet at 0 |
| CalendarRules.GregorianTotal | DeCamp/Timestamp.cs:526-543 | the Gregorian months add up to 365 days, with February at 28 |
| CalendarRules.DaysBeforePatched | DeCamp/Timestamp.cs:416-424 | patching one month's length shifts the day count of every later month by the difference |
| CalendarRules.TablesNonNegative | DeCamp/Timestamp.cs:280-295 | the constructor tables and the patched tables have no negative month |
| CalendarRules.DaysBeforeMonotone | DeCamp/Timestamp.cs:171-177 | the day count before a month grows with the month index |
| CalendarRules.LocateMeaning | DeCamp/Timestamp.cs:162-169 | getDate's (month, day) places the day of the year d days after the months before month m; the day lies within the month unless it is past the year's end |
| CalendarRules.LocateDaysBefore | DeCamp/Timestamp.cs:162-177 | setDate then getDate is a round trip: day d of month m0 is reported as (m0 + 1, d) |
| CalendarRules.LocateFromBefore | DeCamp/Timestamp.cs:162-169 | the getDate loop, resumed at any earlier month, reaches the same (month, day) |
| CalendarRules.SetDayOfYearRoundTrip | DeCamp/Timestamp.cs:179-185 | after setDayOfYear(d) on a non-negative time, getDayOfYear is d and the time of day is kept |
| CalendarRules.SetTimeRoundTrip | DeCamp/Timestamp.cs:187-194 | after setTime(t) with t within a day, getTime is t and the day is kept |
| CalendarRules.ClockMeaning | DeCamp/Timestamp.cs:56-61 | the clock reading of a non-negative time is an hour 0..23, a minute and a second 0..59, and they add up to the time of day |
| CalendarRules.ClockRoundTrip | DeCamp/Timestamp.cs:196-198 | setTime(hour, minute, second) within range reads back as that clock and keeps the day |
| CalendarRules.ClockOfTime | DeCamp/Timestamp.cs:56-61 | a time whose time of day is the seconds of an in-range clock reads back as that clock |
| CalendarRules.ClockTails | DeCamp/Timestamp.cs:56-61 | the minutes and seconds of the clock are the remainders of the time by an hour and by a minute |
| CalendarRules.ClockFieldsUnique | DeCamp/Timestamp.cs:56-61 | an in-range clock is less than a day of seconds, and two in-range clocks with the same seconds are equal |
| CalendarRules.FuzzyOrdered | DeCamp/Timestamp.cs:212-221 | getFuzzyTime's periods never go backwards as the hour grows; hour 12 is noon, 0 midnight, 23 night |
| CalendarRules.YearStartStep | DeCamp/Timestamp.cs:110-119 | a year starts one year length after the year before it |
| CalendarRules.YearLengthPositive | DeCamp/Timestamp.cs:200-206 | every year has at least 336 days |
| CalendarRules.YearStartMonotone | DeCamp/Timestamp.cs:110-119 | a later year starts after an earlier year ends |
| CalendarRules.NormalUnique | DeCamp/Timestamp.cs:501-508 | a moment has one normalised (year, time) form |
| CalendarRules.FixedYearStart | DeCamp/Timestamp.cs:110-119 | in a calendar without leap years, year y starts y year lengths after year 0 |
| CalendarRules.Locate | DeCamp/Timestamp.cs:162-169 | getDate: the 1-based month and the day within it for a day of the year |
| CalendarRules.LocateFrom | DeCamp/Timestamp.cs:164-167 | the getDate loop: whole months are passed while the day exceeds them |
| CalendarRules.YearLength | DeCamp/Timestamp.cs:200-206 | getYearLength: the month sum, or 365 plus the leap day for the Realms and Gregorian calendars |
| CalendarRules.RealmsLeapYear | DeCamp/Timestamp.cs:430-432 | FRDate.isLeapYear: C#'s remainder of the year by 4 is 0 |
| CalendarRules.GregorianLeapYear | DeCamp/Timestamp.cs:560-567 | GregorianDate.isLeapYear: before year 8 the years -45..-9 divisible by 3; from 8 on, the 400-year rule |
| CalendarRules.LeapYear | DeCamp/Timestamp.cs:416-432 | the leap rule of the calendars that have one; the others never leap |
| CalendarRules.Fuzzy | DeCamp/Timestamp.cs:212-221 | getFuzzyTime: the period of the day an hour falls in |
| CalendarRules.Clock | DeCamp/Timestamp.cs:56-61 | the hour, minute and second toString shows for a time |
| MonthWalks.Next | DeCamp/Timestamp.cs:84-86 | the forward loop index stays inside the month table |
| MonthWalks.Prev | DeCamp/Timestamp.cs:89-90 | the backward loop index stays inside the month table |
| MonthWalks.ForwardWithinYear | DeCamp/Timestamp.cs:83-87 | k months forward without wrapping add the days between the two day counts |
| MonthWalks.ForwardSplit | DeCamp/Timestamp.cs:83-87 | a forward walk splits at the year's end into the rest of this year and months from January |
| MonthWalks.BackwardWithinYear | DeCamp/Timestamp.cs:88-92 | k months back without wrapping subtract the days between the day counts |
| MonthWalks.BackwardSplit | DeCamp/Timestamp.cs:88-92 | a backward walk splits at the year's start |
| MonthWalks.WholeYearOfMonths | DeCamp/Timestamp.cs:80-95 | a year's worth of months forward or back is plus or minus the sum of the month lengths |
| MonthWalks.RegularStartShift | DeCamp/Timestamp.cs:317-338 | twelve regular months on is a year of days later |
| MonthWalks.FestivalForwardUnfold | DeCamp/Timestamp.cs:317-327 | the forward festival walk of n + 1 months is one step followed by n months |
| MonthWalks.FestivalBackwardUnfold | DeCamp/Timestamp.cs:328-338 | the same for the backward walk |
| MonthWalks.FestivalForwardClosed | DeCamp/Timestamp.cs:317-327 | with the intended forward step (the corrected loop of the finding below, not the loop as written): from a regular month, n months forward reach the start of the regular month n places on |
| MonthWalks.FestivalBackwardClosed | DeCamp/Timestamp.cs:328-338 | from a regular month, n months back reach the start of the regular month n places back |
| MonthWalks.GreyhawkRegularStarts | DeCamp/Timestamp.cs:280-295 | the twelve regular Greyhawk months start where the month table says |
| MonthWalks.GreyhawkStartValues | DeCamp/Timestamp.cs:280-295 | the day counts before the twelve regular Greyhawk months: 7, 35, 63, 98, …, 336 |
| MonthWalks.GreyhawkSteps | DeCamp/Timestamp.cs:317-338 | the intended forward step (corrected, not the loop as written) and the backward step as written each move from the start of one regular Greyhawk month to the start of the next or the previous one |
| MonthWalks.GreyhawkStepForward | DeCamp/Timestamp.cs:317-327 | with the intended step, not the loop as written: from regular month k the corrected forward step reaches the start of regular month k + 1, 28 days on, or 35 across a festival week |
| MonthWalks.GreyhawkStepBackward | DeCamp/Timestamp.cs:328-338 | one backward step from regular month k reaches the start of regular month k - 1: 28 days, or 35 across a festival week |
| MonthWalks.GreyhawkMonthsBack | DeCamp/Timestamp.cs:328-338 | n Greyhawk months back from a regular month reach the start of the regular month n places back |
| MonthWalks.GreyhawkMonthsForward | DeCamp/Timestamp.cs:317-327 | with the intended step (the corrected loop of the finding below): n months forward reach the regular month n places on, and twelve months are 364 days |
| MonthWalks.GreyhawkMonthSkipsFestivalLate | DeCamp/Timestamp.cs:317-327 | as written, Coldeven 10 plus one month adds 28 days and lands on Planting 3, where the intended step adds 35 and lands on Planting 10; from Needfest one month adds 35 days as written and 7 with the intended step |
| MonthWalks.ForwardDays | DeCamp/Timestamp.cs:83-87 | the days the forward month loop of SimpleDate.adjust adds: the lengths of n successive months from the month, wrapping at the end of the table |
| MonthWalks.BackwardDays | DeCamp/Timestamp.cs:88-92 | the days the backward month loop adds: minus the lengths of the n months before the month, wrapping at the start of the table |
| MonthWalks.FestivalStepAsWritten | DeCamp/Timestamp.cs:317-327 | one pass of GreyhawkDate's forward month loop as written: a festival the walk stands on is added and passed, then the month reached is added and passed |
| MonthWalks.FestivalForwardAsWritten | DeCamp/Timestamp.cs:317-327 | the days the forward loop as written adds for n months: n such passes |
| MonthWalks.FestivalStepBack | DeCamp/Timestamp.cs:328-338 | one pass of the backward loop: the month before is subtracted, and when it is a festival the month before that too |
| MonthWalks.FestivalBackward | DeCamp/Timestamp.cs:328-338 | the days the backward loop adds for n months: n such passes |
| MonthWalks.FestivalStep | DeCamp/Timestamp.cs:317-327 | the intended forward pass, not the loop as written: the month is added and passed, then a festival that follows it |
| MonthWalks.FestivalForward | DeCamp/Timestamp.cs:317-327 | the days of n intended forward passes |
| MonthWalks.FestivalForwardAsWrittenUnfold | DeCamp/Timestamp.cs:317-327 | on a table whose as-written passes join the ends of regular months, n months from one end are one pass's days plus n - 1 months from the next end |
| MonthWalks.FestivalForwardAsWrittenOneMore | DeCamp/Timestamp.cs:317-327 | the inductive step of the closed form of the walk as written |
| MonthWalks.FestivalForwardAsWrittenClosed | DeCamp/Timestamp.cs:317-327 | as written, n months from the end of regular month i reach the end of regular month i + n, years included |
| MonthWalks.FestivalForwardAsWrittenFrom | DeCamp/Timestamp.cs:317-327 | as written, a walk whose first pass ends just after regular month i reaches, after n > 0 months, the end of regular month i + n - 1 |
| MonthWalks.RegularStartOffset | DeCamp/Timestamp.cs:317-327 | month positions shifted by a constant within the year stay shifted by it in every year |
| MonthWalks.GreyhawkAsWrittenValues | DeCamp/Timestamp.cs:317-327 | the pass as written from each of the 16 Greyhawk months: a festival adds itself and the month after it, 35 days; a regular month adds its 28 days and stops on whatever follows, a festival included |
| MonthWalks.GreyhawkEndsSteps | DeCamp/Timestamp.cs:317-327 | as written, each pass from just after a regular Greyhawk month reaches just after the next regular month |
| MonthWalks.GreyhawkFirstStep | DeCamp/Timestamp.cs:317-327 | as written, the first pass from day 1 of regular month i adds its 28 days, from the festival before it 35 days, and reaches just after month i |
| MonthWalks.GreyhawkEndsOffset | DeCamp/Timestamp.cs:317-327 | the ends of the regular Greyhawk months lie 28 days after their starts, in every year |
| MonthWalks.GreyhawkMonthsForwardAsWritten | DeCamp/Timestamp.cs:317-327 | as written, n > 0 months forward from regular Greyhawk month i end 28 days after the start of regular month i + n - 1, so a festival after that month is never crossed |
| MonthWalks.GreyhawkFestivalMonthsForwardAsWritten | DeCamp/Timestamp.cs:317-327 | the same from a festival: its days are added with the first month |
| MonthWalks.GreyhawkForwardValues | DeCamp/Timestamp.cs:317-327 | the intended forward pass from each regular Greyhawk month: 28 days, or 35 across a festival week |
| MonthWalks.GreyhawkBackwardValues | DeCamp/Timestamp.cs:328-338 | the backward pass as written from each regular Greyhawk month: minus 28 days, or minus 35 across a festival week |
| MonthWalks.GreyhawkStepsForward | DeCamp/Timestamp.cs:317-327 | the intended forward passes join the starts of the twelve regular Greyhawk months |
| MonthWalks.GreyhawkStepsBackward | DeCamp/Timestamp.cs:328-338 | the backward passes as written join them in reverse |
| MonthWalks.SkipForward | DeCamp/Timestamp.cs:476 | skipping festivals forward stops on the first regular month at or after m |
| MonthWalks.SkipBackward | DeCamp/Timestamp.cs:484 | skipping festivals backward stops on the first regular month at or before m |
| MonthWalks.MonthStep | DeCamp/Timestamp.cs:470-477 | one pass of FRDate's forward loop stays in the table |
| MonthWalks.MonthStepBack | DeCamp/Timestamp.cs:478-485 | one pass of the backward loop stays in the table |
| MonthWalks.WalkForward | DeCamp/Timestamp.cs:470-477 | n forward passes stay in the table |
| MonthWalks.WalkBackward | DeCamp/Timestamp.cs:478-485 | n backward passes stay in the table |
| MonthWalks.WalkForwardClosed | DeCamp/Timestamp.cs:470-477 | from regular month i, n forward passes reach regular month (i + n) mod 12, with the years wrapped |
| MonthWalks.WalkBackwardClosed | DeCamp/Timestamp.cs:478-485 | from regular month i, n backward passes reach regular month (i - n) mod 12, with the years borrowed |
| MonthWalks.TwelvesApart | DeCamp/Timestamp.cs:470-485 | moving k whole years of twelve months keeps the place among the twelve and adds k to the year count |
| MonthWalks.WalkFromRegular | DeCamp/Timestamp.cs:470-485 | from regular month i, a count n of either sign moves to regular month (i + n) mod 12, (i + n) div 12 years on |
| MonthWalks.RealmsStepValues | DeCamp/Timestamp.cs:395-412 | every pass of FRDate's loops from a regular month skips its festivals, and the wrap counts a year |
| MonthWalks.RealmsCycle | DeCamp/Timestamp.cs:395-412 | the twelve regular Realms months form a cycle for the month loops |
| MonthWalks.TendaySplit | DeCamp/Timestamp.cs:452-468 | the tenday split is floor division by 3: whole months and 0..2 tendays over |
| MonthWalks.RealmsWalk | DeCamp/Timestamp.cs:470-485 | the Realms month loops stay in the table |
| MonthWalks.RealmsWalkFromRegular | DeCamp/Timestamp.cs:470-485 | from a regular month, n months move n places among the twelve and add (i + n) div 12 years |
| MonthWalks.RealmsRegularStarts | DeCamp/Timestamp.cs:440-451 | a walk that starts on one of the twelve regular Realms months starts there, with no festival to land back on |
| MonthWalks.RealmsStart | DeCamp/Timestamp.cs:440-451 | the walk starts on a regular month: the month itself, or the one after a festival (after Shieldmeet for Midsummer) |
| MonthWalks.FestivalLanding | DeCamp/Timestamp.cs:486-491 | the landing steps back at most to the festival before the month reached |
| MonthWalks.RealmsShift | DeCamp/Timestamp.cs:434-491 | a Realms month or tenday shift lands inside the month table |
| MonthWalks.RealmsMonthsFromRegular | DeCamp/Timestamp.cs:434-491 | from a regular month, n months keep the day and move n places among the twelve |
| MonthWalks.RealmsTendaysAreMonths | DeCamp/Timestamp.cs:452-468 | 3k tendays are the same shift as k months, from any month or festival |
| MonthWalks.RealmsTendaysOnRegular | DeCamp/Timestamp.cs:452-468 | the one or two tendays over add ten days each to the day of the month |
| MonthWalks.RealmsFestivalFacts | DeCamp/Timestamp.cs:440-491 | each festival starts the walk at the following regular month and lands back on itself |
| MonthWalks.RealmsFestivalYears | DeCamp/Timestamp.cs:434-491 | 12k months from a festival return to that festival, the day kept, k years on |
| MonthWalks.GregorianStep | DeCamp/Timestamp.cs:611-617 | one pass of the Gregorian forward month loop stays in 0..11 |
| MonthWalks.GregorianStepBack | DeCamp/Timestamp.cs:618-624 | one pass of the backward month loop stays in 0..11 |
| MonthWalks.GregorianWalk | DeCamp/Timestamp.cs:607-627 | the Gregorian month loops stay within the table or one past it |
| MonthWalks.GregorianWalkClosed | DeCamp/Timestamp.cs:607-627 | from month m, n months reach (m + n) mod 12, (m + n) div 12 years on |
| Weekdays.GreyhawkWeekday | DeCamp/Timestamp.cs:300-304 | no weekday exactly on a festival, otherwise an index into the seven day names |
| Weekdays.GreyhawkWeekdayOfDate | DeCamp/Timestamp.cs:300-304 | the Greyhawk weekday read off getDate: none on a festival, else the day of the month minus one, mod 7 |
| Weekdays.FestivalWeekdayOfDate | DeCamp/Timestamp.cs:300-304 | the same on any month table opening with a festival |
| Weekdays.FestivalWeekday | DeCamp/Timestamp.cs:300-304 | the same rule on any month table that starts with a festival |
| Weekdays.FestivalWeekdayOfMonth | DeCamp/Timestamp.cs:300-304 | day d of a regular month has weekday (d - 1) mod 7, and festival days have none |
| Weekdays.GreyhawkMonthWeekdays | DeCamp/Timestamp.cs:300-304 | every Greyhawk month begins on Starday |
| Weekdays.EberronWeekday | DeCamp/Timestamp.cs:373-375 | the Eberron weekday is an index 0..6, (day - 1) mod 7 for a positive day |
| Weekdays.EberronDaysBefore | DeCamp/Timestamp.cs:353-371 | every Eberron month has 28 days |
| Weekdays.EberronMonthWeekdays | DeCamp/Timestamp.cs:373-375 | every Eberron month begins on Sul |
| Weekdays.CycleYear | DeCamp/Timestamp.cs:578-579 | the 400-year loops move the year into 2001..2400 by a multiple of 400 |
| Weekdays.GregorianWeekday | DeCamp/Timestamp.cs:569-596 | the weekday index is in -6..6, and not negative for a non-negative day |
| Weekdays.RotateBounds | DeCamp/Timestamp.cs:581-594 | the weekday loops keep the index within -6..6 |
| Weekdays.RotateClosed | DeCamp/Timestamp.cs:581-594 | k loop passes add k steps mod 7 |
| Weekdays.GregorianWeekdayClosed | DeCamp/Timestamp.cs:569-596 | getWeekday is the day plus the reduced year's offset, mod 7 |
| Weekdays.OffsetStep | DeCamp/Timestamp.cs:569-596 | inside a 400-year cycle, one year on adds that year's length to the offset |
| Weekdays.LeapCycle | DeCamp/Timestamp.cs:560-567 | from year 8 on the year length repeats every 400 years |
| Weekdays.CycleStep | DeCamp/Timestamp.cs:569-596 | one year on, the reduced year's offset grows by the year's length mod 7 |
| Weekdays.GregorianWeekdayYearStep | DeCamp/Timestamp.cs:569-596 | a day of the next year falls as many weekdays later as the year has days |
| Weekdays.GregorianWeekdayCycle | DeCamp/Timestamp.cs:569-596 | the weekday repeats 400 years earlier or later |
| Weekdays.GregorianAnchor | DeCamp/Timestamp.cs:569-596 | 1 January 2001 is a Monday |
| Weekdays.GregorianWeekdayCounts | DeCamp/Timestamp.cs:569-596 | from year 8 on, each day's weekday is Monday plus the days since 1 January 2001, mod 7 |
| Weekdays.OffsetCounts | DeCamp/Timestamp.cs:569-596 | from year 8 on, the offset of the reduced year is congruent mod 7 to the days from 1 January 2001 to the start of the year |
| Weekdays.OffsetAgreesStep | DeCamp/Timestamp.cs:569-596 | that congruence holds for a year exactly when it holds for the next |
| Timestamps.UnitSeconds | DeCamp/Timestamp.cs:106-108 | a day-or-longer unit is 86400 seconds and a second is 1 |
| Timestamps.StrippedShiftExact | DeCamp/Timestamp.cs:96-109 | stripping whole years before the conversion to seconds is exact for days, and for amounts shorter than a year |
| Timestamps.StrippedShiftHoursCountAsYears | DeCamp/Timestamp.cs:96-109 | 364 hours on a Greyhawk date count as a year of 364 days and not as 364 hours |
| Timestamps.YearAdjustedSkipsZero | DeCamp/Timestamp.cs:307-313 | the year adjust never lands on year 0 and moves the astronomical year by the amount |
| Timestamps.SetDateCountsEffectiveMonths | DeCamp/Timestamp.cs:511-520 | setDate's leap day for month i is exactly the patch getDate makes to month i |
| Timestamps.WithHourMeaning | DeCamp/Timestamp.cs:138-144 | set(hour) reads back as that hour and keeps the minute, the second and the day |
| Timestamps.WithMinuteMeaning | DeCamp/Timestamp.cs:145-149 | set(minute) reads back as that minute and keeps the hour, the second and the day |
| Timestamps.WithSecondMeaning | DeCamp/Timestamp.cs:150-154 | set(second) reads back as that second and keeps the hour, the minute and the day |
| Timestamps.SimpleDate.constructor | DeCamp/Timestamp.cs:227-233 | each calendar starts at noon of its default year with its own month table |
| Timestamps.SimpleDate.Copy | DeCamp/Timestamp.cs:17-19 | copy is a fresh object with the same fields; it shares the month table |
| Timestamps.SimpleDate.SetPrecision | DeCamp/Timestamp.cs:21-23 | the precision is the one given |
| Timestamps.SimpleDate.GetTime | DeCamp/Timestamp.cs:187-189 | the time of day is the C# remainder: within the day and with the time's sign |
| Timestamps.SimpleDate.GetYearLength | DeCamp/Timestamp.cs:200-206 | the year length is the calendar's, and it is the sum of the months getDate walks |
| Timestamps.SimpleDate.WalkMonths | DeCamp/Timestamp.cs:162-169 | the getDate loop computes Locate on the table |
| Timestamps.SimpleDate.GetDate | DeCamp/Timestamp.cs:416-424 | getDate is Locate on that year's table, and the shared month table is left as it was |
| Timestamps.SimpleDate.SetDayOfYear | DeCamp/Timestamp.cs:183-185 | the day is set and the time of day kept |
| Timestamps.SimpleDate.SetTime | DeCamp/Timestamp.cs:191-194 | the time of day is set and the day kept |
| Timestamps.SimpleDate.SetClock | DeCamp/Timestamp.cs:196-198 | the clock is set and the day kept |
| Timestamps.SimpleDate.SetDate | DeCamp/Timestamp.cs:645-654 | setDate fails exactly past the month table; otherwise day `date` of the month index is set, which getDate reads back |
| Timestamps.SimpleDate.SetDateDayOfYear | DeCamp/Timestamp.cs:645-654 | the setDate loop adds the days of the months before the month, with the leap day, to the date |
| Timestamps.SimpleDate.SetDateMonthDays | DeCamp/Timestamp.cs:645-654 | one month of the setDate loop counts that month as getDate does in the same year |
| Timestamps.SimpleDate.AdjustBase | DeCamp/Timestamp.cs:74-120 | week and time are no-ops, years add, months become the walked days; the rest strips years and normalises the time |
| Timestamps.SimpleDate.MonthsToDays | DeCamp/Timestamp.cs:80-95 | the month branch of adjust refuses to walk forward from past the last month and otherwise gives the days walked from the current month |
| Timestamps.SimpleDate.MonthDays | DeCamp/Timestamp.cs:80-95 | on any non-empty month table, the month loops of adjust count the days of the months walked forward from the month, or back before it |
| Timestamps.SimpleDate.StripAndNormalise | DeCamp/Timestamp.cs:96-119 | the tail of adjust lands on the stripped moment in normal form |
| Timestamps.SimpleDate.StripYears | DeCamp/Timestamp.cs:97-105 | the year gains C#'s quotient of the amount by the year length, and the C# remainder is left |
| Timestamps.SimpleDate.NormaliseTime | DeCamp/Timestamp.cs:110-119 | the time is brought into the year and the moment is kept |
| Timestamps.SimpleDate.NormaliseByYear | DeCamp/Timestamp.cs:499-508 | after the seconds are added, reading each year's own length, the time ends in normal form at the moment moved by exactly those seconds |
| Timestamps.SimpleDate.AdjustCampaign | DeCamp/Timestamp.cs:235-266 | years, months and weeks add 365, 30 and 7 days to the day counter, and hours, minutes and seconds carry into it |
| Timestamps.SimpleDate.AdjustGreyhawk | DeCamp/Timestamp.cs:306-347 | GreyhawkAdjusted: a time of day changes nothing, the year skips 0, months move the moment by the as-written month walk and fail forward from past the last month, weeks are 7 days, days and finer move it by the stripped shift; every success is normal |
| Timestamps.SimpleDate.GreyhawkMonthShift | DeCamp/Timestamp.cs:314-346 | GreyhawkMonthsMoved: the month branch fails forward from past the last month and changes nothing, otherwise moves the moment by FestivalDays and leaves it normal |
| Timestamps.SimpleDate.GreyhawkMonthsToDays | DeCamp/Timestamp.cs:314-341 | the Greyhawk month branch refuses to walk forward from past the last month and otherwise gives FestivalDays from the current month: the loops as written |
| Timestamps.SimpleDate.GreyhawkShift | DeCamp/Timestamp.cs:339-346 | days and finer units go through the base adjust: the result is normal and the moment moves by the stripped shift, exactly by the days for a day count |
| Timestamps.SimpleDate.GreyhawkMonthDays | DeCamp/Timestamp.cs:317-338 | on any non-empty month table, the Greyhawk month loops as written count FestivalDays: forward, a festival the walk stands on and then the month reached; backward, the month before and a festival before that |
| Timestamps.SimpleDate.FestivalStepForward | DeCamp/Timestamp.cs:317-327 | one pass of the forward Greyhawk loop as written is FestivalStepAsWritten: the festival is counted only when the walk stands on it |
| Timestamps.SimpleDate.FestivalStepBackward | DeCamp/Timestamp.cs:328-338 | one pass of the backward Greyhawk loop is FestivalStepBack |
| Timestamps.SimpleDate.AdjustEberron | DeCamp/Timestamp.cs:377-387 | a month is 28 days and a week 7; the result is normal and moved by that many days |
| Timestamps.SimpleDate.AdjustRealms | DeCamp/Timestamp.cs:434-509 | a month or tenday shift is RealmsShift, days and finer are normalised, and the year adds |
| Timestamps.SimpleDate.RealmsMonthShift | DeCamp/Timestamp.cs:440-500 | the month branch sets the date RealmsShift computes, with its years |
| Timestamps.SimpleDate.RealmsTarget | DeCamp/Timestamp.cs:440-491 | the month walk gives RealmsShift's month and day |
| Timestamps.SimpleDate.RealmsWalkMonths | DeCamp/Timestamp.cs:470-485 | the forward loop for a positive count and the backward loop for a negative one give RealmsWalk and add its years |
| Timestamps.SimpleDate.Adjust | DeCamp/Timestamp.cs:14 | adjust dispatched to each calendar's override, with where the moment moves: CampaignAdjusted on the day counter, GreyhawkAdjusted, EberronAdjusted, RealmsAdjusted and GregorianAdjusted on the year and time; only CampaignDate changes the day counter, and only Greyhawk and the Realms can fail |
| Timestamps.SimpleDate.GetDayOfYear | DeCamp/Timestamp.cs:179-181 | getDayOfYear: CampaignDate's day counter, otherwise the whole days elapsed plus one |
| Timestamps.SimpleDate.IsLeapYear | DeCamp/Timestamp.cs:430-432 | isLeapYear of FRDate and GregorianDate; the other calendars have none |
| Timestamps.SimpleDate.Set | DeCamp/Timestamp.cs:122-156 | set writes the year, goes through setDate for a month or a day, replaces the hour, minute or second, and raises the precision |
| Timestamps.SimpleDate.GetWeekday | DeCamp/Timestamp.cs:300-304 | the weekday of each calendar: none for CampaignDate and the Realms, and an index error exactly where the source would read outside an array |
| Timestamps.SimpleDate.GreyhawkWeekdayOf | DeCamp/Timestamp.cs:300-304 | the Greyhawk weekday, or an index error for a day past the year's end |
| Timestamps.SimpleDate.GregorianWeekdayIndex | DeCamp/Timestamp.cs:569-596 | the loops compute GregorianWeekday |
| Timestamps.SimpleDate.CycleInto2001 | DeCamp/Timestamp.cs:578-579 | the 400-year loops give CycleYear |
| Timestamps.SimpleDate.CenturySteps | DeCamp/Timestamp.cs:581-584 | the century loop rotates by 124 once per century |
| Timestamps.SimpleDate.QuadrenniumSteps | DeCamp/Timestamp.cs:586-589 | the four-year loop rotates by 5 once per four years |
| Timestamps.SimpleDate.YearSteps | DeCamp/Timestamp.cs:591-594 | the year loop rotates by 1 once per year |
| Timestamps.SimpleDate.RealmsStartMonth | DeCamp/Timestamp.cs:440-451 | the start of the month branch computes RealmsStart |
| Timestamps.SimpleDate.SplitTendays | DeCamp/Timestamp.cs:452-468 | the tenday branch gives TendaySplit's months and adds ten days per tenday over |
| Timestamps.SimpleDate.FestivalLandingMonth | DeCamp/Timestamp.cs:486-491 | the end fix-up computes FestivalLanding |
| Timestamps.SimpleDate.RealmsForward | DeCamp/Timestamp.cs:470-477 | on any month table that opens and closes with a regular month, the forward loop computes WalkForward, stays in the table and adds its years |
| Timestamps.SimpleDate.RealmsBackward | DeCamp/Timestamp.cs:478-485 | on the same tables, the backward loop computes WalkBackward, stays in the table and subtracts its years |
| Timestamps.SimpleDate.SkipFestivalsForward | DeCamp/Timestamp.cs:476 | the inner loop stops on the first regular month at or after the one given |
| Timestamps.SimpleDate.SkipFestivalsBackward | DeCamp/Timestamp.cs:484 | the inner loop stops on the first regular month at or before the one given |
| Timestamps.SimpleDate.AdjustGregorian | DeCamp/Timestamp.cs:598-643 | the year skips 0, months follow the Gregorian walk, and weeks and finer units are normalised |
| Timestamps.SimpleDate.GregorianMonthShift | DeCamp/Timestamp.cs:607-627 | the month branch moves to GregorianWalk's month and year with the day of the month kept, through setDate |
| Timestamps.SimpleDate.GregorianMonthLoops | DeCamp/Timestamp.cs:607-627 | the month loops compute GregorianWalk and add its years |
| Timestamps.FirstCentury | DeCamp/Timestamp.cs:586-594 | within 2001..2100 the loop counts are the quotient and remainder by 4 |
| Timestamps.StrippedInstant | DeCamp/Timestamp.cs:96-119 | in a calendar with a fixed year length, adjust's tail moves the moment by the stripped shift and is normal |
| Timestamps.StrippedMoment | DeCamp/Timestamp.cs:96-119 | stripping and then normalising give the moment Stripped describes |
| Timestamps.StripCounts | DeCamp/Timestamp.cs:97-105 | the stripping loops take C#'s quotient and leave its remainder |
| Timestamps.StrippedShift | DeCamp/Timestamp.cs:96-109 | the seconds adjust adds, as written: whole year lengths are stripped off the amount as years whatever its unit, and only the rest is converted by the unit |
| Timestamps.YearAdjusted | DeCamp/Timestamp.cs:307-313 | the year after a year adjust that passes over year 0 |
| Timestamps.DateTime | DeCamp/Timestamp.cs:171-177 | the time setDate writes: the date plus the days of the months before the month, with the old time of day |
| Timestamps.SetDateExtra | DeCamp/Timestamp.cs:511-520 | the leap day setDate adds for a month: FRDate for a month of zero days in a leap year, GregorianDate for February in a leap year |
| Timestamps.WithHour | DeCamp/Timestamp.cs:140-144 | set(hour): the time of day is replaced by the hour with the old minutes and seconds |
| Timestamps.WithMinute | DeCamp/Timestamp.cs:145-149 | set(minute): the time within the hour is replaced by the minute with the old seconds |
| Timestamps.WithSecond | DeCamp/Timestamp.cs:150-153 | set(second): the time within the minute is replaced by the second |
| Timestamps.CampaignDays | DeCamp/Timestamp.cs:237-248 | CampaignDate.adjust: a year is 365 days, a month 30, a week 7 |
| Timestamps.FestivalDays | DeCamp/Timestamp.cs:314-341 | the days GreyhawkDate.adjust's month loops give: forward as written, backward as written |
| Timestamps.CampaignAdjusted | DeCamp/Timestamp.cs:235-266 | what CampaignDate.adjust does for each unit: the day counter moves by the unit's days, and hours, minutes and seconds carry into it with the time kept within a day |
| Timestamps.GreyhawkAdjusted | DeCamp/Timestamp.cs:306-347 | what GreyhawkDate.adjust does for each unit: years skip 0, months follow GreyhawkMonthsMoved, weeks move the moment by 7 days, days and finer by the stripped shift of a 364-day year, and the result is normal |
| Timestamps.GreyhawkMonthsMoved | DeCamp/Timestamp.cs:314-346 | the month branch fails forward from past the last month and changes nothing; otherwise the moment moves by FestivalDays and is normal |
| Timestamps.EberronAdjusted | DeCamp/Timestamp.cs:377-387 | what EberronDate.adjust does: years add, months are 28 days, weeks 7, and days and finer the stripped shift of a 336-day year; the result is normal |
| Timestamps.RealmsAdjusted | DeCamp/Timestamp.cs:434-509 | what FRDate.adjust does: years add, months and tendays follow RealmsMonthsMoved, days and finer move the moment exactly and leave it normal |
| Timestamps.RealmsMonthsMoved | DeCamp/Timestamp.cs:440-500 | the month and tenday branch fails past the table and changes nothing, otherwise sets the month and day RealmsShift gives, its years carried |
| Timestamps.GregorianAdjusted | DeCamp/Timestamp.cs:598-643 | what GregorianDate.adjust does: years skip 0, months follow GregorianMonthsMoved, weeks and finer move the moment exactly and leave it normal |
| Timestamps.GregorianMonthsMoved | DeCamp/Timestamp.cs:607-627 | the month branch moves to GregorianWalk's month with its years, keeping the day of the month |
| Characters.Adjust | DeCamp/Character.cs:19-43 | adjust: BOOL throws, INT adds with wrap-around, STRING appends, and a wrong cast throws InvalidCast |
| Characters.IntRoundTrip | DeCamp/Character.cs:23-26 | an INT adjustment is undone by its inverse, even across wrap-around |
| Characters.StrRoundTrip | DeCamp/Character.cs:31-41 | appending and then trimming the same string restores the value |
| Characters.StrTrim | DeCamp/Character.cs:32-39 | an inverse STRING adjust succeeds iff the value ends with the offset; a longer offset throws in Substring, a wrong tail throws ArgumentException |
| Characters.AdjustRoundTrip | DeCamp/Character.cs:19-43 | any adjust that succeeds is undone by the inverse adjust |
| Characters.Lookup | DeCamp/Character.cs:56-59 | an absent key reads as null, a present key as its entry |
| Characters.SetRaw | DeCamp/Character.cs:67-70 | the key reads back as what was set, and no other key changes |
| Characters.SetRawRestores | DeCamp/Character.cs:67-70 | setting the previous entry back restores the dictionary, whether or not the key was there |
| Characters.SetEntry | DeCamp/Character.cs:72-77 | BOOL false clears the key, a non-bool value for BOOL is InvalidCast, anything else stores a new attribute; other keys stay |
| Characters.AdjustEntry | DeCamp/Character.cs:84-87 | an absent key changes nothing; otherwise only that key is adjusted |
| Characters.AdjustEntryRoundTrip | DeCamp/Character.cs:84-87 | adjustAttribute is undone by the inverse adjustAttribute |
| Characters.Character.constructor | DeCamp/Character.cs:46-50 | a character with its player and name and no attributes |
| Characters.Character.GetRawAttribute | DeCamp/Character.cs:56-59 | the attribute under the key, or null when absent |
| Characters.Character.GetAttribute | DeCamp/Character.cs:61-65 | the attribute's value, or null when absent |
| Characters.Character.SetRawAttribute | DeCamp/Character.cs:67-70 | the dictionary becomes SetRaw of the old one |
| Characters.Character.SetAttribute | DeCamp/Character.cs:72-77 | the dictionary becomes SetEntry of the old one, or stays on InvalidCast |
| Characters.Character.ClearAttribute | DeCamp/Character.cs:79-82 | the key is removed; an absent key changes nothing |
| Characters.Character.AdjustAttribute | DeCamp/Character.cs:84-87 | the dictionary becomes AdjustEntry of the old one, or stays when adjust throws |
| Events.PermissionHierarchy | DeCamp/Event.cs:24-46 | whoever may set permissions may view and edit; the GM may assign; only the owner sees notes; an unowned event can be claimed; strangers depend on the viewer and editor lists |
| Events.CanView | DeCamp/Event.cs:24-26 | canView: the owner, the GM, anyone when there is no viewer list, or a listed viewer |
| Events.CanViewNotes | DeCamp/Event.cs:28-30 | canViewNotes: the owner alone |
| Events.CanEdit | DeCamp/Event.cs:32-34 | canEdit: the owner, the GM, anyone when there is no editor list, or a listed editor |
| Events.CanAssign | DeCamp/Event.cs:36-38 | canAssign: the GM alone |
| Events.CanClaim | DeCamp/Event.cs:40-42 | canClaim: anyone, when the event has no owner |
| Events.CanSetPermissions | DeCamp/Event.cs:44-46 | canSetPermissions: the owner or the GM |
| Events.AddResult | DeCamp/Event.cs:66-69 | the result list is created if null and the result appended at the end; nothing else changes |
| Events.FreshKey | DeCamp/Event.cs:100-102 | the key for a new character (a stand-in, see below) is not in the party, starts with the name, and is the name when the name is free |
| Events.CampaignState.constructor | DeCamp/Campaign.cs:13-20 | the party dictionary starts empty; Campaign declares it and leaves its constructor unwritten |
| Events.CampaignState.GetCharacter | DeCamp/Event.cs:118 | the character under the key, or null when absent |
| Events.CampaignState.AddCharacter | DeCamp/Event.cs:100-102 | the character is stored under a key not present before, and no other key changes |
| Events.CampaignState.RemoveCharacter | DeCamp/Event.cs:104-106 | the key is deleted; an absent key changes nothing |
| Events.AppliedMod | DeCamp/Event.cs:145-147 | an adjustment adjusts its key, a replacement snapshots the old entry and sets the new one; other keys stay and a failure changes nothing |
| Events.RevertedMod | DeCamp/Event.cs:149-151 | an adjustment's revert is the inverse adjust, a replacement's puts the snapshot back and never fails; other keys stay |
| Events.AppliedMods | DeCamp/Event.cs:183-188 | the mods apply in list order up to the first exception; keys no mod names stay |
| Events.RevertedMods | DeCamp/Event.cs:190-195 | the mods revert in the same forward order up to the first exception; keys no mod names stay |
| Events.ReplacementRoundTrip | DeCamp/Event.cs:164-171 | a replacement's revert restores the dictionary, whatever value it set |
| Events.AdjustmentRoundTrip | DeCamp/Event.cs:145-151 | an adjustment that succeeded is undone by its revert |
| Events.ForwardRevertOfAppends | DeCamp/Event.cs:190-195 | two appends "a" then "b" to "x" give "xab", and the forward-order revert fails on "a" and leaves "xab" |
| Events.AppliedAction | DeCamp/Event.cs:100-102 | add stores the character under a fresh key, remove caches and deletes, edit applies the mods to the character (null for an absent id) |
| Events.AppliedModsErrors | DeCamp/Event.cs:183-188 | the mods never raise NullReference, so that error of an edit means the character was absent |
| Events.RevertedModsErrors | DeCamp/Event.cs:190-195 | the same for the revert |
| Events.RevertedAction | DeCamp/Event.cs:104-106 | revert of add removes the cached key, of remove puts the cached character back under the id, of edit reverts the mods |
| Events.AddRoundTrip | DeCamp/Event.cs:100-106 | reverting an applied add restores the party exactly |
| Events.RemoveRoundTrip | DeCamp/Event.cs:117-124 | reverting an applied removal puts the removed character back under the key chosen by its name |
| Events.CharsFromHolds | DeCamp/Event.cs:51-54 | the characters held by any later result are among those held from index i |
| Events.AppliedResult | DeCamp/Event.cs:52-53 | one result of apply: its action, then its sub-event with the same doVirtual; the result's fields are kept |
| Events.AppliedFrom | DeCamp/Event.cs:51-54 | the apply loop from i returns one result per remaining result |
| Events.AppliedEvent | DeCamp/Event.cs:48-55 | apply does nothing for a virtual event without doVirtual or a null list, and otherwise keeps the event's shape |
| Events.RevertedResult | DeCamp/Event.cs:61-62 | one result of revert: its sub-event first, then its action |
| Events.RevertedFrom | DeCamp/Event.cs:60-63 | the revert loop from i returns one result per remaining result |
| Events.RevertedEvent | DeCamp/Event.cs:57-64 | revert has the same guards as apply and keeps the event's shape |
| Events.AddedResultRunsLast | DeCamp/Event.cs:66-69 | after addResult, apply runs the old results and then the new one |
| Events.EditRoundTrip | DeCamp/Event.cs:183-195 | an edit of one mod that applied without an exception is undone by its revert |
| Events.ApplyMod | DeCamp/Event.cs:145-147 | AttributeMod.apply on a character is AppliedMod |
| Events.RevertMod | DeCamp/Event.cs:149-151 | AttributeMod.revert on a character is RevertedMod |
| Events.ModsLoopStep | DeCamp/Event.cs:185-187 | one turn of the mods loop |
| Events.ApplyMods | DeCamp/Event.cs:185-187 | the apply loop over the mods is AppliedMods |
| Events.RevertMods | DeCamp/Event.cs:192-194 | the revert loop over the mods is RevertedMods |
| Events.ApplyAction | DeCamp/Event.cs:100-120 | each result class's apply on the campaign state is AppliedAction |
| Events.RevertAction | DeCamp/Event.cs:104-124 | each result class's revert on the campaign state is RevertedAction |
| Events.ApplyLoopStep | DeCamp/Event.cs:51-54 | one turn of the results loop of apply |
| Events.RevertLoopStep | DeCamp/Event.cs:60-63 | one turn of the results loop of revert |
| Events.ApplyResult | DeCamp/Event.cs:52-53 | the result's apply, then its sub-event's, is AppliedResult |
| Events.Apply | DeCamp/Event.cs:48-55 | Event.apply on the campaign state is AppliedEvent |
| Events.RevertResult | DeCamp/Event.cs:61-62 | the sub-event's revert, then the result's, is RevertedResult |
| Events.Revert | DeCamp/Event.cs:57-64 | Event.revert on the campaign state is RevertedEvent |

## Left out

- Floating point: the FLOAT attribute type and its `double` arithmetic (DeCamp/Character.cs:27-30) are not modelled.
- Text: toString's formatting, the date formats, and the month and day names are not modelled. Only toString's split of the time into a clock is modelled, and weekdays are indices into the day-name lists.
- The `Calendar` registry (DeCamp/Timestamp.cs:658-683) is not modelled. It maps names to constructors and is only a lookup.
- 32-bit overflow in the calendars: years, times and amounts are mathematical integers. Only the attribute arithmetic wraps.
- Null references: strings, values and players are never null. A null mods list is not modelled. An absent character in an edit with mods is the NullReference error. Reverting with nothing cached (`removeCharacter(null)`, `addCharacter(null)`) is a no-op.
- Event fields: the parent pointers, the timestamp, duration, title, description and notes fields, and the event constructor's clock read are not modelled.
- Events.Apply: events, results and mods are values, and Apply and Revert return the updated event with its caches. So results shared between two events, and caches updated in place through aliases, are not modelled.
- Characters: an Attribute object is a value, so an AttributeReplacement snapshot that aliases a live attribute object is not modelled.
- Characters.Character.constructor: it starts with an empty dictionary. The C# class declares no constructor and leaves `attributes` null.
- Events.CampaignState: CampaignState's source is not part of this model. Its dictionary is the `party` of Campaign.cs.
- Events.CampaignState.constructor: Campaign.cs leaves its constructor unwritten (lines 19-20), so the empty start is assumed.
- Events.FreshKey: the key addCharacter returns is unknown beyond being new; the name with `#` appended until it is free stands in for it.
- Events.CampaignState.AddCharacter: the key it returns is FreshKey's; only "the key was absent and no other key changes" holds for every choice of key.
- Events.AppliedAction: the key an add stores the character under is FreshKey's, and so is the key in its cached result.
- Events.RemoveRoundTrip: the revert re-adds the character under FreshKey's key, so the party is restored exactly only when that key is the removed one; with another key policy only "restored up to the key" carries over.
- Events.EditRoundTrip: proved for an edit of one mod. A longer edit is not undone by the forward-order revert in general (ForwardRevertOfAppends).
- Strings are sequences of characters: the UTF-16 code-unit lengths of `Substring` are not modelled.
- The rest of the program: Ruleset.cs, DnD35.cs, Campaign.cs apart from its party, and the GUI files are not part of this model.

## Findings

| source | as written | input that shows it | evidently intended | confidence | as-written member | corrected member |
|---|---|---|---|---|---|---|
| DeCamp/Timestamp.cs:317-327 | the forward month loop of GreyhawkDate.adjust adds a festival's days only when the walk stands on one, so a walk that ends on a regular month followed by a festival stops at that festival | Coldeven 10 plus one month: 28 days are added and the date lands on Planting 3 | the festival week after a month is counted with it (35 days), landing on Planting 10, as the backward loop does | not executed | MonthWalks.GreyhawkMonthSkipsFestivalLate | MonthWalks.GreyhawkMonthsForward |

The methods of `SimpleDate` run the forward Greyhawk loop as written
(`FestivalStepAsWritten`, through `FestivalDays`), and the closed form of
that walk is proved in `GreyhawkMonthsForwardAsWritten`. The intended pass,
`FestivalStep`, is the reference that `GreyhawkMonthsForward` and the other
"intended step" lemmas are about.
