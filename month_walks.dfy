/**
 * The month-by-month loops of the adjust methods in Timestamp.cs, as
 * recursive functions over the month tables, with closed forms: the
 * generic SimpleDate walk that converts months to days, GreyhawkDate's
 * festival-skipping conversion, FRDate's walk over the twelve regular months
 * and GregorianDate's month arithmetic.
 */
module MonthWalks {
  import opened CSharpInt
  import opened CalendarRules

  /** The loop index after `month += 1; if (month >= Length) month = 0`. */
  function Next(table: seq<MonthInfo>, m: nat): (r: nat)
    requires m < |table|
    ensures r < |table|
  {
    if m + 1 >= |table| then 0 else m + 1
  }

  /** The loop index after `month -= 1; if (month < 0) month = Length - 1`. */
  function Prev(table: seq<MonthInfo>, m: nat): (r: nat)
    requires 0 < |table| && m <= |table|
    ensures r < |table|
  {
    if m == 0 then |table| - 1 else m - 1
  }

  /** SimpleDate.adjust, months forward: the days of n successive months from index m. */
  function ForwardDays(table: seq<MonthInfo>, m: nat, n: nat): int
    requires m < |table|
    decreases n
  {
    if n == 0 then 0 else table[m].days + ForwardDays(table, Next(table, m), n - 1)
  }

  /** SimpleDate.adjust, months backward: minus the days of the n months before index m. */
  function BackwardDays(table: seq<MonthInfo>, m: nat, n: nat): int
    requires 0 < |table| && m <= |table|
    decreases n
  {
    if n == 0 then 0 else -table[Prev(table, m)].days + BackwardDays(table, Prev(table, m), n - 1)
  }

  lemma {:induction false} ForwardWithinYear(table: seq<MonthInfo>, m: nat, k: nat)
    requires m < |table| && m + k <= |table|
    ensures ForwardDays(table, m, k) == DaysBefore(table, m + k) - DaysBefore(table, m)
    decreases k
  {
    if k > 1 {
      ForwardWithinYear(table, m + 1, k - 1);
    }
  }

  lemma {:induction false} ForwardSplit(table: seq<MonthInfo>, m: nat, a: nat, b: nat)
    requires m < |table| && m + a == |table|
    ensures ForwardDays(table, m, a + b) == ForwardDays(table, m, a) + ForwardDays(table, 0, b)
    decreases a
  {
    if a > 1 {
      ForwardSplit(table, m + 1, a - 1, b);
    }
  }

  lemma {:induction false} BackwardWithinYear(table: seq<MonthInfo>, m: nat, k: nat)
    requires 0 < m <= |table| && k <= m
    ensures BackwardDays(table, m, k) == DaysBefore(table, m - k) - DaysBefore(table, m)
    decreases k
  {
    if k > 1 {
      BackwardWithinYear(table, m - 1, k - 1);
    }
  }

  lemma {:induction false} BackwardSplit(table: seq<MonthInfo>, m: nat, a: nat, b: nat)
    requires 0 < |table| && m <= |table| && a == m
    ensures BackwardDays(table, m, a + b) == BackwardDays(table, m, a) + BackwardDays(table, |table|, b)
    decreases a
  {
    if a > 0 {
      BackwardSplit(table, m - 1, a - 1, b);
    } else if b > 0 {
      assert Prev(table, 0) == Prev(table, |table|);
    }
  }

  /** Converting a whole year of months to days gives the year's length in
      either direction, whichever month the walk starts from. */
  lemma {:induction false} WholeYearOfMonths(table: seq<MonthInfo>, m: nat)
    requires m < |table|
    ensures ForwardDays(table, m, |table|) == TotalDays(table)
    ensures BackwardDays(table, m, |table|) == -TotalDays(table)
  {
    ForwardSplit(table, m, |table| - m, m);
    ForwardWithinYear(table, m, |table| - m);
    if m > 0 {
      ForwardWithinYear(table, 0, m);
      BackwardSplit(table, m, m, |table| - m);
      BackwardWithinYear(table, m, m);
      BackwardWithinYear(table, |table|, |table| - m);
    } else {
      BackwardWithinYear(table, |table|, |table|);
      assert BackwardDays(table, 0, |table|) == BackwardDays(table, |table|, |table|) by {
        assert Prev(table, 0) == Prev(table, |table|);
      }
    }
  }

  /** The twelve regular (non-festival) months of a month table: their
      indices in order, the days before each, and the length of the year. */
  datatype RegularMonths = RegularMonths(index: seq<nat>, start: seq<int>, yearDays: int)

  predicate WellFormedRegular(table: seq<MonthInfo>, r: RegularMonths)
  {
    |r.index| == 12 && |r.start| == 12 && forall k :: 0 <= k < 12 ==> r.index[k] < |table|
  }

  /** The position after or before regular month i among the twelve. */
  function NextRegular(i: nat): nat
  {
    if i >= 11 then 0 else i + 1
  }

  function PrevRegular(i: nat): nat
  {
    if i == 0 then 11 else i - 1
  }

  /** The first day of the j-th regular month, counted in days from the start
      of a year (j may be negative or past 11, reaching other years). */
  function RegularStart(r: RegularMonths, j: int): int
    requires |r.start| == 12
    decreases if j < 0 then 12 - j else j
  {
    if 0 <= j < 12 then r.start[j]
    else if j >= 12 then RegularStart(r, j - 12) + r.yearDays
    else RegularStart(r, j + 12) - r.yearDays
  }

  /** The first day of the regular month after (before) regular month k,
      counted from the start of k's year. */
  function StartAfter(r: RegularMonths, k: nat): int
    requires |r.start| == 12 && k < 12
  {
    if k == 11 then r.start[0] + r.yearDays else r.start[k + 1]
  }

  function StartBefore(r: RegularMonths, k: nat): int
    requires |r.start| == 12 && k < 12
  {
    if k == 0 then r.start[11] - r.yearDays else r.start[k - 1]
  }

  lemma RegularStartShift(r: RegularMonths, j: int)
    requires |r.start| == 12
    ensures RegularStart(r, j + 12) == RegularStart(r, j) + r.yearDays
  {
  }

  /** One forward step of GreyhawkDate.adjust as written: a festival is added
      only when the walk stands on one before taking the month. */
  function FestivalStepAsWritten(table: seq<MonthInfo>, m: nat): (int, nat)
    requires m < |table|
  {
    var (festival, m1) := if table[m].isVirtual then (table[m].days, Next(table, m)) else (0, m);
    (festival + table[m1].days, Next(table, m1))
  }

  /** The days GreyhawkDate.adjust adds for n months forward from month index m. */
  function FestivalForwardAsWritten(table: seq<MonthInfo>, m: nat, n: nat): int
    requires m < |table|
    decreases n
  {
    if n == 0 then 0
    else
      var (d, m1) := FestivalStepAsWritten(table, m);
      d + FestivalForwardAsWritten(table, m1, n - 1)
  }

  /** One backward step of GreyhawkDate.adjust: step back a month and, when that
      is a festival, one more. */
  function FestivalStepBack(table: seq<MonthInfo>, m: nat): (int, nat)
    requires 0 < |table| && m <= |table|
  {
    var p := Prev(table, m);
    if table[p].isVirtual then (-table[p].days - table[Prev(table, p)].days, Prev(table, p))
    else (-table[p].days, p)
  }

  /** The days GreyhawkDate.adjust subtracts for n months backward from month index m. */
  function FestivalBackward(table: seq<MonthInfo>, m: nat, n: nat): int
    requires 0 < |table| && m <= |table|
    decreases n
  {
    if n == 0 then 0
    else
      var (d, m1) := FestivalStepBack(table, m);
      d + FestivalBackward(table, m1, n - 1)
  }

  /** One forward step as the festival comment intends: take the month, then
      skip a festival that follows it (the mirror of the backward step). */
  function FestivalStep(table: seq<MonthInfo>, m: nat): (int, nat)
    requires m < |table|
  {
    var m1 := Next(table, m);
    if table[m1].isVirtual then (table[m].days + table[m1].days, Next(table, m1)) else (table[m].days, m1)
  }

  /** The days n months forward from month index m with the intended step. */
  function FestivalForward(table: seq<MonthInfo>, m: nat, n: nat): int
    requires m < |table|
    decreases n
  {
    if n == 0 then 0
    else
      var (d, m1) := FestivalStep(table, m);
      d + FestivalForward(table, m1, n - 1)
  }

  /** Each step from a regular month moves to the start of the next (or previous) one. */
  ghost predicate StepsForward(table: seq<MonthInfo>, r: RegularMonths)
    requires WellFormedRegular(table, r)
  {
    forall k {:trigger FestivalStep(table, r.index[k])} :: 0 <= k < 12 ==>
      FestivalStep(table, r.index[k]) == (StartAfter(r, k) - r.start[k], r.index[NextRegular(k)])
  }

  ghost predicate StepsBackward(table: seq<MonthInfo>, r: RegularMonths)
    requires WellFormedRegular(table, r)
  {
    forall k {:trigger FestivalStepBack(table, r.index[k])} :: 0 <= k < 12 ==>
      FestivalStepBack(table, r.index[k]) == (StartBefore(r, k) - r.start[k], r.index[PrevRegular(k)])
  }

  lemma FestivalForwardUnfold(table: seq<MonthInfo>, r: RegularMonths, i: nat, n: nat)
    requires WellFormedRegular(table, r) && StepsForward(table, r) && i < 12 && n > 0
    ensures FestivalForward(table, r.index[i], n)
         == StartAfter(r, i) - r.start[i] + FestivalForward(table, r.index[NextRegular(i)], n - 1)
  {
    var step := FestivalStep(table, r.index[i]);
    assert step == (StartAfter(r, i) - r.start[i], r.index[NextRegular(i)]);
  }

  lemma FestivalBackwardUnfold(table: seq<MonthInfo>, r: RegularMonths, i: nat, n: nat)
    requires WellFormedRegular(table, r) && StepsBackward(table, r) && i < 12 && n > 0
    ensures FestivalBackward(table, r.index[i], n)
         == StartBefore(r, i) - r.start[i] + FestivalBackward(table, r.index[PrevRegular(i)], n - 1)
  {
    var step := FestivalStepBack(table, r.index[i]);
    assert step == (StartBefore(r, i) - r.start[i], r.index[PrevRegular(i)]);
  }

  lemma {:induction false} FestivalForwardClosed(table: seq<MonthInfo>, r: RegularMonths, i: nat, n: nat)
    requires WellFormedRegular(table, r) && StepsForward(table, r) && i < 12
    ensures FestivalForward(table, r.index[i], n) == RegularStart(r, i + n) - r.start[i]
    decreases n
  {
    if n > 0 {
      FestivalForwardClosed(table, r, NextRegular(i), n - 1);
      FestivalForwardOneMore(table, r, i, n);
    }
  }

  /** The inductive step: the closed form n - 1 months on from the next
      regular month gives the closed form n months on from this one. */
  lemma FestivalForwardOneMore(table: seq<MonthInfo>, r: RegularMonths, i: nat, n: nat)
    requires WellFormedRegular(table, r) && StepsForward(table, r) && i < 12 && n > 0
    requires FestivalForward(table, r.index[NextRegular(i)], n - 1)
          == RegularStart(r, NextRegular(i) + n - 1) - r.start[NextRegular(i)]
    ensures FestivalForward(table, r.index[i], n) == RegularStart(r, i + n) - r.start[i]
  {
    FestivalForwardUnfold(table, r, i, n);
    if i == 11 {
      RegularStartShift(r, n - 1);
      assert (n - 1) + 12 == i + n;
    } else {
      assert NextRegular(i) + n - 1 == i + n;
    }
  }

  lemma {:induction false} FestivalBackwardClosed(table: seq<MonthInfo>, r: RegularMonths, i: nat, n: nat)
    requires WellFormedRegular(table, r) && StepsBackward(table, r) && i < 12
    ensures FestivalBackward(table, r.index[i], n) == RegularStart(r, i - n) - r.start[i]
    decreases n
  {
    if n > 0 {
      var i1 := PrevRegular(i);
      FestivalBackwardUnfold(table, r, i, n);
      FestivalBackwardClosed(table, r, i1, n - 1);
      if i == 0 {
        RegularStartShift(r, i - n);
      } else {
        assert i1 - (n - 1) == i - n;
      }
    }
  }

  /** The as-written steps: r lists the month index just after each regular
      month and the day that month ends on.  Each step from one of these
      takes the next regular month, with a festival the walk stands on, and
      stops just after it. */
  ghost predicate StepsForwardAsWritten(table: seq<MonthInfo>, r: RegularMonths)
    requires WellFormedRegular(table, r)
  {
    forall k {:trigger FestivalStepAsWritten(table, r.index[k])} :: 0 <= k < 12 ==>
      FestivalStepAsWritten(table, r.index[k]) == (StartAfter(r, k) - r.start[k], r.index[NextRegular(k)])
  }

  lemma FestivalForwardAsWrittenUnfold(table: seq<MonthInfo>, r: RegularMonths, i: nat, n: nat)
    requires WellFormedRegular(table, r) && StepsForwardAsWritten(table, r) && i < 12 && n > 0
    ensures FestivalForwardAsWritten(table, r.index[i], n)
         == StartAfter(r, i) - r.start[i] + FestivalForwardAsWritten(table, r.index[NextRegular(i)], n - 1)
  {
    var step := FestivalStepAsWritten(table, r.index[i]);
    assert step == (StartAfter(r, i) - r.start[i], r.index[NextRegular(i)]);
  }

  /** The as-written walk from a month whose first step covers `first` days
      and ends just after regular month i: n > 0 months on is the end of
      regular month i + n - 1. */
  lemma FestivalForwardAsWrittenFrom(table: seq<MonthInfo>, r: RegularMonths, i: nat, n: nat, m: nat, first: int)
    requires WellFormedRegular(table, r) && StepsForwardAsWritten(table, r) && i < 12 && n > 0 && m < |table|
    requires FestivalStepAsWritten(table, m) == (first, r.index[i])
    ensures FestivalForwardAsWritten(table, m, n) == first + RegularStart(r, i + n - 1) - r.start[i]
  {
    var step := FestivalStepAsWritten(table, m);
    assert FestivalForwardAsWritten(table, m, n) == step.0 + FestivalForwardAsWritten(table, step.1, n - 1);
    var k := n - 1;
    FestivalForwardAsWrittenClosed(table, r, i, k);
    assert i + k == i + n - 1;
  }

  /** The as-written walk between the ends of regular months: n months on
      from the end of regular month i is the end of regular month i + n. */
  lemma {:induction false} FestivalForwardAsWrittenClosed(table: seq<MonthInfo>, r: RegularMonths, i: nat, n: nat)
    requires WellFormedRegular(table, r) && StepsForwardAsWritten(table, r) && i < 12
    ensures FestivalForwardAsWritten(table, r.index[i], n) == RegularStart(r, i + n) - r.start[i]
    decreases n
  {
    if n > 0 {
      FestivalForwardAsWrittenClosed(table, r, NextRegular(i), n - 1);
      FestivalForwardAsWrittenOneMore(table, r, i, n);
    }
  }

  lemma FestivalForwardAsWrittenOneMore(table: seq<MonthInfo>, r: RegularMonths, i: nat, n: nat)
    requires WellFormedRegular(table, r) && StepsForwardAsWritten(table, r) && i < 12 && n > 0
    requires FestivalForwardAsWritten(table, r.index[NextRegular(i)], n - 1)
          == RegularStart(r, NextRegular(i) + n - 1) - r.start[NextRegular(i)]
    ensures FestivalForwardAsWritten(table, r.index[i], n) == RegularStart(r, i + n) - r.start[i]
  {
    FestivalForwardAsWrittenUnfold(table, r, i, n);
    if i == 11 {
      RegularStartShift(r, n - 1);
      assert (n - 1) + 12 == i + n;
    } else {
      assert NextRegular(i) + n - 1 == i + n;
    }
  }

  /** Two lists of regular months whose days differ by c everywhere. */
  lemma {:induction false} RegularStartOffset(r: RegularMonths, s: RegularMonths, c: int, j: int)
    requires |r.start| == 12 && |s.start| == 12 && s.yearDays == r.yearDays
    requires forall k :: 0 <= k < 12 ==> s.start[k] == r.start[k] + c
    ensures RegularStart(s, j) == RegularStart(r, j) + c
    decreases if j < 0 then 12 - j else j
  {
    if j >= 12 {
      RegularStartOffset(r, s, c, j - 12);
    } else if j < 0 {
      RegularStartOffset(r, s, c, j + 12);
    }
  }

  /** The twelve regular Greyhawk months. */
  const GreyhawkRegular: RegularMonths :=
    RegularMonths([1, 2, 3, 5, 6, 7, 9, 10, 11, 13, 14, 15],
                  [7, 35, 63, 98, 126, 154, 189, 217, 245, 280, 308, 336], 364)

  /** The start table is the day count of the month table. */
  lemma GreyhawkRegularStarts()
    ensures WellFormedRegular(GreyhawkMonths, GreyhawkRegular)
    ensures forall k :: 0 <= k < 12 ==> DaysBefore(GreyhawkMonths, GreyhawkRegular.index[k]) == GreyhawkRegular.start[k]
  {
    GreyhawkRegularWellFormed();
    GreyhawkStartValues();
    forall k | 0 <= k < 12
      ensures DaysBefore(GreyhawkMonths, GreyhawkRegular.index[k]) == GreyhawkRegular.start[k]
    {
      assert k == 0 || k == 1 || k == 2 || k == 3 || k == 4 || k == 5 || k == 6 || k == 7 || k == 8
        || k == 9 || k == 10 || k == 11;
    }
  }

  /** The days before each regular Greyhawk month, worked out. */
  lemma GreyhawkStartValues()
    ensures DaysBefore(GreyhawkMonths, 1) == 7 && DaysBefore(GreyhawkMonths, 2) == 35
    ensures DaysBefore(GreyhawkMonths, 3) == 63 && DaysBefore(GreyhawkMonths, 5) == 98
    ensures DaysBefore(GreyhawkMonths, 6) == 126 && DaysBefore(GreyhawkMonths, 7) == 154
    ensures DaysBefore(GreyhawkMonths, 9) == 189 && DaysBefore(GreyhawkMonths, 10) == 217
    ensures DaysBefore(GreyhawkMonths, 11) == 245 && DaysBefore(GreyhawkMonths, 13) == 280
    ensures DaysBefore(GreyhawkMonths, 14) == 308 && DaysBefore(GreyhawkMonths, 15) == 336
    ensures DaysBefore(GreyhawkMonths, 4) == 91 && DaysBefore(GreyhawkMonths, 8) == 182
    ensures DaysBefore(GreyhawkMonths, 12) == 273
  {
    assert DaysBefore(GreyhawkMonths, 4) == 91;
    assert DaysBefore(GreyhawkMonths, 8) == 182;
    assert DaysBefore(GreyhawkMonths, 12) == 273;
  }

  lemma GreyhawkSteps()
    ensures WellFormedRegular(GreyhawkMonths, GreyhawkRegular)
    ensures StepsForward(GreyhawkMonths, GreyhawkRegular)
    ensures StepsBackward(GreyhawkMonths, GreyhawkRegular)
  {
    GreyhawkStepsForward();
    GreyhawkStepsBackward();
  }

  lemma GreyhawkStepsForward()
    ensures WellFormedRegular(GreyhawkMonths, GreyhawkRegular)
    ensures StepsForward(GreyhawkMonths, GreyhawkRegular)
  {
    GreyhawkRegularWellFormed();
    forall k | 0 <= k < 12
      ensures FestivalStep(GreyhawkMonths, GreyhawkRegular.index[k])
           == (StartAfter(GreyhawkRegular, k) - GreyhawkRegular.start[k], GreyhawkRegular.index[NextRegular(k)])
    {
      GreyhawkStepForward(k);
    }
  }

  lemma GreyhawkStepsBackward()
    ensures WellFormedRegular(GreyhawkMonths, GreyhawkRegular)
    ensures StepsBackward(GreyhawkMonths, GreyhawkRegular)
  {
    GreyhawkRegularWellFormed();
    forall k | 0 <= k < 12
      ensures FestivalStepBack(GreyhawkMonths, GreyhawkRegular.index[k])
           == (StartBefore(GreyhawkRegular, k) - GreyhawkRegular.start[k], GreyhawkRegular.index[PrevRegular(k)])
    {
      GreyhawkStepBackward(k);
    }
  }

  lemma GreyhawkRegularWellFormed()
    ensures WellFormedRegular(GreyhawkMonths, GreyhawkRegular)
  {
    var r := GreyhawkRegular;
    assert forall k :: 0 <= k < 12 ==> r.index[k] <= 15;
  }

  /** One forward step from regular Greyhawk month k: 28 days, or 35 when a
      festival week follows the month. */
  lemma GreyhawkStepForward(k: nat)
    requires k < 12
    ensures FestivalStep(GreyhawkMonths, GreyhawkRegular.index[k])
         == (StartAfter(GreyhawkRegular, k) - GreyhawkRegular.start[k], GreyhawkRegular.index[NextRegular(k)])
  {
    GreyhawkForwardValues();
    assert k == 0 || k == 1 || k == 2 || k == 3 || k == 4 || k == 5 || k == 6 || k == 7 || k == 8 || k == 9 || k == 10 || k == 11;
  }

  /** One backward step from regular Greyhawk month k: 28 days, or 35 when a
      festival week precedes the month. */
  lemma GreyhawkStepBackward(k: nat)
    requires k < 12
    ensures FestivalStepBack(GreyhawkMonths, GreyhawkRegular.index[k])
         == (StartBefore(GreyhawkRegular, k) - GreyhawkRegular.start[k], GreyhawkRegular.index[PrevRegular(k)])
  {
    GreyhawkBackwardValues();
    assert k == 0 || k == 1 || k == 2 || k == 3 || k == 4 || k == 5 || k == 6 || k == 7 || k == 8 || k == 9 || k == 10 || k == 11;
  }

  /** The forward steps from the twelve regular Greyhawk months, worked out. */
  lemma GreyhawkForwardValues()
    ensures FestivalStep(GreyhawkMonths, 1) == (28, 2)
    ensures FestivalStep(GreyhawkMonths, 2) == (28, 3)
    ensures FestivalStep(GreyhawkMonths, 3) == (35, 5)
    ensures FestivalStep(GreyhawkMonths, 5) == (28, 6)
    ensures FestivalStep(GreyhawkMonths, 6) == (28, 7)
    ensures FestivalStep(GreyhawkMonths, 7) == (35, 9)
    ensures FestivalStep(GreyhawkMonths, 9) == (28, 10)
    ensures FestivalStep(GreyhawkMonths, 10) == (28, 11)
    ensures FestivalStep(GreyhawkMonths, 11) == (35, 13)
    ensures FestivalStep(GreyhawkMonths, 13) == (28, 14)
    ensures FestivalStep(GreyhawkMonths, 14) == (28, 15)
    ensures FestivalStep(GreyhawkMonths, 15) == (35, 1)
  {
    GreyhawkEntries();
  }

  /** The backward steps from the twelve regular Greyhawk months, worked out. */
  lemma GreyhawkBackwardValues()
    ensures FestivalStepBack(GreyhawkMonths, 1) == (-35, 15)
    ensures FestivalStepBack(GreyhawkMonths, 2) == (-28, 1)
    ensures FestivalStepBack(GreyhawkMonths, 3) == (-28, 2)
    ensures FestivalStepBack(GreyhawkMonths, 5) == (-35, 3)
    ensures FestivalStepBack(GreyhawkMonths, 6) == (-28, 5)
    ensures FestivalStepBack(GreyhawkMonths, 7) == (-28, 6)
    ensures FestivalStepBack(GreyhawkMonths, 9) == (-35, 7)
    ensures FestivalStepBack(GreyhawkMonths, 10) == (-28, 9)
    ensures FestivalStepBack(GreyhawkMonths, 11) == (-28, 10)
    ensures FestivalStepBack(GreyhawkMonths, 13) == (-35, 11)
    ensures FestivalStepBack(GreyhawkMonths, 14) == (-28, 13)
    ensures FestivalStepBack(GreyhawkMonths, 15) == (-28, 14)
  {
    GreyhawkEntries();
  }

  /** GreyhawkDate.adjust counting months back from day d of a regular month:
      the walk skips the festivals, so it reaches day d of the regular month n
      places earlier (in an earlier year when it wraps round). */
  lemma GreyhawkMonthsBack(i: nat, n: nat)
    requires i < 12
    ensures GreyhawkRegular.index[i] <= |GreyhawkMonths|
    ensures DaysBefore(GreyhawkMonths, GreyhawkRegular.index[i]) + FestivalBackward(GreyhawkMonths, GreyhawkRegular.index[i], n)
         == RegularStart(GreyhawkRegular, i - n)
  {
    GreyhawkSteps();
    GreyhawkRegularStarts();
    FestivalBackwardClosed(GreyhawkMonths, GreyhawkRegular, i, n);
  }

  /** The intended forward count: n months after the start of a regular month
      is the start of the regular month n places later; twelve months make
      exactly one Greyhawk year. */
  lemma GreyhawkMonthsForward(i: nat, n: nat)
    requires i < 12
    ensures GreyhawkRegular.index[i] < |GreyhawkMonths|
    ensures DaysBefore(GreyhawkMonths, GreyhawkRegular.index[i]) + FestivalForward(GreyhawkMonths, GreyhawkRegular.index[i], n)
         == RegularStart(GreyhawkRegular, i + n)
    ensures FestivalForward(GreyhawkMonths, GreyhawkRegular.index[i], 12) == 364
  {
    GreyhawkSteps();
    GreyhawkRegularStarts();
    FestivalForwardClosed(GreyhawkMonths, GreyhawkRegular, i, n);
    FestivalForwardClosed(GreyhawkMonths, GreyhawkRegular, i, 12);
    RegularStartShift(GreyhawkRegular, i);
  }

  /** The month index just after each regular Greyhawk month, and the days
      from the start of the year to the end of that month. */
  const GreyhawkEnds: RegularMonths :=
    RegularMonths([2, 3, 4, 6, 7, 8, 10, 11, 12, 14, 15, 0],
                  [35, 63, 91, 126, 154, 182, 217, 245, 273, 308, 336, 364], 364)

  /** One pass of the forward loop of GreyhawkDate.adjust as written, from
      each of the sixteen months: a regular month adds its 28 days, a
      festival adds its 7 and the 28 of the month after it. */
  lemma GreyhawkAsWrittenValues()
    ensures FestivalStepAsWritten(GreyhawkMonths, 0) == (35, 2)
    ensures FestivalStepAsWritten(GreyhawkMonths, 1) == (28, 2)
    ensures FestivalStepAsWritten(GreyhawkMonths, 2) == (28, 3)
    ensures FestivalStepAsWritten(GreyhawkMonths, 3) == (28, 4)
    ensures FestivalStepAsWritten(GreyhawkMonths, 4) == (35, 6)
    ensures FestivalStepAsWritten(GreyhawkMonths, 5) == (28, 6)
    ensures FestivalStepAsWritten(GreyhawkMonths, 6) == (28, 7)
    ensures FestivalStepAsWritten(GreyhawkMonths, 7) == (28, 8)
    ensures FestivalStepAsWritten(GreyhawkMonths, 8) == (35, 10)
    ensures FestivalStepAsWritten(GreyhawkMonths, 9) == (28, 10)
    ensures FestivalStepAsWritten(GreyhawkMonths, 10) == (28, 11)
    ensures FestivalStepAsWritten(GreyhawkMonths, 11) == (28, 12)
    ensures FestivalStepAsWritten(GreyhawkMonths, 12) == (35, 14)
    ensures FestivalStepAsWritten(GreyhawkMonths, 13) == (28, 14)
    ensures FestivalStepAsWritten(GreyhawkMonths, 14) == (28, 15)
    ensures FestivalStepAsWritten(GreyhawkMonths, 15) == (28, 0)
  {
    GreyhawkEntries();
  }

  /** From just after each regular Greyhawk month, an as-written step reaches
      just after the next one. */
  lemma GreyhawkEndsSteps()
    ensures WellFormedRegular(GreyhawkMonths, GreyhawkEnds)
    ensures StepsForwardAsWritten(GreyhawkMonths, GreyhawkEnds)
  {
    GreyhawkAsWrittenValues();
    var e := GreyhawkEnds;
    assert forall k :: 0 <= k < 12 ==> e.index[k] < 16;
    forall k | 0 <= k < 12
      ensures FestivalStepAsWritten(GreyhawkMonths, GreyhawkEnds.index[k])
           == (StartAfter(GreyhawkEnds, k) - GreyhawkEnds.start[k], GreyhawkEnds.index[NextRegular(k)])
    {
      assert k == 0 || k == 1 || k == 2 || k == 3 || k == 4 || k == 5 || k == 6 || k == 7 || k == 8
        || k == 9 || k == 10 || k == 11;
    }
  }

  /** The first as-written step from regular Greyhawk month i takes its 28
      days and stops just after it; from the festival week before months 0,
      3, 6 and 9 it takes the festival's 7 days as well. */
  lemma GreyhawkFirstStep(i: nat)
    requires i < 12
    ensures 0 < GreyhawkRegular.index[i] < |GreyhawkMonths| && GreyhawkEnds.index[i] < |GreyhawkMonths|
    ensures DaysBefore(GreyhawkMonths, GreyhawkRegular.index[i]) == GreyhawkRegular.start[i]
    ensures FestivalStepAsWritten(GreyhawkMonths, GreyhawkRegular.index[i]) == (28, GreyhawkEnds.index[i])
    ensures GreyhawkEnds.start[i] == GreyhawkRegular.start[i] + 28
    ensures i % 3 == 0 ==>
      && GreyhawkMonths[GreyhawkRegular.index[i] - 1].isVirtual
      && DaysBefore(GreyhawkMonths, GreyhawkRegular.index[i] - 1) + 7 == GreyhawkRegular.start[i]
      && FestivalStepAsWritten(GreyhawkMonths, GreyhawkRegular.index[i] - 1) == (35, GreyhawkEnds.index[i])
  {
    GreyhawkAsWrittenValues();
    GreyhawkStartValues();
    assert i == 0 || i == 1 || i == 2 || i == 3 || i == 4 || i == 5 || i == 6 || i == 7 || i == 8
      || i == 9 || i == 10 || i == 11;
  }

  /** The ends of the regular Greyhawk months are 28 days after their starts. */
  lemma GreyhawkEndsOffset(j: int)
    ensures RegularStart(GreyhawkEnds, j) == RegularStart(GreyhawkRegular, j) + 28
  {
    var r, e := GreyhawkRegular, GreyhawkEnds;
    assert forall k :: 0 <= k < 12 ==> e.start[k] == r.start[k] + 28;
    RegularStartOffset(r, e, 28, j);
  }

  /** GreyhawkDate.adjust as written: n > 0 months forward from day 1 of
      regular month i reach the end of regular month i + n - 1 (every
      regular month has 28 days).  The walk stops before a festival that
      follows that month, so n months are not always n regular months'
      starts apart. */
  lemma GreyhawkMonthsForwardAsWritten(i: nat, n: nat)
    requires i < 12 && n > 0
    ensures GreyhawkRegular.index[i] < |GreyhawkMonths|
    ensures DaysBefore(GreyhawkMonths, GreyhawkRegular.index[i])
            + FestivalForwardAsWritten(GreyhawkMonths, GreyhawkRegular.index[i], n)
         == RegularStart(GreyhawkRegular, i + n - 1) + 28
  {
    GreyhawkFirstStep(i);
    GreyhawkEndsSteps();
    FestivalForwardAsWrittenFrom(GreyhawkMonths, GreyhawkEnds, i, n, GreyhawkRegular.index[i], 28);
    GreyhawkEndsOffset(i + n - 1);
  }

  /** The same from day 1 of a festival week: n > 0 months forward from the
      festival before regular month i reach the end of regular month
      i + n - 1, the festival counted with the first month. */
  lemma GreyhawkFestivalMonthsForwardAsWritten(i: nat, n: nat)
    requires i < 12 && i % 3 == 0 && n > 0
    ensures 0 < GreyhawkRegular.index[i] < |GreyhawkMonths|
    ensures GreyhawkMonths[GreyhawkRegular.index[i] - 1].isVirtual
    ensures DaysBefore(GreyhawkMonths, GreyhawkRegular.index[i] - 1)
            + FestivalForwardAsWritten(GreyhawkMonths, GreyhawkRegular.index[i] - 1, n)
         == RegularStart(GreyhawkRegular, i + n - 1) + 28
  {
    GreyhawkFirstStep(i);
    GreyhawkEndsSteps();
    FestivalForwardAsWrittenFrom(GreyhawkMonths, GreyhawkEnds, i, n, GreyhawkRegular.index[i] - 1, 35);
    GreyhawkEndsOffset(i + n - 1);
  }

  /** As written, one month forward from Coldeven 10 adds only Coldeven's 28
      days and reaches Planting 3, although Growfest lies between; the intended
      step adds the festival too and reaches Planting 10.  From Needfest 3 the
      walk as written adds the festival and Fireseek, 35 days, where the
      intended step adds the festival's 7 days alone. */
  lemma GreyhawkMonthSkipsFestivalLate()
    ensures FestivalForwardAsWritten(GreyhawkMonths, 3, 1) == 28
    ensures Locate(GreyhawkMonths, DaysBefore(GreyhawkMonths, 3) + 10 + 28) == (6, 3)
    ensures FestivalForward(GreyhawkMonths, 3, 1) == 35
    ensures Locate(GreyhawkMonths, DaysBefore(GreyhawkMonths, 3) + 10 + 35) == (6, 10)
    ensures FestivalForwardAsWritten(GreyhawkMonths, 0, 1) == 35
    ensures FestivalForward(GreyhawkMonths, 0, 1) == 7
  {
    TablesNonNegative(Greyhawk, 0);
    assert DaysBefore(GreyhawkMonths, 5) == 98;
    LocateDaysBefore(GreyhawkMonths, 5, 3);
    LocateDaysBefore(GreyhawkMonths, 5, 10);
  }

  /** Moving k years of twelve months keeps the month and adds k to the year. */
  lemma TwelvesApart(x: int, k: int)
    ensures (x + 12 * k) % 12 == x % 12 && (x + 12 * k) / 12 == x / 12 + k
  {
    DivUnique(x + 12 * k, 12, x / 12 + k, x % 12);
  }

  /** A month table whose first and last months are regular, so that the
      skipping loops of FRDate.adjust stay inside it. */
  predicate FestivalsInside(table: seq<MonthInfo>)
  {
    |table| > 0 && !table[0].isVirtual && !table[|table| - 1].isVirtual
  }

  /** `while (months[month].isVirtual) month += 1`. */
  function SkipForward(table: seq<MonthInfo>, m: nat): (r: nat)
    requires FestivalsInside(table) && m < |table|
    ensures m <= r < |table| && !table[r].isVirtual
    decreases |table| - m
  {
    if table[m].isVirtual then SkipForward(table, m + 1) else m
  }

  /** `while (months[month].isVirtual) month -= 1`. */
  function SkipBackward(table: seq<MonthInfo>, m: nat): (r: nat)
    requires FestivalsInside(table) && m < |table|
    ensures r <= m && !table[r].isVirtual
    decreases m
  {
    if table[m].isVirtual then SkipBackward(table, m - 1) else m
  }

  /** One pass of FRDate.adjust's forward month loop: the next month, wrapping
      into the next year, then past any festivals.  Gives the new index and
      the change of year. */
  function MonthStep(table: seq<MonthInfo>, m: nat): (r: (nat, int))
    requires FestivalsInside(table) && m < |table|
    ensures r.0 < |table|
  {
    if m + 1 >= |table| then (SkipForward(table, 0), 1) else (SkipForward(table, m + 1), 0)
  }

  /** One pass of the backward month loop. */
  function MonthStepBack(table: seq<MonthInfo>, m: nat): (r: (nat, int))
    requires FestivalsInside(table) && m < |table|
    ensures r.0 < |table|
  {
    if m == 0 then (SkipBackward(table, |table| - 1), -1) else (SkipBackward(table, m - 1), 0)
  }

  /** n passes of the forward (or backward) loop: the month index reached and
      the years added. */
  function WalkForward(table: seq<MonthInfo>, m: nat, n: nat): (r: (nat, int))
    requires FestivalsInside(table) && m < |table|
    ensures r.0 < |table|
    decreases n
  {
    if n == 0 then (m, 0)
    else
      var (m1, dy) := MonthStep(table, m);
      var (m2, years) := WalkForward(table, m1, n - 1);
      (m2, dy + years)
  }

  function WalkBackward(table: seq<MonthInfo>, m: nat, n: nat): (r: (nat, int))
    requires FestivalsInside(table) && m < |table|
    ensures r.0 < |table|
    decreases n
  {
    if n == 0 then (m, 0)
    else
      var (m1, dy) := MonthStepBack(table, m);
      var (m2, years) := WalkBackward(table, m1, n - 1);
      (m2, dy + years)
  }

  /** The indices of the twelve regular months of a table, when each loop pass
      moves from one to the next (wrapping into the next year after the last). */
  ghost predicate RegularCycle(table: seq<MonthInfo>, idx: seq<nat>)
  {
    && FestivalsInside(table) && |idx| == 12
    && (forall k :: 0 <= k < 12 ==> idx[k] < |table|)
    && CycleForward(table, idx) && CycleBackward(table, idx)
  }

  /** Each forward pass moves from one regular month to the next. */
  ghost predicate CycleForward(table: seq<MonthInfo>, idx: seq<nat>)
    requires FestivalsInside(table) && |idx| == 12 && forall k :: 0 <= k < 12 ==> idx[k] < |table|
  {
    forall k {:trigger MonthStep(table, idx[k])} :: 0 <= k < 12 ==>
      MonthStep(table, idx[k]) == (idx[NextRegular(k)], if k == 11 then 1 else 0)
  }

  /** Each backward pass moves from one regular month to the one before. */
  ghost predicate CycleBackward(table: seq<MonthInfo>, idx: seq<nat>)
    requires FestivalsInside(table) && |idx| == 12 && forall k :: 0 <= k < 12 ==> idx[k] < |table|
  {
    forall k {:trigger MonthStepBack(table, idx[k])} :: 0 <= k < 12 ==>
      MonthStepBack(table, idx[k]) == (idx[PrevRegular(k)], if k == 0 then -1 else 0)
  }

  /** n passes of the forward loop from the i-th regular month reach the
      regular month (i + n) mod 12, (i + n) div 12 years on. */
  lemma {:induction false} WalkForwardClosed(table: seq<MonthInfo>, idx: seq<nat>, i: nat, n: nat)
    requires RegularCycle(table, idx) && i < 12
    ensures WalkForward(table, idx[i], n) == (idx[(i + n) % 12], (i + n) / 12)
    decreases n
  {
    if n == 0 {
      DivUnique(i, 12, 0, i);
    } else {
      WalkForwardClosed(table, idx, NextRegular(i), n - 1);
      WalkForwardOneMore(table, idx, i, n);
    }
  }

  /** The inductive step: the closed form n - 1 months on from the next
      regular month gives the closed form n months on from this one. */
  lemma WalkForwardOneMore(table: seq<MonthInfo>, idx: seq<nat>, i: nat, n: nat)
    requires RegularCycle(table, idx) && i < 12 && n > 0
    requires WalkForward(table, idx[NextRegular(i)], n - 1)
          == (idx[(NextRegular(i) + (n - 1)) % 12], (NextRegular(i) + (n - 1)) / 12)
    ensures WalkForward(table, idx[i], n) == (idx[(i + n) % 12], (i + n) / 12)
  {
    var i1 := NextRegular(i);
    var j := i1 + (n - 1);
    WalkForwardUnfold(table, idx, i, n);
    if i == 11 {
      TwelvesApart(j, 1);
      assert j + 12 * 1 == i + n;
    } else {
      assert j == i + n;
    }
  }

  lemma WalkForwardUnfold(table: seq<MonthInfo>, idx: seq<nat>, i: nat, n: nat)
    requires RegularCycle(table, idx) && i < 12 && n > 0
    ensures var w := WalkForward(table, idx[NextRegular(i)], n - 1);
      WalkForward(table, idx[i], n) == (w.0, (if i == 11 then 1 else 0) + w.1)
  {
    assert MonthStep(table, idx[i]) == (idx[NextRegular(i)], if i == 11 then 1 else 0);
  }

  /** n passes of the backward loop from the i-th regular month reach the
      regular month (i - n) mod 12, (i - n) div 12 years on. */
  lemma {:induction false} WalkBackwardClosed(table: seq<MonthInfo>, idx: seq<nat>, i: nat, n: nat)
    requires RegularCycle(table, idx) && i < 12
    ensures WalkBackward(table, idx[i], n) == (idx[(i - n) % 12], (i - n) / 12)
    decreases n
  {
    if n == 0 {
      DivUnique(i, 12, 0, i);
    } else {
      WalkBackwardClosed(table, idx, PrevRegular(i), n - 1);
      WalkBackwardOneMore(table, idx, i, n);
    }
  }

  lemma WalkBackwardOneMore(table: seq<MonthInfo>, idx: seq<nat>, i: nat, n: nat)
    requires RegularCycle(table, idx) && i < 12 && n > 0
    requires WalkBackward(table, idx[PrevRegular(i)], n - 1)
          == (idx[(PrevRegular(i) - (n - 1)) % 12], (PrevRegular(i) - (n - 1)) / 12)
    ensures WalkBackward(table, idx[i], n) == (idx[(i - n) % 12], (i - n) / 12)
  {
    var i1 := PrevRegular(i);
    WalkBackwardUnfold(table, idx, i, n);
    var j: int := i - n;
    if i == 0 {
      TwelvesApart(j, 1);
      assert i1 - (n - 1) == j + 12 * 1;
    } else {
      assert i1 - (n - 1) == j;
    }
  }

  lemma WalkBackwardUnfold(table: seq<MonthInfo>, idx: seq<nat>, i: nat, n: nat)
    requires RegularCycle(table, idx) && i < 12 && n > 0
    ensures var w := WalkBackward(table, idx[PrevRegular(i)], n - 1);
      WalkBackward(table, idx[i], n) == (w.0, (if i == 0 then -1 else 0) + w.1)
  {
    assert MonthStepBack(table, idx[i]) == (idx[PrevRegular(i)], if i == 0 then -1 else 0);
  }

  /** The twelve regular months of the Forgotten Realms calendar. */
  const RealmsRegular: seq<nat> := [0, 2, 3, 4, 6, 7, 8, 11, 12, 14, 15, 17]

  lemma RealmsStepValues()
    ensures FestivalsInside(RealmsMonths)
    ensures MonthStep(RealmsMonths, 0) == (2, 0)
    ensures MonthStep(RealmsMonths, 2) == (3, 0)
    ensures MonthStep(RealmsMonths, 3) == (4, 0)
    ensures MonthStep(RealmsMonths, 4) == (6, 0)
    ensures MonthStep(RealmsMonths, 6) == (7, 0)
    ensures MonthStep(RealmsMonths, 7) == (8, 0)
    ensures MonthStep(RealmsMonths, 8) == (11, 0)
    ensures MonthStep(RealmsMonths, 11) == (12, 0)
    ensures MonthStep(RealmsMonths, 12) == (14, 0)
    ensures MonthStep(RealmsMonths, 14) == (15, 0)
    ensures MonthStep(RealmsMonths, 15) == (17, 0)
    ensures MonthStep(RealmsMonths, 17) == (0, 1)
    ensures MonthStepBack(RealmsMonths, 0) == (17, -1)
    ensures MonthStepBack(RealmsMonths, 2) == (0, 0)
    ensures MonthStepBack(RealmsMonths, 3) == (2, 0)
    ensures MonthStepBack(RealmsMonths, 4) == (3, 0)
    ensures MonthStepBack(RealmsMonths, 6) == (4, 0)
    ensures MonthStepBack(RealmsMonths, 7) == (6, 0)
    ensures MonthStepBack(RealmsMonths, 8) == (7, 0)
    ensures MonthStepBack(RealmsMonths, 11) == (8, 0)
    ensures MonthStepBack(RealmsMonths, 12) == (11, 0)
    ensures MonthStepBack(RealmsMonths, 14) == (12, 0)
    ensures MonthStepBack(RealmsMonths, 15) == (14, 0)
    ensures MonthStepBack(RealmsMonths, 17) == (15, 0)
  {
  }

  lemma RealmsCycle()
    ensures RegularCycle(RealmsMonths, RealmsRegular)
  {
    RealmsStepValues();
    forall k | 0 <= k < 12
      ensures RealmsRegular[k] < |RealmsMonths|
      ensures MonthStep(RealmsMonths, RealmsRegular[k])
           == (RealmsRegular[NextRegular(k)], if k == 11 then 1 else 0)
      ensures MonthStepBack(RealmsMonths, RealmsRegular[k])
           == (RealmsRegular[PrevRegular(k)], if k == 0 then -1 else 0)
    {
      assert k == 0 || k == 1 || k == 2 || k == 3 || k == 4 || k == 5 || k == 6 || k == 7 || k == 8
        || k == 9 || k == 10 || k == 11;
    }
  }

  /** FRDate.adjust's conversion of tendays to months: `extra = amount % 3`,
      moved up by 3 when negative, and the months taken as the quotient.  This
      is floor division, whatever the sign. */
  function TendaySplit(amount: int): (r: (int, int))
    ensures 0 <= r.1 < 3 && amount == 3 * r.0 + r.1
  {
    var extra := Mod(amount, 3);
    if extra < 0 then (Div(amount - 3, 3), extra + 3) else (Div(amount, 3), extra)
  }

  /** Where FRDate.adjust(amount, month or week) sends the date: the month
      index and day it passes to setDate and the years it adds on the way. */
  datatype Shifted = Shifted(month: nat, date: int, years: int)

  /** FRDate.adjust's month loops: forward for a positive count, backward for
      a negative one. */
  function RealmsWalk(m: nat, months: int): (r: (nat, int))
    requires m < |RealmsMonths|
    ensures r.0 < |RealmsMonths|
  {
    RealmsCycle();
    if months >= 0 then WalkForward(RealmsMonths, m, months) else WalkBackward(RealmsMonths, m, -months)
  }

  /** From a regular month, n months move n places along the twelve regular
      months (in either direction) and change the year by the whole number of
      times the count wraps. */
  lemma RealmsWalkFromRegular(i: nat, n: int)
    requires i < 12
    ensures RealmsWalk(RealmsRegular[i], n) == (RealmsRegular[(i + n) % 12], (i + n) / 12)
  {
    RealmsCycle();
    WalkFromRegular(RealmsMonths, RealmsRegular, i, n);
  }

  /** On any table whose regular months form a cycle, n months from the
      regular month i (either way) reach the regular month (i + n) mod 12,
      (i + n) div 12 years on. */
  lemma WalkFromRegular(table: seq<MonthInfo>, idx: seq<nat>, i: nat, n: int)
    requires RegularCycle(table, idx) && i < 12
    ensures n >= 0 ==> WalkForward(table, idx[i], n) == (idx[(i + n) % 12], (i + n) / 12)
    ensures n < 0 ==> WalkBackward(table, idx[i], -n) == (idx[(i + n) % 12], (i + n) / 12)
  {
    if n >= 0 {
      WalkForwardClosed(table, idx, i, n);
    } else {
      WalkBackwardClosed(table, idx, i, -n);
    }
  }

  /** The month FRDate.adjust starts walking from: a festival counts as the
      following month, Midsummer as the month after Shieldmeet.  Also whether
      it started on a festival and on Midsummer. */
  function RealmsStart(m: nat): (r: (nat, bool, bool))
    requires m < |RealmsMonths|
    ensures r.0 < |RealmsMonths| && !RealmsMonths[r.0].isVirtual
    ensures r.1 == RealmsMonths[m].isVirtual && (r.2 ==> r.1)
    ensures !r.1 ==> r.0 == m
  {
    var t := RealmsMonths;
    if !t[m].isVirtual then (m, false, false)
    else if t[m + 1].isVirtual then (m + 2, true, true)
    else (m + 1, true, false)
  }

  /** The end fix-up: after starting on a festival, step back onto the festival
      just before the month reached, and onto Midsummer after starting there. */
  function FestivalLanding(m: nat, festival: bool, midsummer: bool): (r: nat)
    requires m < |RealmsMonths|
    ensures r <= m
  {
    var t := RealmsMonths;
    if festival && m > 0 && t[m - 1].isVirtual then
      if midsummer && m - 1 > 0 && t[m - 2].isVirtual then m - 2 else m - 1
    else m
  }

  /** FRDate.adjust for months (weeks false) or tendays (weeks true) from month
      index m, day `date`: the month walk from the start month, the landing
      back on a festival, and the leftover tendays adding ten days each (one
      fewer when starting on a festival, which then loses its festival
      status). */
  function RealmsShift(m: nat, date: int, amount: int, weeks: bool): (r: Shifted)
    requires m < |RealmsMonths|
    ensures r.month < |RealmsMonths|
  {
    var (m2, wasFestival, wasMidsummer) := RealmsStart(m);
    var (months, extra) := if weeks then TendaySplit(amount) else (amount, 0);
    var date1 := if extra > 0 then date + extra * 10 - (if wasFestival then 1 else 0) else date;
    var (m3, years) := RealmsWalk(m2, months);
    Shifted(FestivalLanding(m3, wasFestival && !(extra > 0), wasMidsummer && !(extra > 0)), date1, years)
  }

  /** From a regular month, n months move n places along the twelve regular
      months, keep the day, and add the years wrapped; twelve months are a year. */
  lemma RealmsMonthsFromRegular(i: nat, date: int, n: int)
    requires i < 12
    ensures RealmsShift(RealmsRegular[i], date, n, false)
         == Shifted(RealmsRegular[(i + n) % 12], date, (i + n) / 12)
  {
    RealmsRegularStarts(i);
    RealmsWalkFromRegular(i, n);
  }

  /** A walk from a regular month starts there, not on a festival. */
  lemma RealmsRegularStarts(i: nat)
    requires i < 12
    ensures RealmsRegular[i] < |RealmsMonths| && RealmsStart(RealmsRegular[i]) == (RealmsRegular[i], false, false)
  {
    RealmsCycle();
    assert RealmsMonths[RealmsRegular[i]].isVirtual == false by {
      assert i == 0 || i == 1 || i == 2 || i == 3 || i == 4 || i == 5 || i == 6 || i == 7 || i == 8
        || i == 9 || i == 10 || i == 11;
    }
  }

  /** Three tendays are a month: a multiple of three tendays is the same shift
      as a third as many months, from any month or festival. */
  lemma RealmsTendaysAreMonths(m: nat, date: int, k: int)
    requires m < |RealmsMonths|
    ensures RealmsShift(m, date, 3 * k, true) == RealmsShift(m, date, k, false)
  {
    assert TendaySplit(3 * k) == (k, 0);
  }

  /** The other tendays add ten days each to the day of the month. */
  lemma RealmsTendaysOnRegular(i: nat, date: int, k: int, extra: int)
    requires i < 12 && 0 < extra < 3
    ensures RealmsShift(RealmsRegular[i], date, 3 * k + extra, true)
         == Shifted(RealmsRegular[(i + k) % 12], date + 10 * extra, (i + k) / 12)
  {
    assert TendaySplit(3 * k + extra) == (k, extra);
    RealmsRegularStarts(i);
    RealmsWalkFromRegular(i, k);
  }

  /** The festivals of the Forgotten Realms table and the position among the
      regular months of the month that follows each (Midsummer and Shieldmeet
      are both followed by Eleasis). */
  const RealmsFestivals: seq<nat> := [1, 5, 9, 10, 13, 16]
  const RealmsAfterFestival: seq<nat> := [1, 4, 7, 7, 9, 11]

  lemma RealmsFestivalFacts(f: nat)
    requires f < 6
    ensures RealmsStart(RealmsFestivals[f]).0 == RealmsRegular[RealmsAfterFestival[f]]
    ensures RealmsStart(RealmsFestivals[f]).1
    ensures FestivalLanding(RealmsRegular[RealmsAfterFestival[f]], true, RealmsStart(RealmsFestivals[f]).2)
         == RealmsFestivals[f]
  {
  }

  /** A whole number of years' worth of months from a festival returns to the
      same festival, the day kept, that many years on. */
  lemma RealmsFestivalYears(f: nat, date: int, k: int)
    requires f < 6
    ensures RealmsShift(RealmsFestivals[f], date, 12 * k, false) == Shifted(RealmsFestivals[f], date, k)
  {
    var i := RealmsAfterFestival[f];
    RealmsFestivalFacts(f);
    RealmsWalkFromRegular(i, 12 * k);
    assert (i + 12 * k) % 12 == i && (i + 12 * k) / 12 == k;
  }

  /** One pass of GregorianDate.adjust's month loop forward (and backward):
      the month index and the change of year. */
  function GregorianStep(m: nat): (r: (nat, int))
    ensures r.0 < 12
  {
    if m + 1 >= 12 then (0, 1) else (m + 1, 0)
  }

  function GregorianStepBack(m: nat): (r: (nat, int))
    ensures r.0 < 12
  {
    if m == 0 then (11, -1) else if m - 1 < 12 then (m - 1, 0) else (11, 0)
  }

  /** GregorianDate.adjust(amount, month) from month index m (which may be 12,
      one past December, when getDate ran past the year's end): the month index
      passed to setDate and the years added. */
  function GregorianWalk(m: nat, amount: int): (r: (nat, int))
    requires m <= 12
    ensures r.0 <= 12
    decreases if amount >= 0 then amount else -amount
  {
    if amount == 0 then (m, 0)
    else if amount > 0 then
      var (m1, dy) := GregorianStep(m);
      var (m2, years) := GregorianWalk(m1, amount - 1);
      (m2, dy + years)
    else
      var (m1, dy) := GregorianStepBack(m);
      var (m2, years) := GregorianWalk(m1, amount + 1);
      (m2, dy + years)
  }

  /** Month arithmetic on the Gregorian calendar: from month index m of a
      year, n months on is month (m + n) mod 12, (m + n) div 12 years on
      (Euclidean, so backward walks borrow years). */
  lemma {:induction false} GregorianWalkClosed(m: nat, n: int)
    requires m < 12
    ensures GregorianWalk(m, n) == ((m + n) % 12, (m + n) / 12)
    decreases if n >= 0 then n else -n
  {
    if n > 0 {
      var (m1, dy) := GregorianStep(m);
      GregorianWalkClosed(m1, n - 1);
      TwelvesApart(m1 + n - 1, dy);
    } else if n < 0 {
      var (m1, dy) := GregorianStepBack(m);
      GregorianWalkClosed(m1, n + 1);
      TwelvesApart(m1 + n + 1, dy);
    }
  }
}
