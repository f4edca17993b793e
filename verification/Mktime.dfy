/** kernel_mktime(): the closed form, against the count of Calendar. */
module Mktime {
  import opened Machine
  import opened Calendar

  const YEAR: int := 365 * DAY

  /** The month table, which takes every year for a leap year. */
  const MONTH: seq<int> := [
    0,
    DAY * 31,
    DAY * (31 + 29),
    DAY * (31 + 29 + 31),
    DAY * (31 + 29 + 31 + 30),
    DAY * (31 + 29 + 31 + 30 + 31),
    DAY * (31 + 29 + 31 + 30 + 31 + 30),
    DAY * (31 + 29 + 31 + 30 + 31 + 30 + 31),
    DAY * (31 + 29 + 31 + 30 + 31 + 30 + 31 + 31),
    DAY * (31 + 29 + 31 + 30 + 31 + 30 + 31 + 31 + 30),
    DAY * (31 + 29 + 31 + 30 + 31 + 30 + 31 + 31 + 30 + 31),
    DAY * (31 + 29 + 31 + 30 + 31 + 30 + 31 + 31 + 30 + 31 + 30)
  ]

  lemma MonthTable(mon: int)
    requires 0 <= mon < 12
    ensures |MONTH| == 12 && MONTH[mon] == DAY * DaysBeforeMonth(mon, true)
    ensures MONTH[mon] == 86400 * if mon == 0 then 0 else if mon == 1 then 31 else 60 + (153 * (mon - 2) + 2) / 5
  {
    assert DaysBeforeMonth(4, true) == 121;
    assert DaysBeforeMonth(8, true) == 244;
  }

  /** The intermediate results, in the order of the statements. */
  datatype Steps = Steps(years: int, leaps: int, start: int, months: int, adjusted: int,
                         days: int, hours: int, minutes: int, seconds: int)

  function Trace(t: Tm): (r: Steps)
    requires 0 <= t.mon < 12
  {
    TraceFrom(t, MONTH[t.mon])
  }

  function TraceFrom(t: Tm, month: int): (r: Steps) {
    var year := t.year - 70;
    var years, leaps := YEAR * year, DAY * CDiv(year + 1, 4);
    var months := years + leaps + month;
    var adjusted := if t.mon > 1 && CMod(year + 2, 4) != 0 then months - DAY else months;
    var days := adjusted + DAY * (t.mday - 1);
    var hours := days + HOUR * t.hour;
    var minutes := hours + MINUTE * t.min;
    Steps(years, leaps, years + leaps, months, adjusted, days, hours, minutes, minutes + t.sec)
  }

  /** The result in unbounded integers. */
  function Exact(t: Tm): (s: int)
    requires 0 <= t.mon < 12
  {
    Trace(t).seconds
  }

  /** A year that the rule of four takes for a leap year, wrongly. */
  predicate SkippedLeap(y: int) {
    y % 100 == 0 && y % 400 != 0
  }

  /** The 29ths of February that the kernel counts before `t` and the calendar does not have. */
  function FalseLeapDays(t: Moment): (n: nat)
  {
    SkippedBefore(1900 + t.year) + if t.mon > 1 && SkippedLeap(1900 + t.year) then 1 else 0
  }

  function SkippedBefore(y: int): (n: nat)
    requires 1970 <= y
    decreases y
  {
    if y == 1970 then 0 else SkippedBefore(y - 1) + if SkippedLeap(y - 1) then 1 else 0
  }

  lemma {:induction false} YearsClosedForm(y: int)
    requires 1970 <= y
    ensures DaysBeforeYear(y) + SkippedBefore(y) == 365 * (y - 1970) + (y - 1970 + 1) / 4
    decreases y
  {
    if y > 1970 {
      YearsClosedForm(y - 1);
      LeapRules(y - 1);
      FourthYears(y - 1);
      hide IsLeap, SkippedLeap;
    }
  }

  lemma FourthYears(y: int)
    requires 1970 <= y
    ensures (y - 1970 + 2) / 4 == (y - 1970 + 1) / 4 + if y % 4 == 0 then 1 else 0
  {
    assert (y - 1968) % 4 == y % 4;
  }

  lemma {:induction false} LeapMonths(mon: int)
    requires 0 <= mon <= 12
    ensures DaysBeforeMonth(mon, true) == DaysBeforeMonth(mon, false) + if mon > 1 then 1 else 0
    decreases mon
  {
    if mon > 0 {
      LeapMonths(mon - 1);
    }
  }

  /** The days of the closed form: leap years by the rule of four alone. */
  function ExactDays(t: Tm): (n: int)
    requires 0 <= t.mon < 12
  {
    365 * (t.year - 70) + CDiv(t.year - 69, 4) + DaysBeforeMonth(t.mon, true)
      - (if t.mon > 1 && CMod(t.year - 68, 4) != 0 then 1 else 0) + t.mday - 1
  }

  lemma ExactSplits(t: Moment)
    ensures Exact(t) == DAY * ExactDays(t) + SecondOfDay(t)
  {
    MonthTable(t.mon);
    SplitFrom(t, MONTH[t.mon]);
  }

  lemma SplitFrom(t: Moment, month: int)
    requires month == DAY * DaysBeforeMonth(t.mon, true)
    ensures TraceFrom(t, month).seconds == DAY * ExactDays(t) + SecondOfDay(t)
  {
    InDays(t.year - 70, CDiv(t.year - 69, 4), DaysBeforeMonth(t.mon, true),
           if t.mon > 1 && CMod(t.year - 68, 4) != 0 then 1 else 0, t.mday - 1);
  }

  lemma InDays(year: int, leaps: int, months: int, adjust: int, days: int)
    ensures YEAR * year + DAY * leaps + DAY * months - DAY * adjust + DAY * days
      == DAY * (365 * year + leaps + months - adjust + days)
  {
  }

  lemma LeapRules(y: int)
    ensures y % 4 == 0 <==> IsLeap(y) || SkippedLeap(y)
    ensures !(IsLeap(y) && SkippedLeap(y))
  {
  }

  lemma ExactDaysCount(t: Moment)
    ensures ExactDays(t) == Days(t) + FalseLeapDays(t)
  {
    hide MonthLength, IsLeap, SkippedLeap, DaysBeforeYear, DaysBeforeMonth, SkippedBefore, CDiv, CMod;
    YearsClosedForm(1900 + t.year);
    LeapMonths(t.mon);
    LeapRules(1900 + t.year);
    FourthOf(t.year);
  }

  lemma FourthOf(year: int)
    requires 70 <= year
    ensures CDiv(year - 69, 4) == (1900 + year - 1970 + 1) / 4
    ensures CMod(year - 68, 4) == (1900 + year) % 4
  {
    assert (1900 + year) % 4 == (year - 68) % 4;
  }

  /** How far the kernel is off, for every date from 1970 on. */
  lemma ExactCounts(t: Moment)
    ensures Exact(t) == Seconds(t) + DAY * FalseLeapDays(t)
  {
    hide Exact, ExactDays, Days, FalseLeapDays, SecondOfDay;
    ExactSplits(t);
    ExactDaysCount(t);
  }

  lemma {:induction false} NoneSkipped(y: int)
    requires 1970 <= y
    ensures SkippedBefore(y) == 0 <==> y <= 2100
    decreases y
  {
    if y > 1970 {
      NoneSkipped(y - 1);
    }
  }

  lemma {:induction false} CenturyYears(y: int)
    requires 1970 <= y <= 2100
    ensures SkippedLeap(y) <==> y == 2100
  {
  }

  /** The closed form is the calendar's count exactly up to the end of February 2100. */
  lemma ExactIsRightUntil2100(t: Moment)
    ensures Exact(t) == Seconds(t) <==> Earlier(t, Tm(0, 0, 0, 1, 2, 200))
  {
    hide FalseLeapDays, Exact, Seconds, Earlier;
    ExactCounts(t);
    FalseLeapDaysBegin(t);
  }

  lemma FalseLeapDaysBegin(t: Moment)
    ensures FalseLeapDays(t) == 0 <==> Earlier(t, Tm(0, 0, 0, 1, 2, 200))
  {
    hide SkippedLeap, IsLeap, SkippedBefore;
    NoneSkipped(1900 + t.year);
    if t.year <= 200 {
      CenturyYears(1900 + t.year);
    }
  }

  lemma {:induction false} SkippedGrows(y: int, z: int)
    requires 1970 <= y < z
    ensures SkippedBefore(y) + (if SkippedLeap(y) then 1 else 0) <= SkippedBefore(z)
    decreases z
  {
    if y + 1 < z {
      SkippedGrows(y, z - 1);
    }
  }

  /** The result grows with the date, even where it is no longer right. */
  lemma ExactGrows(a: Moment, b: Moment)
    requires Earlier(a, b)
    ensures Exact(a) < Exact(b)
  {
    ExactCounts(a);
    ExactCounts(b);
    SecondsGrow(a, b);
    hide Exact, Seconds;
    assert FalseLeapDays(a) <= FalseLeapDays(b) by {
      if a.year < b.year {
        SkippedGrows(1900 + a.year, 1900 + b.year);
      }
    }
  }

  /** The last second of February in a year that only looks like a leap year. */
  predicate BeforeFalseLeapDay(t: Tm) {
    SkippedLeap(1900 + t.year) && t == Tm(59, 59, 23, 28, 1, t.year)
  }

  lemma FalseLeapDaysStep(t: Moment)
    ensures FalseLeapDays(NextSecond(t)) == FalseLeapDays(t) + if BeforeFalseLeapDay(t) then 1 else 0
  {
    LeapRules(1900 + t.year);
    assert NextSecond(t).year == t.year || (NextSecond(t).year == t.year + 1 && t.mon == 11 && NextSecond(t).mon == 0);
    var y := 1900 + t.year;
    assert SkippedBefore(y + 1) == SkippedBefore(y) + if SkippedLeap(y) then 1 else 0;
  }

  /** One second more adds one, but before a 29th of February that does not exist. */
  lemma ExactSteps(t: Moment)
    ensures Exact(NextSecond(t)) == Exact(t) + 1 <==> !BeforeFalseLeapDay(t)
  {
    hide Exact, Seconds, FalseLeapDays, NextSecond, BeforeFalseLeapDay;
    SecondsStep(t);
    ExactCounts(t);
    ExactCounts(NextSecond(t));
    FalseLeapDaysStep(t);
  }

  // ---------------------------------------------------------------------------------------
  // Signed 32-bit arithmetic.
  // ---------------------------------------------------------------------------------------

  /** 2038-01-19 03:14:07. */
  const LAST_MOMENT: Moment := Tm(7, 14, 3, 19, 0, 138)

  predicate Fits(n: int) {
    INT_MIN <= n <= INT_MAX
  }

  predicate AllFit(t: Tm)
    requires 0 <= t.mon < 12
  {
    var r := Trace(t);
    Fits(r.years) && Fits(r.leaps) && Fits(r.start) && Fits(r.months) && Fits(r.adjusted)
    && Fits(r.days) && Fits(r.hours) && Fits(r.minutes) && Fits(r.seconds)
  }

  lemma LastMomentIsLargest()
    ensures OnCalendar(LAST_MOMENT) && Exact(LAST_MOMENT) == INT_MAX
  {
  }

  /** No intermediate result overflows exactly up to 2038-01-19 03:14:07. */
  lemma FitsExactlyUntil2038(t: Moment)
    ensures AllFit(t) <==> !Earlier(LAST_MOMENT, t)
  {
    LastMomentIsLargest();
    if Earlier(LAST_MOMENT, t) {
      ExactGrows(LAST_MOMENT, t);
    } else {
      if t != LAST_MOMENT {
        assert Earlier(t, LAST_MOMENT);
        ExactGrows(t, LAST_MOMENT);
      }
      IntermediatesBelow(t);
    }
  }

  lemma IntermediatesBelow(t: Moment)
    requires !Earlier(LAST_MOMENT, t) && Exact(t) <= INT_MAX
    ensures AllFit(t)
  {
    MonthAtMost(t.mon);
    BelowFrom(t, MONTH[t.mon]);
  }

  lemma BelowFrom(t: Tm, month: int)
    requires 70 <= t.year <= 138 && (t.year == 138 ==> t.mon == 0)
    requires 1 <= t.mday && 0 <= t.hour && 0 <= t.min && 0 <= t.sec
    requires 0 <= month <= DAY * 335 && (t.mon == 0 ==> month == 0) && (t.mon > 1 ==> DAY <= month)
    requires TraceFrom(t, month).seconds <= INT_MAX
    ensures var r := TraceFrom(t, month);
            && Fits(r.years) && Fits(r.leaps) && Fits(r.start) && Fits(r.months) && Fits(r.adjusted)
            && Fits(r.days) && Fits(r.hours) && Fits(r.minutes) && Fits(r.seconds)
  {
    var q := CDiv(t.year - 69, 4);
    assert 0 <= q <= 17;
    assert YEAR * (t.year - 70) + DAY * q + month <= INT_MAX;
  }

  lemma MonthAtMost(mon: int)
    requires 0 <= mon < 12
    ensures |MONTH| == 12 && 0 <= MONTH[mon] <= DAY * 335
    ensures mon == 0 ==> MONTH[mon] == 0
    ensures mon > 1 ==> DAY <= MONTH[mon]
  {
  }

  /** Seconds since 1970 when every fourth year is a leap year; months as in the calendar, by fives. */
  function RuleOfFour(t: Tm): (s: int) {
    var month := if t.mon == 0 then 0 else if t.mon == 1 then 31
                 else (if t.year % 4 == 0 then 60 else 59) + (153 * (t.mon - 2) + 2) / 5;
    86400 * (365 * (t.year - 70) + (t.year - 69) / 4 + month + t.mday - 1) + 3600 * t.hour + 60 * t.min + t.sec
  }

  /** The closed form over the table is the one over no table. */
  lemma ExactRuleOfFour(t: Tm)
    requires 0 <= t.mon < 12 && 70 <= t.year
    ensures Exact(t) == RuleOfFour(t)
  {
    MonthTable(t.mon);
    hide DaysBeforeMonth;
    FromMonth(t, MONTH[t.mon]);
  }

  lemma FromMonth(t: Tm, month: int)
    requires 0 <= t.mon < 12 && 70 <= t.year
    requires month == 86400 * (if t.mon == 0 then 0 else if t.mon == 1 then 31 else 60 + (153 * (t.mon - 2) + 2) / 5)
    ensures TraceFrom(t, month).seconds == RuleOfFour(t)
  {
    assert (t.year - 68) % 4 == t.year % 4;
  }

  /** kernel_mktime() with every operation on a signed long. */
  method KernelMktime(t: Tm) returns (res: int32)
    requires 0 <= t.mon < 12
    ensures res == ToSigned(Exact(t))
    ensures OnCalendar(t) ==> (res == Seconds(t) <==> !Earlier(LAST_MOMENT, t))
    ensures 70 <= t.year ==> res == ToSigned(RuleOfFour(t))
  {
    ghost var r := Trace(t);
    if 70 <= t.year { ExactRuleOfFour(t); }
    var year := t.year - 70;
    res := ToSigned(ToSigned(YEAR * year) + ToSigned(DAY * CDiv(year + 1, 4)));
    WrapSum(r.years, r.leaps);
    res := AddWrapped(res, MONTH[t.mon], r.start);
    if t.mon > 1 && CMod(year + 2, 4) != 0 {
      res := AddWrapped(res, -DAY, r.months);
    }
    res := AddWrapped(res, DAY * (t.mday - 1), r.adjusted);
    res := AddWrapped(res, HOUR * t.hour, r.days);
    res := AddWrapped(res, MINUTE * t.min, r.hours);
    res := AddWrapped(res, t.sec, r.minutes);
    if OnCalendar(t) {
      WrappedIsRightUntil2038(t);
    }
  }

  /** res += n on signed longs, `exact` being the sum before it wrapped. */
  method AddWrapped(res: int32, n: int, ghost exact: int) returns (sum: int32)
    requires res == ToSigned(exact)
    ensures sum == ToSigned(exact + n)
  {
    sum := ToSigned(res + ToSigned(n));
    WrapSum(exact, n);
  }

  /** The 32-bit result is the calendar's count exactly up to 2038-01-19 03:14:07. */
  lemma WrappedIsRightUntil2038(t: Moment)
    ensures ToSigned(Exact(t)) == Seconds(t) <==> !Earlier(LAST_MOMENT, t)
  {
    hide Exact, Seconds;
    LastMomentIsLargest();
    ExactIsRightUntil2100(LAST_MOMENT);
    if Earlier(LAST_MOMENT, t) {
      SecondsGrow(LAST_MOMENT, t);
    } else {
      if t != LAST_MOMENT {
        assert Earlier(t, LAST_MOMENT);
        ExactGrows(t, LAST_MOMENT);
      }
      ExactIsRightUntil2100(t);
      assert ToSigned(Exact(t)) == Exact(t);
    }
  }
}
