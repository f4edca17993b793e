/** Broken-down times, and the seconds since the Epoch counted day by day. */
module Calendar {
  const MINUTE: int := 60
  const HOUR: int := 60 * MINUTE
  const DAY: int := 24 * HOUR

  /** struct tm: years count from 1900, months from 0, days of the month from 1. */
  datatype Tm = Tm(sec: int, min: int, hour: int, mday: int, mon: int, year: int)

  predicate IsLeap(y: int) {
    y % 4 == 0 && (y % 100 != 0 || y % 400 == 0)
  }

  function MonthLength(mon: int, leap: bool): (n: nat)
    requires 0 <= mon < 12
  {
    if mon == 1 then (if leap then 29 else 28)
    else if mon == 3 || mon == 5 || mon == 8 || mon == 10 then 30
    else 31
  }

  function YearLength(y: int): (n: nat) {
    if IsLeap(y) then 366 else 365
  }

  predicate OnCalendar(t: Tm) {
    && 70 <= t.year && 0 <= t.mon < 12
    && 1 <= t.mday <= MonthLength(t.mon, IsLeap(1900 + t.year))
    && 0 <= t.hour < 24 && 0 <= t.min < 60 && 0 <= t.sec < 60
  }

  /** A moment of the Gregorian calendar from 1970 on. */
  type Moment = t: Tm | OnCalendar(t) witness Tm(0, 0, 0, 1, 0, 70)

  function DaysBeforeYear(y: int): (n: nat)
    requires 1970 <= y
    decreases y
  {
    if y == 1970 then 0 else DaysBeforeYear(y - 1) + YearLength(y - 1)
  }

  function DaysBeforeMonth(mon: int, leap: bool): (n: nat)
    requires 0 <= mon <= 12
    decreases mon
  {
    if mon == 0 then 0 else DaysBeforeMonth(mon - 1, leap) + MonthLength(mon - 1, leap)
  }

  function Days(t: Moment): (n: nat)
  {
    DaysBeforeYear(1900 + t.year) + DaysBeforeMonth(t.mon, IsLeap(1900 + t.year)) + t.mday - 1
  }

  function SecondOfDay(t: Moment): (s: nat)
    ensures s < DAY
  {
    HOUR * t.hour + MINUTE * t.min + t.sec
  }

  /** Seconds since the Epoch. */
  function Seconds(t: Moment): (s: nat)
  {
    DAY * Days(t) + SecondOfDay(t)
  }

  predicate EarlierDay(a: Tm, b: Tm) {
    a.year < b.year || (a.year == b.year && (a.mon < b.mon || (a.mon == b.mon && a.mday < b.mday)))
  }

  predicate SameDay(a: Tm, b: Tm) {
    a.year == b.year && a.mon == b.mon && a.mday == b.mday
  }

  predicate Earlier(a: Tm, b: Tm) {
    EarlierDay(a, b)
    || (SameDay(a, b)
        && (a.hour < b.hour || (a.hour == b.hour && (a.min < b.min || (a.min == b.min && a.sec < b.sec)))))
  }

  lemma {:induction false} YearsGrow(y: int, z: int)
    requires 1970 <= y < z
    ensures DaysBeforeYear(y) + YearLength(y) <= DaysBeforeYear(z)
    decreases z
  {
    if y + 1 < z {
      YearsGrow(y, z - 1);
    }
  }

  lemma {:induction false} MonthsGrow(m: int, n: int, leap: bool)
    requires 0 <= m < n <= 12
    ensures DaysBeforeMonth(m, leap) + MonthLength(m, leap) <= DaysBeforeMonth(n, leap)
    decreases n
  {
    if m + 1 < n {
      MonthsGrow(m, n - 1, leap);
    }
  }

  lemma TwelveMonths(leap: bool)
    ensures DaysBeforeMonth(12, leap) == if leap then 366 else 365
  {
    assert DaysBeforeMonth(4, leap) == if leap then 121 else 120;
    assert DaysBeforeMonth(8, leap) == if leap then 244 else 243;
  }

  lemma DaysGrow(a: Moment, b: Moment)
    requires EarlierDay(a, b)
    ensures Days(a) < Days(b)
  {
    hide IsLeap, MonthLength, DaysBeforeYear, DaysBeforeMonth;
    var leap := IsLeap(1900 + a.year);
    if a.year < b.year {
      YearsGrow(1900 + a.year, 1900 + b.year);
      MonthsGrow(a.mon, 12, leap);
      TwelveMonths(leap);
    } else if a.mon < b.mon {
      MonthsGrow(a.mon, b.mon, leap);
    }
  }

  /** Later moments have larger counts. */
  lemma SecondsGrow(a: Moment, b: Moment)
    requires Earlier(a, b)
    ensures Seconds(a) < Seconds(b)
  {
    if EarlierDay(a, b) {
      DaysGrow(a, b);
    }
  }

  /** The next second on the calendar. */
  function NextSecond(t: Moment): (u: Moment)
  {
    if t.sec < 59 then t.(sec := t.sec + 1)
    else if t.min < 59 then t.(sec := 0, min := t.min + 1)
    else if t.hour < 23 then t.(sec := 0, min := 0, hour := t.hour + 1)
    else if t.mday < MonthLength(t.mon, IsLeap(1900 + t.year)) then Tm(0, 0, 0, t.mday + 1, t.mon, t.year)
    else if t.mon < 11 then Tm(0, 0, 0, 1, t.mon + 1, t.year)
    else Tm(0, 0, 0, 1, 0, t.year + 1)
  }

  lemma NextDay(t: Moment)
    requires t.sec == 59 && t.min == 59 && t.hour == 23
    ensures Days(NextSecond(t)) == Days(t) + 1
  {
    hide IsLeap, DaysBeforeYear, DaysBeforeMonth;
    var y := 1900 + t.year;
    var leap := IsLeap(y);
    if t.mday < MonthLength(t.mon, leap) {
    } else if t.mon < 11 {
      MonthEnds(t.mon, leap);
    } else {
      TwelveMonths(leap);
      YearEnds(y, leap);
    }
  }

  lemma Midnight(t: Moment)
    requires t.sec == 59 && t.min == 59 && t.hour == 23
    ensures SecondOfDay(t) == DAY - 1 && SecondOfDay(NextSecond(t)) == 0
  {
    hide IsLeap, MonthLength;
  }

  lemma WithinDay(t: Moment)
    requires !(t.sec == 59 && t.min == 59 && t.hour == 23)
    ensures Days(NextSecond(t)) == Days(t) && SecondOfDay(NextSecond(t)) == SecondOfDay(t) + 1
  {
    hide IsLeap, DaysBeforeYear, DaysBeforeMonth, MonthLength;
  }

  lemma MonthEnds(mon: int, leap: bool)
    requires 0 <= mon < 12
    ensures DaysBeforeMonth(mon + 1, leap) == DaysBeforeMonth(mon, leap) + MonthLength(mon, leap)
  {
  }

  lemma YearEnds(y: int, leap: bool)
    requires 1970 <= y && leap == IsLeap(y)
    ensures DaysBeforeYear(y + 1) == DaysBeforeYear(y) + if leap then 366 else 365
    ensures DaysBeforeMonth(11, leap) + 31 == if leap then 366 else 365
    ensures DaysBeforeMonth(0, IsLeap(y + 1)) == 0
  {
    TwelveMonths(leap);
  }

  /** The count advances by one from each second to the next. */
  lemma SecondsStep(t: Moment)
    ensures Seconds(NextSecond(t)) == Seconds(t) + 1
  {
    hide Days, NextSecond, SecondOfDay;
    if t.sec == 59 && t.min == 59 && t.hour == 23 {
      NextDay(t);
      Midnight(t);
    } else {
      WithinDay(t);
    }
  }

  // ---------------------------------------------------------------------------------------
  // The count without summing over years and months.
  // ---------------------------------------------------------------------------------------

  /** From March on, five months in turn take 153 days. */
  lemma MonthsByFives(mon: int, leap: bool)
    requires 0 <= mon < 12
    ensures DaysBeforeMonth(mon, leap)
      == if mon == 0 then 0 else if mon == 1 then 31 else (if leap then 60 else 59) + (153 * (mon - 2) + 2) / 5
  {
    assert DaysBeforeMonth(4, leap) == if leap then 121 else 120;
    assert DaysBeforeMonth(8, leap) == if leap then 244 else 243;
  }

  /** A leap year every four years, none every hundred, one every four hundred; 477 of them before 1970. */
  lemma {:induction false} YearsByLeaps(y: int)
    requires 1970 <= y
    ensures DaysBeforeYear(y) == 365 * (y - 1970) + (y - 1) / 4 - (y - 1) / 100 + (y - 1) / 400 - 477
    decreases y
  {
    if y > 1970 {
      YearsByLeaps(y - 1);
      LeapStep(y - 1);
    }
  }

  lemma LeapStep(y: int)
    requires 0 < y
    ensures YearLength(y) == 365 + (y / 4 - (y - 1) / 4) - (y / 100 - (y - 1) / 100) + (y / 400 - (y - 1) / 400)
  {
    QuotientStep(y, 4);
    QuotientStep(y, 100);
    QuotientStep(y, 400);
    LeapCounts(y);
    hide YearLength;
  }

  lemma QuotientStep(y: int, n: int)
    requires 0 < y && (n == 4 || n == 100 || n == 400)
    ensures y / n - (y - 1) / n == if y % n == 0 then 1 else 0
  {
  }

  lemma LeapCounts(y: int)
    ensures YearLength(y)
      == 365 + (if y % 4 == 0 then 1 else 0) - (if y % 100 == 0 then 1 else 0) + (if y % 400 == 0 then 1 else 0)
  {
    Centuries(y);
    var four, hundred, fourHundred := y % 4 == 0, y % 100 == 0, y % 400 == 0;
    assert IsLeap(y) == (four && (!hundred || fourHundred));
    hide IsLeap;
  }

  lemma Centuries(y: int)
    ensures (y % 400 == 0 ==> y % 100 == 0) && (y % 100 == 0 ==> y % 4 == 0)
  {
    if y % 400 == 0 {
      ByHundreds(y, 4 * (y / 400));
    }
    if y % 100 == 0 {
      ByFours(y, 25 * (y / 100));
    }
  }

  lemma ByHundreds(y: int, k: int)
    requires y == 100 * k
    ensures y % 100 == 0
  {
  }

  lemma ByFours(y: int, k: int)
    requires y == 4 * k
    ensures y % 4 == 0
  {
  }

  lemma SecondsInClosedForm(t: Moment)
    ensures var y := 1900 + t.year;
            var leap := y % 4 == 0 && (y % 100 != 0 || y % 400 == 0);
            var month := if t.mon == 0 then 0 else if t.mon == 1 then 31
                         else (if leap then 60 else 59) + (153 * (t.mon - 2) + 2) / 5;
            Seconds(t) == 86400 * (365 * (y - 1970) + (y - 1) / 4 - (y - 1) / 100 + (y - 1) / 400 - 477
                                   + month + t.mday - 1)
                          + 3600 * t.hour + 60 * t.min + t.sec
  {
    hide DaysBeforeYear, DaysBeforeMonth;
    YearsByLeaps(1900 + t.year);
    MonthsByFives(t.mon, IsLeap(1900 + t.year));
  }
}
