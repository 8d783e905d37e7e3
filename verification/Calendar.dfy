/**
 The calendar by counting: days before a year in closed form, days before a month from the
 almanac's table. Adding seconds and comparing instants, which Clock does field by field, are
 proved against the count.
 */
module Calendar {
  import opened Clock

  /** Days from the start of year 0 to the start of a year, in closed form. */
  function DaysBeforeYear(year: nat): nat {
    365 * year + (year + 3) / 4 - (year + 99) / 100 + (year + 399) / 400
  }

  /** Days of a year before its month, as the almanac lists them. */
  function DaysBeforeMonth(year: nat, month: nat): nat
    requires 1 <= month <= 12
  {
    [0, 31, 59, 90, 120, 151, 181, 212, 243, 273, 304, 334][month - 1] + if month > 2 && Leap(year) then 1 else 0
  }

  /** Whole seconds since the start of year 0. */
  function SecondNumber(t: Time): int {
    (DaysBeforeYear(t.year) + DaysBeforeMonth(t.year, t.month) + t.day - 1) * 86400
    + t.hour * 3600 + t.minute * 60 + t.second
  }

  lemma FourthYears(n: nat)
    ensures (n + 4) / 4 == (n + 3) / 4 + if n % 4 == 0 then 1 else 0
  {
  }

  lemma HundredthYears(n: nat)
    ensures (n + 100) / 100 == (n + 99) / 100 + if n % 100 == 0 then 1 else 0
  {
  }

  lemma FourHundredthYears(n: nat)
    ensures (n + 400) / 400 == (n + 399) / 400 + if n % 400 == 0 then 1 else 0
  {
  }

  lemma FoursDivide(m: nat)
    ensures (4 * m) % 4 == 0
  {
  }

  lemma HundredsDivide(m: nat)
    ensures (100 * m) % 100 == 0
  {
  }

  lemma HundredsAreFours(n: nat)
    requires n % 100 == 0
    ensures n % 4 == 0
  {
    var k := n / 100;
    assert n == 100 * k;
    FoursDivide(25 * k);
  }

  lemma FourHundredsAreHundreds(n: nat)
    requires n % 400 == 0
    ensures n % 100 == 0
  {
    var k := n / 400;
    assert n == 400 * k;
    HundredsDivide(4 * k);
  }

  lemma LeapByCounts(year: nat)
    ensures (if Leap(year) then 1 else 0) ==
            (if year % 4 == 0 then 1 else 0) - (if year % 100 == 0 then 1 else 0) + (if year % 400 == 0 then 1 else 0)
  {
    if year % 100 == 0 { HundredsAreFours(year); }
    if year % 400 == 0 { FourHundredsAreHundreds(year); }
  }

  lemma YearLength(year: nat)
    ensures DaysBeforeYear(year + 1) == DaysBeforeYear(year) + if Leap(year) then 366 else 365
  {
    FourthYears(year);
    HundredthYears(year);
    FourHundredthYears(year);
    LeapByCounts(year);
  }

  lemma MonthLength(year: nat, month: nat)
    requires 1 <= month <= 12
    ensures DaysBeforeMonth(year, month) + DaysIn(year, month) ==
            if month == 12 then (if Leap(year) then 366 else 365) else DaysBeforeMonth(year, month + 1)
  {
  }

  /** One second later is one more second. */
  lemma NextSecondAddsOne(t: Time)
    ensures SecondNumber(NextSecond(t)) == SecondNumber(t) + 1
  {
    MonthLength(t.year, t.month);
    YearLength(t.year);
  }

  /** Adding n seconds adds n to the count of seconds, and keeps the nanoseconds. */
  lemma PlusAddsSeconds(t: Time, n: nat)
    ensures SecondNumber(Plus(t, n)) == SecondNumber(t) + n && Plus(t, n).nano == t.nano
  {
    PlusCounts(t, n);
    PlusIsLater(t, n);
  }

  lemma PlusCounts(t: Time, n: nat)
    ensures SecondNumber(Plus(t, n)) == SecondNumber(t) + n
  {
    var number := (u: Time) => SecondNumber(u);
    forall u: Time ensures number(NextSecond(u)) == number(u) + 1 { NextSecondAddsOne(u); }
    StepsAddUp(number, t, n);
  }

  lemma {:induction false} StepsAddUp(number: Time -> int, t: Time, n: nat)
    requires forall u: Time :: number(NextSecond(u)) == number(u) + 1
    ensures number(Plus(t, n)) == number(t) + n
  {
    if n > 0 { StepsAddUp(number, t, n - 1); }
  }

  lemma {:induction false} YearsGrow(a: nat, b: nat)
    requires a < b
    ensures DaysBeforeYear(a) + (if Leap(a) then 366 else 365) <= DaysBeforeYear(b)
    decreases b
  {
    YearLength(b - 1);
    if a < b - 1 { YearsGrow(a, b - 1); }
  }

  lemma {:induction false} MonthsGrow(year: nat, a: nat, b: nat)
    requires 1 <= a < b <= 12
    ensures DaysBeforeMonth(year, a) + DaysIn(year, a) <= DaysBeforeMonth(year, b)
    decreases b
  {
    MonthLength(year, b - 1);
    if a < b - 1 { MonthsGrow(year, a, b - 1); }
  }

  /** The day of the year, from 0. */
  function DayOfYear(t: Time): nat {
    DaysBeforeMonth(t.year, t.month) + t.day - 1
  }

  lemma DayOfYearFits(t: Time)
    ensures DayOfYear(t) < if Leap(t.year) then 366 else 365
  {
    MonthLength(t.year, t.month);
    if t.month < 12 {
      MonthsGrow(t.year, t.month, 12);
      MonthLength(t.year, 12);
    }
  }

  /** An earlier second has a smaller number. */
  lemma EarlierIsLess(a: Time, b: Time)
    requires SecondBefore(a, b)
    ensures SecondNumber(a) < SecondNumber(b)
  {
    if a.year < b.year {
      YearsGrow(a.year, b.year);
      DayOfYearFits(a);
    } else if a.month < b.month {
      MonthsGrow(a.year, a.month, b.month);
    }
  }

  /** The order of times is the order of their seconds, then of their nanoseconds. */
  lemma OrderIsByCounting(a: Time, b: Time)
    ensures SecondBefore(a, b) <==> SecondNumber(a) < SecondNumber(b)
    ensures SameSecond(a, b) <==> SecondNumber(a) == SecondNumber(b)
    ensures Before(a, b) <==>
              SecondNumber(a) < SecondNumber(b) || (SecondNumber(a) == SecondNumber(b) && a.nano < b.nano)
  {
    if SecondBefore(a, b) { EarlierIsLess(a, b); }
    if SecondBefore(b, a) { EarlierIsLess(b, a); }
    assert SecondBefore(a, b) || SecondBefore(b, a) || SameSecond(a, b);
  }
}
