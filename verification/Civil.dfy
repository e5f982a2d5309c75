/** Proleptic Gregorian dates as day numbers, the way a script Date object keeps
    them: day 0 is Monday, January 1 of year 1; months count from 0. */
module Civil {

  predicate IsLeap(y: int) {
    y % 4 == 0 && (y % 100 != 0 || y % 400 == 0)
  }

  /** getMonthDays: the length of month m. */
  function MonthDays(y: int, m: nat): (d: nat)
    requires m < 12
    ensures 28 <= d <= 31
  {
    if IsLeap(y) && m == 1 then 29 else [31, 28, 31, 30, 31, 30, 31, 31, 30, 31, 30, 31][m]
  }

  /** The Gregorian rule: February alone varies, and 97 years of every 400 are leap years. */
  lemma MonthLengths(y: int, m: nat)
    requires m < 12
    ensures MonthDays(y, m) == 30 <==> m in {3, 5, 8, 10}
    ensures MonthDays(y, m) < 30 <==> m == 1
    ensures MonthDays(y, 1) == 29 <==> YearDays(y) == 366
    ensures MonthDays(y, 1) == 29 <==> y % 400 == 0 || (y % 4 == 0 && y % 100 != 0)
    ensures DaysBeforeYear(y + 400) - DaysBeforeYear(y) == 303 * 365 + 97 * 366
  {
    var k := y - 1;
    assert (k + 400) / 4 == k / 4 + 100;
    assert (k + 400) / 100 == k / 100 + 4;
    assert (k + 400) / 400 == k / 400 + 1;
  }

  function DaysBeforeYear(y: int): int {
    365 * (y - 1) + (y - 1) / 4 - (y - 1) / 100 + (y - 1) / 400
  }

  function YearDays(y: int): int {
    if IsLeap(y) then 366 else 365
  }

  lemma YearLength(y: int)
    ensures DaysBeforeYear(y + 1) == DaysBeforeYear(y) + YearDays(y)
  {
    var l4, l100, l400 := Leaps(y, 4), Leaps(y, 100), Leaps(y, 400);
    DivStep(y, 4);
    DivStep(y, 100);
    DivStep(y, 400);
    Multiples(y);
    assert YearDays(y) == 365 + l4 - l100 + l400;
  }

  function Leaps(y: int, k: int): int
    requires k > 0
  {
    if y % k == 0 then 1 else 0
  }

  lemma Multiples(y: int)
    ensures y % 400 == 0 ==> y % 100 == 0
    ensures y % 100 == 0 ==> y % 4 == 0
  {
    if y % 400 == 0 {
      MultipleOf(y, 4 * (y / 400), 100);
    }
    if y % 100 == 0 {
      MultipleOf(y, 25 * (y / 100), 4);
    }
  }

  lemma MultipleOf(y: int, q: int, k: int)
    requires (k == 4 && y == 4 * q) || (k == 100 && y == 100 * q)
    ensures y % k == 0
  {
  }

  lemma DivStep(y: int, k: int)
    requires k == 4 || k == 100 || k == 400
    ensures y / k == (y - 1) / k + Leaps(y, k)
  {
  }

  function DaysBeforeMonth(y: int, m: nat): nat
    requires m <= 12
  {
    if m == 0 then 0 else DaysBeforeMonth(y, m - 1) + MonthDays(y, m - 1)
  }

  lemma YearOfMonths(y: int)
    ensures DaysBeforeMonth(y, 12) == YearDays(y)
  {
    assert MonthDays(y, 0) == 31 && DaysBeforeMonth(y, 1) == 31;
    assert DaysBeforeMonth(y, 2) == 31 + MonthDays(y, 1);
    assert DaysBeforeMonth(y, 4) == DaysBeforeMonth(y, 2) + 61;
    assert DaysBeforeMonth(y, 6) == DaysBeforeMonth(y, 4) + 61;
    assert DaysBeforeMonth(y, 8) == DaysBeforeMonth(y, 6) + 62;
    assert DaysBeforeMonth(y, 10) == DaysBeforeMonth(y, 8) + 61;
    assert DaysBeforeMonth(y, 12) == DaysBeforeMonth(y, 10) + 61;
  }

  lemma {:induction false} MonthsGrow(y: int, m: nat, m': nat)
    requires m <= m' <= 12
    ensures DaysBeforeMonth(y, m) <= DaysBeforeMonth(y, m')
    ensures m < m' ==> DaysBeforeMonth(y, m) + MonthDays(y, m) <= DaysBeforeMonth(y, m')
    decreases m'
  {
    if m < m' {
      MonthsGrow(y, m, m' - 1);
    }
  }

  /** The day number of a date; a day of month outside the month runs into its neighbours. */
  function DayNumber(y: int, m: nat, d: int): int
    requires m < 12
  {
    DaysBeforeYear(y) + DaysBeforeMonth(y, m) + d - 1
  }

  predicate RealDate(y: int, m: nat, d: int) {
    m < 12 && 1 <= d <= MonthDays(y, m)
  }

  /** The weekday, Sunday being 0. */
  function Weekday(n: int): (w: nat)
    ensures w < 7
  {
    (n + 1) % 7
  }

  /** Gauss's rule: the weekday of January 1 of any year. */
  lemma GaussRule(y: int)
    ensures Weekday(DayNumber(y, 0, 1)) == (1 + 5 * ((y - 1) % 4) + 4 * ((y - 1) % 100) + 6 * ((y - 1) % 400)) % 7
  {
    var k := y - 1;
    var a, b, c := k / 4, k / 100, k / 400;
    var r, s, t := k % 4, k % 100, k % 400;
    assert k == 4 * a + r && k == 100 * b + s && k == 400 * c + t;
    var left, right := 365 * k + a - b + c + 1, 1 + 5 * r + 4 * s + 6 * t;
    assert left - right == 350 * k + 21 * a + 399 * b + 2401 * c;
    SameRemainder(left, right, 50 * k + 3 * a + 57 * b + 343 * c);
  }

  lemma SameRemainder(x: int, y: int, q: int)
    requires x == y + 7 * q
    ensures x % 7 == y % 7
  {
  }

  // The fields of a day number.

  ghost predicate InYear(n: int, y: int) {
    DaysBeforeYear(y) <= n < DaysBeforeYear(y + 1)
  }

  function YearFrom(n: int, y: int): (r: int)
    ensures InYear(n, r)
    decreases if n < DaysBeforeYear(y) then DaysBeforeYear(y) - n
              else if n >= DaysBeforeYear(y + 1) then n - DaysBeforeYear(y + 1) + 1 else 0
  {
    YearLength(y - 1);
    YearLength(y);
    YearLength(y + 1);
    if n < DaysBeforeYear(y) then YearFrom(n, y - 1)
    else if n >= DaysBeforeYear(y + 1) then YearFrom(n, y + 1)
    else y
  }

  function YearOf(n: int): (y: int)
    ensures InYear(n, y)
  {
    YearFrom(n, 1970)
  }

  lemma {:induction false} YearsGrow(y: int, y': int)
    requires y <= y'
    ensures DaysBeforeYear(y) <= DaysBeforeYear(y')
    decreases y' - y
  {
    if y < y' {
      YearsGrow(y, y' - 1);
      YearLength(y' - 1);
    }
  }

  lemma YearUnique(n: int, y: int, y': int)
    requires InYear(n, y) && InYear(n, y')
    ensures y == y'
  {
    if y < y' {
      YearsGrow(y + 1, y');
    } else if y' < y {
      YearsGrow(y' + 1, y);
    }
  }

  function MonthFrom(y: int, r: nat, m: nat): (k: nat)
    requires m < 12 && DaysBeforeMonth(y, m) <= r < DaysBeforeMonth(y, 12)
    ensures m <= k < 12 && DaysBeforeMonth(y, k) <= r < DaysBeforeMonth(y, k) + MonthDays(y, k)
    decreases 12 - m
  {
    if r < DaysBeforeMonth(y, m + 1) then m else MonthFrom(y, r, m + 1)
  }

  function MonthOf(n: int): (m: nat)
    ensures m < 12
    ensures var r := n - DaysBeforeYear(YearOf(n)); 0 <= r - DaysBeforeMonth(YearOf(n), m) < MonthDays(YearOf(n), m)
  {
    YearOfMonths(YearOf(n));
    YearLength(YearOf(n));
    MonthFrom(YearOf(n), n - DaysBeforeYear(YearOf(n)), 0)
  }

  function DateOf(n: int): (d: int)
    ensures RealDate(YearOf(n), MonthOf(n), d)
    ensures DayNumber(YearOf(n), MonthOf(n), d) == n
  {
    n - DaysBeforeYear(YearOf(n)) - DaysBeforeMonth(YearOf(n), MonthOf(n)) + 1
  }

  /** A real date is read back from its day number. */
  lemma FieldsOf(y: int, m: nat, d: int)
    requires RealDate(y, m, d)
    ensures var n := DayNumber(y, m, d); YearOf(n) == y && MonthOf(n) == m && DateOf(n) == d
  {
    var n := DayNumber(y, m, d);
    YearOfMonths(y);
    YearLength(y);
    MonthsGrow(y, m, 12);
    YearUnique(n, y, YearOf(n));
    var k := MonthOf(n);
    if k < m {
      MonthsGrow(y, k, m);
    } else if m < k {
      MonthsGrow(y, m, k);
    }
  }
}
