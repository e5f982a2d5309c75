/** getWeekNumber against the definition of section 3.2.2 of ISO 8601:2004: weeks
    start on Monday, and week 1 of a year contains its first Thursday. */
module IsoWeek {
  import opened Civil

  const DAY: int := 86_400_000            // milliseconds
  const WEEK: int := 7 * DAY
  const HOUR: int := 3_600_000

  const MONDAY: nat := 1
  const THURSDAY: nat := 4

  /** The first Thursday that is not before day b. */
  function ThursdayFrom(b: int): (t: int)
    ensures Weekday(t) == THURSDAY && b <= t < b + 7
  {
    b + (3 - b) % 7
  }

  function FirstThursday(y: int): int {
    ThursdayFrom(DaysBeforeYear(y))
  }

  /** The Monday that starts week 1 of ISO year y. */
  function WeekOne(y: int): int {
    FirstThursday(y) - 3
  }

  /** Day n is in week w of ISO year y. */
  ghost predicate InIsoWeek(n: int, y: int, w: int) {
    w >= 1 && WeekOne(y) + 7 * (w - 1) <= n < WeekOne(y) + 7 * w && n < WeekOne(y + 1)
  }

  lemma WeekOnesGrow(y: int, y': int)
    requires y < y'
    ensures WeekOne(y) + 14 <= WeekOne(y')
  {
    hide DaysBeforeYear, Weekday;
    YearsGrow(y + 1, y');
    YearLength(y);
  }

  /** A day belongs to one week of one ISO year. */
  lemma IsoWeekUnique(n: int, y: int, w: int, y': int, w': int)
    requires InIsoWeek(n, y, w) && InIsoWeek(n, y', w')
    ensures y == y' && w == w'
  {
    hide WeekOne;
    if y < y' {
      if y + 1 < y' {
        WeekOnesGrow(y + 1, y');
      }
    } else if y' < y {
      if y' + 1 < y {
        WeekOnesGrow(y' + 1, y);
      }
    }
  }

  /** Nearest integer, halves upwards. */
  function Round(x: int, unit: int): int
    requires unit > 0
  {
    (2 * x + unit) / (2 * unit)
  }

  /** `new Date(y, ...)` reads the years 0 to 99 as 1900 to 1999. */
  function ConstructorYear(y: int): int {
    if 0 <= y <= 99 then 1900 + y else y
  }

  /** The instant of local midnight, with the offset the zone has that day. */
  function ValueOf(n: int, offset: int -> int): int {
    n * DAY + offset(n)
  }

  /** The Thursday of the week of day n. */
  function ThursdayOf(n: int): (t: int)
    ensures Weekday(t) == THURSDAY && t - 3 <= n <= t + 3
  {
    n - (Weekday(n) + 6) % 7 + 3
  }

  /** Between the Thursday of the week of day n and January 4 of its year the clocks move by
      less than half a day. */
  ghost predicate ZoneFits(n: int, offset: int -> int) {
    var t := ThursdayOf(n);
    -12 * HOUR < offset(t) - offset(DayNumber(YearOf(t), 0, 4)) < 12 * HOUR
  }

  lemma RoundsAway(k: int, g: int, delta: int)
    requires -3 <= g <= 3 && -12 * HOUR < delta < 12 * HOUR
    ensures Round((7 * k + g) * DAY + delta, WEEK) == k
  {
    var x := (7 * k + g) * DAY + delta;
    assert 2 * x + WEEK == k * (2 * WEEK) + (2 * g * DAY + 2 * delta + WEEK);
  }

  /** Equal weekdays are whole weeks apart. */
  lemma WholeWeeks(t: int, f: int)
    requires Weekday(t) == Weekday(f)
    ensures t - f == 7 * ((t - f) / 7)
  {
    assert (t - f) % 7 == 0;
  }

  lemma WeekdayShifts(t: int, s: int, k: int)
    requires Weekday(t) == Weekday(s)
    ensures Weekday(t + k) == Weekday(s + k)
  {
    WholeWeeks(t, s);
    var q := (t - s) / 7;
    assert t + k + 1 == 7 * q + (s + k + 1);
  }

  /** Counting weeks from the fourth of January, with rounding, counts ISO weeks. */
  lemma WeekFromJanuaryFourth(n: int, offset: int -> int)
    requires ZoneFits(n, offset)
    ensures var t := ThursdayOf(n);
            var y := YearOf(t);
            InIsoWeek(n, y, Round(ValueOf(t, offset) - ValueOf(DayNumber(y, 0, 4), offset), WEEK) + 1)
  {
    hide DaysBeforeYear, Weekday, ThursdayFrom, ThursdayOf, YearOf, Round;
    var t := ThursdayOf(n);
    var y := YearOf(t);
    var four := DayNumber(y, 0, 4);
    var f := FirstThursday(y);
    var k := (t - f) / 7;
    WholeWeeks(t, f);
    WholeWeeks(FirstThursday(y + 1), t);
    RoundsAway(k, f - four, offset(t) - offset(four));
    assert t - four == 7 * k + (f - four);
    assert (t - four) * DAY + (offset(t) - offset(four)) == ValueOf(t, offset) - ValueOf(four, offset);
  }

  lemma WeekOneIsMonday(y: int)
    ensures Weekday(WeekOne(y)) == MONDAY
  {
    hide DaysBeforeYear;
    WeekdayShifts(FirstThursday(y), 3, -3);
  }

  /** The days of a Monday-to-Sunday row share their week. */
  lemma RowSharesWeek(n: int, k: int, y: int, w: int)
    requires Weekday(n) == MONDAY && 0 <= k < 7
    ensures InIsoWeek(n, y, w) <==> InIsoWeek(n + k, y, w)
  {
    hide WeekOne, Weekday;
    WeekOneIsMonday(y);
    WeekOneIsMonday(y + 1);
    WholeWeeks(n, WeekOne(y));
    WholeWeeks(n, WeekOne(y + 1));
  }

  /** Nearby days with the same week number are in the same week. */
  lemma SameNumberNearby(a: int, b: int, y: int, y': int, w: int)
    requires a <= b <= a + 6
    requires InIsoWeek(a, y, w) && InIsoWeek(b, y', w)
    ensures y == y'
  {
    hide WeekOne;
    if y < y' {
      WeekOnesGrow(y, y');
    } else if y' + 1 < y {
      WeekOnesGrow(y' + 1, y);
    }
  }

  ghost predicate HasWeekNumber(n: int, w: int) {
    exists y :: InIsoWeek(n, y, w)
  }

  /** One week number fits a row of seven days exactly when the row starts on Monday. */
  lemma RowNumberFits(n: int, w: int)
    requires HasWeekNumber(n, w)
    ensures (forall d :: n <= d < n + 7 ==> HasWeekNumber(d, w)) <==> Weekday(n) == MONDAY
  {
    hide WeekOne, Weekday, InIsoWeek;
    var y :| InIsoWeek(n, y, w);
    if Weekday(n) == MONDAY {
      forall d | n <= d < n + 7
        ensures HasWeekNumber(d, w)
      {
        RowSharesWeek(n, d - n, y, w);
      }
    } else if HasWeekNumber(n + 6, w) {
      var last := n + 6;
      var y' :| InIsoWeek(last, y', w);
      SameNumberNearby(n, last, y, y', w);
      WholeWeekStart(n, y, w);
    }
  }

  lemma WholeWeekStart(n: int, y: int, w: int)
    requires InIsoWeek(n, y, w) && InIsoWeek(n + 6, y, w)
    ensures Weekday(n) == MONDAY
  {
    hide WeekOne, Weekday;
    WeekOneIsMonday(y);
    WeeksLater(WeekOne(y), w - 1);
  }

  lemma WeeksLater(n: int, k: int)
    ensures Weekday(n + 7 * k) == Weekday(n)
  {
    assert n + 7 * k + 1 == 7 * k + (n + 1);
  }

  /** Every day has a week. */
  lemma WeekExists(n: int) returns (w: int)
    ensures InIsoWeek(n, YearOf(ThursdayOf(n)), w)
  {
    hide InIsoWeek, ThursdayOf, YearOf, Round;
    var offset := (a: int) => 0;
    WeekFromJanuaryFourth(n, offset);
    var t := ThursdayOf(n);
    w := Round(ValueOf(t, offset) - ValueOf(DayNumber(YearOf(t), 0, 4), offset), WEEK) + 1;
  }
}
