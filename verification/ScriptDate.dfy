/** Date objects as calendar.js uses and patches them. A date keeps a day number
    and the minute of the day; its setters normalise by running over. */
module ScriptDate {
  import opened Civil
  import opened IsoWeek

  function Min(a: int, b: int): int {
    if a < b then a else b
  }

  /** The date with the same month and, as far as the month allows, the same day. */
  function InMonth(y: int, m: nat, d: int): int
    requires m < 12
  {
    DayNumber(y, m, Min(d, MonthDays(y, m)))
  }

  function WithYear(n: int, y: int): int {
    InMonth(y, MonthOf(n), DateOf(n))
  }

  /** `new Date(getFullYear(), getMonth(), getDate())`. */
  function Rebuilt(n: int): int {
    DayNumber(ConstructorYear(YearOf(n)), MonthOf(n), DateOf(n))
  }

  /** The ISO year that holds the week of day n. */
  function IsoYear(n: int): int {
    YearOf(ThursdayOf(n))
  }

  class JsDate {
    var day: int
    var minute: nat

    constructor (day: int, minute: nat)
      ensures this.day == day && this.minute == minute
    {
      this.day, this.minute := day, minute;
    }

    method SetDate(d: int)
      modifies this`day
      ensures day == DayNumber(YearOf(old(day)), MonthOf(old(day)), d)
      ensures day == old(day) - DateOf(old(day)) + d
    {
      day := DayNumber(YearOf(day), MonthOf(day), d);
    }

    method SetMonth(m: nat)
      requires m < 12
      modifies this`day
      ensures day == DayNumber(YearOf(old(day)), m, DateOf(old(day)))
    {
      day := DayNumber(YearOf(day), m, DateOf(day));
    }

    method OldSetFullYear(y: int)
      modifies this`day
      ensures day == DayNumber(y, MonthOf(old(day)), DateOf(old(day)))
    {
      day := DayNumber(y, MonthOf(day), DateOf(day));
    }

    /** The patch: a day that would run into the next month is pulled back first. */
    method SetFullYear(y: int)
      modifies this`day
      ensures day == WithYear(old(day), y)
    {
      hide DaysBeforeYear, DaysBeforeMonth, MonthDays, YearOf, MonthOf, DateOf, DayNumber, IsLeap;
      var m, d := MonthOf(day), DateOf(day);
      ChangingYear(day, y);
      var copy := new JsDate(day, minute);
      copy.OldSetFullYear(y);
      if MonthOf(copy.day) != MonthOf(day) {
        FieldsOf(YearOf(day), m, 28);
        SetDate(28);
      }
      OldSetFullYear(y);
    }

    /** getWeekNumber: the ISO week of the date, as far as `new Date` rebuilds it. */
    method GetWeekNumber(offset: int -> int) returns (w: int)
      requires ZoneFits(Rebuilt(day), offset)
      ensures InIsoWeek(Rebuilt(day), IsoYear(Rebuilt(day)), w)
    {
      hide DaysBeforeYear, DaysBeforeMonth, MonthDays, YearOf, MonthOf, DateOf, InIsoWeek, ThursdayOf, Round, ValueOf, ZoneFits;
      var d := new JsDate(DayNumber(ConstructorYear(YearOf(day)), MonthOf(day), DateOf(day)), 0);
      ghost var start := d.day;
      var dow := Weekday(d.day);
      d.SetDate(DateOf(d.day) - (dow + 6) % 7 + 3);
      NearestThursday(start, d.day);
      var ms := ValueOf(d.day, offset);
      ghost var t := d.day;
      JanuaryOf(t);
      d.SetMonth(0);
      d.SetDate(4);
      WeekFromJanuaryFourth(start, offset);
      w := Round(ms - ValueOf(d.day, offset), WEEK) + 1;
    }

    /** equalsTo. */
    predicate EqualsTo(that: JsDate)
      reads this, that
      ensures EqualsTo(that) <==> day == that.day && minute == that.minute
    {
      assert DayNumber(YearOf(day), MonthOf(day), DateOf(day)) == day;
      assert DayNumber(YearOf(that.day), MonthOf(that.day), DateOf(that.day)) == that.day;
      YearOf(day) == YearOf(that.day) && MonthOf(day) == MonthOf(that.day) && DateOf(day) == DateOf(that.day) &&
      minute / 60 == that.minute / 60 && minute % 60 == that.minute % 60
    }
  }

  lemma NearestThursday(n: int, t: int)
    requires t == n - (Weekday(n) + 6) % 7 + 3
    ensures t == ThursdayOf(n)
  {
  }

  lemma JanuaryOf(t: int)
    ensures var n := DayNumber(YearOf(t), 0, DateOf(t)); YearOf(n) == YearOf(t) && MonthOf(n) == 0
  {
    FieldsOf(YearOf(t), 0, DateOf(t));
  }

  /** Moving to another year overruns the month for February 29 alone. */
  lemma ChangingYear(n: int, y: int)
    ensures var m, d := MonthOf(n), DateOf(n);
            var moved := DayNumber(y, m, d);
            && (d <= MonthDays(y, m) ==> MonthOf(moved) == m && WithYear(n, y) == moved)
            && (d > MonthDays(y, m) ==> m == 1 && d == 29 && !IsLeap(y) && MonthOf(moved) == 2
                                        && WithYear(n, y) == DayNumber(y, 1, 28))
            && RealDate(YearOf(n), m, d) && RealDate(YearOf(n), m, 28)
  {
    var m, d := MonthOf(n), DateOf(n);
    if d <= MonthDays(y, m) {
      FieldsOf(y, m, d);
    } else {
      assert m == 1;
      assert DayNumber(y, 1, 29) == DayNumber(y, 2, 1);
      FieldsOf(y, 2, 1);
    }
  }

  /** Outside the years 0 to 99 the week number is the date's own ISO week. */
  lemma RebuiltIsSame(n: int)
    ensures Rebuilt(n) == n <==> !(0 <= YearOf(n) <= 99)
  {
    var y := YearOf(n);
    if 0 <= y <= 99 {
      YearsGrow(y + 2, 1900 + y);
      YearLength(y + 1);
      MonthsGrow(y, MonthOf(n), 12);
      YearOfMonths(y);
    }
  }

  /** What getWeekNumber returns is the ISO week of the date. */
  ghost predicate WeekNumberRight(n: int) {
    forall w :: InIsoWeek(Rebuilt(n), IsoYear(Rebuilt(n)), w) ==> InIsoWeek(n, IsoYear(n), w)
  }

  lemma BeforeJune(y: int)
    ensures DaysBeforeMonth(y, 5) == if IsLeap(y) then 152 else 151
  {
    assert DaysBeforeMonth(y, 1) == 31;
    assert DaysBeforeMonth(y, 2) == 31 + MonthDays(y, 1);
    assert DaysBeforeMonth(y, 4) == DaysBeforeMonth(y, 2) + 61;
  }

  lemma CenturiesLater(y: int)
    requires 0 <= y <= 99
    ensures DaysBeforeYear(1900 + y) == DaysBeforeYear(y) + 693_960 + (if y == 0 then 1 else 0)
  {
    if y > 0 {
      assert (1900 + y - 1) / 4 == (y - 1) / 4 + 475;
    }
  }

  /** Nineteen centuries move every summer day one weekday on. */
  lemma CenturiesApart(y: int, d: int)
    requires 0 <= y <= 99
    ensures DayNumber(1900 + y, 5, d) == DayNumber(y, 5, d) + 693_960
  {
    hide DaysBeforeYear, DaysBeforeMonth;
    BeforeJune(y);
    BeforeJune(1900 + y);
    CenturiesLater(y);
  }

  /** getWeekNumber is right on every day of a year exactly when the year is not in 0 to 99. */
  lemma WeekNumbersOfYear(y: int)
    ensures (forall n :: YearOf(n) == y ==> WeekNumberRight(n)) <==> !(0 <= y <= 99)
  {
    hide DaysBeforeYear, DaysBeforeMonth, MonthDays, YearOf, MonthOf, DateOf, InIsoWeek, Weekday, Rebuilt, IsoYear;
    if 0 <= y <= 99 {
      var n := WrongSunday(y);
    } else {
      forall n | YearOf(n) == y
        ensures WeekNumberRight(n)
      {
        RebuiltIsSame(n);
      }
    }
  }

  function SundayFrom(b: int): (t: int)
    ensures Weekday(t) == 0 && b <= t < b + 7
  {
    b + (6 - b) % 7
  }

  /** In June of such a year some Saturday or Sunday gets a wrong number. */
  lemma WrongSunday(y: int) returns (n: int)
    requires 0 <= y <= 99
    ensures YearOf(n) == y && !WeekNumberRight(n)
  {
    hide DaysBeforeYear, DaysBeforeMonth, MonthDays, YearOf, MonthOf, DateOf, InIsoWeek, Weekday, ThursdayOf, DayNumber;
    JuneDays(y);
    var b := DayNumber(y, 5, 8);
    var s := SundayFrom(b);
    CenturiesApart(y, 8);
    JuneDay(y, s - b + 8);
    JuneDay(y, s - b + 7);
    var shift := 693_960;
    assert Rebuilt(s) == s + shift && Rebuilt(s - 1) == s - 1 + shift;
    var w := WeekExists(s + shift);
    var w' := WeekExists(s - 1 + shift);
    if WeekNumberRight(s) && WeekNumberRight(s - 1) {
      SundayAndSaturday(s, w, w', shift);
    }
    n := if WeekNumberRight(s) then s - 1 else s;
  }

  lemma JuneDays(y: int)
    ensures MonthDays(y, 5) == 30
  {
  }

  lemma JuneDay(y: int, d: int)
    requires 0 <= y <= 99 && 1 <= d <= 30
    ensures var n := DayNumber(y, 5, 8) + d - 8;
            YearOf(n) == y && Rebuilt(n) == n + 693_960
  {
    FieldsOf(y, 5, d);
    CenturiesApart(y, d);
  }

  lemma SundayAndSaturday(s: int, w: int, w': int, shift: int)
    requires Weekday(s) == 0 && shift == 693_960
    requires InIsoWeek(s, IsoYear(s), w) && InIsoWeek(s - 1, IsoYear(s - 1), w')
    requires InIsoWeek(s + shift, IsoYear(s + shift), w)
    ensures !InIsoWeek(s - 1 + shift, IsoYear(s - 1 + shift), w')
  {
    hide InIsoWeek, IsoYear, Weekday;
    var y, y' := IsoYear(s), IsoYear(s - 1);
    var z, z' := IsoYear(s + shift), IsoYear(s - 1 + shift);
    SundayShifts(s);
    RowSharesWeek(s - 6, 6, y, w);
    RowSharesWeek(s - 6, 5, y', w');
    IsoWeekUnique(s - 6, y, w, y', w');
    MondayStartsWeek(s + shift, z, w);
    if InIsoWeek(s - 1 + shift, z', w') {
      SameNumberNearby(s - 1 + shift, s + shift, z', z, w);
    }
  }

  lemma SundayShifts(s: int)
    requires Weekday(s) == 0
    ensures Weekday(s - 6) == MONDAY && Weekday(s + 693_960) == MONDAY
  {
    WeeksLater(s + 1, 99137);
    assert Weekday(s + 1) == 1 && s + 1 + 7 * 99137 == s + 693_960;
  }

  lemma MondayStartsWeek(n: int, y: int, w: int)
    requires Weekday(n) == MONDAY && InIsoWeek(n, y, w)
    ensures !InIsoWeek(n - 1, y, w)
  {
    hide WeekOne, Weekday;
    WeekOneIsMonday(y);
    WholeWeeks(n, WeekOne(y));
  }
}
