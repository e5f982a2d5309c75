/** The calendar widget: its 42-cell month grid and its navigation buttons. */
module CalendarWidget {
  import opened Civil
  import opened IsoWeek
  import opened ScriptDate

  /** A cell of the grid; days of other months may be left blank. A grid for an invalid date
      shows no days. */
  datatype Cell = Blank | Shown(day: int, otherMonth: bool, selected: bool) | NotADay

  function FirstOfMonth(n: int): int {
    n - DateOf(n) + 1
  }

  predicate SameMonth(a: int, b: int) {
    YearOf(a) == YearOf(b) && MonthOf(a) == MonthOf(b)
  }

  /** The last day with weekday `fdow` up to the first of the month. */
  function GridStart(first: int, fdow: nat): (g: int)
    requires fdow < 7
    ensures g <= first < g + 7 && Weekday(g) == fdow
  {
    first - (Weekday(first) + 7 - fdow) % 7
  }

  /** What the cell of day c shows while date n is displayed. */
  function CellFor(c: int, n: int, others: bool): Cell {
    if SameMonth(c, n) then Shown(c, false, c == n) else if others then Shown(c, true, false) else Blank
  }

  ghost predicate Displays(cells: seq<Cell>, n: int, fdow: nat, others: bool)
    requires fdow < 7
  {
    && |cells| == 42
    && forall k :: 0 <= k < 42 ==> cells[k] == CellFor(GridStart(FirstOfMonth(n), fdow) + k, n, others)
  }

  /** w is the week number of day s, as getWeekNumber sees it. */
  ghost predicate NumberOf(s: int, w: int) {
    InIsoWeek(Rebuilt(s), IsoYear(Rebuilt(s)), w)
  }

  /** Every day of an invalid date counts as one of another month. */
  function NoDays(others: bool): seq<Cell> {
    seq(42, _ => if others then NotADay else Blank)
  }

  ghost predicate Numbers(weeks: seq<int>, n: int, fdow: nat)
    requires fdow < 7
  {
    && |weeks| == 6
    && forall i :: 0 <= i < 6 ==> NumberOf(GridStart(FirstOfMonth(n), fdow) + 7 * i, weeks[i])
  }

  /** The remainder of the script's % operator, which takes the dividend's sign. */
  function Rem(a: int, b: int): int
    requires b > 0
  {
    if a >= 0 then a % b else -((-a) % b)
  }

  // Navigation.

  datatype Nav = PrevYear | PrevMonth | NextMonth | NextYear

  /** Months counted from January of year 0. */
  function MonthIndex(n: int): int {
    12 * YearOf(n) + MonthOf(n)
  }

  function Months(nav: Nav): int {
    match nav
    case PrevYear => -12
    case PrevMonth => -1
    case NextMonth => 1
    case NextYear => 12
  }

  /** A button works as long as it stays within the calendar's years. */
  predicate Allowed(n: int, nav: Nav, lo: int, hi: int) {
    12 * lo <= MonthIndex(n) + Months(nav) < 12 * (hi + 1)
  }

  function MonthsLater(n: int, k: int): int {
    var i := MonthIndex(n) + k;
    InMonth(i / 12, i % 12, DateOf(n))
  }

  function Navigated(n: int, nav: Nav, lo: int, hi: int): int {
    if Allowed(n, nav, lo, hi) then MonthsLater(n, Months(nav)) else n
  }

  function Clamped(n: int, lo: int, hi: int): int {
    if YearOf(n) < lo then WithYear(n, lo) else if YearOf(n) > hi then WithYear(n, hi) else n
  }

  // The grid.

  lemma MonthEdges(n: int)
    ensures var f := FirstOfMonth(n);
            && f == DayNumber(YearOf(n), MonthOf(n), 1) && DateOf(f) == 1 && SameMonth(f, n)
            && f <= n < f + MonthDays(YearOf(n), MonthOf(n))
  {
    hide DaysBeforeYear, DaysBeforeMonth, MonthDays, YearOf, MonthOf, DateOf;
    FieldsOf(YearOf(n), MonthOf(n), 1);
  }

  lemma InsideMonth(c: int, n: int)
    requires FirstOfMonth(n) <= c < FirstOfMonth(n) + MonthDays(YearOf(n), MonthOf(n))
    ensures SameMonth(c, n) && DateOf(c) == c - FirstOfMonth(n) + 1
  {
    hide DaysBeforeYear, DaysBeforeMonth, MonthDays, YearOf, MonthOf, DateOf;
    FieldsOf(YearOf(n), MonthOf(n), c - FirstOfMonth(n) + 1);
  }

  lemma BeforeMonth(c: int, n: int)
    requires FirstOfMonth(n) - 6 <= c < FirstOfMonth(n)
    ensures MonthOf(c) != MonthOf(n)
  {
    hide DaysBeforeYear, MonthDays, YearDays, YearOf, MonthOf, DateOf;
    var y, m, f := YearOf(n), MonthOf(n), FirstOfMonth(n);
    if m == 0 {
      YearLength(y - 1);
      YearOfMonths(y - 1);
      FieldsOf(y - 1, 11, MonthDays(y - 1, 11) + 1 - (f - c));
    } else {
      FieldsOf(y, m - 1, MonthDays(y, m - 1) + 1 - (f - c));
    }
  }

  lemma AfterMonth(c: int, n: int)
    requires FirstOfMonth(n) + MonthDays(YearOf(n), MonthOf(n)) <= c < FirstOfMonth(n) + 42
    ensures MonthOf(c) != MonthOf(n)
  {
    hide DaysBeforeYear, MonthDays, YearDays, YearOf, MonthOf, DateOf;
    var y, m := YearOf(n), MonthOf(n);
    var d := c - FirstOfMonth(n) - MonthDays(y, m) + 1;
    if m == 11 {
      YearLength(y);
      YearOfMonths(y);
      FieldsOf(y + 1, 0, d);
    } else {
      FieldsOf(y, m + 1, d);
    }
  }

  /** Near the displayed month, the month alone tells its days from the others. */
  lemma MonthTells(c: int, n: int)
    requires FirstOfMonth(n) - 6 <= c < FirstOfMonth(n) + 42
    ensures MonthOf(c) == MonthOf(n) <==> SameMonth(c, n)
    ensures SameMonth(c, n) <==> FirstOfMonth(n) <= c < FirstOfMonth(n) + MonthDays(YearOf(n), MonthOf(n))
    ensures SameMonth(c, n) ==> (DateOf(c) == DateOf(n) <==> c == n)
  {
    hide YearOf, MonthOf, DateOf, MonthDays;
    if c < FirstOfMonth(n) {
      BeforeMonth(c, n);
    } else if c >= FirstOfMonth(n) + MonthDays(YearOf(n), MonthOf(n)) {
      AfterMonth(c, n);
    } else {
      InsideMonth(c, n);
    }
  }

  lemma RemStart(first: int, fdow: nat, day1: int)
    requires fdow < 7
    requires var r := Rem(Weekday(first) - fdow, 7); day1 == if r < 0 then r + 7 else r
    ensures first - day1 == GridStart(first, fdow)
  {
  }

  /** The first displayed day. */
  method ToGridStart(d: JsDate, fdow: nat)
    requires fdow < 7
    modifies d`day
    ensures d.day == GridStart(FirstOfMonth(old(d.day)), fdow)
  {
    hide YearOf, MonthOf, DateOf, DayNumber, Weekday, GridStart, Rem, FirstOfMonth, InYear, DaysBeforeYear, DaysBeforeMonth, MonthDays, RealDate;
    FirstIs(d.day);
    d.SetDate(1);
    var day1 := Rem(Weekday(d.day) - fdow, 7);
    if day1 < 0 {
      day1 := day1 + 7;
    }
    RemStart(d.day, fdow, day1);
    d.SetDate(-day1);
    d.SetDate(DateOf(d.day) + 1);
  }

  /** One row: `d` walks over seven days. */
  method FillRow(d: JsDate, month: nat, mday: int, others: bool, ghost n: int) returns (row: seq<Cell>)
    requires month == MonthOf(n) && mday == DateOf(n)
    requires FirstOfMonth(n) - 6 <= d.day < FirstOfMonth(n) + 36
    modifies d`day
    ensures d.day == old(d.day) + 7
    ensures |row| == 7 && forall k :: 0 <= k < 7 ==> row[k] == CellFor(old(d.day) + k, n, others)
  {
    hide YearOf, MonthOf, DateOf, DayNumber, FirstOfMonth, CellFor;
    row := [];
    for j := 0 to 7
      invariant d.day == old(d.day) + j && |row| == j
      invariant forall k :: 0 <= k < j ==> row[k] == CellFor(old(d.day) + k, n, others)
    {
      var iday := DateOf(d.day);
      CellIs(d.day, n, others);
      if MonthOf(d.day) == month {
        row := row + [Shown(d.day, false, iday == mday)];
      } else if others {
        row := row + [Shown(d.day, true, false)];
      } else {
        row := row + [Blank];
      }
      d.SetDate(DateOf(d.day) + 1);
    }
  }

  /** The grid part of _init: `d` walks over the 42 days. */
  method Fill(d: JsDate, fdow: nat, others: bool, offset: int -> int) returns (cells: seq<Cell>, weeks: seq<int>)
    requires fdow < 7 && SteadyZone(offset)
    modifies d`day
    ensures Displays(cells, old(d.day), fdow, others) && Numbers(weeks, old(d.day), fdow)
  {
    hide YearOf, MonthOf, DateOf, DayNumber, Weekday, GridStart, FirstOfMonth, NumberOf, CellFor, SteadyZone, Rebuilt, ZoneFits, InYear, DaysBeforeYear, DaysBeforeMonth, MonthDays, RealDate;
    ghost var n := d.day;
    var month, mday := MonthOf(d.day), DateOf(d.day);
    ToGridStart(d, fdow);
    ghost var g := d.day;
    cells, weeks := [], [];
    for i := 0 to 6
      invariant d.day == g + 7 * i && |cells| == 7 * i && |weeks| == i
      invariant forall k :: 0 <= k < |cells| ==> cells[k] == CellFor(g + k, n, others)
      invariant forall k :: 0 <= k < i ==> NumberOf(g + 7 * k, weeks[k])
    {
      ZoneFitsDay(offset, Rebuilt(d.day));
      var w := d.GetWeekNumber(offset);
      NumberIs(d.day, w);
      weeks := weeks + [w];
      var row := FillRow(d, month, mday, others, n);
      cells := cells + row;
    }
  }

  lemma ZoneFitsDay(offset: int -> int, n: int)
    requires SteadyZone(offset)
    ensures ZoneFits(n, offset)
  {
  }

  lemma NumberIs(s: int, w: int)
    ensures NumberOf(s, w) <==> InIsoWeek(Rebuilt(s), IsoYear(Rebuilt(s)), w)
  {
  }

  lemma FirstIs(n: int)
    ensures var f := FirstOfMonth(n); f == n - DateOf(n) + 1 && DateOf(f) == 1
  {
    MonthEdges(n);
  }

  lemma CellIs(c: int, n: int, others: bool)
    requires FirstOfMonth(n) - 6 <= c < FirstOfMonth(n) + 42
    ensures CellFor(c, n, others) ==
            if MonthOf(c) == MonthOf(n) then Shown(c, false, DateOf(c) == DateOf(n))
            else if others then Shown(c, true, false) else Blank
  {
    hide YearOf, MonthOf, DateOf, FirstOfMonth, SameMonth;
    MonthTells(c, n);
  }

  /** The grid shows consecutive days, one weekday to a column. */
  lemma GridColumns(cells: seq<Cell>, n: int, fdow: nat, others: bool)
    requires fdow < 7 && Displays(cells, n, fdow, others)
    ensures forall j, k :: 0 <= j < 42 && 0 <= k < 42 && cells[j].Shown? && cells[k].Shown? ==>
              cells[k].day - cells[j].day == k - j
    ensures forall k :: 0 <= k < 42 && cells[k].Shown? ==> Weekday(cells[k].day) == Column(fdow, k)
    ensures others ==> forall k :: 0 <= k < 42 ==> cells[k].Shown?
    ensures !others ==> forall k :: 0 <= k < 42 && cells[k].Shown? ==> !cells[k].otherMonth
  {
    hide YearOf, MonthOf, DateOf, Weekday, FirstOfMonth, SameMonth, GridStart, Column;
    var g := GridStart(FirstOfMonth(n), fdow);
    forall k | 0 <= k < 42 && cells[k].Shown?
      ensures Weekday(cells[k].day) == Column(fdow, k)
    {
      ColumnWeekday(g, fdow, k);
    }
  }

  /** Every day of the month is shown exactly once, in order. */
  lemma GridShowsMonth(cells: seq<Cell>, n: int, fdow: nat, others: bool)
    requires fdow < 7 && Displays(cells, n, fdow, others)
    ensures ShowsMonthFrom(cells, n, FirstOfMonth(n) - GridStart(FirstOfMonth(n), fdow))
  {
    hide YearOf, MonthOf, DateOf, Weekday, FirstOfMonth, MonthDays, SameMonth, GridStart, DayNumber, CellFor;
    var f := FirstOfMonth(n);
    var g := GridStart(f, fdow);
    var o := f - g;
    var len := MonthDays(YearOf(n), MonthOf(n));
    forall k | o <= k < o + len
      ensures cells[k] == Shown(DayNumber(YearOf(n), MonthOf(n), k - o + 1), false, k - o + 1 == DateOf(n))
    {
      CellInside(g + k, n, others);
    }
    forall k | 0 <= k < o || o + len <= k < 42
      ensures cells[k].Blank? || (cells[k].Shown? && cells[k].otherMonth && !cells[k].selected)
    {
      CellOutside(g + k, n, others);
    }
  }

  lemma CellInside(c: int, n: int, others: bool)
    requires FirstOfMonth(n) <= c < FirstOfMonth(n) + MonthDays(YearOf(n), MonthOf(n))
    ensures var d := c - FirstOfMonth(n) + 1;
            CellFor(c, n, others) == Shown(DayNumber(YearOf(n), MonthOf(n), d), false, d == DateOf(n))
  {
    hide YearOf, MonthOf, DateOf, MonthDays, DaysBeforeYear, DaysBeforeMonth;
    InsideMonth(c, n);
  }

  lemma CellOutside(c: int, n: int, others: bool)
    requires FirstOfMonth(n) - 6 <= c < FirstOfMonth(n) + 42
    requires !(FirstOfMonth(n) <= c < FirstOfMonth(n) + MonthDays(YearOf(n), MonthOf(n)))
    ensures CellFor(c, n, others) == if others then Shown(c, true, false) else Blank
  {
    hide YearOf, MonthOf, DateOf, MonthDays, FirstOfMonth;
    MonthTells(c, n);
  }

  function Column(fdow: nat, k: nat): nat {
    (fdow + k % 7) % 7
  }

  lemma ColumnWeekday(g: int, fdow: nat, k: nat)
    requires Weekday(g) == fdow
    ensures Weekday(g + k) == Column(fdow, k)
  {
    var j := k % 7;
    SplitWeeks(k);
    WeeksLater(g + j, k / 7);
    WeekdayAdds(g, j);
  }

  lemma SplitWeeks(k: nat)
    ensures k == k % 7 + 7 * (k / 7)
  {
  }

  lemma WeekdayAdds(g: int, j: nat)
    requires j < 7
    ensures Weekday(g + j) == (Weekday(g) + j) % 7
  {
  }

  /** The days of the month of n are the cells from o on; the displayed date alone is selected. */
  ghost predicate ShowsMonthFrom(cells: seq<Cell>, n: int, o: nat) {
    var len := MonthDays(YearOf(n), MonthOf(n));
    && |cells| == 42 && o < 7 && o + len <= 42
    && (forall k :: o <= k < o + len ==>
          cells[k] == Shown(DayNumber(YearOf(n), MonthOf(n), k - o + 1), false, k - o + 1 == DateOf(n)))
    && (forall k :: (0 <= k < o || o + len <= k < 42) ==> cells[k].Blank? || (cells[k].Shown? && cells[k].otherMonth && !cells[k].selected))
  }

  /** The week number beside a row is that of its seven days exactly when rows start on
      Monday (years from 100 on). */
  lemma RowNumbers(weeks: seq<int>, n: int, fdow: nat, i: nat)
    requires fdow < 7 && i < 6 && Numbers(weeks, n, fdow)
    requires var s := GridStart(FirstOfMonth(n), fdow) + 7 * i; !(0 <= YearOf(s) <= 99)
    ensures var s := GridStart(FirstOfMonth(n), fdow) + 7 * i;
            (forall d :: s <= d < s + 7 ==> HasWeekNumber(d, weeks[i])) <==> fdow == MONDAY
  {
    hide YearOf, MonthOf, DateOf, Weekday, FirstOfMonth, GridStart, InIsoWeek;
    var g := GridStart(FirstOfMonth(n), fdow);
    RebuiltIsSame(g + 7 * i);
    WeeksLater(g, i);
    RowNumberFits(g + 7 * i, weeks[i]);
  }

  // Steps between months.

  lemma SplitMonths(i: int)
    ensures 12 * (i / 12) + i % 12 == i && 0 <= i % 12 < 12
  {
  }

  lemma MonthIndexSplits(y: int, m: nat, y': int, m': nat)
    requires m < 12 && m' < 12 && 12 * y + m == 12 * y' + m'
    ensures y == y' && m == m'
  {
  }

  /** A step of k months lands k months on, on the same day or the last of a shorter month. */
  lemma MonthsLaterFields(n: int, k: int)
    ensures var t := MonthsLater(n, k);
            && MonthIndex(t) == MonthIndex(n) + k
            && DateOf(t) == Min(DateOf(n), MonthDays(YearOf(t), MonthOf(t)))
  {
    hide YearOf, MonthOf, DateOf, MonthDays, DayNumber;
    var i := MonthIndex(n) + k;
    SplitMonths(i);
    FieldsOf(i / 12, i % 12, Min(DateOf(n), MonthDays(i / 12, i % 12)));
  }

  lemma MonthsLaterIs(n: int, k: int, y: int, m: nat)
    requires m < 12 && 12 * y + m == MonthIndex(n) + k
    ensures MonthsLater(n, k) == InMonth(y, m, DateOf(n))
  {
    hide YearOf, MonthOf, DateOf, InMonth;
    SplitMonths(MonthIndex(n) + k);
    MonthIndexSplits(y, m, (12 * y + m) / 12, (12 * y + m) % 12);
  }

  lemma WithYearFields(n: int, y: int)
    ensures YearOf(WithYear(n, y)) == y && MonthOf(WithYear(n, y)) == MonthOf(n)
    ensures DateOf(WithYear(n, y)) == Min(DateOf(n), MonthDays(y, MonthOf(n)))
  {
    hide YearOf, MonthOf, DateOf, MonthDays, DayNumber;
    FieldsOf(y, MonthOf(n), Min(DateOf(n), MonthDays(y, MonthOf(n))));
  }

  /** Where each button leads when it is allowed. */
  lemma ButtonsLead(n: int, nav: Nav, lo: int, hi: int)
    requires lo <= YearOf(n) <= hi
    ensures var t := Navigated(n, nav, lo, hi);
            var y, m := YearOf(n), MonthOf(n);
            var y', m' := YearOf(t), MonthOf(t);
            match nav
            case PrevYear => m' == m && y' == if y > lo then y - 1 else y
            case PrevMonth => if m > 0 then y' == y && m' == m - 1 else if y > lo then y' == y - 1 && m' == 11 else t == n
            case NextMonth => if m < 11 then y' == y && m' == m + 1 else if y < hi then y' == y + 1 && m' == 0 else t == n
            case NextYear => m' == m && y' == if y < hi then y + 1 else y
  {
    hide YearOf, MonthOf, DateOf, MonthsLater;
    MonthsLaterFields(n, Months(nav));
  }

  /** A year step changes the day of the month from February 29 to 28 and in no other case. */
  lemma YearStepKeepsDay(n: int, nav: Nav, lo: int, hi: int)
    requires nav.PrevYear? || nav.NextYear?
    ensures var t := Navigated(n, nav, lo, hi);
            && MonthOf(t) == MonthOf(n)
            && DateOf(t) == if MonthOf(n) == 1 && DateOf(n) == 29 && !IsLeap(YearOf(t)) then 28 else DateOf(n)
  {
    hide YearOf, MonthOf, DateOf, MonthsLater, IsLeap, MonthDays, InYear, DaysBeforeYear, DaysBeforeMonth, DayNumber;
    var t := Navigated(n, nav, lo, hi);
    MonthsLaterFields(n, Months(nav));
    if t != n {
      MonthIndexSplits(YearOf(t), MonthOf(t), YearOf(n) + Months(nav) / 12, MonthOf(n));
    }
    LengthsCompared(YearOf(n), YearOf(t), MonthOf(n));
  }

  lemma LengthsCompared(y: int, y': int, m: nat)
    requires m < 12
    ensures m != 1 ==> MonthDays(y, m) == MonthDays(y', m)
    ensures MonthDays(y, 1) == if IsLeap(y) then 29 else 28
    ensures MonthDays(y', 1) == if IsLeap(y') then 29 else 28
  {
  }

  lemma ClampedInRange(n: int, lo: int, hi: int)
    ensures lo <= hi ==> lo <= YearOf(Clamped(n, lo, hi)) <= hi
    ensures YearOf(n) < lo ==> Clamped(n, lo, hi) == WithYear(n, lo)
    ensures lo <= YearOf(n) && YearOf(n) > hi ==> Clamped(n, lo, hi) == WithYear(n, hi)
    ensures lo <= YearOf(n) <= hi ==> Clamped(n, lo, hi) == n
  {
    hide YearOf, WithYear;
    WithYearFields(n, lo);
    WithYearFields(n, hi);
  }

  /** The local setMonth of cellClick. */
  method SetMonthWithin(d: JsDate, m: nat)
    requires m < 12
    modifies d`day
    ensures d.day == InMonth(YearOf(old(d.day)), m, DateOf(old(d.day)))
  {
    hide YearOf, MonthOf, DateOf, MonthDays, DayNumber;
    var day := DateOf(d.day);
    var max := MonthDays(YearOf(d.day), m);
    if day > max {
      FieldsOf(YearOf(d.day), MonthOf(d.day), max);
      d.SetDate(max);
    }
    d.SetMonth(m);
  }

  /** Across a year's end both months have 31 days. */
  lemma AcrossYears(n: int, y: int)
    requires MonthOf(n) == 0 || MonthOf(n) == 11
    ensures YearOf(WithYear(n, y)) == y && DateOf(WithYear(n, y)) == DateOf(n)
  {
    hide YearOf, MonthOf, DateOf, MonthDays, WithYear;
    WithYearFields(n, y);
    LengthsCompared(YearOf(n), y, MonthOf(n));
  }

  /** The four buttons. */
  method Press(d: JsDate, nav: Nav, lo: int, hi: int)
    modifies d`day
    ensures lo <= YearOf(old(d.day)) <= hi ==> d.day == Navigated(old(d.day), nav, lo, hi)
  {
    hide YearOf, MonthOf, DateOf, InMonth, MonthsLater;
    ghost var n := d.day;
    var year, mon := YearOf(d.day), MonthOf(d.day);
    match nav
    case PrevYear =>
      if year > lo {
        MonthsLaterIs(n, -12, year - 1, mon);
        d.SetFullYear(year - 1);
      }
    case PrevMonth =>
      if mon > 0 {
        MonthsLaterIs(n, -1, year, mon - 1);
        SetMonthWithin(d, mon - 1);
      } else if year > lo {
        MonthsLaterIs(n, -1, year - 1, 11);
        AcrossYears(n, year - 1);
        d.SetFullYear(year - 1);
        SetMonthWithin(d, 11);
      }
    case NextMonth =>
      if mon < 11 {
        MonthsLaterIs(n, 1, year, mon + 1);
        SetMonthWithin(d, mon + 1);
      } else if year < hi {
        MonthsLaterIs(n, 1, year + 1, 0);
        AcrossYears(n, year + 1);
        d.SetFullYear(year + 1);
        SetMonthWithin(d, 0);
      }
    case NextYear =>
      if year < hi {
        MonthsLaterIs(n, 12, year + 1, mon);
        d.SetFullYear(year + 1);
      }
  }

  lemma NavigatedInRange(n: int, nav: Nav, lo: int, hi: int)
    requires lo <= YearOf(n) <= hi
    ensures var t := Navigated(n, nav, lo, hi); lo <= YearOf(t) <= hi && Clamped(t, lo, hi) == t
  {
    hide YearOf, MonthOf, DateOf, MonthsLater, WithYear;
    MonthsLaterFields(n, Months(nav));
  }

  // Whole runs of the buttons.

  function Walk(n: int, navs: seq<Nav>, lo: int, hi: int): int
    decreases |navs|
  {
    if navs == [] then n else Walk(Navigated(n, navs[0], lo, hi), navs[1..], lo, hi)
  }

  function StepIndex(i: int, nav: Nav, lo: int, hi: int): int {
    if 12 * lo <= i + Months(nav) < 12 * (hi + 1) then i + Months(nav) else i
  }

  function WalkIndex(i: int, navs: seq<Nav>, lo: int, hi: int): int
    decreases |navs|
  {
    if navs == [] then i else WalkIndex(StepIndex(i, navs[0], lo, hi), navs[1..], lo, hi)
  }

  function IndexLength(i: int): nat {
    MonthDays(i / 12, i % 12)
  }

  /** The smallest of d and the lengths of the months a walk visits. */
  function Shortest(i: int, navs: seq<Nav>, lo: int, hi: int, d: int): (r: int)
    ensures r <= d && (d <= 28 ==> r == d)
    decreases |navs|
  {
    if navs == [] then d else
      var j := StepIndex(i, navs[0], lo, hi);
      Shortest(j, navs[1..], lo, hi, Min(d, IndexLength(j)))
  }

  /** After any run of the buttons the year is in range, the month is where the steps
      lead, and the day is cut to the shortest month on the way. */
  lemma {:induction false} WalkIs(n: int, navs: seq<Nav>, lo: int, hi: int)
    requires lo <= YearOf(n) <= hi
    ensures var t := Walk(n, navs, lo, hi);
            && lo <= YearOf(t) <= hi
            && MonthIndex(t) == WalkIndex(MonthIndex(n), navs, lo, hi)
            && DateOf(t) == Shortest(MonthIndex(n), navs, lo, hi, DateOf(n))
    decreases |navs|
  {
    hide YearOf, MonthOf, DateOf, MonthIndex, Navigated, StepIndex, IndexLength;
    if navs != [] {
      var t := Navigated(n, navs[0], lo, hi);
      NavigatedInRange(n, navs[0], lo, hi);
      NavigatedFields(n, navs[0], lo, hi);
      WalkIs(t, navs[1..], lo, hi);
    }
  }

  lemma LengthHere(t: int)
    ensures IndexLength(MonthIndex(t)) == MonthDays(YearOf(t), MonthOf(t))
  {
    hide YearOf, MonthOf, MonthDays;
    SplitMonths(MonthIndex(t));
    MonthIndexSplits(YearOf(t), MonthOf(t), MonthIndex(t) / 12, MonthIndex(t) % 12);
  }

  lemma NavigatedFields(n: int, nav: Nav, lo: int, hi: int)
    ensures var t := Navigated(n, nav, lo, hi);
            && MonthIndex(t) == StepIndex(MonthIndex(n), nav, lo, hi)
            && DateOf(t) == Min(DateOf(n), IndexLength(MonthIndex(t)))
  {
    hide YearOf, MonthOf, DateOf, MonthDays, MonthsLater, IndexLength;
    var t := Navigated(n, nav, lo, hi);
    LengthHere(t);
    MonthsLaterFields(n, Months(nav));
  }

  function Opposite(nav: Nav): Nav {
    match nav
    case PrevYear => NextYear
    case PrevMonth => NextMonth
    case NextMonth => PrevMonth
    case NextYear => PrevYear
  }

  /** The opposite button undoes an allowed step exactly when the day fits the month visited. */
  lemma StepUndone(n: int, nav: Nav, lo: int, hi: int)
    requires lo <= YearOf(n) <= hi && Allowed(n, nav, lo, hi)
    ensures Navigated(Navigated(n, nav, lo, hi), Opposite(nav), lo, hi) == n
            <==> DateOf(n) <= IndexLength(MonthIndex(n) + Months(nav))
  {
    hide YearOf, MonthOf, DateOf, IndexLength, MonthsLater, Navigated, DayNumber;
    var t := Navigated(n, nav, lo, hi);
    var back := Navigated(t, Opposite(nav), lo, hi);
    NavigatedFields(n, nav, lo, hi);
    NavigatedFields(t, Opposite(nav), lo, hi);
    assert MonthIndex(back) == MonthIndex(n);
    MonthIndexSplits(YearOf(back), MonthOf(back), YearOf(n), MonthOf(n));
    LengthHere(n);
    assert DayNumber(YearOf(n), MonthOf(n), DateOf(n)) == n;
    assert DayNumber(YearOf(back), MonthOf(back), DateOf(back)) == back;
  }

  /** The clocks suit the week numbers of every day. */
  ghost predicate SteadyZone(offset: int -> int) {
    forall n :: ZoneFits(n, offset)
  }

  /** Clocks that move by no more than an hour do. */
  lemma SummerTimeIsSteady(offset: int -> int)
    requires forall a, b :: -HOUR <= offset(a) - offset(b) <= HOUR
    ensures SteadyZone(offset)
  {
  }

  class Calendar {
    const minYear: int
    const maxYear: int
    const showsOtherMonths: bool
    const offset: int -> int
    var firstDayOfWeek: nat
    var date: JsDate
    var cells: seq<Cell>
    var weeks: seq<int>
    var invalid: bool          // the date is an invalid one; `date` then means nothing

    ghost predicate Valid()
      reads this, date
    {
      && SteadyZone(offset)
      && firstDayOfWeek < 7
      && if invalid then cells == NoDays(showsOtherMonths)
         else
           && (minYear <= maxYear ==> minYear <= YearOf(date.day) <= maxYear)
           && Displays(cells, date.day, firstDayOfWeek, showsOtherMonths)
           && Numbers(weeks, date.day, firstDayOfWeek)
    }

    constructor (lo: int, hi: int, others: bool, offset: int -> int, fdow: nat, start: JsDate)
      requires SteadyZone(offset) && fdow < 7
      modifies start
      ensures minYear == lo && maxYear == hi && showsOtherMonths == others
      ensures Valid() && !invalid && fresh(date) && firstDayOfWeek == fdow
      ensures date.day == Clamped(old(start.day), lo, hi) && date.minute == old(start.minute)
    {
      minYear, maxYear, showsOtherMonths := lo, hi, others;
      this.offset := offset;
      firstDayOfWeek := fdow;
      date := start;
      cells, weeks, invalid := [], [], false;
      new;
      Init(fdow, start);
    }

    /** _init: clamps the year, keeps a copy of the date, and walks `d` over the grid. */
    method Init(fdow: nat, d: JsDate)
      requires SteadyZone(offset) && fdow < 7
      modifies this, d
      ensures Valid() && !invalid && fresh(date) && firstDayOfWeek == fdow
      ensures date.day == Clamped(old(d.day), minYear, maxYear) && date.minute == old(d.minute)
    {
      hide YearOf, MonthOf, DateOf, WithYear, Clamped, Displays, Numbers;
      var year := YearOf(d.day);
      if year < minYear {
        d.SetFullYear(minYear);
      } else if year > maxYear {
        d.SetFullYear(maxYear);
      }
      ClampedInRange(old(d.day), minYear, maxYear);
      firstDayOfWeek := fdow;
      date := new JsDate(d.day, d.minute);
      invalid := false;
      cells, weeks := Fill(d, fdow, showsOtherMonths, offset);
    }

    /** _init with an invalid date, which no comparison clamps: no cell shows a day. */
    method InitInvalid(fdow: nat)
      requires SteadyZone(offset) && fdow < 7
      modifies this
      ensures Valid() && invalid && firstDayOfWeek == fdow && date == old(date)
    {
      firstDayOfWeek := fdow;
      invalid := true;
      cells, weeks := NoDays(showsOtherMonths), [];
    }

    /** setDate. */
    method SetDate(d: JsDate)
      requires Valid()
      modifies this, d
      ensures Valid() && !invalid && (date == old(date) || fresh(date)) && firstDayOfWeek == old(firstDayOfWeek)
      ensures date.day == old(d.day) || date.day == Clamped(old(d.day), minYear, maxYear)
      ensures minYear <= maxYear || old(invalid || !d.EqualsTo(date)) ==> date.day == Clamped(old(d.day), minYear, maxYear)
      ensures date.minute == old(d.minute)
    {
      hide YearOf, WithYear, Clamped, Displays, Numbers;
      ClampedInRange(d.day, minYear, maxYear);
      if invalid || !d.EqualsTo(date) {
        Init(firstDayOfWeek, d);
      }
    }

    /** setDate with an invalid date, which equals no date. */
    method SetInvalid()
      requires Valid()
      modifies this
      ensures Valid() && invalid && date == old(date) && firstDayOfWeek == old(firstDayOfWeek)
    {
      InitInvalid(firstDayOfWeek);
    }

    /** The navigation part of cellClick. From an invalid date no button leads away. */
    method Navigate(nav: Nav)
      requires Valid()
      modifies this
      ensures Valid() && (date == old(date) || fresh(date)) && firstDayOfWeek == old(firstDayOfWeek)
      ensures invalid == old(invalid)
      ensures !invalid && minYear <= maxYear ==> date.day == Navigated(old(date.day), nav, minYear, maxYear)
      ensures !invalid ==> date.minute == old(date.minute)
    {
      hide YearOf, MonthOf, DateOf, Navigated, Clamped, Displays, Numbers, SteadyZone;
      if invalid {
        SetInvalid();
        return;
      }
      var d := new JsDate(date.day, date.minute);
      Press(d, nav, minYear, maxYear);
      if minYear <= maxYear {
        NavigatedInRange(date.day, nav, minYear, maxYear);
      }
      if !d.EqualsTo(date) {
        SetDate(d);
      }
    }
  }
}
