/** parseDate undoes print. */
module DateRoundTrip {
  import opened Civil
  import opened IsoWeek
  import opened ScriptDate
  import opened CalendarWidget
  import opened DateFormat
  import opened Options

  /** A format is a list of directives, each followed by what separates it from the next. */
  datatype Item = Item(c: char, sep: string)

  predicate Separator(s: string) {
    forall k :: 0 <= k < |s| ==> !IsWordChar(s[k]) && s[k] != '%'
  }

  predicate Covered(c: char) {
    c == 'Y' || c == 'm' || c == 'd' || c == 'H' || c == 'M'
  }

  predicate WellFormed(items: seq<Item>) {
    forall k :: 0 <= k < |items| ==>
      Covered(items[k].c) && Separator(items[k].sep) && (k < |items| - 1 ==> items[k].sep != "")
  }

  predicate Has(items: seq<Item>, c: char) {
    exists k :: 0 <= k < |items| && items[k].c == c
  }

  function Format(items: seq<Item>): string {
    if items == [] then "" else ['%', items[0].c] + (items[0].sep + Format(items[1..]))
  }

  function Letters(items: seq<Item>): (b: seq<char>)
    ensures |b| == |items|
  {
    seq(|items|, k requires 0 <= k < |items| => items[k].c)
  }

  function Words(items: seq<Item>, t: Stamp, other: char -> string): (a: seq<string>)
    ensures |a| == |items|
  {
    seq(|items|, k requires 0 <= k < |items| => Expand(items[k].c, t, other))
  }

  function Printed(items: seq<Item>, t: Stamp, other: char -> string): string {
    if items == [] then "" else Expand(items[0].c, t, other) + (items[0].sep + Printed(items[1..], t, other))
  }

  lemma {:induction false} SkipSeparator(sep: string, rest: string, t: Stamp, other: char -> string)
    requires Separator(sep)
    ensures Directives(sep + rest) == Directives(rest)
    ensures Print(sep + rest, t, other) == sep + Print(rest, t, other)
  {
    hide Expand;
    if sep == "" {
      assert sep + rest == rest;
    } else {
      assert (sep + rest)[1..] == sep[1..] + rest;
      SkipSeparator(sep[1..], rest, t, other);
      assert sep == [sep[0]] + sep[1..];
    }
  }

  lemma {:induction false} FormatDirectives(items: seq<Item>, t: Stamp, other: char -> string)
    requires WellFormed(items)
    ensures Directives(Format(items)) == Letters(items)
    ensures Print(Format(items), t, other) == Printed(items, t, other)
  {
    hide Expand;
    if items != [] {
      var rest := items[0].sep + Format(items[1..]);
      assert Format(items)[2..] == rest;
      SkipSeparator(items[0].sep, Format(items[1..]), t, other);
      FormatDirectives(items[1..], t, other);
      assert Letters(items) == [items[0].c] + Letters(items[1..]);
    }
  }

  // Splitting the printed text.

  predicate IsWord(w: string) {
    w != "" && forall k :: 0 <= k < |w| ==> IsWordChar(w[k])
  }

  lemma {:induction false} SpanIs(s: string, k: nat, word: bool)
    requires k <= |s| && forall i :: 0 <= i < k ==> IsWordChar(s[i]) == word
    requires k < |s| ==> IsWordChar(s[k]) != word
    ensures Span(s, word) == k
  {
    if k > 0 {
      SpanIs(s[1..], k - 1, word);
    }
  }

  lemma SplitWord(w: string)
    requires IsWord(w)
    ensures Split(w) == [w]
  {
    SpanIs(w, |w|, true);
  }

  lemma SplitAt(s: string, i: nat, j: nat)
    requires i < |s| && i == Span(s, true) && j == Span(s[i..], false)
    ensures Split(s) == [s[..i]] + Split(s[i + j..])
  {
  }

  lemma SplitFirst(w: string, sep: string, rest: string)
    requires IsWord(w) && sep != "" && Separator(sep)
    requires rest == "" || IsWordChar(rest[0])
    ensures Split(w + (sep + rest)) == [w] + Split(rest)
  {
    hide Split, Span, IsWordChar;
    var s := w + (sep + rest);
    assert s[|w|] == sep[0];
    SpanIs(s, |w|, true);
    var tail := s[|w|..];
    assert tail == sep + rest;
    SpanIs(tail, |sep|, false);
    SplitAt(s, |w|, |sep|);
    assert s[..|w|] == w;
    assert s[|w| + |sep|..] == rest;
  }

  lemma WordOf(c: char, t: Stamp, other: char -> string)
    requires Covered(c) && t.year >= 1
    ensures IsWord(Expand(c, t, other))
  {
  }

  /** Splitting finds the printed words, and an empty one after a last separator. */
  lemma {:induction false} SplitPrinted(items: seq<Item>, t: Stamp, other: char -> string)
    requires items != [] && WellFormed(items) && t.year >= 1
    ensures Split(Printed(items, t, other)) == Words(items, t, other) + (if items[|items| - 1].sep == "" then [] else [""])
    decreases |items|
  {
    hide Expand, Split;
    var w, sep, rest := Expand(items[0].c, t, other), items[0].sep, Printed(items[1..], t, other);
    WordOf(items[0].c, t, other);
    if |items| == 1 {
      assert rest == "" && Words(items, t, other) == [w];
      if sep == "" {
        assert w + (sep + rest) == w;
        SplitWord(w);
      } else {
        SplitFirst(w, sep, rest);
        SplitEmpty();
      }
    } else {
      WordOf(items[1].c, t, other);
      assert IsWordChar(rest[0]);
      SplitFirst(w, sep, rest);
      SplitPrinted(items[1..], t, other);
      assert Words(items, t, other) == [w] + Words(items[1..], t, other);
    }
  }

  lemma SplitEmpty()
    ensures Split("") == [""]
  {
  }

  // Reading the words.

  function Recovered(items: seq<Item>, t: Stamp): Fields {
    Fields(
      Some(if Has(items, 'Y') then FullYear(t.year) else 0),
      Some(if Has(items, 'm') then t.month else -1),
      Some(if Has(items, 'd') then t.date else 0),
      Some(if Has(items, 'H') then t.hour else 0),
      Some(if Has(items, 'M') then t.min else 0))
  }

  lemma TakeWord(f: Fields, c: char, t: Stamp, other: char -> string, monthNamed: string -> Option<nat>)
    requires Covered(c) && t.year >= 1
    ensures Take(f, Expand(c, t, other), c, monthNamed) ==
            if c == 'Y' then f.(y := Some(FullYear(t.year)))
            else if c == 'm' then f.(m := Some(t.month))
            else if c == 'd' then f.(d := Some(t.date))
            else if c == 'H' then f.(hr := Some(t.hour))
            else f.(min := Some(t.min))
  {
    hide Padded, Decimal, ParseInt, FullYear;
    ParseDecimal(t.year);
    ParsePadded(t.month + 1);
    ParsePadded(t.date);
    ParsePadded(t.hour);
    ParsePadded(t.min);
  }

  lemma HasOneMore(items: seq<Item>, i: nat, c: char)
    requires i < |items|
    ensures Has(items[..i + 1], c) <==> Has(items[..i], c) || items[i].c == c
  {
    var a, b := items[..i], items[..i + 1];
    if Has(a, c) {
      var k :| 0 <= k < |a| && a[k].c == c;
      assert b[k].c == c;
    }
    if items[i].c == c {
      assert b[i].c == c;
    }
    if Has(b, c) {
      var k :| 0 <= k < |b| && b[k].c == c;
      assert k < i ==> a[k].c == c;
    }
  }

  lemma {:induction false} ReadingWords(items: seq<Item>, t: Stamp, a: seq<string>, i: nat,
                                        other: char -> string, monthNamed: string -> Option<nat>)
    requires WellFormed(items) && t.year >= 1 && i <= |items| <= |a|
    requires forall k :: 0 <= k < |items| ==> a[k] == Expand(items[k].c, t, other)
    ensures Reading(a, Letters(items), i, monthNamed) == Recovered(items[..i], t)
  {
    hide Expand, Take, Has, FullYear;
    if i == 0 {
      NothingYet(t);
      assert items[..0] == [];
    } else {
      ReadingWords(items, t, a, i - 1, other, monthNamed);
      var c := items[i - 1].c;
      WordOf(c, t, other);
      TakeWord(Recovered(items[..i - 1], t), c, t, other, monthNamed);
      HasOneMore(items, i - 1, 'Y');
      HasOneMore(items, i - 1, 'm');
      HasOneMore(items, i - 1, 'd');
      HasOneMore(items, i - 1, 'H');
      HasOneMore(items, i - 1, 'M');
    }
  }

  lemma NothingYet(t: Stamp)
    ensures Recovered([], t) == START
  {
  }

  /** What parsing reads from a printed date. */
  lemma ReadingPrinted(items: seq<Item>, t: Stamp, other: char -> string, monthNamed: string -> Option<nat>)
    requires items != [] && WellFormed(items) && t.year >= 1
    ensures Parse(Print(Format(items), t, other), Format(items), monthNamed) == Conclude(Recovered(items, t))
  {
    hide Expand, Take, Has, FullYear, Print, Split, Directives, Format, Recovered, Conclude;
    FormatDirectives(items, t, other);
    SplitPrinted(items, t, other);
    var a := Split(Printed(items, t, other));
    ReadingWords(items, t, a, |items|, other, monthNamed);
    assert items[..|items|] == items;
  }

  /** The hour and the minute are recovered if they were printed. */
  function MinuteKept(items: seq<Item>, minute: nat): nat {
    (if Has(items, 'H') then 60 * (minute / 60) else 0) + (if Has(items, 'M') then minute % 60 else 0)
  }

  lemma {:induction false} MinuteAgain(h: nat, m: nat)
    requires h < 24 && m < 60
    ensures (60 * h + m) / 1440 == 0 && (60 * h + m) % 1440 == 60 * h + m
  {
  }

  lemma NewDayIs(y: int, m: nat, d: int, h: nat, min: nat)
    requires y >= 100 && m < 12 && h < 24 && min < 60
    ensures NewDay(y, m, d, h, min) == DayNumber(y, m, d) && NewMinute(h, min) == 60 * h + min
  {
    hide DayNumber;
    MinuteAgain(h, min);
  }

  /** Printing any date from year 1 on and parsing the text moves the calendar to a date
      with the same fields, its year completed from two digits. */
  lemma PrintThenParse(items: seq<Item>, n: int, minute: nat, other: char -> string, monthNamed: string -> Option<nat>)
    requires WellFormed(items) && Has(items, 'Y') && Has(items, 'm') && Has(items, 'd')
    requires YearOf(n) >= 1 && minute < 1440
    ensures Parse(Print(Format(items), StampOf(n, minute), other), Format(items), monthNamed)
            == Moves(DayNumber(FullYear(YearOf(n)), MonthOf(n), DateOf(n)), MinuteKept(items, minute))
  {
    hide YearOf, MonthOf, DateOf, DayNumber, Parse, Print, Format, NewDay, NewMinute, Has;
    var t := StampOf(n, minute);
    HasSome(items, 'Y');
    ReadingPrinted(items, t, other, monthNamed);
    NewDayIs(FullYear(t.year), t.month, t.date, if Has(items, 'H') then t.hour else 0, if Has(items, 'M') then t.min else 0);
  }

  lemma HasSome(items: seq<Item>, c: char)
    requires Has(items, c)
    ensures items != []
  {
  }

  /** The date itself comes back exactly when its year has three digits or more; a calendar
      whose years include it then shows it. */
  lemma ParseUndoesPrint(items: seq<Item>, n: int, minute: nat, lo: int, hi: int,
                         other: char -> string, monthNamed: string -> Option<nat>)
    requires WellFormed(items) && Has(items, 'Y') && Has(items, 'm') && Has(items, 'd')
    requires YearOf(n) >= 1 && minute < 1440 && lo <= YearOf(n) <= hi
    ensures var o := Parse(Print(Format(items), StampOf(n, minute), other), Format(items), monthNamed);
            && o.Moves? && o.minute == MinuteKept(items, minute)
            && (o.day == n <==> YearOf(n) >= 100)
            && (YearOf(n) >= 100 ==> Clamped(o.day, lo, hi) == n)
            && (Has(items, 'H') && Has(items, 'M') ==> o.minute == minute)
  {
    hide YearOf, MonthOf, DateOf, DayNumber, Parse, Print, Format, Has, WithYear;
    PrintThenParse(items, n, minute, other, monthNamed);
    YearCompleted(n);
  }

  lemma YearCompleted(n: int)
    requires YearOf(n) >= 1
    ensures DayNumber(FullYear(YearOf(n)), MonthOf(n), DateOf(n)) == n <==> YearOf(n) >= 100
  {
    var y := YearOf(n);
    if y < 100 {
      YearsGrow(y + 2, FullYear(y));
      YearLength(y + 1);
      MonthsGrow(y, MonthOf(n), 12);
      YearOfMonths(y);
    }
  }

  /** At hour 0 the unpadded hour prints as the directive itself. */
  lemma MidnightHour(n: int, minute: nat, other: char -> string)
    requires minute < 1440
    ensures Print("%k", StampOf(n, minute), other) == "%k" <==> minute < 60
  {
    var t := StampOf(n, minute);
    assert Print("%k"[2..], t, other) == "";
    assert Print("%k", t, other) == Expand('k', t, other);
    var s := Decimal(t.hour);
    assert IsDigit(s[0]);
  }
}
