/** Printing dates with % directives, and parsing them back. */
module DateFormat {
  import opened Civil
  import opened IsoWeek
  import opened ScriptDate
  import opened CalendarWidget
  import opened Options

  // Numbers.

  function Digit(n: nat): (c: char)
    requires n < 10
    ensures IsDigit(c)
  {
    ['0', '1', '2', '3', '4', '5', '6', '7', '8', '9'][n]
  }

  predicate IsDigit(c: char) {
    '0' <= c <= '9'
  }

  function Decimal(n: nat): (s: string)
    ensures s != "" && forall k :: 0 <= k < |s| ==> IsDigit(s[k])
  {
    if n < 10 then [Digit(n)] else Decimal(n / 10) + [Digit(n % 10)]
  }

  function Signed(n: int): string {
    if n < 0 then "-" + Decimal(-n) else Decimal(n)
  }

  /** Two digits at least. */
  function Padded(n: nat): (s: string)
    ensures s != "" && forall k :: 0 <= k < |s| ==> IsDigit(s[k])
  {
    if n < 10 then "0" + Decimal(n) else Decimal(n)
  }

  function Value(s: string): nat {
    if s == "" then 0
    else var c := s[|s| - 1]; 10 * Value(s[..|s| - 1]) + (if IsDigit(c) then c as nat - '0' as nat else 0)
  }

  /** parseInt(s, 10) of a word; None is NaN. */
  function ParseInt(s: string): Option<int> {
    var k := DigitsAtFront(s);
    if k == 0 then None else Some(Value(s[..k]))
  }

  function DigitsAtFront(s: string): (k: nat)
    ensures k <= |s| && (forall i :: 0 <= i < k ==> IsDigit(s[i])) && (k < |s| ==> !IsDigit(s[k]))
  {
    if s == "" || !IsDigit(s[0]) then 0 else 1 + DigitsAtFront(s[1..])
  }

  lemma {:induction false} ValueOfDecimal(n: nat)
    ensures Value(Decimal(n)) == n
  {
    if n < 10 {
      assert Decimal(n)[..0] == "";
    } else {
      ValueOfDecimal(n / 10);
      assert Decimal(n)[..|Decimal(n)| - 1] == Decimal(n / 10);
    }
  }

  lemma ParseDigits(s: string)
    requires s != "" && forall k :: 0 <= k < |s| ==> IsDigit(s[k])
    ensures ParseInt(s) == Some(Value(s))
  {
    assert DigitsAtFront(s) == |s|;
    assert s[..|s|] == s;
  }

  lemma ParseDecimal(n: nat)
    ensures ParseInt(Decimal(n)) == Some(n)
  {
    ValueOfDecimal(n);
    ParseDigits(Decimal(n));
  }

  lemma ParsePadded(n: nat)
    ensures ParseInt(Padded(n)) == Some(n)
  {
    ParseDecimal(n);
    ParseDigits(Padded(n));
    if n < 10 {
      var s := Padded(n);
      assert s[..1] == "0" && Value("0"[..0]) == 0;
      assert s[..|s| - 1] == "0";
    }
  }

  // Printing.

  datatype Stamp = Stamp(year: int, month: nat, date: nat, hour: nat, min: nat)

  /** The fields a script reads from a date. */
  function StampOf(n: int, minute: nat): Stamp {
    Stamp(YearOf(n), MonthOf(n), DateOf(n), minute / 60, minute % 60)
  }

  /** What directive c prints. A number 0 counts as missing, and a missing entry leaves the
      directive as it is. `other` stands for the directives not spelt out here. */
  function Expand(c: char, t: Stamp, other: char -> string): string {
    if c == 'Y' then if t.year == 0 then "%Y" else Signed(t.year)
    else if c == 'm' then Padded(t.month + 1)
    else if c == 'd' then Padded(t.date)
    else if c == 'e' then Decimal(t.date)
    else if c == 'H' then Padded(t.hour)
    else if c == 'k' then if t.hour == 0 then "%k" else Decimal(t.hour)
    else if c == 'M' then Padded(t.min)
    else if c == 'n' then "\n"
    else if c == 't' then "\t"
    else if c == '%' then "%"
    else if other(c) == "" then ['%', c] else other(c)
  }

  predicate IsDirective(s: string) {
    |s| >= 2 && s[0] == '%' && s[1] != '\n' && s[1] != '\r' && s[1] != '\U{2028}' && s[1] != '\U{2029}'
  }

  /** print: every match of `%.`, left to right, is replaced. */
  function Print(fmt: string, t: Stamp, other: char -> string): string {
    if fmt == "" then ""
    else if IsDirective(fmt) then Expand(fmt[1], t, other) + Print(fmt[2..], t, other)
    else [fmt[0]] + Print(fmt[1..], t, other)
  }

  // Parsing.

  predicate IsWordChar(c: char) {
    'a' <= c <= 'z' || 'A' <= c <= 'Z' || IsDigit(c) || c == '_'
  }

  /** The length of the longest prefix whose characters are (are not) word characters. */
  function Span(s: string, word: bool): (k: nat)
    ensures k <= |s| && (forall i :: 0 <= i < k ==> IsWordChar(s[i]) == word)
    ensures k < |s| ==> IsWordChar(s[k]) != word
  {
    if s == "" || IsWordChar(s[0]) != word then 0 else 1 + Span(s[1..], word)
  }

  /** split(/\W+/). */
  function Split(s: string): (words: seq<string>)
    ensures words != []
    decreases |s|
  {
    var i := Span(s, true);
    if i == |s| then [s] else [s[..i]] + Split(s[i + Span(s[i..], false)..])
  }

  /** match(/%./g), keeping the letter of each directive. */
  function Directives(fmt: string): seq<char> {
    if fmt == "" then []
    else if IsDirective(fmt) then [fmt[1]] + Directives(fmt[2..])
    else Directives(fmt[1..])
  }

  /** The variables of parseDate; None is NaN. */
  datatype Fields = Fields(y: Option<int>, m: Option<int>, d: Option<int>, hr: Option<int>, min: Option<int>)

  const START := Fields(Some(0), Some(-1), Some(0), Some(0), Some(0))

  /** Years below 100 are taken to be of 1930 to 2029. */
  function FullYear(y: int): int {
    if y < 100 then if y > 29 then y + 1900 else y + 2000 else y
  }

  predicate SaysPm(s: string) {
    exists k :: 0 <= k < |s| - 1 && (s[k] == 'p' || s[k] == 'P') && (s[k + 1] == 'm' || s[k + 1] == 'M')
  }

  /** One round of the switch: word w read under directive c. `monthNamed` looks month names up. */
  function Take(f: Fields, w: string, c: char, monthNamed: string -> Option<nat>): Fields {
    if c == 'd' || c == 'e' then f.(d := ParseInt(w))
    else if c == 'm' then f.(m := match ParseInt(w) case None => None case Some(v) => Some(v - 1))
    else if c == 'Y' || c == 'y' then f.(y := match ParseInt(w) case None => None case Some(v) => Some(FullYear(v)))
    else if c == 'b' || c == 'B' then match monthNamed(w) case None => f case Some(k) => f.(m := Some(k))
    else if c == 'H' || c == 'I' || c == 'k' || c == 'l' then f.(hr := ParseInt(w))
    else if (c == 'p' || c == 'P') && SaysPm(w) && f.hr.Some? && f.hr.value < 12 then f.(hr := Some(f.hr.value + 12))
    else if c == 'M' then f.(min := ParseInt(w))
    else f
  }

  /** The fields after the first i words; empty words and words past the directives are skipped. */
  function Reading(a: seq<string>, b: seq<char>, i: nat, monthNamed: string -> Option<nat>): Fields
    requires i <= |a|
  {
    if i == 0 then START
    else
      var f := Reading(a, b, i - 1, monthNamed);
      if a[i - 1] == "" || i - 1 >= |b| then f else Take(f, a[i - 1], b[i - 1], monthNamed)
  }

  /** `new Date(y, m, d, hr, min, 0)`: months, hours and minutes run over into larger units. */
  function NewDay(y: int, m: int, d: int, hr: int, min: int): int {
    DayNumber(ConstructorYear(y) + m / 12, m % 12, d) + (60 * hr + min) / 1440
  }

  function NewMinute(hr: int, min: int): nat {
    (60 * hr + min) % 1440
  }

  /** How the first attempt of parseDate ends. */
  datatype Outcome =
    | Moves(day: int, minute: nat)
    | Invalid                           // a field is not a number
    | NotRecognised                     // left to the guesses that follow
    | Throws                            // the format has no directive to look up

  function Conclude(f: Fields): Outcome {
    if f.y == Some(0) || f.m == Some(-1) || f.d == Some(0) then NotRecognised
    else if f.y.None? || f.m.None? || f.d.None? || f.hr.None? || f.min.None? then Invalid
    else Moves(NewDay(f.y.value, f.m.value, f.d.value, f.hr.value, f.min.value), NewMinute(f.hr.value, f.min.value))
  }

  function Parse(s: string, fmt: string, monthNamed: string -> Option<nat>): Outcome {
    var a, b := Split(s), Directives(fmt);
    if b == [] && exists k :: 0 <= k < |a| && a[k] != "" then Throws
    else Conclude(Reading(a, b, |a|, monthNamed))
  }

  /** parseDate, up to the end of its first attempt. */
  method ParseDate(cal: Calendar, s: string, fmt: string, monthNamed: string -> Option<nat>) returns (o: Outcome)
    requires cal.Valid()
    modifies cal
    ensures cal.Valid() && o == Parse(s, fmt, monthNamed)
    ensures o.Moves? ==> !cal.invalid && cal.date.minute == o.minute
    ensures o.Moves? && (cal.minYear <= cal.maxYear || old(cal.invalid) || o.day != old(cal.date.day) || o.minute != old(cal.date.minute)) ==>
              cal.date.day == Clamped(o.day, cal.minYear, cal.maxYear)
    ensures o.Invalid? ==> cal.invalid
    ensures o.NotRecognised? || o.Throws? ==> unchanged(cal)
  {
    hide Calendar.Valid, Clamped, NewDay, NewMinute, Take, Split, Directives;
    var a, b := Split(s), Directives(fmt);
    var f := START;
    for i := 0 to |a|
      invariant f == Reading(a, b, i, monthNamed)
      invariant b == [] ==> forall k :: 0 <= k < i ==> a[k] == ""
    {
      if a[i] != "" {
        if b == [] {
          o := Throws;
          return;
        }
        if i < |b| {
          f := Take(f, a[i], b[i], monthNamed);
        }
      }
    }
    o := Conclude(f);
    if o.Moves? {
      var d := new JsDate(o.day, o.minute);
      cal.SetDate(d);
    } else if o.Invalid? {
      cal.SetInvalid();
    }
  }
}
