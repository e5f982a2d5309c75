/** What parseDate makes of any text: which words decide about the year, the month and
    the day, and when the text is not recognised. */
module DateReading {
  import opened Civil
  import opened ScriptDate
  import opened IsoWeek
  import opened Options
  import opened DateFormat

  type Names = string -> Option<nat>

  /** Word i is read under a directive. */
  predicate Usable(a: seq<string>, b: seq<char>, i: int) {
    0 <= i < |a| && i < |b| && a[i] != ""
  }

  predicate YearAt(a: seq<string>, b: seq<char>, i: int) {
    Usable(a, b, i) && (b[i] == 'Y' || b[i] == 'y')
  }

  /** A month number, or a word that is a month's name. */
  predicate MonthAt(a: seq<string>, b: seq<char>, i: int, names: Names) {
    Usable(a, b, i) && (b[i] == 'm' || ((b[i] == 'b' || b[i] == 'B') && names(a[i]).Some?))
  }

  predicate DayAt(a: seq<string>, b: seq<char>, i: int) {
    Usable(a, b, i) && (b[i] == 'd' || b[i] == 'e')
  }

  /** The last of the first n words that gives the year, or -1. */
  function LastYear(a: seq<string>, b: seq<char>, n: nat): (i: int)
    ensures i == -1 <==> forall k :: 0 <= k < n ==> !YearAt(a, b, k)
    ensures i != -1 ==> 0 <= i < n && YearAt(a, b, i) && forall k :: i < k < n ==> !YearAt(a, b, k)
  {
    if n == 0 then -1 else if YearAt(a, b, n - 1) then n - 1 else LastYear(a, b, n - 1)
  }

  function LastMonth(a: seq<string>, b: seq<char>, n: nat, names: Names): (i: int)
    ensures i == -1 <==> forall k :: 0 <= k < n ==> !MonthAt(a, b, k, names)
    ensures i != -1 ==> 0 <= i < n && MonthAt(a, b, i, names) && forall k :: i < k < n ==> !MonthAt(a, b, k, names)
  {
    if n == 0 then -1 else if MonthAt(a, b, n - 1, names) then n - 1 else LastMonth(a, b, n - 1, names)
  }

  function LastDay(a: seq<string>, b: seq<char>, n: nat): (i: int)
    ensures i == -1 <==> forall k :: 0 <= k < n ==> !DayAt(a, b, k)
    ensures i != -1 ==> 0 <= i < n && DayAt(a, b, i) && forall k :: i < k < n ==> !DayAt(a, b, k)
  {
    if n == 0 then -1 else if DayAt(a, b, n - 1) then n - 1 else LastDay(a, b, n - 1)
  }

  /** A year below 100 is the one of 1930 to 2029 that ends in it. */
  ghost predicate YearRead(word: Option<int>, year: Option<int>) {
    match word
    case None => year.None?
    case Some(v) =>
      && year.Some?
      && (v >= 100 ==> year.value == v)
      && (v < 100 ==> 1930 <= year.value <= 2029 && (year.value == v + 1900 || year.value == v + 2000))
  }

  /** Months are counted from 0; names give them directly. */
  ghost predicate MonthRead(c: char, word: string, names: Names, month: Option<int>) {
    if c == 'm' then
      match ParseInt(word)
      case None => month.None?
      case Some(v) => month == Some(v - 1)
    else
      names(word).Some? && month == Some(names(word).value)
  }

  lemma NotNegative(w: string)
    ensures ParseInt(w).Some? ==> ParseInt(w).value >= 0
  {
  }

  /** What one word does to the three fields. */
  lemma OneWord(a: seq<string>, b: seq<char>, n: nat, names: Names)
    requires 0 < n <= |a|
    ensures var f, g := Reading(a, b, n - 1, names), Reading(a, b, n, names);
            && (if YearAt(a, b, n - 1) then YearRead(ParseInt(a[n - 1]), g.y) else g.y == f.y)
            && (if MonthAt(a, b, n - 1, names) then MonthRead(b[n - 1], a[n - 1], names, g.m) else g.m == f.m)
            && (if DayAt(a, b, n - 1) then g.d == ParseInt(a[n - 1]) else g.d == f.d)
  {
    hide ParseInt, SaysPm;
    NotNegative(a[n - 1]);
  }

  /** The three fields come from the last words that give them. */
  lemma {:induction false} LastWords(a: seq<string>, b: seq<char>, n: nat, names: Names)
    requires n <= |a|
    ensures var f := Reading(a, b, n, names);
            var i, j, k := LastYear(a, b, n), LastMonth(a, b, n, names), LastDay(a, b, n);
            && (if i == -1 then f.y == Some(0) else YearRead(ParseInt(a[i]), f.y))
            && (if j == -1 then f.m == Some(-1) else MonthRead(b[j], a[j], names, f.m))
            && (if k == -1 then f.d == Some(0) else f.d == ParseInt(a[k]))
  {
    hide ParseInt, Take, YearAt, MonthAt, DayAt, YearRead, MonthRead;
    if n > 0 {
      LastWords(a, b, n - 1, names);
      OneWord(a, b, n, names);
    }
  }

  /** No word gives a year; no word gives a month, or the last one is the number 0; no word gives
      a day, or the last one is the number 0. */
  ghost predicate Incomplete(a: seq<string>, b: seq<char>, names: Names) {
    var i, j, k := LastYear(a, b, |a|), LastMonth(a, b, |a|, names), LastDay(a, b, |a|);
    i == -1 || j == -1 || k == -1 || (b[j] == 'm' && ParseInt(a[j]) == Some(0)) || ParseInt(a[k]) == Some(0)
  }

  /** A text is left to the guesses exactly when it lacks a year, a month or a day. */
  lemma RecognisedExactly(s: string, fmt: string, names: Names)
    ensures var a, b, o := Split(s), Directives(fmt), Parse(s, fmt, names);
            o.NotRecognised? <==> !o.Throws? && Incomplete(a, b, names)
  {
    hide Split, Directives, Reading, NewDay, NewMinute, ParseInt, YearAt, DayAt;
    LastWords(Split(s), Directives(fmt), |Split(s)|, names);
  }

  /** Where a recognised text moves the calendar: to the last year, month and day that it names. */
  lemma MovesToWords(s: string, fmt: string, names: Names)
    requires Parse(s, fmt, names).Moves?
    ensures var a, b, o := Split(s), Directives(fmt), Parse(s, fmt, names);
            var i, j, k := LastYear(a, b, |a|), LastMonth(a, b, |a|, names), LastDay(a, b, |a|);
            && i != -1 && j != -1 && k != -1
            && exists y, m, hr, min :: YearRead(ParseInt(a[i]), Some(y)) && MonthRead(b[j], a[j], names, Some(m))
                 && Some(0) != ParseInt(a[k]) && ParseInt(a[k]).Some?
                 && o == Moves(NewDay(y, m, ParseInt(a[k]).value, hr, min), NewMinute(hr, min))
  {
    hide Split, Directives, Reading, NewDay, NewMinute, ParseInt, MonthAt, DayAt, YearAt, MonthRead, YearRead;
    var a, b := Split(s), Directives(fmt);
    LastWords(a, b, |a|, names);
    var f := Reading(a, b, |a|, names);
    assert f.y == Some(f.y.value) && f.m == Some(f.m.value);
    assert NewDay(f.y.value, f.m.value, f.d.value, f.hr.value, f.min.value) == Parse(s, fmt, names).day;
  }

  /** An empty text moves nothing, whatever the format. */
  lemma EmptyIsLeft(fmt: string, names: Names)
    ensures Parse("", fmt, names) == NotRecognised
  {
    hide Directives;
    assert Split("") == [""];
    assert Reading([""], Directives(fmt), 1, names) == Reading([""], Directives(fmt), 0, names);
  }

  lemma Carry(t: int, k: int)
    requires k == 12 || k == 1440
    ensures (t + k) / k == t / k + 1 && (t + k) % k == t % k
    ensures 0 <= t < k ==> t / k == 0 && t % k == t
  {
  }

  /** Months, days, hours and minutes beyond their range carry into the larger unit. */
  lemma NewDayCarries(y: int, m: int, d: int, hr: int, min: int)
    requires y >= 100
    ensures NewDay(y, m + 12, d, hr, min) == NewDay(y + 1, m, d, hr, min)
    ensures NewDay(y, m, d + 1, hr, min) == NewDay(y, m, d, hr, min) + 1 == NewDay(y, m, d, hr + 24, min)
    ensures NewDay(y, m, d, hr, min + 60) == NewDay(y, m, d, hr + 1, min)
    ensures NewMinute(hr, min + 60) == NewMinute(hr + 1, min) && NewMinute(hr + 24, min) == NewMinute(hr, min)
    ensures 0 <= m < 12 && 0 <= hr < 24 && 0 <= min < 60 ==>
              NewDay(y, m, d, hr, min) == DayNumber(y, m, d) && NewMinute(hr, min) == 60 * hr + min
  {
    hide DaysBeforeYear, DaysBeforeMonth;
    Carry(m, 12);
    Carry(60 * hr + min, 1440);
    assert 60 * (hr + 24) + min == 60 * hr + min + 1440;
    assert 60 * hr + (min + 60) == 60 * (hr + 1) + min;
  }

  /** The numbers that directives print are the customary ones: months from 1, two digits. */
  lemma DirectivesMean(t: Stamp, other: char -> string)
    requires t.year >= 1 && t.month < 12 && 1 <= t.date <= 31 && t.hour < 24 && t.min < 60
    ensures ParseInt(Expand('Y', t, other)) == Some(t.year)
    ensures ParseInt(Expand('m', t, other)) == Some(t.month + 1) && |Expand('m', t, other)| == 2
    ensures ParseInt(Expand('d', t, other)) == Some(t.date) && |Expand('d', t, other)| == 2
    ensures ParseInt(Expand('e', t, other)) == Some(t.date) && (|Expand('e', t, other)| == 1 <==> t.date < 10)
    ensures ParseInt(Expand('H', t, other)) == Some(t.hour) && |Expand('H', t, other)| == 2
    ensures t.hour > 0 ==> ParseInt(Expand('k', t, other)) == Some(t.hour)
    ensures ParseInt(Expand('M', t, other)) == Some(t.min) && |Expand('M', t, other)| == 2
  {
    hide ParseInt, Padded, Decimal;
    ParseDecimal(t.year);
    ParseDecimal(t.date);
    ParseDecimal(t.hour);
    ParsePadded(t.month + 1);
    ParsePadded(t.date);
    ParsePadded(t.hour);
    ParsePadded(t.min);
    TwoDigits(t.month + 1);
    TwoDigits(t.date);
    TwoDigits(t.hour);
    TwoDigits(t.min);
  }

  /** The remaining directives: literal characters, names from elsewhere, and unknown letters as they are. */
  lemma OtherDirectives(t: Stamp, other: char -> string)
    ensures other('q') == "" ==> Expand('q', t, other) == "%q"
    ensures other('a') != "" ==> Expand('a', t, other) == other('a')
    ensures Expand('%', t, other) == "%" && Expand('n', t, other) == "\n" && Expand('t', t, other) == "\t"
  {
  }

  lemma TwoDigits(n: nat)
    requires n < 100
    ensures |Padded(n)| == 2 && (|Decimal(n)| == 1 <==> n < 10)
  {
  }

  /** Digits are written and read most significant first. */
  lemma DigitsInOrder()
    ensures Decimal(2012) == "2012" && Padded(7) == "07"
    ensures Value("0123456789") == 123456789
  {
    hide Value;
    assert Decimal(2) == "2" && Decimal(20) == "20" && Decimal(201) == "201";
    ValuesInOrder();
  }

  lemma ValuesInOrder()
    ensures Value("0123456789") == 123456789
  {
    var s := "0123456789";
    ValueStep(s[..1]);
    ValueStep(s[..2]);
    ValueStep(s[..3]);
    ValueStep(s[..4]);
    ValueStep(s[..5]);
    ValueStep(s[..6]);
    ValueStep(s[..7]);
    ValueStep(s[..8]);
    ValueStep(s[..9]);
    ValueStep(s);
    assert forall k :: 0 < k <= 9 ==> s[..k][..k - 1] == s[..k - 1];
    assert s[..0] == "";
  }

  /** An hour read before "PM" is one of the afternoon, except 12; "AM" changes nothing, not even
      12, and neither does any word without a "p" and an "m" side by side or under another directive. */
  lemma HalfDays(h: nat, names: Names)
    ensures var f := Take(START, Decimal(h), 'I', names);
            && Take(f, "PM", 'p', names).hr == Take(f, "pm", 'P', names).hr == Some(if h < 12 then h + 12 else h)
            && Take(f, "AM", 'p', names) == Take(f, "px", 'p', names) == Take(f, "PM", 'S', names) == f && f.hr == Some(h)
  {
    hide Decimal, ParseInt;
    ParseDecimal(h);
    assert "PM"[0] == 'P' && "PM"[1] == 'M';
    assert "pm"[0] == 'p' && "pm"[1] == 'm';
  }

  /** Letters, digits and the underscore make up words; their neighbours and what usually
      separates fields do not. */
  lemma WordCharacters()
    ensures forall c :: c in "AZaz09_" ==> IsWordChar(c)
    ensures forall c :: c in "@[`{/:-., " ==> !IsWordChar(c)
  {
    var w, p := "AZaz09_", "@[`{/:-., ";
    assert forall k :: 0 <= k < |w| ==> IsWordChar(w[k]);
    assert forall k :: 0 <= k < |p| ==> !IsWordChar(p[k]);
  }

  lemma ValueStep(s: string)
    requires s != "" && IsDigit(s[|s| - 1])
    ensures Value(s) == 10 * Value(s[..|s| - 1]) + (s[|s| - 1] as nat - '0' as nat)
  {
  }
}
