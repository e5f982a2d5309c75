/** The key/value log parser: it tokenizes a C string in place, overwriting
    delimiters with NULs, and hands each key and value to a handler. */
module KeyValue {
  import opened Options

  const NUL: char := '\0'

  /** The configured special characters; escape and quote may be unset (NUL). */
  datatype Config = Config(delim: char, escape: char, quote: char, separator: char)

  /** How a parse ends. Overrun: the scan would read past the end of the string. */
  datatype Verdict = Done | Dropped | Overrun

  datatype Parsed = Parsed(pairs: seq<(string, string)>, verdict: Verdict)

  type Handler = (string, string) -> int

  /** How many leading spaces and delimiters there are. */
  function Skip(text: string, delim: char): (n: nat)
    ensures n <= |text|
    ensures n < |text| ==> text[n] != ' ' && text[n] != delim
  {
    if text != "" && (text[0] == ' ' || text[0] == delim) then 1 + Skip(text[1..], delim) else 0
  }

  /** The position of the next quote at or after pos, or the end. */
  function QuoteEnd(text: string, pos: nat, quote: char): (q: nat)
    requires pos <= |text|
    ensures pos <= q <= |text|
    decreases |text| - pos
  {
    if pos == |text| || text[pos] == quote then pos else QuoteEnd(text, pos + 1, quote)
  }

  /** The end of the pair that starts before pos: the next delimiter that is neither
      quoted nor escaped, or the end of the text. */
  function PairEnd(text: string, pos: nat, c: Config): (e: Option<nat>)
    ensures e.Some? ==> pos <= e.value <= |text| && (e.value < |text| ==> text[e.value] == c.delim)
    ensures e.Some? && pos < |text| && text[pos] != c.delim ==> pos < e.value
    decreases |text| - pos
  {
    if pos > |text| then None
    else if pos == |text| || text[pos] == c.delim then Some(pos)
    else
      var q := if text[pos] == c.quote then QuoteEnd(text, pos + 1, c.quote) else pos;
      if q == |text| then None
      else PairEnd(text, if text[q] == c.escape then q + 2 else q + 1, c)
  }

  /** How many leading spaces there are. */
  function Spaces(pair: string): (n: nat)
    ensures n <= |pair| && (n < |pair| ==> pair[n] != ' ')
  {
    if pair != "" && pair[0] == ' ' then 1 + Spaces(pair[1..]) else 0
  }

  /** The end of the key: the next separator that is not escaped, or the end. */
  function KeyEnd(pair: string, pos: nat, c: Config): (e: Option<nat>)
    ensures e.Some? ==> pos <= e.value <= |pair| && (e.value < |pair| ==> pair[e.value] == c.separator)
    decreases |pair| - pos
  {
    if pos > |pair| then None
    else if pos == |pair| || pair[pos] == c.separator then Some(pos)
    else KeyEnd(pair, if pair[pos] == c.escape then pos + 2 else pos + 1, c)
  }

  /** The end of the value: an unescaped stop character or the end. */
  function ValueEnd(v: string, pos: nat, stop: char, c: Config): (e: nat)
    ensures e >= pos
    decreases |v| - pos
  {
    if pos >= |v| || v[pos] == stop then pos
    else ValueEnd(v, if v[pos] == c.escape then pos + 2 else pos + 1, stop, c)
  }

  /** The value handed over for the text behind the separator, if it is valid: a
      closing quote must be the last character. */
  function ValueOf(v: string, c: Config): Option<string> {
    if c.quote != NUL && v != "" && v[0] == c.quote then
      if ValueEnd(v, 1, c.quote, c) == |v| - 1 then Some(v[1..|v| - 1])
      else if |v| == 1 then Some("") else None
    else if ValueEnd(v, 0, NUL, c) == |v| then Some(v) else None
  }

  function Prepend(pair: (string, string), p: Parsed): Parsed {
    Parsed([pair] + p.pairs, p.verdict)
  }

  /** What parsing a text hands to the handler; a handler answer of -2 drops the event. */
  function Parse(text: string, c: Config, handler: Handler): Parsed
    decreases |text|
  {
    var t := Skip(text, c.delim);
    if t == |text| then Parsed([], Done)
    else
      var e := PairEnd(text, t, c);
      if e.None? then Parsed([], Overrun)
      else ParsePair(text[t..e.value], text[if e.value < |text| then e.value + 1 else e.value..], c, handler)
  }

  /** One pair and what follows it. */
  function ParsePair(pair: string, rest: string, c: Config, handler: Handler): Parsed
    requires pair != ""
    decreases |pair| + |rest|, 1
  {
    var sp := Spaces(pair);
    if sp == |pair| || pair[sp] == c.separator then Parse(rest, c, handler)
    else
      var k := KeyEnd(pair, sp, c);
      if k.None? then Parsed([], Overrun)
      else
        var key := pair[..k.value];
        var v := ValueOf(pair[if k.value < |pair| then k.value + 1 else k.value..], c);
        if v.None? then Parse(rest, c, handler)
        else if handler(key, v.value) == -2 then Parsed([(key, v.value)], Dropped)
        else Prepend((key, v.value), Parse(rest, c, handler))
  }

  // Printing, the inverse.

  /** What a log line is made of: a key with its value, a bare word, a value without a key, or
      a key whose quoted value has something behind the closing quote. */
  datatype Field =
    | Pair(lead: string, key: string, value: string, quoted: bool)
    | Word(lead: string, word: string)
    | Nameless(lead: string, value: string, quoted: bool)
    | Botched(lead: string, key: string, value: string, junk: string)

  function PrintValue(value: string, quoted: bool, c: Config): string {
    if quoted then [c.quote] + value + [c.quote] else value
  }

  function PrintField(f: Field, c: Config): string {
    match f
    case Pair(_, key, value, quoted) => key + ([c.separator] + PrintValue(value, quoted, c))
    case Word(_, word) => word
    case Nameless(_, value, quoted) => [c.separator] + PrintValue(value, quoted, c)
    case Botched(_, key, value, junk) => key + ([c.separator] + (PrintValue(value, true, c) + junk))
  }

  /** Fields separated by a delimiter, with more spaces and delimiters before each and at the end. */
  function Print(fs: seq<Field>, trail: string, c: Config): string {
    if fs == [] then trail
    else fs[0].lead + (PrintField(fs[0], c) + if |fs| == 1 && trail == "" then "" else [c.delim] + Print(fs[1..], trail, c))
  }

  /** Distinct special characters, separator and quote not a space. */
  predicate GoodConfig(c: Config) {
    && c.delim != NUL && c.separator != NUL
    && c.delim != c.separator && c.separator != ' '
    && c.quote != c.delim && c.quote != c.separator && c.quote != ' '
    && c.escape != c.delim && c.escape != c.separator && (c.escape != c.quote || c.escape == NUL)
  }

  /** None of the characters occurs, except behind an escape, and every escape has a character behind it. */
  predicate Escaped(s: string, stops: set<char>, c: Config) {
    s == "" || (s[0] != NUL && if s[0] == c.escape then |s| >= 2 && s[1] != NUL && Escaped(s[2..], stops, c)
                               else s[0] !in stops && Escaped(s[1..], stops, c))
  }

  predicate Padding(s: string, c: Config) {
    forall i :: 0 <= i < |s| ==> s[i] == ' ' || s[i] == c.delim
  }

  /** A key has its special characters escaped and does not start with a space. */
  predicate GoodKey(key: string, c: Config) {
    key != "" && key[0] != ' ' && Escaped(key, {c.delim, c.separator, c.quote}, c)
  }

  /** A quoted value has no quote, escaped or not; a plain one escapes delimiters and quotes. */
  predicate GoodValue(value: string, quoted: bool, c: Config) {
    if quoted then c.quote != NUL && c.quote !in value && Escaped(value, {}, c)
    else Escaped(value, {c.delim, c.quote}, c)
  }

  predicate GoodField(f: Field, c: Config) {
    Padding(f.lead, c) &&
    match f
    case Pair(_, key, value, quoted) => GoodKey(key, c) && GoodValue(value, quoted, c)
    case Word(_, word) => GoodKey(word, c)
    case Nameless(_, value, quoted) => GoodValue(value, quoted, c)
    case Botched(_, key, value, junk) =>
      GoodKey(key, c) && GoodValue(value, true, c) && junk != "" && Escaped(junk, {c.delim, c.quote}, c)
  }

  /** What a handler should get: a word comes with an empty value, a value without a key and a
      botched pair not at all. */
  function Expected(fs: seq<Field>, handler: Handler): Parsed {
    if fs == [] then Parsed([], Done)
    else
      match fs[0]
      case Pair(_, key, value, _) => Handing(key, value, Expected(fs[1..], handler), handler)
      case Word(_, word) => Handing(word, "", Expected(fs[1..], handler), handler)
      case Nameless(_, _, _) => Expected(fs[1..], handler)
      case Botched(_, _, _, _) => Expected(fs[1..], handler)
  }

  /** One pair is handed over, and what follows unless the event is dropped. */
  function Handing(key: string, value: string, rest: Parsed, handler: Handler): Parsed {
    if handler(key, value) == -2 then Parsed([(key, value)], Dropped) else Prepend((key, value), rest)
  }

  // Scanning over a stretch of text.

  ghost predicate At(text: string, pos: nat, s: string) {
    pos + |s| <= |text| && text[pos..pos + |s|] == s
  }

  lemma Further(text: string, pos: nat, s: string, k: nat)
    requires At(text, pos, s) && k <= |s|
    ensures At(text, pos + k, s[k..]) && forall i :: 0 <= i < |s| ==> text[pos + i] == s[i]
  {
    forall i | 0 <= i < |s| ensures text[pos + i] == s[i] {
      assert text[pos..pos + |s|][i] == text[pos + i];
    }
  }

  lemma {:induction false} PairEndOver(text: string, pos: nat, s: string, stops: set<char>, c: Config)
    requires GoodConfig(c) && At(text, pos, s) && Escaped(s, stops, c) && c.delim in stops && c.quote in stops
    ensures PairEnd(text, pos, c) == PairEnd(text, pos + |s|, c)
    decreases |s|
  {
    if s != "" {
      var k := if s[0] == c.escape then 2 else 1;
      Further(text, pos, s, k);
      PairEndOver(text, pos + k, s[k..], stops, c);
    }
  }

  lemma {:induction false} KeyEndOver(text: string, pos: nat, s: string, stops: set<char>, c: Config)
    requires GoodConfig(c) && At(text, pos, s) && Escaped(s, stops, c) && c.separator in stops
    ensures KeyEnd(text, pos, c) == KeyEnd(text, pos + |s|, c)
    decreases |s|
  {
    if s != "" {
      var k := if s[0] == c.escape then 2 else 1;
      Further(text, pos, s, k);
      KeyEndOver(text, pos + k, s[k..], stops, c);
    }
  }

  lemma {:induction false} ValueEndOver(text: string, pos: nat, s: string, stops: set<char>, stop: char, c: Config)
    requires GoodConfig(c) && At(text, pos, s) && Escaped(s, stops, c) && (stop == NUL || (stop !in s && stop != c.escape))
    ensures ValueEnd(text, pos, stop, c) == ValueEnd(text, pos + |s|, stop, c)
    decreases |s|
  {
    if s != "" {
      var k := if s[0] == c.escape then 2 else 1;
      Further(text, pos, s, k);
      assert forall x :: x in s[k..] ==> x in s;
      ValueEndOver(text, pos + k, s[k..], stops, stop, c);
    }
  }

  lemma {:induction false} FindQuote(text: string, pos: nat, q: nat, quote: char)
    requires pos <= q < |text| && text[q] == quote && forall i :: pos <= i < q ==> text[i] != quote
    ensures QuoteEnd(text, pos, quote) == q
    decreases q - pos
  {
    if pos < q {
      FindQuote(text, pos + 1, q, quote);
    }
  }

  lemma QuotedPairEnd(text: string, pos: nat, q: nat, c: Config)
    requires pos < q < |text| && text[pos] == text[q] == c.quote
    requires c.quote != c.delim && c.quote != c.escape
    requires forall i :: pos < i < q ==> text[i] != c.quote
    ensures PairEnd(text, pos, c) == PairEnd(text, q + 1, c)
  {
    FindQuote(text, pos + 1, q, c.quote);
  }

  /** The scan for the end of a pair passes over a printed value, also over delimiters inside quotes. */
  lemma PairEndOverValue(text: string, pos: nat, value: string, quoted: bool, c: Config)
    requires GoodConfig(c) && GoodValue(value, quoted, c) && At(text, pos, PrintValue(value, quoted, c))
    ensures PairEnd(text, pos, c) == PairEnd(text, pos + |PrintValue(value, quoted, c)|, c)
  {
    hide PairEnd;
    if quoted {
      var v := PrintValue(value, true, c);
      Further(text, pos, v, 0);
      forall i | pos < i < pos + |v| - 1 ensures text[i] != c.quote {
        assert text[pos + (i - pos)] == v[i - pos] == value[i - pos - 1];
      }
      assert text[pos + 0] == v[0] && text[pos + (|v| - 1)] == v[|v| - 1];
      QuotedPairEnd(text, pos, pos + |v| - 1, c);
    } else {
      PairEndOver(text, pos, value, {c.delim, c.quote}, c);
    }
  }

  lemma PairEndOverSeparator(text: string, pos: nat, c: Config)
    requires GoodConfig(c) && pos < |text| && text[pos] == c.separator
    ensures PairEnd(text, pos, c) == PairEnd(text, pos + 1, c)
  {
  }

  lemma PairEndHere(text: string, n: nat, c: Config)
    requires n == |text| || (n < |text| && text[n] == c.delim)
    ensures PairEnd(text, n, c) == Some(n)
  {
  }

  lemma AtParts(text: string, pos: nat, s: string, t: string)
    requires At(text, pos, s + t)
    ensures At(text, pos, s) && At(text, pos + |s|, t)
  {
    assert text[pos..pos + |s|] == (s + t)[..|s|];
    assert text[pos + |s|..pos + |s| + |t|] == (s + t)[|s|..];
  }

  lemma PairEndOverRest(text: string, pos: nat, value: string, quoted: bool, c: Config)
    requires GoodConfig(c) && GoodValue(value, quoted, c) && At(text, pos, [c.separator] + PrintValue(value, quoted, c))
    ensures PairEnd(text, pos, c) == PairEnd(text, pos + 1 + |PrintValue(value, quoted, c)|, c)
  {
    hide PairEnd, GoodValue, PrintValue;
    AtParts(text, pos, [c.separator], PrintValue(value, quoted, c));
    Further(text, pos, [c.separator], 0);
    PairEndOverSeparator(text, pos, c);
    PairEndOverValue(text, pos + 1, value, quoted, c);
  }

  lemma PairEndOverBotched(text: string, pos: nat, key: string, value: string, junk: string, c: Config)
    requires GoodConfig(c) && GoodKey(key, c) && GoodValue(value, true, c) && Escaped(junk, {c.delim, c.quote}, c)
    requires At(text, pos, key + ([c.separator] + (PrintValue(value, true, c) + junk)))
    ensures PairEnd(text, pos, c) == PairEnd(text, pos + |key| + 1 + |PrintValue(value, true, c)| + |junk|, c)
  {
    hide PairEnd, Escaped, At, GoodConfig, PrintValue, GoodValue;
    var v := PrintValue(value, true, c);
    AtParts(text, pos, key, [c.separator] + (v + junk));
    PairEndOver(text, pos, key, {c.delim, c.separator, c.quote}, c);
    assert [c.separator] + (v + junk) == [c.separator] + v + junk;
    AtParts(text, pos + |key|, [c.separator] + v, junk);
    PairEndOverRest(text, pos + |key|, value, true, c);
    PairEndOver(text, pos + |key| + 1 + |v|, junk, {c.delim, c.quote}, c);
  }

  /** The end of a printed field is found, wherever it starts and whatever follows its delimiter. */
  lemma PrintedPairEnd(f: Field, text: string, pos: nat, c: Config)
    requires GoodConfig(c) && GoodField(f, c) && At(text, pos, PrintField(f, c))
    requires var n := pos + |PrintField(f, c)|; n == |text| || text[n] == c.delim
    ensures PairEnd(text, pos, c) == Some(pos + |PrintField(f, c)|)
  {
    hide PairEnd, Escaped, GoodConfig, PrintValue, GoodValue;
    PairEndHere(text, pos + |PrintField(f, c)|, c);
    match f
    case Pair(_, key, value, quoted) =>
      AtParts(text, pos, key, [c.separator] + PrintValue(value, quoted, c));
      PairEndOver(text, pos, key, {c.delim, c.separator, c.quote}, c);
      PairEndOverRest(text, pos + |key|, value, quoted, c);
    case Word(_, word) =>
      PairEndOver(text, pos, word, {c.delim, c.separator, c.quote}, c);
    case Nameless(_, value, quoted) =>
      PairEndOverRest(text, pos, value, quoted, c);
    case Botched(_, key, value, junk) =>
      PairEndOverBotched(text, pos, key, value, junk, c);
  }

  lemma ValueEndHere(v: string, n: nat, stop: char, c: Config)
    requires n == |v| || (n < |v| && v[n] == stop)
    ensures ValueEnd(v, n, stop, c) == n
  {
  }

  lemma PlainStart(value: string, c: Config)
    requires GoodConfig(c) && Escaped(value, {c.delim, c.quote}, c) && value != ""
    ensures value[0] != c.quote || c.quote == NUL
  {
  }

  /** The text printed behind the separator reads back as the value. */
  lemma PrintedValue(value: string, quoted: bool, c: Config)
    requires GoodConfig(c) && GoodValue(value, quoted, c)
    ensures ValueOf(PrintValue(value, quoted, c), c) == Some(value)
  {
    hide ValueEnd, Escaped;
    var v := PrintValue(value, quoted, c);
    if quoted {
      assert v[1..1 + |value|] == value;
      ValueEndOver(v, 1, value, {}, c.quote, c);
      ValueEndHere(v, 1 + |value|, c.quote, c);
    } else {
      assert v[0..|value|] == value;
      ValueEndOver(v, 0, value, {c.delim, c.quote}, NUL, c);
      ValueEndHere(v, |value|, NUL, c);
      if value != "" {
        PlainStart(value, c);
      }
    }
  }

  lemma KeyEndHere(pair: string, n: nat, c: Config)
    requires n == |pair| || (n < |pair| && pair[n] == c.separator)
    ensures KeyEnd(pair, n, c) == Some(n)
  {
  }

  lemma PrintedPair(key: string, value: string, quoted: bool, rest: string, c: Config, handler: Handler)
    requires GoodConfig(c) && GoodKey(key, c) && GoodValue(value, quoted, c)
    ensures ParsePair(key + ([c.separator] + PrintValue(value, quoted, c)), rest, c, handler)
         == Handing(key, value, Parse(rest, c, handler), handler)
  {
    hide KeyEnd, Escaped, Parse, ValueOf, GoodValue, PrintValue;
    var v := PrintValue(value, quoted, c);
    var pair := key + ([c.separator] + v);
    KeyStart(key, c);
    assert pair[0] == key[0] && Spaces(pair) == 0;
    assert pair[0..|key|] == key;
    KeyEndOver(pair, 0, key, {c.delim, c.separator, c.quote}, c);
    assert pair[|key|] == c.separator;
    KeyEndHere(pair, |key|, c);
    assert pair[|key| + 1..] == v;
    PrintedValue(value, quoted, c);
  }

  /** A word without a separator comes with an empty value. */
  lemma PrintedWord(word: string, rest: string, c: Config, handler: Handler)
    requires GoodConfig(c) && GoodKey(word, c)
    ensures ParsePair(word, rest, c, handler) == Handing(word, "", Parse(rest, c, handler), handler)
  {
    hide KeyEnd, Escaped, Parse, ValueOf;
    KeyStart(word, c);
    assert Spaces(word) == 0 && word[0..|word|] == word;
    KeyEndOver(word, 0, word, {c.delim, c.separator, c.quote}, c);
    KeyEndHere(word, |word|, c);
    assert word[|word|..] == "" && word[..|word|] == word;
    NoValue(c);
  }

  /** A value without a key is skipped. */
  lemma PrintedNameless(v: string, rest: string, c: Config, handler: Handler)
    requires GoodConfig(c)
    ensures ParsePair([c.separator] + v, rest, c, handler) == Parse(rest, c, handler)
  {
    hide KeyEnd, Parse, ValueOf;
    var pair := [c.separator] + v;
    assert pair[0] == c.separator && Spaces(pair) == 0;
  }

  /** A closing quote that is not the last character makes the value invalid. */
  lemma BotchedValue(value: string, junk: string, c: Config)
    requires GoodConfig(c) && GoodValue(value, true, c) && junk != ""
    ensures ValueOf(PrintValue(value, true, c) + junk, c).None?
  {
    hide ValueEnd, Escaped;
    var v := PrintValue(value, true, c) + junk;
    assert v[1..1 + |value|] == value && v[1 + |value|] == c.quote;
    ValueEndOver(v, 1, value, {}, c.quote, c);
    ValueEndHere(v, 1 + |value|, c.quote, c);
  }

  lemma PrintedBotched(key: string, value: string, junk: string, rest: string, c: Config, handler: Handler)
    requires GoodConfig(c) && GoodKey(key, c) && GoodValue(value, true, c) && junk != ""
    ensures ParsePair(key + ([c.separator] + (PrintValue(value, true, c) + junk)), rest, c, handler) == Parse(rest, c, handler)
  {
    hide KeyEnd, Escaped, Parse, ValueOf, GoodValue, PrintValue;
    var v := PrintValue(value, true, c) + junk;
    var pair := key + ([c.separator] + v);
    KeyStart(key, c);
    assert pair[0] == key[0] && Spaces(pair) == 0;
    assert pair[0..|key|] == key;
    KeyEndOver(pair, 0, key, {c.delim, c.separator, c.quote}, c);
    assert pair[|key|] == c.separator;
    KeyEndHere(pair, |key|, c);
    assert pair[|key| + 1..] == v;
    BotchedValue(value, junk, c);
  }

  /** A printed field yields what it stands for. */
  lemma PrintedField(f: Field, rest: string, c: Config, handler: Handler)
    requires GoodConfig(c) && GoodField(f, c)
    ensures PrintField(f, c) != ""
    ensures ParsePair(PrintField(f, c), rest, c, handler) ==
              match f
              case Pair(_, key, value, _) => Handing(key, value, Parse(rest, c, handler), handler)
              case Word(_, word) => Handing(word, "", Parse(rest, c, handler), handler)
              case Nameless(_, _, _) => Parse(rest, c, handler)
              case Botched(_, _, _, _) => Parse(rest, c, handler)
  {
    hide ParsePair, Escaped, Parse, PrintValue, GoodConfig, GoodValue, Handing;
    match f
    case Pair(_, key, value, quoted) => PrintedPair(key, value, quoted, rest, c, handler);
    case Word(_, word) => PrintedWord(word, rest, c, handler);
    case Nameless(_, value, quoted) => PrintedNameless(PrintValue(value, quoted, c), rest, c, handler);
    case Botched(_, key, value, junk) => PrintedBotched(key, value, junk, rest, c, handler);
  }

  lemma NoValue(c: Config)
    ensures ValueOf("", c) == Some("")
  {
  }

  lemma KeyStart(key: string, c: Config)
    requires GoodConfig(c) && GoodKey(key, c)
    ensures key[0] != ' ' && key[0] != c.delim && key[0] != c.separator
  {
  }

  lemma FieldStart(f: Field, c: Config)
    requires GoodConfig(c) && GoodField(f, c)
    ensures PrintField(f, c) != "" && PrintField(f, c)[0] != ' ' && PrintField(f, c)[0] != c.delim
  {
    hide Escaped;
    match f
    case Pair(_, key, _, _) => KeyStart(key, c);
    case Word(_, word) => KeyStart(word, c);
    case Nameless(_, _, _) =>
    case Botched(_, key, _, _) => KeyStart(key, c);
  }

  lemma {:induction false} SkipLead(lead: string, s: string, c: Config)
    requires Padding(lead, c) && (s == "" || (s[0] != ' ' && s[0] != c.delim))
    ensures Skip(lead + s, c.delim) == |lead|
  {
    if lead == "" {
      assert lead + s == s;
    } else {
      assert (lead + s)[1..] == lead[1..] + s;
      SkipLead(lead[1..], s, c);
    }
  }

  /** Parsing a printed field followed by a tail. */
  lemma ParsePrinted(f: Field, tail: string, c: Config, handler: Handler)
    requires GoodConfig(c) && GoodField(f, c)
    requires tail == "" || tail[0] == c.delim
    ensures PrintField(f, c) != ""
    ensures Parse(f.lead + (PrintField(f, c) + tail), c, handler) ==
              ParsePair(PrintField(f, c), if tail == "" then "" else tail[1..], c, handler)
  {
    hide PairEnd, Skip, ParsePair, Parse, PrintField, GoodKey, GoodValue, Padding;
    var one, t := PrintField(f, c), |f.lead|;
    var text := f.lead + (one + tail);
    FieldStart(f, c);
    SkipLead(f.lead, one + tail, c);
    assert text[t..t + |one|] == one;
    PrintedPairEnd(f, text, t, c);
    assert text[if t + |one| < |text| then t + |one| + 1 else t + |one|..] == if tail == "" then "" else tail[1..];
    ParseUnfolds(text, c, handler);
  }

  /** Printing any list of good fields and parsing it hands over exactly their pairs, in order. */
  lemma {:induction false} RoundTrip(fs: seq<Field>, trail: string, c: Config, handler: Handler)
    requires GoodConfig(c) && Padding(trail, c) && forall i :: 0 <= i < |fs| ==> GoodField(fs[i], c)
    ensures Parse(Print(fs, trail, c), c, handler) == Expected(fs, handler)
    decreases |fs|
  {
    hide Parse, ParsePair, PrintField, Skip, GoodField, Padding;
    if fs == [] {
      SkipLead(trail, "", c);
      assert trail + "" == trail;
      ParseUnfolds(trail, c, handler);
    } else {
      var tail := if |fs| == 1 && trail == "" then "" else [c.delim] + Print(fs[1..], trail, c);
      var rest := if tail == "" then "" else tail[1..];
      assert rest == Print(fs[1..], trail, c);
      RoundTrip(fs[1..], trail, c, handler);
      ParsePrinted(fs[0], tail, c, handler);
      PrintedField(fs[0], rest, c, handler);
    }
  }

  // The in-place tokenizer.

  /** The buffer holds the C string `text` at position `at`. */
  ghost predicate CString(buf: array<char>, at: nat, text: string)
    reads buf
  {
    && at + |text| < buf.Length
    && (forall i :: 0 <= i < |text| ==> buf[at + i] == text[i] && text[i] != NUL)
    && buf[at + |text|] == NUL
  }

  lemma {:induction false} SkipStep(text: string, i: nat, delim: char)
    requires i <= Skip(text, delim)
    ensures Skip(text[i..], delim) == Skip(text, delim) - i
  {
    if i == 0 {
      assert text[0..] == text;
    } else {
      SkipStep(text[1..], i - 1, delim);
      assert text[1..][i - 1..] == text[i..];
    }
  }

  lemma {:induction false} SpacesStep(text: string, i: nat)
    requires i <= Spaces(text)
    ensures Spaces(text[i..]) == Spaces(text) - i
  {
    if i == 0 {
      assert text[0..] == text;
    } else {
      SpacesStep(text[1..], i - 1);
      assert text[1..][i - 1..] == text[i..];
    }
  }

  /** The trimming loop of get_kv_pair. */
  method TrimPair(buf: array<char>, at: nat, c: Config, ghost text: string) returns (i: nat)
    requires CString(buf, at, text)
    ensures i == Skip(text, c.delim)
  {
    i := 0;
    while (buf[at + i] == ' ' || buf[at + i] == c.delim) && buf[at + i] != NUL
      invariant i <= Skip(text, c.delim)
      decreases |text| - i
    {
      SkipStep(text, i, c.delim);
      assert text[i..][0] == text[i];
      i := i + 1;
    }
    SkipStep(text, i, c.delim);
    assert i < |text| ==> text[i..][0] == text[i];
  }

  /** The scanning loop of get_kv_pair: quoted stretches are skipped as a whole. */
  method ScanPair(buf: array<char>, at: nat, n: nat, start: nat, c: Config, ghost text: string) returns (pos: nat)
    requires CString(buf, at, text) && n == |text| && start <= n
    ensures PairEnd(text, start, c) == if pos <= n then Some(pos) else None
  {
    pos := start;
    while pos <= n && buf[at + pos] != c.delim && buf[at + pos] != NUL
      invariant PairEnd(text, start, c) == PairEnd(text, pos, c)
      decreases n + 2 - pos
    {
      if buf[at + pos] == c.quote {
        pos := pos + 1;
        ghost var q := pos;
        while buf[at + pos] != NUL && buf[at + pos] != c.quote
          invariant q <= pos <= n && QuoteEnd(text, q, c.quote) == QuoteEnd(text, pos, c.quote)
          decreases n - pos
        {
          pos := pos + 1;
        }
      }
      if buf[at + pos] == c.escape {
        pos := pos + 1;
      }
      pos := pos + 1;
    }
  }

  /** Where the text behind position e starts, once a delimiter at e is skipped. */
  function Behind(e: nat, n: nat): nat {
    if e < n then e + 1 else e
  }

  /** Cutting a C string at e leaves two C strings. */
  method Cut(buf: array<char>, at: nat, n: nat, e: nat, mark: char, ghost text: string) returns (pos: nat)
    requires CString(buf, at, text) && n == |text| && e <= n && mark != NUL && (e < n ==> text[e] == mark)
    modifies buf
    ensures pos == Behind(e, n)
    ensures CString(buf, at, text[..e]) && CString(buf, at + pos, text[pos..])
    ensures forall i :: 0 <= i < buf.Length && i != at + e ==> buf[i] == old(buf[i])
  {
    pos := e;
    if buf[at + pos] == mark {
      buf[at + pos] := NUL;
      pos := pos + 1;
    }
  }

  lemma CStringTail(buf: array<char>, at: nat, text: string, t: nat)
    requires CString(buf, at, text) && t <= |text|
    ensures CString(buf, at + t, text[t..])
  {
  }

  /** get_kv_pair: trims, finds the end of the pair and terminates it there. */
  method GetKvPair(buf: array<char>, at: nat, n: nat, c: Config, ghost text: string)
    returns (over: bool, trim: nat, pos: nat)
    requires CString(buf, at, text) && n == |text| && c.delim != NUL
    modifies buf
    ensures trim == Skip(text, c.delim)
    ensures trim == n ==> !over && pos == 0
    ensures trim < n ==> over == PairEnd(text, trim, c).None?
    ensures trim < n && !over ==>
              var e := PairEnd(text, trim, c).value;
              trim < e && pos == Behind(e, n) && CString(buf, at + trim, text[trim..e]) && CString(buf, at + pos, text[pos..])
  {
    hide PairEnd, Skip;
    over, pos := false, 0;
    trim := TrimPair(buf, at, c, text);
    SkipBounds(text, c.delim);
    if buf[at + trim] == NUL {
      return;
    }
    pos := ScanPair(buf, at, n, trim, c, text);
    if pos > n {
      return true, trim, pos;
    }
    CStringTail(buf, at, text, trim);
    ghost var e := pos;
    var p := Cut(buf, at + trim, n - trim, pos - trim, c.delim, text[trim..]);
    assert text[trim..][..e - trim] == text[trim..e];
    assert text[trim..][p..] == text[trim + p..];
    pos := trim + p;
  }

  lemma SkipBounds(text: string, delim: char)
    ensures Skip(text, delim) <= |text|
  {
  }

  /** get_key: skips spaces, finds the separator and terminates the key there. The
      result is 0 when there is no key. */
  method GetKey(buf: array<char>, at: nat, n: nat, c: Config, ghost pair: string)
    returns (over: bool, l: nat)
    requires CString(buf, at, pair) && n == |pair| && c.separator != NUL
    modifies buf
    ensures var sp := Spaces(pair);
            if sp == n || pair[sp] == c.separator then !over && l == 0
            else
              var k := KeyEnd(pair, sp, c);
              over == k.None? && (k.Some? ==> l == Behind(k.value, n) > 0 && CString(buf, at, pair[..k.value]) && CString(buf, at + l, pair[l..]))
    ensures l == 0 ==> buf[..] == old(buf[..])
    ensures forall i :: 0 <= i < buf.Length && !(at <= i < at + n) ==> buf[i] == old(buf[i])
  {
    hide KeyEnd;
    over, l := false, 0;
    var i := TrimSpaces(buf, at, pair);
    if buf[at + i] == NUL || buf[at + i] == c.separator {
      return;
    }
    var pos := ScanKey(buf, at, n, i, c, pair);
    if pos > n {
      return true, pos;
    }
    l := Cut(buf, at, n, pos, c.separator, pair);
  }

  method TrimSpaces(buf: array<char>, at: nat, ghost pair: string) returns (i: nat)
    requires CString(buf, at, pair)
    ensures i == Spaces(pair)
  {
    i := 0;
    while buf[at + i] != NUL && buf[at + i] == ' '
      invariant i <= Spaces(pair)
      decreases |pair| - i
    {
      SpacesStep(pair, i);
      assert pair[i..][0] == pair[i];
      i := i + 1;
    }
    SpacesStep(pair, i);
    assert i < |pair| ==> pair[i..][0] == pair[i];
  }

  method ScanKey(buf: array<char>, at: nat, n: nat, start: nat, c: Config, ghost pair: string) returns (pos: nat)
    requires CString(buf, at, pair) && n == |pair| && start < n && pair[start] != c.separator
    ensures KeyEnd(pair, start, c) == if pos <= n then Some(pos) else None
    ensures pos > start
  {
    pos := start;
    while pos <= n && buf[at + pos] != c.separator && buf[at + pos] != NUL
      invariant pos >= start && KeyEnd(pair, start, c) == KeyEnd(pair, pos, c)
      decreases n + 2 - pos
    {
      if buf[at + pos] == c.escape {
        pos := pos + 1;
      }
      pos := pos + 1;
    }
  }

  /** get_value: a quoted value must end with its closing quote, which is overwritten. */
  method GetValue(buf: array<char>, at: nat, n: nat, c: Config, ghost v: string) returns (trim: nat, l: nat)
    requires CString(buf, at, v) && n == |v|
    modifies buf
    ensures trim <= n
    ensures l == 0 && buf[at + trim] != NUL <==> ValueOf(v, c).None?
    ensures ValueOf(v, c).Some? ==> CString(buf, at + trim, ValueOf(v, c).value)
    ensures forall i :: 0 <= i < buf.Length && !(at <= i < at + n) ==> buf[i] == old(buf[i])
  {
    var bound, i, len := c.quote, 0, n;
    trim := 0;
    if bound != NUL && buf[at] != bound {
      bound := NUL;
    } else if bound != NUL && buf[at] == bound {
      i := 1;
      len := len - 1;
      trim := 1;
    }
    i := ScanValue(buf, at, n, i, bound, c, v);
    if i != len {
      return trim, 0;
    }
    buf[at + len] := NUL;
    l := i;
  }

  method ScanValue(buf: array<char>, at: nat, n: nat, start: nat, bound: char, c: Config, ghost v: string) returns (i: nat)
    requires CString(buf, at, v) && n == |v| && start <= n
    ensures i == ValueEnd(v, start, bound, c)
  {
    i := start;
    while i < n && buf[at + i] != NUL && buf[at + i] != bound
      invariant i >= start && ValueEnd(v, start, bound, c) == ValueEnd(v, i, bound, c)
      decreases n + 2 - i
    {
      if buf[at + i] == c.escape {
        i := i + 1;
      }
      i := i + 1;
    }
  }

  lemma NotYetNul(buf: array<char>, at: nat, text: string, i: nat)
    requires CString(buf, at, text) && i < |text|
    ensures buf[at + i] != NUL
  {
    assert text[i] != NUL;
  }

  /** strdup: the C string as a value. */
  method ReadString(buf: array<char>, at: nat, ghost text: string) returns (r: string)
    requires CString(buf, at, text)
    ensures r == text
  {
    r := "";
    while buf[at + |r|] != NUL
      invariant |r| <= |text| && r == text[..|r|]
      decreases |text| - |r|
    {
      r := r + [buf[at + |r|]];
    }
    if |r| < |text| {
      NotYetNul(buf, at, text, |r|);
    }
    assert text[..|text|] == text;
  }

  /** The verdict on one pair, read from the buffer. */
  datatype Step = Invalid | Bad | Handed(key: string, value: string)

  /** What one pair text yields. */
  function StepOf(pair: string, c: Config): Step {
    var sp := Spaces(pair);
    if sp == |pair| || pair[sp] == c.separator then Invalid
    else
      var k := KeyEnd(pair, sp, c);
      if k.None? then Bad
      else
        var v := ValueOf(pair[Behind(k.value, |pair|)..], c);
        if v.None? then Invalid else Handed(pair[..k.value], v.value)
  }

  /** Parsing a pair and what follows, in terms of what the pair yields. */
  lemma ParsePairStep(pair: string, rest: string, c: Config, handler: Handler)
    requires pair != ""
    ensures ParsePair(pair, rest, c, handler) ==
              match StepOf(pair, c)
              case Invalid => Parse(rest, c, handler)
              case Bad => Parsed([], Overrun)
              case Handed(key, value) =>
                if handler(key, value) == -2 then Parsed([(key, value)], Dropped)
                else Prepend((key, value), Parse(rest, c, handler))
  {
    hide Parse;
  }

  /** The body of parse_keyvalue's loop, up to the handler: splits one terminated
      pair in place. The text behind the pair is not touched; l and k are how far the key
      and the trimmed quote reach. */
  method TakePair(buf: array<char>, at: nat, n: nat, c: Config, ghost pair: string)
    returns (step: Step, l: nat, k: nat)
    requires CString(buf, at, pair) && n == |pair| && c.separator != NUL
    modifies buf
    ensures step == StepOf(pair, c)
    ensures forall i :: 0 <= i < buf.Length && !(at <= i < at + n) ==> buf[i] == old(buf[i])
  {
    hide KeyEnd, ValueOf, Spaces;
    var over;
    over, l := GetKey(buf, at, n, c, pair);
    k := 0;
    if over {
      return Bad, l, k;
    }
    if l == 0 {
      return Invalid, l, k;
    }
    ghost var e := KeyEnd(pair, Spaces(pair), c).value;
    var key := ReadString(buf, at, pair[..e]);
    var vl;
    k, vl := GetValue(buf, at + l, n - l, c, pair[l..]);
    if vl == 0 && buf[at + l + k] != NUL {
      return Invalid, l, k;
    }
    var value := ReadString(buf, at + l + k, ValueOf(pair[l..], c).value);
    step := Handed(key, value);
  }

  /** Takes the pair at `response + trim`; the text behind it stays a C string. */
  method TakeNext(buf: array<char>, at: nat, trim: nat, pos: nat, c: Config, ghost pair: string, ghost tail: string)
    returns (step: Step, l: nat, k: nat)
    requires CString(buf, at + trim, pair) && CString(buf, at + pos, tail) && trim + |pair| <= pos && c.separator != NUL
    modifies buf
    ensures step == StepOf(pair, c) && CString(buf, at + pos, tail)
  {
    hide StepOf;
    ghost var was := buf[..];
    var len := Length(buf, at + trim, pair);
    step, l, k := TakePair(buf, at + trim, len, c, pair);
    CStringFramed(buf, at + pos, tail, was);
  }

  lemma CStringFramed(buf: array<char>, at: nat, text: string, was: seq<char>)
    requires |was| == buf.Length && at + |text| < |was|
    requires forall i :: at <= i < |was| ==> buf[i] == was[i]
    requires forall i :: 0 <= i < |text| ==> was[at + i] == text[i] && text[i] != NUL
    requires was[at + |text|] == NUL
    ensures CString(buf, at, text)
  {
  }

  /** parse_keyvalue: walks the buffer pair by pair. */
  method ParseKeyValue(buf: array<char>, n: nat, c: Config, handler: Handler, ghost text: string)
    returns (pairs: seq<(string, string)>, verdict: Verdict)
    requires CString(buf, 0, text) && n == |text| && c.delim != NUL && c.separator != NUL
    modifies buf
    ensures Parsed(pairs, verdict) == Parse(text, c, handler)
  {
    hide PairEnd, StepOf, ParsePair, Skip, Parse;
    var response, i := 0, 0;
    ghost var rest := text;
    pairs := [];
    while i < n
      invariant i == response <= n && |rest| == n - response && CString(buf, response, rest)
      invariant Parse(text, c, handler) == Parsed(pairs + Parse(rest, c, handler).pairs, Parse(rest, c, handler).verdict)
      decreases n - response
    {
      ParseUnfolds(rest, c, handler);
      var over, k, pos := GetKvPair(buf, response, n - response, c, rest);
      if over {
        return pairs, Overrun;
      }
      if pos == 0 {
        break;
      }
      ghost var e := PairEnd(rest, k, c).value;
      ghost var tail := rest[pos..];
      ParsePairStep(rest[k..e], tail, c, handler);
      var step, l, v := TakeNext(buf, response, k, pos, c, rest[k..e], tail);
      var j: int := pos;
      i := i + j;
      response := response + k;
      j := j - k;
      if l == 0 {
        response := response + j;
      } else {
        response := response + l;
        j := j - l;
        response := response + v;
      }
      match step {
        case Invalid =>
        case Bad =>
          return pairs, Overrun;
        case Handed(key, value) =>
          pairs := pairs + [(key, value)];
          if handler(key, value) == -2 {
            return pairs, Dropped;
          }
      }
      if l != 0 {
        response := response + (j - v);
      }
      rest := tail;
    }
    ParseUnfolds(rest, c, handler);
    verdict := Done;
  }

  method Length(buf: array<char>, at: nat, ghost text: string) returns (n: nat)
    requires CString(buf, at, text)
    ensures n == |text|
  {
    n := 0;
    while buf[at + n] != NUL
      invariant n <= |text|
      decreases |text| - n
    {
      n := n + 1;
    }
    if n < |text| {
      NotYetNul(buf, at, text, n);
    }
  }

  lemma ParseUnfolds(text: string, c: Config, handler: Handler)
    ensures var t := Skip(text, c.delim);
            Parse(text, c, handler) ==
              if t == |text| then Parsed([], Done)
              else if PairEnd(text, t, c).None? then Parsed([], Overrun)
              else
                var e := PairEnd(text, t, c).value;
                ParsePair(text[t..e], text[Behind(e, |text|)..], c, handler)
  {
    hide PairEnd, ParsePair;
  }

  /** Printing fields into a buffer and parsing it in place hands over their pairs. */
  method ParsePrintedBuffer(buf: array<char>, n: nat, c: Config, handler: Handler, ghost fs: seq<Field>, ghost trail: string)
    returns (pairs: seq<(string, string)>, verdict: Verdict)
    requires GoodConfig(c) && Padding(trail, c) && forall i :: 0 <= i < |fs| ==> GoodField(fs[i], c)
    requires CString(buf, 0, Print(fs, trail, c)) && n == |Print(fs, trail, c)|
    modifies buf
    ensures Parsed(pairs, verdict) == Expected(fs, handler)
  {
    RoundTrip(fs, trail, c, handler);
    pairs, verdict := ParseKeyValue(buf, n, c, handler, Print(fs, trail, c));
  }
}
