/** Parsing what the printer wrote gives the value back and leaves exactly the rest. */
module JsonRoundTrips {
  import opened JsonEncoding
  import opened JsonParsing
  import opened JsonScanner
  import opened JsonValues
  import opened Wrappers

  /** What a value becomes in a sorted dictionary that keeps the first entry of a key. */
  function Norm(v: JsonValue): JsonValue {
    match v
    case Arr(items) => Arr(NormItems(items))
    case Dict(entries) => Dict(NormEntries(entries, []))
    case _ => v
  }

  function NormItems(items: seq<JsonValue>): seq<JsonValue> {
    if items == [] then [] else [Norm(items[0])] + NormItems(items[1..])
  }

  function NormEntry(e: Entry): Entry { Entry(e.key, Norm(e.value)) }

  function NormEntries(entries: seq<Entry>, acc: seq<Entry>): seq<Entry> {
    if entries == [] then acc else NormEntries(entries[1..], Emplace(acc, NormEntry(entries[0])))
  }

  /** Dictionaries with ascending keys throughout, as a sorted map holds them. */
  ghost predicate Canonical(v: JsonValue) {
    match v
    case Arr(items) => forall x :: x in items ==> Canonical(x)
    case Dict(entries) => Ascending(entries) && forall e :: e in entries ==> Canonical(e.value)
    case _ => true
  }

  predicate Stops(rest: string) { rest == "" || rest[0] in {',', ']', '}'} }

  // ---------------------------------------------------------------- strings

  lemma ScanStep(s: string, st: State)
    requires s != "" && Inv(st) && Feed(st, s[0]).Next?
    ensures Inv(Feed(st, s[0]).st)
    ensures Scan(s, st) == Scan(s[1..], Feed(st, s[0]).st)
  {
    FeedKeepsInv(st, s[0]);
  }

  lemma HexDigitInverse(k: nat)
    requires k < 16
    ensures HexDigit(HEX_DIGITS[k]) == k
  {
  }

  lemma Cons(c: char, s: string)
    ensures ([c] + s)[0] == c && ([c] + s)[1..] == s
  {
  }

  lemma MiddleDigit(c: char, st: State)
    requires Inv(st) && 2 <= st.phase < 5
    ensures Feed(st, c) == Next(State(st.phase + 1, st.hex * 16 + HexDigit(c), st.lasthex, st.str))
    ensures Inv(Feed(st, c).st)
  {
  }

  lemma ScanDigit(k: nat, tail: string, st: State)
    requires k < 16 && Inv(st) && 2 <= st.phase < 5
    ensures Inv(State(st.phase + 1, st.hex * 16 + k, st.lasthex, st.str))
    ensures Scan([HEX_DIGITS[k]] + tail, st) == Scan(tail, State(st.phase + 1, st.hex * 16 + k, st.lasthex, st.str))
  {
    var c := HEX_DIGITS[k];
    HexDigitInverse(k);
    MiddleDigit(c, st);
    Cons(c, tail);
    ScanStep([c] + tail, st);
  }

  lemma ScanLastDigit(k: nat, tail: string, st: State)
    requires k < 16 && Inv(st) && st.phase == 5 && st.hex * 16 + k < 0x80
    ensures Scan([HEX_DIGITS[k]] + tail, st)
         == Scan(tail, State(0, st.hex * 16 + k, st.lasthex, st.str + [(st.hex * 16 + k) as char]))
  {
    Cons(HEX_DIGITS[k], tail);
    HexDigitInverse(k);
    FourthDigitIs(st, HEX_DIGITS[k]);
    ScanStep([HEX_DIGITS[k]] + tail, st);
  }

  /** Four hex digits that spell an ASCII character. */
  lemma ScanFourDigits(c: char, tail: string, st: State)
    requires st.phase == 2 && st.hex == 0 && st.lasthex == 0 && c as int < 0x80
    ensures Scan("0" + ("0" + ([HEX_DIGITS[c as int / 16]] + ([HEX_DIGITS[c as int % 16]] + tail))), st)
         == Scan(tail, State(0, c as int, 0, st.str + [c]))
  {
    var hi, lo := c as int / 16, c as int % 16;
    ScanDigit(0, "0" + ([HEX_DIGITS[hi]] + ([HEX_DIGITS[lo]] + tail)), st);
    ScanDigit(0, [HEX_DIGITS[hi]] + ([HEX_DIGITS[lo]] + tail), State(3, 0, 0, st.str));
    ScanDigit(hi, [HEX_DIGITS[lo]] + tail, State(4, 0, 0, st.str));
    ScanLastDigit(lo, tail, State(5, hi, 0, st.str));
  }

  /** The scanner's variables after the escape of `c`. */
  function After(st: State, c: char): State {
    if |Escape(c)| == 6 then State(0, c as int, 0, st.str + [c]) else st.(str := st.str + [c])
  }

  lemma ScanControl(c: char, tail: string, st: State)
    requires Inv(st) && st.phase == 0 && |Escape(c)| == 6
    ensures Scan(Escape(c) + tail, st) == Scan(tail, After(st, c))
  {
    var digits := "0" + ("0" + ([HEX_DIGITS[c as int / 16]] + ([HEX_DIGITS[c as int % 16]] + tail)));
    assert Escape(c) + tail == "\\" + ("u" + digits);
    Cons('\\', "u" + digits);
    ScanStep("\\" + ("u" + digits), st);
    Cons('u', digits);
    ScanStep("u" + digits, st.(phase := 1));
    ScanFourDigits(c, tail, State(2, 0, 0, st.str));
  }

  lemma ScanShort(c: char, tail: string, st: State)
    requires Inv(st) && st.phase == 0 && |Escape(c)| == 2
    ensures Scan(Escape(c) + tail, st) == Scan(tail, After(st, c))
  {
  }

  /** Scanning undoes each escape, whichever it is. */
  lemma ScanEscape(c: char, tail: string, st: State)
    requires Inv(st) && st.phase == 0
    ensures Inv(After(st, c)) && Scan(Escape(c) + tail, st) == Scan(tail, After(st, c))
  {
    if |Escape(c)| == 6 { ScanControl(c, tail, st); }
    else if |Escape(c)| == 2 { ScanShort(c, tail, st); }
    else {
      assert (Escape(c) + tail)[1..] == tail;
      ScanStep(Escape(c) + tail, st);
    }
  }

  lemma ScanEnd(rest: string, st: State)
    requires Inv(st) && st.phase == 0
    ensures Scan(EscapeAll("") + ("\"" + rest), st) == Done(st.str + "", rest)
  {
  }

  lemma ScanNextEscape(s: string, tail: string, st: State)
    requires s != "" && Inv(st) && st.phase == 0
    ensures Inv(After(st, s[0])) && After(st, s[0]).phase == 0 && After(st, s[0]).str == st.str + [s[0]]
    ensures Scan(EscapeAll(s) + tail, st) == Scan(EscapeAll(s[1..]) + tail, After(st, s[0]))
  {
    var one, more := Escape(s[0]), EscapeAll(s[1..]);
    Associate(one, more, tail);
    ScanEscape(s[0], more + tail, st);
  }

  /** Scanning undoes escaping, for every string. */
  lemma {:induction false} ScanEscaped(s: string, rest: string, st: State)
    requires Inv(st) && st.phase == 0
    ensures Scan(EscapeAll(s) + ("\"" + rest), st) == Done(st.str + s, rest)
    decreases |s|
  {
    if s == "" {
      ScanEnd(rest, st);
    } else {
      ScanNextEscape(s, "\"" + rest, st);
      ScanEscaped(s[1..], rest, After(st, s[0]));
      Associate(st.str, [s[0]], s[1..]);
      assert [s[0]] + s[1..] == s;
    }
  }

  // ---------------------------------------------------------------- what the first character decides

  lemma ParseAt(s: string, stod: Stod)
    requires s != "" && !IsBlank(s[0])
    ensures Parse(s, stod) == (if s[0] == '{' then ParseDict(s[1..], [], stod)
                               else if s[0] == '[' then ParseArray(s[1..], [], stod)
                               else ParseScalar(s, stod))
  {
  }

  lemma QuoteAt(s: string, stod: Stod, str: string, rest: string)
    requires s != "" && Scan(s, START) == Done(str, rest)
    ensures Parse("\"" + s, stod) == Ok(Str(str), rest)
  {
  }

  lemma NumberAt(s: string, stod: Stod)
    requires s != "" && StartsNumber(s[0])
    ensures Parse(s, stod) == ParseNumber(s, stod)
  {
    ParseAt(s, stod);
  }

  lemma ScalarAt(s: string, stod: Stod)
    requires s != ""
    ensures s[0] == 't' ==> ParseScalar(s, stod) == ParseWord(s, "true", Boolean(true))
    ensures s[0] == 'f' ==> ParseScalar(s, stod) == ParseWord(s, "false", Boolean(false))
    ensures s[0] == 'n' ==> ParseScalar(s, stod) == ParseWord(s, "null", Null)
  {
  }

  lemma WordAt(s: string, word: string, value: JsonValue, stod: Stod)
    requires (word, value) in {("null", Null), ("true", Boolean(true)), ("false", Boolean(false))}
    requires s != "" && s[0] == word[0]
    ensures Parse(s, stod) == ParseWord(s, word, value)
  {
    ScalarAt(s, stod);
    ParseAt(s, stod);
  }

  lemma Halves(a: string, b: string)
    ensures (a + b)[..|a|] == a && (a + b)[|a|..] == b && a <= a + b && (a != "" ==> (a + b)[0] == a[0])
  {
  }

  /** A quoted string is read back whatever follows it. */
  lemma StringRoundTrip(s: string, rest: string, stod: Stod)
    ensures Parse(Quoted(s) + rest, stod) == Ok(Str(s), rest)
  {
    var body := EscapeAll(s) + ("\"" + rest);
    assert Quoted(s) + rest == "\"" + body;
    ScanEscaped(s, rest, START);
    assert START.str + s == s;
    QuoteAt(body, stod, s, rest);
  }

  // ---------------------------------------------------------------- integers

  predicate AllDigits(s: string) { forall i :: 0 <= i < |s| ==> IsDigit(s[i]) }

  predicate NoDigit(t: string) { t == "" || !IsDigit(t[0]) }

  lemma {:induction false} LeadingDigitsAll(s: string, t: string)
    requires AllDigits(s) && NoDigit(t)
    ensures LeadingDigits(s + t) == |s|
  {
    if s == "" {
      assert s + t == t;
    } else {
      assert (s + t)[1..] == s[1..] + t;
      LeadingDigitsAll(s[1..], t);
    }
  }

  lemma {:induction false} DigitsInverse(n: nat)
    ensures AllDigits(Digits(n)) && DigitsValue(Digits(n)) == n
  {
    if n >= 10 {
      DigitsInverse(n / 10);
      var s := Digits(n);
      assert s[..|s| - 1] == Digits(n / 10);
    }
  }

  lemma {:induction false} NumberEndIs(d: string, rest: string)
    requires forall i :: 0 <= i < |d| ==> d[i] !in {',', ']', '}'}
    ensures NumberEnd(d + rest) == |d| + NumberEnd(rest)
  {
    if d == "" {
      assert d + rest == rest;
    } else {
      assert (d + rest)[1..] == d[1..] + rest;
      NumberEndIs(d[1..], rest);
    }
  }

  lemma StollDigits(d: string, t: string)
    requires d != "" && AllDigits(d) && NoDigit(t)
    ensures Stoll(d + t) == if DigitsValue(d) <= INT64_MAX then Some(DigitsValue(d)) else None
  {
    LeadingDigitsAll(d, t);
    Halves(d, t);
    assert IsDigit(d[0]) && SkipSpaces(d + t) == d + t;
  }

  lemma StollMinus(d: string, t: string)
    requires d != "" && AllDigits(d) && NoDigit(t)
    ensures Stoll("-" + (d + t)) == if DigitsValue(d) <= -INT64_MIN then Some(-DigitsValue(d)) else None
  {
    Cons('-', d + t);
    LeadingDigitsAll(d, t);
    Halves(d, t);
    assert SkipSpaces("-" + (d + t)) == "-" + (d + t);
  }

  /** What follows the digits of a number does not matter, whether it is in range or not. */
  lemma StollIgnores(d: string, t: string)
    requires d != "" && AllDigits(d) && NoDigit(t)
    ensures Stoll(d + t) == Stoll(d) && Stoll("-" + (d + t)) == Stoll("-" + d)
  {
    assert d + "" == d;
    StollDigits(d, t);
    StollDigits(d, "");
    StollMinus(d, t);
    StollMinus(d, "");
  }

  lemma StollDecimal(n: int, t: string)
    requires INT64_MIN <= n <= INT64_MAX && NoDigit(t)
    ensures Stoll(Decimal(n) + t) == Some(n)
  {
    DigitsInverse(if n < 0 then -n else n);
    if n < 0 {
      StollMinus(Digits(-n), t);
      Associate("-", Digits(-n), t);
    } else {
      StollDigits(Digits(n), t);
    }
  }

  lemma NumberIs(d: string, rest: string, stod: Stod, n: int)
    requires d != "" && NumberEnd(d + rest) == |d| && '.' !in d && Stoll(d) == Some(n)
    ensures ParseNumber(d + rest, stod) == Ok(Integer(n), rest)
  {
  }

  lemma DecimalCharacters(n: int)
    ensures Decimal(n) != "" && StartsNumber(Decimal(n)[0])
    ensures forall i :: 0 <= i < |Decimal(n)| ==> IsDigit(Decimal(n)[i]) || Decimal(n)[i] == '-'
  {
  }

  /** An integer is read back up to the next comma or closing bracket, and what stands between
      its digits and that place is lost. */
  lemma IntegerRead(n: int, junk: string, rest: string, stod: Stod)
    requires INT64_MIN <= n <= INT64_MAX && NoDigit(junk) && Stops(rest)
    requires forall i :: 0 <= i < |junk| ==> junk[i] !in {',', ']', '}', '.'}
    ensures Parse(Decimal(n) + junk + rest, stod) == Ok(Integer(n), rest)
  {
    var d := Decimal(n) + junk;
    DecimalCharacters(n);
    NumberEndIs(d, rest);
    StollDecimal(n, junk);
    NumberIs(d, rest, stod, n);
    Halves(d, rest);
    NumberAt(d + rest, stod);
  }

  lemma NumberRest(s: string, stod: Stod)
    ensures ParseNumber(s, stod).Ok? ==> |ParseNumber(s, stod).rest| == |s| - NumberEnd(s)
  {
  }

  /** A printed integer is read back, and what follows it is left, exactly if that is nothing or
      starts with a comma or a closing bracket. */
  lemma IntegerRoundTrip(n: int, rest: string, stod: Stod)
    requires INT64_MIN <= n <= INT64_MAX
    ensures Parse(Decimal(n) + rest, stod) == Ok(Integer(n), rest) <==> Stops(rest)
  {
    var d := Decimal(n);
    if Stops(rest) {
      assert d + "" == d;
      IntegerRead(n, "", rest, stod);
    } else {
      DecimalCharacters(n);
      NumberEndIs(d, rest);
      Halves(d, rest);
      NumberAt(d + rest, stod);
      NumberRest(d + rest, stod);
    }
  }

  // ---------------------------------------------------------------- texts with blanks and commas

  predicate Blanks(s: string) { s == "" || (s[0] in {' ', '\t', '\n', '\r', '\0'} && Blanks(s[1..])) }

  /** What may stand between the elements of an array or dictionary. */
  predicate Gap(s: string) { s == "" || (s[0] in {' ', '\t', '\n', '\r', '\0', ','} && Gap(s[1..])) }

  /** A text with its blanks and commas: a scalar, or a bracket with elements, each behind a gap,
      and a gap before the closing bracket.  An entry has blanks around its colon. */
  datatype Doc =
    | Leaf(v: JsonValue)
    | Array(items: seq<Piece>, close: string)
    | Object(pairs: seq<Pair>, close: string)

  datatype Piece = Piece(gap: string, doc: Doc)

  datatype Pair = Pair(gap: string, key: string, before: string, after: string, doc: Doc)

  /** The value that the text stands for. */
  function Value(d: Doc): JsonValue {
    match d
    case Leaf(v) => v
    case Array(items, _) => Arr(Values(items))
    case Object(pairs, _) => Dict(Entries(pairs))
  }

  function Values(items: seq<Piece>): seq<JsonValue> {
    if items == [] then [] else [Value(items[0].doc)] + Values(items[1..])
  }

  function Entries(pairs: seq<Pair>): seq<Entry> {
    if pairs == [] then [] else [Entry(pairs[0].key, Value(pairs[0].doc))] + Entries(pairs[1..])
  }

  predicate IsInteger(d: Doc) { d.Leaf? && d.v.Integer? }

  /** A comma or the closing bracket comes next, but for blanks. */
  predicate CommaFirst(items: seq<Piece>) { items == [] || ',' in items[0].gap }

  predicate CommaFirstPair(pairs: seq<Pair>) { pairs == [] || ',' in pairs[0].gap }

  /** Printable scalars, proper gaps, and a comma between an integer and the next element. */
  ghost predicate Proper(d: Doc) {
    match d
    case Leaf(v) => Printable(v) && !v.Arr? && !v.Dict?
    case Array(items, close) => Gap(close) && ProperItems(items)
    case Object(pairs, close) => Gap(close) && ProperPairs(pairs)
  }

  ghost predicate ProperItems(items: seq<Piece>) {
    items != [] ==>
      && Gap(items[0].gap) && Proper(items[0].doc) && ProperItems(items[1..])
      && (IsInteger(items[0].doc) ==> CommaFirst(items[1..]))
  }

  ghost predicate ProperPairs(pairs: seq<Pair>) {
    pairs != [] ==>
      && Gap(pairs[0].gap) && Blanks(pairs[0].before) && Blanks(pairs[0].after)
      && Proper(pairs[0].doc) && ProperPairs(pairs[1..])
      && (IsInteger(pairs[0].doc) ==> CommaFirstPair(pairs[1..]))
  }

  ghost function Text(d: Doc): string
    requires Proper(d)
  {
    match d
    case Leaf(v) => Print(v)
    case Array(items, close) => "[" + ItemsText(items, close)
    case Object(pairs, close) => "{" + PairsText(pairs, close)
  }

  ghost function ItemsText(items: seq<Piece>, close: string): string
    requires ProperItems(items)
  {
    if items == [] then close + "]" else items[0].gap + (Text(items[0].doc) + ItemsText(items[1..], close))
  }

  ghost function PairsText(pairs: seq<Pair>, close: string): string
    requires ProperPairs(pairs)
  {
    if pairs == [] then close + "}" else pairs[0].gap + (PairText(pairs[0]) + PairsText(pairs[1..], close))
  }

  ghost function PairText(p: Pair): string
    requires Proper(p.doc)
  {
    Quoted(p.key) + (p.before + (":" + (p.after + Text(p.doc))))
  }

  // ---------------------------------------------------------------- skipping

  lemma SkipOne(c: char, s: string)
    requires c in {' ', '\t', '\n', '\r', '\0'}
    ensures SkipBlanks([c] + s) == SkipBlanks(s)
  {
    Cons(c, s);
  }

  lemma {:induction false} SkipAll(w: string, s: string)
    requires Blanks(w)
    ensures SkipBlanks(w + s) == SkipBlanks(s)
  {
    if w == "" {
      assert w + s == s;
    } else {
      assert w + s == [w[0]] + (w[1..] + s);
      SkipOne(w[0], w[1..] + s);
      SkipAll(w[1..], s);
    }
  }

  lemma SameValue(s: string, t: string, stod: Stod)
    requires SkipBlanks(s) == SkipBlanks(t)
    ensures Parse(s, stod) == Parse(t, stod)
  {
  }

  lemma SameArray(s: string, t: string, acc: seq<JsonValue>, stod: Stod)
    requires SkipBlanks(s) == SkipBlanks(t)
    ensures ParseArray(s, acc, stod) == ParseArray(t, acc, stod)
  {
  }

  lemma SameDict(s: string, t: string, acc: seq<Entry>, stod: Stod)
    requires SkipBlanks(s) == SkipBlanks(t)
    ensures ParseDict(s, acc, stod) == ParseDict(t, acc, stod)
  {
  }

  /** Blanks before a value, an element, an entry or a closing bracket do not matter. */
  lemma BlanksSkipped(w: string, s: string, items: seq<JsonValue>, entries: seq<Entry>, stod: Stod)
    requires Blanks(w)
    ensures Parse(w + s, stod) == Parse(s, stod)
    ensures ParseArray(w + s, items, stod) == ParseArray(s, items, stod)
    ensures ParseDict(w + s, entries, stod) == ParseDict(s, entries, stod)
  {
    SkipAll(w, s);
    SameValue(w + s, s, stod);
    SameArray(w + s, s, items, stod);
    SameDict(w + s, s, entries, stod);
  }

  lemma CommaInArray(t: string, acc: seq<JsonValue>, stod: Stod)
    requires t != "" && t[0] == ','
    ensures ParseArray(t, acc, stod) == ParseArray(t[1..], acc, stod)
  {
    assert SkipBlanks(t) == t;
  }

  lemma CommaInDict(t: string, acc: seq<Entry>, stod: Stod)
    requires t != "" && t[0] == ','
    ensures ParseDict(t, acc, stod) == ParseDict(t[1..], acc, stod)
  {
    assert SkipBlanks(t) == t;
  }

  /** Nor do commas between elements and entries, however many. */
  lemma {:induction false} GapSkipped(g: string, s: string, items: seq<JsonValue>, entries: seq<Entry>, stod: Stod)
    requires Gap(g)
    ensures ParseArray(g + s, items, stod) == ParseArray(s, items, stod)
    ensures ParseDict(g + s, entries, stod) == ParseDict(s, entries, stod)
  {
    if g == "" {
      assert g + s == s;
    } else {
      var t := g[1..] + s;
      assert g + s == [g[0]] + t;
      Cons(g[0], t);
      if g[0] == ',' {
        CommaInArray([g[0]] + t, items, stod);
        CommaInDict([g[0]] + t, entries, stod);
      } else {
        BlanksSkipped([g[0]], t, items, entries, stod);
      }
      GapSkipped(g[1..], s, items, entries, stod);
    }
  }

  /** What follows an integer ends it: only blanks up to the next comma or closing bracket. */
  predicate EndsNumber(rest: string) {
    rest == "" || rest[0] in {',', ']', '}'} || (rest[0] in {' ', '\t', '\n', '\r', '\0'} && EndsNumber(rest[1..]))
  }

  lemma {:induction false} GapEndsNumber(g: string, s: string)
    requires Gap(g) && (',' in g || (s != "" && s[0] in {']', '}'}))
    ensures EndsNumber(g + s)
  {
    if g == "" {
      assert g + s == s;
    } else {
      assert (g + s)[1..] == g[1..] + s && (g + s)[0] == g[0];
      if g[0] != ',' { GapEndsNumber(g[1..], s); }
    }
  }

  // ---------------------------------------------------------------- reading such texts

  /** What a scalar leaves of the text behind it: an integer takes the blanks with it. */
  function Left(d: Doc, rest: string): string { if IsInteger(d) then rest[NumberEnd(rest)..] else rest }

  lemma {:induction false} NumberTail(rest: string)
    requires EndsNumber(rest)
    ensures var n := NumberEnd(rest); Blanks(rest[..n]) && Stops(rest[n..])
  {
    if rest != "" && rest[0] !in {',', ']', '}'} {
      NumberTail(rest[1..]);
      var n := NumberEnd(rest);
      assert rest[..n][1..] == rest[1..][..n - 1] && rest[n..] == rest[1..][n - 1..];
    }
  }

  lemma {:induction false} BlanksAll(w: string, i: nat)
    requires Blanks(w) && i < |w|
    ensures w[i] in {' ', '\t', '\n', '\r', '\0'}
  {
    if i > 0 { BlanksAll(w[1..], i - 1); }
  }

  lemma LeftSkips(d: Doc, rest: string)
    requires IsInteger(d) ==> EndsNumber(rest)
    ensures SkipBlanks(Left(d, rest)) == SkipBlanks(rest)
  {
    if IsInteger(d) {
      var n := NumberEnd(rest);
      NumberTail(rest);
      SkipAll(rest[..n], rest[n..]);
      assert rest[..n] + rest[n..] == rest;
    }
  }

  lemma WordRoundTrip(word: string, value: JsonValue, rest: string, stod: Stod)
    requires (word, value) in {("null", Null), ("true", Boolean(true)), ("false", Boolean(false))}
    ensures Parse(word + rest, stod) == Ok(value, rest)
  {
    Halves(word, rest);
    WordAt(word + rest, word, value, stod);
  }

  lemma BlanksAreJunk(w: string)
    requires Blanks(w)
    ensures NoDigit(w) && forall i :: 0 <= i < |w| ==> w[i] !in {',', ']', '}', '.'}
  {
    forall i | 0 <= i < |w| ensures w[i] !in {',', ']', '}', '.'} { BlanksAll(w, i); }
  }

  lemma IntegerLeft(n: int, w: string, rest: string, stod: Stod)
    requires INT64_MIN <= n <= INT64_MAX && Blanks(w) && Stops(rest)
    ensures Parse(Decimal(n) + (w + rest), stod) == Ok(Integer(n), rest)
  {
    BlanksAreJunk(w);
    IntegerRead(n, w, rest, stod);
    Associate(Decimal(n), w, rest);
  }

  lemma LeafRead(d: Doc, rest: string, stod: Stod)
    requires d.Leaf? && Proper(d) && (IsInteger(d) ==> EndsNumber(rest))
    ensures Parse(Print(d.v) + rest, stod) == Ok(d.v, Left(d, rest))
  {
    match d.v
    case Null => WordRoundTrip("null", d.v, rest, stod);
    case Boolean(b) => WordRoundTrip(if b then "true" else "false", d.v, rest, stod);
    case Str(s) => StringRoundTrip(s, rest, stod);
    case Integer(n) =>
      var k := NumberEnd(rest);
      NumberTail(rest);
      IntegerLeft(n, rest[..k], rest[k..], stod);
      assert rest[..k] + rest[k..] == rest;
  }

  /** The first character tells a text from blanks, commas and closing brackets. */
  lemma TextHead(d: Doc)
    requires Proper(d)
    ensures Text(d) != "" && !IsBlank(Text(d)[0]) && Text(d)[0] !in {',', ']', '}'}
  {
    if IsInteger(d) { DecimalCharacters(d.v.n); }
  }

  /** One element parsed inside the array loop. */
  lemma ArrayStep(s: string, acc: seq<JsonValue>, stod: Stod, v: JsonValue, rest: string)
    requires s != "" && !IsBlank(s[0]) && s[0] !in {',', ']', '}'} && Parse(s, stod) == Ok(v, rest)
    ensures ParseArray(s, acc, stod) == ParseArray(rest, acc + [v], stod)
  {
  }

  lemma DictStep(s: string, acc: seq<Entry>, stod: Stod, v: JsonValue, rest: string, key: string)
    requires s != "" && s[0] == '"' && ParseEntry(s, stod) == (Ok(v, rest), key)
    ensures ParseDict(s, acc, stod) == ParseDict(rest, Emplace(acc, Entry(key, v)), stod)
  {
    assert SkipBlanks(s) == s;
  }

  lemma CloseArray(acc: seq<JsonValue>, rest: string, stod: Stod)
    ensures ParseArray("]" + rest, acc, stod) == Ok(Arr(acc), rest)
  {
  }

  lemma CloseDict(acc: seq<Entry>, rest: string, stod: Stod)
    ensures ParseDict("}" + rest, acc, stod) == Ok(Dict(acc), rest)
  {
  }

  /** The text of one element at the head of the array loop. */
  lemma ElementRead(d: Doc, tail: string, acc: seq<JsonValue>, stod: Stod)
    requires Proper(d) && (IsInteger(d) ==> EndsNumber(tail))
    requires Parse(Text(d) + tail, stod) == Ok(Norm(Value(d)), Left(d, tail))
    ensures ParseArray(Text(d) + tail, acc, stod) == ParseArray(tail, acc + [Norm(Value(d))], stod)
  {
    TextHead(d);
    Halves(Text(d), tail);
    ArrayStep(Text(d) + tail, acc, stod, Norm(Value(d)), Left(d, tail));
    LeftSkips(d, tail);
    SameArray(Left(d, tail), tail, acc + [Norm(Value(d))], stod);
  }

  /** Key, colon and value, with blanks before the colon. */
  lemma KeyAt(t: string, stod: Stod, key: string, w: string, r: string)
    requires Blanks(w) && Parse(t, stod) == Ok(Str(key), w + (":" + r))
    ensures ParseEntry(t, stod) == (Parse(r, stod), key)
  {
    SkipAll(w, ":" + r);
    Cons(':', r);
    assert SkipBlanks(":" + r) == ":" + r;
  }

  lemma Regrouped(a: string, b: string, c: string, d: string)
    ensures (a + (b + c)) + d == a + (b + (c + d))
  {
  }

  lemma PairRegroup(p: Pair, tail: string)
    requires Proper(p.doc)
    ensures PairText(p) + tail == Quoted(p.key) + (p.before + (":" + (p.after + (Text(p.doc) + tail))))
  {
    var d := Text(p.doc);
    Associate(Quoted(p.key), p.before + (":" + (p.after + d)), tail);
    Associate(p.before, ":" + (p.after + d), tail);
    Associate(":", p.after + d, tail);
    Associate(p.after, d, tail);
  }

  lemma EntryRead(p: Pair, tail: string, acc: seq<Entry>, stod: Stod)
    requires Blanks(p.before) && Blanks(p.after) && Proper(p.doc) && (IsInteger(p.doc) ==> EndsNumber(tail))
    requires Parse(Text(p.doc) + tail, stod) == Ok(Norm(Value(p.doc)), Left(p.doc, tail))
    ensures ParseDict(PairText(p) + tail, acc, stod)
         == ParseDict(tail, Emplace(acc, Entry(p.key, Norm(Value(p.doc)))), stod)
  {
    var v, text := Norm(Value(p.doc)), PairText(p) + tail;
    var value := p.after + (Text(p.doc) + tail);
    PairRegroup(p, tail);
    StringRoundTrip(p.key, p.before + (":" + value), stod);
    KeyAt(text, stod, p.key, p.before, value);
    BlanksSkipped(p.after, Text(p.doc) + tail, [], [], stod);
    DictStep(text, acc, stod, v, Left(p.doc, tail), p.key);
    LeftSkips(p.doc, tail);
    SameDict(Left(p.doc, tail), tail, Emplace(acc, Entry(p.key, v)), stod);
  }

  ghost predicate ItemsAreRead(items: seq<Piece>, close: string, acc: seq<JsonValue>, rest: string, stod: Stod)
    requires ProperItems(items)
  {
    ParseArray(ItemsText(items, close) + rest, acc, stod) == Ok(Arr(acc + NormItems(Values(items))), rest)
  }

  ghost predicate PairsAreRead(pairs: seq<Pair>, close: string, acc: seq<Entry>, rest: string, stod: Stod)
    requires ProperPairs(pairs)
  {
    ParseDict(PairsText(pairs, close) + rest, acc, stod) == Ok(Dict(NormEntries(Entries(pairs), acc)), rest)
  }

  lemma Bracketed(s: string, stod: Stod)
    ensures Parse("[" + s, stod) == ParseArray(s, [], stod) && Parse("{" + s, stod) == ParseDict(s, [], stod)
  {
    Cons('[', s);
    Cons('{', s);
    ParseAt("[" + s, stod);
    ParseAt("{" + s, stod);
  }

  lemma FromStart(items: seq<Piece>, close: string, rest: string, stod: Stod)
    requires ProperItems(items) && ItemsAreRead(items, close, [], rest, stod)
    ensures Parse("[" + (ItemsText(items, close) + rest), stod) == Ok(Arr(NormItems(Values(items))), rest)
  {
    var text, values := ItemsText(items, close) + rest, NormItems(Values(items));
    Bracketed(text, stod);
    assert [] + values == values;
  }

  lemma ArrayRead(d: Doc, rest: string, stod: Stod)
    requires d.Array? && Proper(d) && ItemsAreRead(d.items, d.close, [], rest, stod)
    ensures Parse(Text(d) + rest, stod) == Ok(Norm(Value(d)), rest)
  {
    Associate("[", ItemsText(d.items, d.close), rest);
    FromStart(d.items, d.close, rest, stod);
  }

  lemma ObjectRead(d: Doc, rest: string, stod: Stod)
    requires d.Object? && Proper(d) && PairsAreRead(d.pairs, d.close, [], rest, stod)
    ensures Parse(Text(d) + rest, stod) == Ok(Norm(Value(d)), rest)
  {
    Associate("{", PairsText(d.pairs, d.close), rest);
    Bracketed(PairsText(d.pairs, d.close) + rest, stod);
  }

  /** Every such text is read as its value, with dictionaries sorted: blanks, and commas between the
      elements, make no difference. */
  lemma {:induction false} DocRead(d: Doc, rest: string, stod: Stod)
    requires Proper(d) && (IsInteger(d) ==> EndsNumber(rest))
    ensures Parse(Text(d) + rest, stod) == Ok(Norm(Value(d)), Left(d, rest))
    decreases d, 0
  {
    match d
    case Leaf(v) => LeafRead(d, rest, stod);
    case Array(items, close) =>
      ItemsRead(items, close, [], rest, stod);
      ArrayRead(d, rest, stod);
    case Object(pairs, close) =>
      PairsRead(pairs, close, [], rest, stod);
      ObjectRead(d, rest, stod);
  }

  lemma Behind(acc: seq<JsonValue>, v: JsonValue, more: seq<JsonValue>)
    ensures (acc + [v]) + more == acc + ([v] + more) && acc + [] == acc
  {
  }

  /** What follows an element ends an integer. */
  lemma ItemsEndNumber(items: seq<Piece>, close: string, rest: string)
    requires Gap(close) && ProperItems(items) && CommaFirst(items)
    ensures EndsNumber(ItemsText(items, close) + rest)
  {
    if items == [] {
      Associate(close, "]", rest);
      GapEndsNumber(close, "]" + rest);
    } else {
      var more := Text(items[0].doc) + ItemsText(items[1..], close);
      Associate(items[0].gap, more, rest);
      GapEndsNumber(items[0].gap, more + rest);
    }
  }

  lemma PairsEndNumber(pairs: seq<Pair>, close: string, rest: string)
    requires Gap(close) && ProperPairs(pairs) && CommaFirstPair(pairs)
    ensures EndsNumber(PairsText(pairs, close) + rest)
  {
    if pairs == [] {
      Associate(close, "}", rest);
      GapEndsNumber(close, "}" + rest);
    } else {
      var more := PairText(pairs[0]) + PairsText(pairs[1..], close);
      Associate(pairs[0].gap, more, rest);
      GapEndsNumber(pairs[0].gap, more + rest);
    }
  }

  lemma NoItems(close: string, acc: seq<JsonValue>, rest: string, stod: Stod)
    requires Gap(close)
    ensures ItemsAreRead([], close, acc, rest, stod)
  {
    Associate(close, "]", rest);
    GapSkipped(close, "]" + rest, acc, [], stod);
    CloseArray(acc, rest, stod);
    Behind(acc, Null, []);
  }

  lemma NoPairs(close: string, acc: seq<Entry>, rest: string, stod: Stod)
    requires Gap(close)
    ensures PairsAreRead([], close, acc, rest, stod)
  {
    Associate(close, "}", rest);
    GapSkipped(close, "}" + rest, [], acc, stod);
    CloseDict(acc, rest, stod);
  }

  lemma FirstItem(items: seq<Piece>, close: string, acc: seq<JsonValue>, rest: string, stod: Stod)
    requires items != [] && ProperItems(items)
    requires var d, tail := items[0].doc, ItemsText(items[1..], close) + rest;
      (IsInteger(d) ==> EndsNumber(tail)) && Parse(Text(d) + tail, stod) == Ok(Norm(Value(d)), Left(d, tail))
    ensures ParseArray(ItemsText(items, close) + rest, acc, stod)
         == ParseArray(ItemsText(items[1..], close) + rest, acc + [Norm(Value(items[0].doc))], stod)
  {
    var d, more := items[0].doc, ItemsText(items[1..], close);
    Regrouped(items[0].gap, Text(d), more, rest);
    GapSkipped(items[0].gap, Text(d) + (more + rest), acc, [], stod);
    ElementRead(d, more + rest, acc, stod);
  }

  lemma FirstPair(pairs: seq<Pair>, close: string, acc: seq<Entry>, rest: string, stod: Stod)
    requires pairs != [] && ProperPairs(pairs)
    requires var d, tail := pairs[0].doc, PairsText(pairs[1..], close) + rest;
      (IsInteger(d) ==> EndsNumber(tail)) && Parse(Text(d) + tail, stod) == Ok(Norm(Value(d)), Left(d, tail))
    ensures ParseDict(PairsText(pairs, close) + rest, acc, stod)
         == ParseDict(PairsText(pairs[1..], close) + rest,
                      Emplace(acc, Entry(pairs[0].key, Norm(Value(pairs[0].doc)))), stod)
  {
    var p, more := pairs[0], PairsText(pairs[1..], close);
    Regrouped(p.gap, PairText(p), more, rest);
    GapSkipped(p.gap, PairText(p) + (more + rest), [], acc, stod);
    EntryRead(p, more + rest, acc, stod);
  }

  lemma {:induction false} ItemsRead(items: seq<Piece>, close: string, acc: seq<JsonValue>, rest: string, stod: Stod)
    requires Gap(close) && ProperItems(items)
    ensures ItemsAreRead(items, close, acc, rest, stod)
    decreases items, 1
  {
    if items == [] {
      NoItems(close, acc, rest, stod);
    } else {
      var d := items[0].doc;
      if IsInteger(d) { ItemsEndNumber(items[1..], close, rest); }
      DocRead(d, ItemsText(items[1..], close) + rest, stod);
      FirstItem(items, close, acc, rest, stod);
      ItemsRead(items[1..], close, acc + [Norm(Value(d))], rest, stod);
      Behind(acc, Norm(Value(d)), NormItems(Values(items[1..])));
      assert Values(items)[1..] == Values(items[1..]);
    }
  }

  lemma {:induction false} PairsRead(pairs: seq<Pair>, close: string, acc: seq<Entry>, rest: string, stod: Stod)
    requires Gap(close) && ProperPairs(pairs)
    ensures PairsAreRead(pairs, close, acc, rest, stod)
    decreases pairs, 1
  {
    if pairs == [] {
      NoPairs(close, acc, rest, stod);
    } else {
      var p := pairs[0];
      if IsInteger(p.doc) { PairsEndNumber(pairs[1..], close, rest); }
      DocRead(p.doc, PairsText(pairs[1..], close) + rest, stod);
      FirstPair(pairs, close, acc, rest, stod);
      PairsRead(pairs[1..], close, Emplace(acc, Entry(p.key, Norm(Value(p.doc)))), rest, stod);
      assert Entries(pairs)[1..] == Entries(pairs[1..]);
    }
  }

  // ---------------------------------------------------------------- the printed text

  /** The text without blanks and with single commas. */
  function Plain(v: JsonValue): Doc {
    match v
    case Arr(items) => Array(PlainItems(items, false), "")
    case Dict(entries) => Object(PlainPairs(entries, false), "")
    case _ => Leaf(v)
  }

  function PlainItems(items: seq<JsonValue>, comma: bool): seq<Piece> {
    if items == [] then []
    else [Piece(if comma then "," else "", Plain(items[0]))] + PlainItems(items[1..], true)
  }

  function PlainPairs(entries: seq<Entry>, comma: bool): seq<Pair> {
    if entries == [] then []
    else
      var e := entries[0];
      [Pair(if comma then "," else "", e.key, "", "", Plain(e.value))] + PlainPairs(entries[1..], true)
  }

  /** The printer writes exactly that text. */
  lemma {:induction false} PlainText(v: JsonValue)
    requires Printable(v)
    ensures Proper(Plain(v)) && Value(Plain(v)) == v && Text(Plain(v)) == Print(v)
    decreases v, 0
  {
    match v
    case Arr(items) => PlainItemsText(items, false);
    case Dict(entries) => PlainPairsText(entries, false);
    case _ =>
  }

  lemma {:induction false} PlainItemsText(items: seq<JsonValue>, comma: bool)
    requires forall x :: x in items ==> Printable(x)
    ensures var p := PlainItems(items, comma);
      && ProperItems(p) && (comma ==> CommaFirst(p))
      && Values(p) == items && ItemsText(p, "") == PrintItems(items, comma)
    decreases items, 1
  {
    if items != [] {
      var p := PlainItems(items, comma);
      PlainText(items[0]);
      PlainItemsText(items[1..], true);
      assert p[1..] == PlainItems(items[1..], true);
      Associate(p[0].gap, Print(items[0]), PrintItems(items[1..], true));
    }
  }

  lemma PlainPair(e: Entry, gap: string)
    requires Printable(e.value) && Proper(Plain(e.value)) && Text(Plain(e.value)) == Print(e.value)
    ensures PairText(Pair(gap, e.key, "", "", Plain(e.value))) == PrintEntry(e)
  {
    var text := Print(e.value);
    assert "" + text == text && "" + (":" + text) == ":" + text;
    Associate(Quoted(e.key), ":", text);
  }

  lemma {:induction false} PlainPairsText(entries: seq<Entry>, comma: bool)
    requires forall e :: e in entries ==> Printable(e.value)
    ensures var p := PlainPairs(entries, comma);
      && ProperPairs(p) && (comma ==> CommaFirstPair(p))
      && Entries(p) == entries && PairsText(p, "") == PrintEntries(entries, comma)
    decreases entries, 1
  {
    if entries != [] {
      var p := PlainPairs(entries, comma);
      PlainText(entries[0].value);
      PlainPairsText(entries[1..], true);
      PlainPair(entries[0], p[0].gap);
      assert p[1..] == PlainPairs(entries[1..], true);
      Associate(p[0].gap, PrintEntry(entries[0]), PrintEntries(entries[1..], true));
    }
  }

  lemma StopsEndsNumber(rest: string)
    requires Stops(rest)
    ensures EndsNumber(rest) && rest[NumberEnd(rest)..] == rest
  {
  }

  /** Parsing inverts printing: for every printable value and every continuation, which after an
      integer must not belong to the number, the value comes back, with dictionaries sorted, and
      the continuation is left untouched. */
  lemma RoundTrip(v: JsonValue, rest: string, stod: Stod)
    requires Printable(v) && (v.Integer? ==> Stops(rest))
    ensures Parse(Print(v) + rest, stod) == Ok(Norm(v), rest)
  {
    PlainText(v);
    if v.Integer? { StopsEndsNumber(rest); }
    DocRead(Plain(v), rest, stod);
  }

  // ---------------------------------------------------------------- the normal form

  /** Sorting keeps the first entry of every key and loses no key. */
  lemma {:induction false} NormFinds(entries: seq<Entry>, acc: seq<Entry>, key: string)
    requires Ascending(acc)
    ensures Ascending(NormEntries(entries, acc))
    ensures Find(NormEntries(entries, acc), key) ==
              (if Find(acc, key).Some? then Find(acc, key)
               else if Find(entries, key).Some? then Some(Norm(Find(entries, key).value)) else None)
    decreases entries
  {
    if entries != [] {
      EmplaceKeepsOrder(acc, NormEntry(entries[0]));
      NormFinds(entries[1..], Emplace(acc, NormEntry(entries[0])), key);
    }
  }

  lemma {:induction false} NormItemsCanonical(items: seq<JsonValue>)
    requires forall x :: x in items ==> Canonical(x)
    ensures NormItems(items) == items
    decreases items
  {
    if items != [] {
      NormCanonical(items[0]);
      NormItemsCanonical(items[1..]);
    }
  }

  lemma {:induction false} AscendingPrefix(a: seq<Entry>, b: seq<Entry>)
    requires Ascending(a + b)
    ensures Ascending(a)
    decreases |b|
  {
    if b == [] {
      assert a + b == a;
    } else {
      var i := |b| - 1;
      assert a + b == (a + b[..i]) + [b[i]];
      AscendingLast(a + b[..i], b[i]);
      AscendingPrefix(a, b[..i]);
    }
  }

  lemma {:induction false} NormEntriesCanonical(entries: seq<Entry>, acc: seq<Entry>)
    requires Ascending(acc + entries) && forall e :: e in entries ==> Canonical(e.value)
    ensures NormEntries(entries, acc) == acc + entries
    decreases entries
  {
    if entries == [] {
      assert acc + entries == acc;
    } else {
      var e := entries[0];
      NormCanonical(e.value);
      assert (acc + [e]) + entries[1..] == acc + entries;
      AscendingPrefix(acc + [e], entries[1..]);
      AscendingLast(acc, e);
      NormEntriesCanonical(entries[1..], acc + [e]);
    }
  }

  /** Sorting changes nothing in a value whose dictionaries are sorted already. */
  lemma {:induction false} NormCanonical(v: JsonValue)
    requires Canonical(v)
    ensures Norm(v) == v
    decreases v
  {
    match v
    case Arr(items) => NormItemsCanonical(items);
    case Dict(entries) =>
      assert [] + entries == entries;
      NormEntriesCanonical(entries, []);
    case _ =>
  }

  lemma {:induction false} NormItemsSorted(items: seq<JsonValue>)
    ensures forall x :: x in NormItems(items) ==> Canonical(x)
    decreases items
  {
    if items != [] {
      NormSorted(items[0]);
      NormItemsSorted(items[1..]);
    }
  }

  lemma {:induction false} NormEntriesSorted(entries: seq<Entry>, acc: seq<Entry>)
    requires Canonical(Dict(acc))
    ensures Canonical(Dict(NormEntries(entries, acc)))
    decreases entries
  {
    if entries != [] {
      var e := NormEntry(entries[0]);
      NormSorted(entries[0].value);
      EmplaceKeepsOrder(acc, e);
      EmplaceMembers(acc, e);
      NormEntriesSorted(entries[1..], Emplace(acc, e));
    }
  }

  /** What is read back always has sorted dictionaries. */
  lemma {:induction false} NormSorted(v: JsonValue)
    ensures Canonical(Norm(v))
    decreases v
  {
    match v
    case Arr(items) => NormItemsSorted(items);
    case Dict(entries) => NormEntriesSorted(entries, []);
    case _ =>
  }

  /** A value is read back as it was, and what follows is left, exactly if its dictionaries are
      sorted and what follows an integer cannot belong to it. */
  lemma RoundTripExact(v: JsonValue, rest: string, stod: Stod)
    requires Printable(v)
    ensures Parse(Print(v) + rest, stod) == Ok(Norm(v), rest) <==> (v.Integer? ==> Stops(rest))
    ensures Parse(Print(v) + rest, stod) == Ok(v, rest) <==> Canonical(v) && (v.Integer? ==> Stops(rest))
  {
    if v.Integer? {
      IntegerRoundTrip(v.n, rest, stod);
    } else {
      RoundTrip(v, rest, stod);
      NormSorted(v);
      if Canonical(v) { NormCanonical(v); }
    }
  }

  /** Printing is injective up to the order of dictionary entries. */
  lemma PrintInjective(v: JsonValue, w: JsonValue)
    requires Printable(v) && Printable(w) && Print(v) == Print(w)
    ensures Norm(v) == Norm(w)
  {
    var stod: Stod := _ => None;
    RoundTrip(v, "", stod);
    RoundTrip(w, "", stod);
    assert Print(v) + "" == Print(w) + "";
  }

  /** The encoder and the parser together: what one writes the other reads. */
  method EncodeThenParse(v: JsonValue, stod: Stod) returns (back: Option<JsonValue>, rest: string)
    requires Printable(v)
    ensures back == Some(Norm(v)) && rest == ""
    ensures back == Some(v) <==> Canonical(v)
  {
    var encoder := new JsonEncoder();
    encoder.PutValue(v);
    RoundTrip(v, "", stod);
    assert encoder.json + "" == Print(v) && encoder.json == Print(v);
    var ec;
    back, rest, ec := JsonParse(encoder.json, Success, stod);
    NormSorted(v);
    if Canonical(v) { NormCanonical(v); }
  }
}
