/** Which characters the parser skips, what its escapes mean, and which error it gives where. */
module JsonReading {
  import opened JsonEncoding
  import opened JsonParsing
  import opened JsonRoundTrips
  import opened JsonScanner
  import opened JsonSurrogates
  import opened JsonValues
  import opened Wrappers

  // ---------------------------------------------------------------- blanks

  /** A character before a text makes no difference to any parse. */
  ghost predicate Skipped(c: char) { forall s: string, stod: Stod :: Parse([c] + s, stod) == Parse(s, stod) }

  lemma NotNull(c: char, stod: Stod)
    requires c !in {' ', '\t', '\n', '\r', '\0'} && stod(".null") == None
    ensures Parse([c] + "null", stod) != Ok(Null, "")
  {
    var s := [c] + "null";
    Cons(c, "null");
    assert s[0] == c && s[1..] == "null" && |s| == 5;
    ParseAt(s, stod);
    if StartsNumber(c) {
      NumberAt(s, stod);
    } else if c == 't' || c == 'f' || c == 'n' {
      ScalarAt(s, stod);
      assert s[..4][1..] == "nul" && s[1] == 'n';
    }
  }

  /** Exactly five characters are skipped before a value. */
  lemma SkippedAre(c: char)
    ensures Skipped(c) <==> c in {' ', '\t', '\n', '\r', '\0'}
  {
    if c in {' ', '\t', '\n', '\r', '\0'} {
      forall s: string, stod: Stod ensures Parse([c] + s, stod) == Parse(s, stod) {
        BlanksSkipped([c], s, [], [], stod);
      }
    } else {
      var stod: Stod := _ => None;
      NotNull(c, stod);
      assert Parse("null", stod) == Ok(Null, "") by {
        WordRoundTrip("null", Null, "", stod);
        assert "null" + "" == "null";
      }
    }
  }

  // ---------------------------------------------------------------- escapes

  /** What the letters after a backslash mean: the escapes of section 7 of RFC 8259 that do not
      stand for themselves, and three more. */
  const MEANINGS := map['b' := 0x08, 'f' := 0x0C, 'n' := 0x0A, 'r' := 0x0D, 't' := 0x09,
                        'v' := 0x0B, 'a' := 0x07, '0' := 0x00]

  function Meaning(c: char): char { if c in MEANINGS then MEANINGS[c] as char else c }

  lemma MeaningIs(c: char)
    ensures ControlEscape(c) == Meaning(c)
  {
  }

  /** Every other character but `u` stands for itself. */
  lemma ShortEscapes(c: char, tail: string, st: State)
    requires Inv(st) && st.phase == 0 && c != 'u'
    ensures Scan("\\" + ([c] + tail), st) == Scan(tail, st.(str := st.str + [Meaning(c)]))
  {
    var escaped := st.(phase := 1);
    MeaningIs(c);
    Cons('\\', [c] + tail);
    ScanStep("\\" + ([c] + tail), st);
    Cons(c, tail);
    assert Feed(escaped, c) == Next(st.(str := st.str + [Meaning(c)]));
    ScanStep([c] + tail, escaped);
  }

  /** Hex digits of either case count, and no other character does. */
  lemma HexDigits(c: char, k: nat)
    requires k < 16
    ensures HexDigit("0123456789abcdef"[k]) == k == HexDigit("0123456789ABCDEF"[k])
    ensures c !in "0123456789abcdef" && c !in "0123456789ABCDEF" ==> HexDigit(c) == 0
  {
    if '0' <= c <= '9' { assert "0123456789abcdef"[c as int - '0' as int] == c; }
    if 'a' <= c <= 'f' { assert "0123456789abcdef"[c as int - 'a' as int + 10] == c; }
    if 'A' <= c <= 'F' { assert "0123456789ABCDEF"[c as int - 'A' as int + 10] == c; }
  }

  // ---------------------------------------------------------------- errors

  /** Nothing but blanks: the text has ended too early, wherever it does. */
  lemma EndsEarly(w: string, items: seq<JsonValue>, entries: seq<Entry>, stod: Stod)
    requires Blanks(w)
    ensures Parse(w, stod) == ParseArray(w, items, stod) == ParseDict(w, entries, stod) == Err(UnexpectedEnd)
  {
    assert w + "" == w;
    BlanksSkipped(w, "", items, entries, stod);
  }

  predicate StartsValue(c: char) {
    c in {'{', '[', '"', 't', 'f', 'n', '.', '-', '+'} || c in "0123456789"
  }

  /** No value starts with any other character. */
  lemma WrongStart(c: char, s: string, stod: Stod)
    requires c !in {' ', '\t', '\n', '\r', '\0'} && !StartsValue(c)
    ensures Parse([c] + s, stod) == Err(UnexpectedToken)
  {
    Cons(c, s);
    ParseAt([c] + s, stod);
  }

  /** A word that is not one of the three. */
  lemma WrongWord(s: string, stod: Stod)
    requires s != "" && s[0] in {'t', 'f', 'n'} && !("true" <= s) && !("false" <= s) && !("null" <= s)
    ensures Parse(s, stod) == Err(UnexpectedToken)
  {
    ParseAt(s, stod);
    ScalarAt(s, stod);
  }

  /** A string without its closing quote. */
  lemma {:induction false} Unterminated(s: string, st: State)
    requires Inv(st) && st.phase == 0
    ensures Scan(EscapeAll(s), st) == Failed(NonTerminatedString)
  {
    if s != "" {
      assert EscapeAll(s) + "" == EscapeAll(s) && EscapeAll(s[1..]) + "" == EscapeAll(s[1..]);
      ScanNextEscape(s, "", st);
      Unterminated(s[1..], After(st, s[0]));
    }
  }

  lemma StollPlus(d: string, t: string)
    requires d != "" && AllDigits(d) && NoDigit(t)
    ensures Stoll("+" + (d + t)) == if DigitsValue(d) <= INT64_MAX then Some(DigitsValue(d)) else None
  {
    Cons('+', d + t);
    LeadingDigitsAll(d, t);
    Halves(d, t);
    assert SkipSpaces("+" + (d + t)) == "+" + (d + t);
  }

  function Signed(sign: string, d: string): int
    requires AllDigits(d)
  {
    if sign == "-" then -DigitsValue(d) else DigitsValue(d)
  }

  lemma StollSigned(sign: string, d: string, junk: string)
    requires sign in {"", "+", "-"} && d != "" && AllDigits(d) && NoDigit(junk)
    ensures Stoll(sign + (d + junk))
         == if INT64_MIN <= Signed(sign, d) <= INT64_MAX then Some(Signed(sign, d)) else None
  {
    StollDigits(d, junk);
    StollPlus(d, junk);
    StollMinus(d, junk);
    assert "" + (d + junk) == d + junk;
  }

  lemma NumberFails(d: string, rest: string, stod: Stod)
    requires d != "" && StartsNumber(d[0]) && NumberEnd(d + rest) == |d| && '.' !in d && Stoll(d) == None
    ensures Parse(d + rest, stod) == Err(InvalidNumberFormat)
  {
    Halves(d, rest);
    NumberAt(d + rest, stod);
  }

  lemma NumberGiven(d: string, rest: string, stod: Stod, n: int)
    requires d != "" && StartsNumber(d[0]) && NumberEnd(d + rest) == |d| && '.' !in d && Stoll(d) == Some(n)
    ensures Parse(d + rest, stod) == Ok(Integer(n), rest)
  {
    Halves(d, rest);
    NumberIs(d, rest, stod, n);
    NumberAt(d + rest, stod);
  }

  lemma SignedHead(sign: string, d: string, junk: string)
    requires sign in {"", "+", "-"} && d != "" && AllDigits(d)
    requires forall i :: 0 <= i < |junk| ==> junk[i] !in {',', ']', '}', '.'}
    ensures var t := sign + (d + junk);
      t != "" && StartsNumber(t[0]) && forall i :: 0 <= i < |t| ==> t[i] !in {',', ']', '}', '.'}
  {
  }

  /** Any digits behind any sign, leading zeros included: their value if it fits into 64 bits, and
      else an error. */
  lemma NumberRead(sign: string, d: string, junk: string, rest: string, stod: Stod)
    requires sign in {"", "+", "-"} && d != "" && AllDigits(d) && NoDigit(junk) && Stops(rest)
    requires forall i :: 0 <= i < |junk| ==> junk[i] !in {',', ']', '}', '.'}
    ensures Parse(sign + (d + junk) + rest, stod)
         == if INT64_MIN <= Signed(sign, d) <= INT64_MAX then Ok(Integer(Signed(sign, d)), rest)
            else Err(InvalidNumberFormat)
  {
    var t := sign + (d + junk);
    SignedHead(sign, d, junk);
    NumberEndIs(t, rest);
    StollSigned(sign, d, junk);
    if INT64_MIN <= Signed(sign, d) <= INT64_MAX {
      NumberGiven(t, rest, stod, Signed(sign, d));
    } else {
      NumberFails(t, rest, stod);
    }
  }

  /** A number with a point goes to the library call as it stands, up to the next comma or closing
      bracket. */
  lemma RealRead(d: string, rest: string, stod: Stod)
    requires d != "" && StartsNumber(d[0]) && '.' in d && Stops(rest)
    requires forall i :: 0 <= i < |d| ==> d[i] !in {',', ']', '}'}
    ensures Parse(d + rest, stod)
         == match stod(d) case Some(r) => Ok(Real(r), rest) case None => Err(InvalidNumberFormat)
  {
    NumberEndIs(d, rest);
    Halves(d, rest);
    NumberAt(d + rest, stod);
  }

  /** A key must be a string. */
  lemma WrongKey(g: string, d: Doc, tail: string, stod: Stod)
    requires Gap(g) && Proper(d) && !Value(d).Str? && (IsInteger(d) ==> EndsNumber(tail))
    ensures Parse("{" + (g + (Text(d) + tail)), stod) == Err(DictKeyNotString)
  {
    var text := Text(d) + tail;
    Bracketed(g + text, stod);
    GapSkipped(g, text, [], [], stod);
    DocRead(d, tail, stod);
    TextHead(d);
    Halves(Text(d), tail);
    EntryFails(text, [], stod, DictKeyNotString);
  }

  lemma EntryFails(s: string, acc: seq<Entry>, stod: Stod, e: JsonError)
    requires s != "" && !IsBlank(s[0]) && s[0] !in {',', ']', '}'} && ParseEntry(s, stod).0 == Err(e)
    ensures ParseDict(s, acc, stod) == Err(e)
  {
    assert SkipBlanks(s) == s;
  }

  /** An error in the key is the dictionary's. */
  lemma KeyFails(s: string, acc: seq<Entry>, stod: Stod, e: JsonError)
    requires s != "" && !IsBlank(s[0]) && s[0] !in {',', ']', '}'} && Parse(s, stod) == Err(e)
    ensures ParseDict(s, acc, stod) == Err(e)
  {
    EntryFails(s, acc, stod, e);
  }

  /** A colon must follow the key. */
  lemma WrongColon(g: string, key: string, w: string, rest: string, stod: Stod)
    requires Gap(g) && Blanks(w) && (rest == "" || rest[0] !in {' ', '\t', '\n', '\r', '\0', ':'})
    ensures Parse("{" + (g + (Quoted(key) + (w + rest))), stod)
         == Err(if rest == "" then UnexpectedEnd else UnexpectedToken)
  {
    var text := Quoted(key) + (w + rest);
    Bracketed(g + text, stod);
    GapSkipped(g, text, [], [], stod);
    StringRoundTrip(key, w + rest, stod);
    SkipAll(w, rest);
    assert SkipBlanks(rest) == rest;
    EntryFails(text, [], stod, if rest == "" then UnexpectedEnd else UnexpectedToken);
  }

  /** An element's error is the array's. */
  lemma ElementFails(s: string, acc: seq<JsonValue>, stod: Stod, e: JsonError)
    requires s != "" && !IsBlank(s[0]) && s[0] !in {',', ']'} && Parse(s, stod) == Err(e)
    ensures ParseArray(s, acc, stod) == Err(e)
  {
    assert SkipBlanks(s) == s;
  }
}
