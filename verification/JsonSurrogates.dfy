/** Surrogate pairs in JSON strings, in the form the scanner expects and in the standard one. */
module JsonSurrogates {
  import opened JsonParsing
  import opened JsonRoundTrips
  import opened JsonScanner
  import opened JsonValues
  import Utf8
  import opened Wrappers

  function Hex4(a: char, b: char, c: char, d: char): int {
    ((HexDigit(a) * 16 + HexDigit(b)) * 16 + HexDigit(c)) * 16 + HexDigit(d)
  }

  lemma OneDigit(c: char, tail: string, st: State)
    requires Inv(st) && 2 <= st.phase < 5
    ensures Inv(State(st.phase + 1, st.hex * 16 + HexDigit(c), st.lasthex, st.str))
    ensures Scan([c] + tail, st) == Scan(tail, State(st.phase + 1, st.hex * 16 + HexDigit(c), st.lasthex, st.str))
  {
    MiddleDigit(c, st);
    Cons(c, tail);
    ScanStep([c] + tail, st);
  }

  lemma LastDigit(c: char, tail: string, st: State)
    requires Inv(st) && st.phase == 5 && FourthDigit(st, st.hex * 16 + HexDigit(c)).Next?
    ensures Inv(FourthDigit(st, st.hex * 16 + HexDigit(c)).st)
    ensures Scan([c] + tail, st) == Scan(tail, FourthDigit(st, st.hex * 16 + HexDigit(c)).st)
  {
    FourthDigitIs(st, c);
    Cons(c, tail);
    ScanStep([c] + tail, st);
  }

  lemma ThreeDigits(a: char, b: char, c: char, tail: string, st: State)
    requires Inv(st) && st.phase == 2
    ensures var s3 := State(5, (HexDigit(a) * 16 + HexDigit(b)) * 16 + HexDigit(c), st.lasthex, st.str);
      Inv(s3) && Scan([a] + ([b] + ([c] + tail)), st) == Scan(tail, s3)
  {
    OneDigit(a, [b] + ([c] + tail), st);
    OneDigit(b, [c] + tail, State(3, HexDigit(a), st.lasthex, st.str));
    OneDigit(c, tail, State(4, HexDigit(a) * 16 + HexDigit(b), st.lasthex, st.str));
  }

  /** What the fourth digit does does not depend on the phase or on the digits before it
      other than through the number. */
  lemma FourthDigitSame(st: State, s3: State, hex: int)
    requires 0 <= hex && (st.lasthex == 0 || 0xD800 <= st.lasthex) && s3.lasthex == st.lasthex && s3.str == st.str
    ensures FourthDigit(s3, hex) == FourthDigit(st, hex)
  {
  }

  /** Four characters in the place of hex digits. */
  lemma FourDigits(a: char, b: char, c: char, d: char, tail: string, st: State)
    requires Inv(st) && st.phase == 2 && FourthDigit(st, Hex4(a, b, c, d)).Next?
    ensures Inv(FourthDigit(st, Hex4(a, b, c, d)).st)
    ensures Scan([a] + ([b] + ([c] + ([d] + tail))), st) == Scan(tail, FourthDigit(st, Hex4(a, b, c, d)).st)
  {
    var s3 := State(5, (HexDigit(a) * 16 + HexDigit(b)) * 16 + HexDigit(c), st.lasthex, st.str);
    ThreeDigits(a, b, c, [d] + tail, st);
    FourthDigitSame(st, s3, Hex4(a, b, c, d));
    LastDigit(d, tail, s3);
  }

  /** The number a surrogate pair stands for. */
  function PairValue(high: int, low: int): int { 0x1_0000 + (high - 0xD800) * 0x400 + (low - 0xDC00) }

  lemma LowSurrogate(high: int, low: int, str: string)
    requires 0xD800 <= high < 0xDC00 <= low < 0xE000 && Encode(PairValue(high, low)).Some?
    ensures FourthDigit(State(2, 0, high, str), low)
         == Next(State(0, PairValue(high, low), 0, str + Encode(PairValue(high, low)).value))
  {
  }

  /** After the escape of a high surrogate, four digits of a low one complete the pair: the
      encoding of the scalar that the pair stands for is pushed. */
  lemma PairDecodes(high: int, a: char, b: char, c: char, d: char, tail: string, str: string)
    requires 0xD800 <= high < 0xDC00 <= Hex4(a, b, c, d) < 0xE000
    ensures var cp := PairValue(high, Hex4(a, b, c, d));
      && 0x1_0000 <= cp <= 0x10FFFF && Encode(cp).Some? && Encodes(Encode(cp).value, cp)
      && Scan([a] + ([b] + ([c] + ([d] + tail))), State(2, 0, high, str))
         == Scan(tail, State(0, cp, 0, str + Encode(cp).value))
  {
    var low := Hex4(a, b, c, d);
    EncodeScalar(PairValue(high, low));
    LowSurrogate(high, low, str);
    FourDigits(a, b, c, d, tail, State(2, 0, high, str));
  }

  /** A second escape in that place, as section 7 of RFC 8259 has it, is misread: its backslash
      and its `u` count as digits, so its first two digits alone make a character below U+0100,
      and its other digits follow as text. */
  lemma StandardPairMisread(high: int, c: char, d: char, tail: string, str: string)
    requires 0xD800 <= high < 0xDC00
    ensures var cp := HexDigit(c) * 16 + HexDigit(d);
      && 0 <= cp < 0x100 && Encode(cp).Some?
      && Scan("\\" + ("u" + ([c] + ([d] + tail))), State(2, 0, high, str))
         == Scan(tail, State(0, cp, high, str + Encode(cp).value))
  {
    assert Hex4('\\', 'u', c, d) == HexDigit(c) * 16 + HexDigit(d);
    EncodeScalar(Hex4('\\', 'u', c, d));
    FourDigits('\\', 'u', c, d, tail, State(2, 0, high, str));
  }

  /** Between escapes the numbers of the last one do not matter. */
  lemma {:induction false} HexForgotten(s: string, st: State, st': State)
    requires Inv(st) && Inv(st') && st.phase == st'.phase <= 1 && st.str == st'.str
    ensures Scan(s, st) == Scan(s, st')
  {
    if s != "" {
      var a, b := Feed(st, s[0]), Feed(st', s[0]);
      FeedKeepsInv(st, s[0]);
      FeedKeepsInv(st', s[0]);
      if a.Next? && a.st.phase <= 1 { HexForgotten(s[1..], a.st, b.st); }
    }
  }

  /** The text of an escape behind its backslash. */
  function Escaped(a: char, b: char, c: char, d: char, tail: string): string {
    "u" + ([a] + ([b] + ([c] + ([d] + tail))))
  }

  /** An escape that does not fail. */
  lemma ScanEscaped4(a: char, b: char, c: char, d: char, tail: string, st: State)
    requires Inv(st) && st.phase == 1 && FourthDigit(State(2, 0, 0, st.str), Hex4(a, b, c, d)).Next?
    ensures Inv(FourthDigit(State(2, 0, 0, st.str), Hex4(a, b, c, d)).st)
    ensures Scan(Escaped(a, b, c, d, tail), st) == Scan(tail, FourthDigit(State(2, 0, 0, st.str), Hex4(a, b, c, d)).st)
  {
    Cons('u', [a] + ([b] + ([c] + ([d] + tail))));
    ScanStep(Escaped(a, b, c, d, tail), st);
    FourDigits(a, b, c, d, tail, State(2, 0, 0, st.str));
  }

  lemma FirstHigh(high: int, str: string)
    requires 0xD800 <= high < 0xDC00
    ensures FourthDigit(State(2, 0, 0, str), high) == Next(State(2, 0, high, str))
  {
  }

  lemma Plain(lasthex: int, cp: int, str: string)
    requires Utf8.Scalar(cp) && cp <= 0xFFFF && (lasthex == 0 || 0xD800 <= lasthex < 0xDC00)
    ensures Encode(cp).Some? && Encodes(Encode(cp).value, cp)
    ensures FourthDigit(State(2, 0, lasthex, str), cp) == Next(State(0, cp, lasthex, str + Encode(cp).value))
  {
    EncodeScalar(cp);
  }

  /** The escape of a high surrogate and four digits of no surrogate: the high one leaves no trace,
      and the text reads like the escape of the second number alone. */
  lemma HighDropped(a: char, b: char, c: char, d: char, e: char, f: char, g: char, h: char, tail: string, st: State)
    requires Inv(st) && st.phase == 1 && 0xD800 <= Hex4(a, b, c, d) < 0xDC00
    requires !(0xD800 <= Hex4(e, f, g, h) < 0xE000)
    ensures Scan(Escaped(a, b, c, d, [e] + ([f] + ([g] + ([h] + tail)))), st) == Scan(Escaped(e, f, g, h, tail), st)
  {
    var high, cp := Hex4(a, b, c, d), Hex4(e, f, g, h);
    var digits := [e] + ([f] + ([g] + ([h] + tail)));
    FirstHigh(high, st.str);
    ScanEscaped4(a, b, c, d, digits, st);
    Plain(high, cp, st.str);
    FourDigits(e, f, g, h, tail, State(2, 0, high, st.str));
    Plain(0, cp, st.str);
    ScanEscaped4(e, f, g, h, tail, st);
    HexForgotten(tail, State(0, cp, high, st.str + Encode(cp).value), State(0, cp, 0, st.str + Encode(cp).value));
  }

  /** A number `x` after the high surrogate `high` pushes what the pair of `high` and some low
      surrogate stands for. */
  ghost predicate PushesPair(high: int, x: int, str: string)
    requires 0xD800 <= high < 0xDC00 && 0 <= x
  {
    var step := FourthDigit(State(2, 0, high, str), x);
    exists low :: 0xDC00 <= low < 0xE000 && Encode(PairValue(high, low)).Some? && step.Next?
      && step.st.str == str + Encode(PairValue(high, low)).value
  }

  lemma PairIsLong(high: int, low: int)
    requires 0xD800 <= high < 0xDC00 <= low < 0xE000
    ensures Encode(PairValue(high, low)).Some? && |Encode(PairValue(high, low)).value| == 4
  {
  }

  lemma SecondHighFails(a: char, b: char, c: char, d: char, tail: string, st: State)
    requires Inv(st) && st.phase == 2 && st.lasthex != 0 && 0xD800 <= Hex4(a, b, c, d) < 0xDC00
    ensures Scan([a] + ([b] + ([c] + ([d] + tail))), st) == Failed(InvalidUTF16String)
  {
    var s3 := State(5, (HexDigit(a) * 16 + HexDigit(b)) * 16 + HexDigit(c), st.lasthex, st.str);
    ThreeDigits(a, b, c, [d] + tail, st);
    FourthDigitIs(s3, d);
    Cons(d, tail);
  }

  /** After a high surrogate the next four digits push a pair's scalar exactly if they spell a low
      surrogate; another high one is an error, and any other number stands alone. */
  lemma AfterHigh(high: int, a: char, b: char, c: char, d: char, tail: string, str: string)
    requires 0xD800 <= high < 0xDC00
    ensures var x := Hex4(a, b, c, d);
      && (PushesPair(high, x, str) <==> 0xDC00 <= x < 0xE000)
      && (0xD800 <= x < 0xDC00 ==>
            Scan([a] + ([b] + ([c] + ([d] + tail))), State(2, 0, high, str)) == Failed(InvalidUTF16String))
      && (!(0xD800 <= x < 0xE000) ==>
            && Encode(x).Some? && Encodes(Encode(x).value, x)
            && Scan([a] + ([b] + ([c] + ([d] + tail))), State(2, 0, high, str))
               == Scan(tail, State(0, x, high, str + Encode(x).value)))
  {
    var x := Hex4(a, b, c, d);
    if 0xD800 <= x < 0xDC00 { SecondHighFails(a, b, c, d, tail, State(2, 0, high, str)); }
    if 0xDC00 <= x < 0xE000 {
      PairIsLong(high, x);
      LowSurrogate(high, x, str);
    } else if !(0xD800 <= x < 0xDC00) {
      Plain(high, x, str);
      FourDigits(a, b, c, d, tail, State(2, 0, high, str));
      forall low | 0xDC00 <= low < 0xE000
        ensures Encode(PairValue(high, low)).Some? && str + Encode(x).value != str + Encode(PairValue(high, low)).value
      {
        PairIsLong(high, low);
      }
    }
  }

  /** The escape D83D with the digits 0041 and the closing quote behind it. */
  function DroppedText(): string { Escaped('D', '8', '3', 'D', "0" + ("0" + ("4" + ("1" + "\"")))) }

  lemma DroppedScan()
    ensures Scan(DroppedText(), State(1, 0, 0, "")) == Done("A", "")
  {
    var esc := State(1, 0, 0, "");
    assert Hex4('D', '8', '3', 'D') == 0xD83D && Hex4('0', '0', '4', '1') == 0x41;
    HighDropped('D', '8', '3', 'D', '0', '0', '4', '1', "\"", esc);
    Plain(0, 0x41, "");
    ScanEscaped4('0', '0', '4', '1', "\"", esc);
    assert Encode(0x41) == Some(['A']) && "" + ['A'] == "A";
  }

  lemma DroppedSpelled()
    ensures "\"\\uD83D0041\"" == "\"" + ("\\" + DroppedText())
  {
  }

  /** For example that string literal is "A". */
  lemma DroppedLiteral(stod: Stod)
    ensures Parse("\"\\uD83D0041\"", stod) == Ok(Str("A"), "")
  {
    var s := "\\" + DroppedText();
    DroppedSpelled();
    DroppedScan();
    Cons('\\', DroppedText());
    ScanStep(s, START);
    QuoteAt(s, stod, "A", "");
  }
}
