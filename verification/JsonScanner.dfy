/** The string scanner of the JSON parser: a machine with six phases that is fed one byte at
    a time after the opening quote.  Phase 0 copies, phase 1 follows a backslash, phases 2 to 5
    collect four hex digits. */
module JsonScanner {
  import opened JsonValues
  import Utf8
  import opened Wrappers

  datatype State = State(phase: int, hex: int, lasthex: int, str: string)

  datatype Step = Next(st: State) | Stop | Fail

  const START := State(0, 0, 0, "")

  function ControlEscape(c: char): char {
    if c == 'n' then 10 as char
    else if c == 't' then 9 as char
    else if c == '0' then 0 as char
    else if c == 'r' then 13 as char
    else if c == 'v' then 11 as char
    else if c == 'f' then 12 as char
    else if c == 'b' then 8 as char
    else if c == 'a' then 7 as char
    else c
  }

  /** A byte that is no hex digit counts as 0. */
  function HexDigit(c: char): (d: int)
    ensures 0 <= d < 16
  {
    if '0' <= c <= '9' then c as int - '0' as int
    else if 'a' <= c <= 'f' then c as int - 'a' as int + 10
    else if 'A' <= c <= 'F' then c as int - 'A' as int + 10
    else 0
  }

  /** The UTF-8 bytes pushed for a code point; none if it is out of range.  The bit operations
      of the original work on disjoint bits and are written as sums. */
  function Encode(cp: int): Option<string>
    requires 0 <= cp
  {
    if cp <= 0x7F then Some([cp as char])
    else if cp <= 0x7FF then Some([(0xC0 + cp / 0x40) as char, (0x80 + cp % 0x40) as char])
    else if cp <= 0xFFFF then
      Some([(0xE0 + cp / 0x1000) as char, (0x80 + cp / 0x40 % 0x40) as char, (0x80 + cp % 0x40) as char])
    else if cp <= 0x10FFFF then
      Some([(0xF0 + cp / 0x4_0000) as char, (0x80 + cp / 0x1000 % 0x40) as char,
            (0x80 + cp / 0x40 % 0x40) as char, (0x80 + cp % 0x40) as char])
    else None
  }

  function Push(st: State, cp: int): Step
    requires 0 <= cp
  {
    match Encode(cp)
    case Some(bytes) => Next(State(0, cp, st.lasthex, st.str + bytes))
    case None => Fail
  }

  /** The fourth hex digit of an escape. */
  function FourthDigit(st: State, hex: int): Step
    requires 0 <= hex && (st.lasthex == 0 || 0xD800 <= st.lasthex)
  {
    if 0xD800 <= hex < 0xDC00 then
      if st.lasthex == 0 then Next(State(2, 0, hex, st.str)) else Fail
    else if 0xDC00 <= hex < 0xE000 then
      if st.lasthex != 0 then
        Push(st.(lasthex := 0), 0x1_0000 + (st.lasthex - 0xD800) * 0x400 + (hex - 0xDC00))
      else Fail
    else Push(st, hex)
  }

  /** What the scanner's variables satisfy at every byte. */
  predicate Inv(st: State) {
    && 0 <= st.phase <= 5 && (st.lasthex == 0 || 0xD800 <= st.lasthex < 0xDC00)
    && (st.phase == 2 ==> st.hex == 0)
    && (st.phase == 3 ==> 0 <= st.hex < 0x10)
    && (st.phase == 4 ==> 0 <= st.hex < 0x100)
    && (st.phase == 5 ==> 0 <= st.hex < 0x1000)
  }

  function Feed(st: State, c: char): Step
    requires Inv(st)
  {
    if st.phase == 0 then
      if c == '"' then Stop
      else if c == '\\' then Next(st.(phase := 1))
      else Next(st.(str := st.str + [c]))
    else if st.phase == 1 then
      if c == 'u' then Next(State(2, 0, 0, st.str))
      else Next(st.(phase := 0, str := st.str + [ControlEscape(c)]))
    else
      var hex := (st.hex * 16 + HexDigit(c)) % 0x1_0000_0000;
      if st.phase == 5 then FourthDigit(st, hex) else Next(st.(phase := st.phase + 1, hex := hex))
  }

  lemma FeedKeepsInv(st: State, c: char)
    requires Inv(st)
    ensures Feed(st, c).Next? ==> Inv(Feed(st, c).st)
  {
  }

  datatype Scanned = Done(str: string, rest: string) | Failed(error: JsonError)

  /** The whole scan of `s`, which follows the opening quote. */
  function Scan(s: string, st: State): Scanned
    requires Inv(st)
  {
    if s == "" then Failed(NonTerminatedString)
    else
      FeedKeepsInv(st, s[0]);
      match Feed(st, s[0])
      case Stop => Done(st.str, s[1..])
      case Fail => Failed(InvalidUTF16String)
      case Next(st') => Scan(s[1..], st')
  }

  // ---------------------------------------------------------------- UTF-8

  ghost predicate Encodes(bytes: string, cp: int) {
    Utf8.HeadLength(bytes) == |bytes| > 0 && Utf8.WellFormed(bytes) && Utf8.DecodeHead(bytes) == cp
  }

  lemma EncodeUpToTwo(cp: int)
    requires 0 <= cp <= 0x7FF
    ensures Encode(cp).Some? && Encodes(Encode(cp).value, cp)
  {
  }

  lemma SixBits(n: int)
    requires 0 <= n
    ensures n == n / 0x40 * 0x40 + n % 0x40 && 0 <= n % 0x40 < 0x40
    ensures n / 0x40 / 0x40 == n / 0x1000 && n / 0x1000 / 0x40 == n / 0x4_0000
  {
  }

  lemma EncodeThree(cp: int)
    requires 0x7FF < cp <= 0xFFFF && Utf8.Scalar(cp)
    ensures Encode(cp).Some? && Encodes(Encode(cp).value, cp)
  {
  }

  lemma FourBytes(a: int, b: int, c: int, d: int, cp: int)
    requires 0 <= a < 8 && 0 <= b < 0x40 && 0 <= c < 0x40 && 0 <= d < 0x40
    requires cp == a * 0x4_0000 + b * 0x1000 + c * 0x40 + d && 0xFFFF < cp <= 0x10FFFF
    ensures Encodes([(0xF0 + a) as char, (0x80 + b) as char, (0x80 + c) as char, (0x80 + d) as char], cp)
  {
  }

  lemma EncodeFour(cp: int)
    requires 0xFFFF < cp <= 0x10FFFF
    ensures Encode(cp).Some? && Encodes(Encode(cp).value, cp)
  {
    SixBits(cp);
    SixBits(cp / 0x40);
    SixBits(cp / 0x1000);
    FourBytes(cp / 0x4_0000, cp / 0x1000 % 0x40, cp / 0x40 % 0x40, cp % 0x40, cp);
  }

  /** Every scalar is pushed as exactly its own complete, shortest encoding. */
  lemma EncodeScalar(cp: int)
    requires Utf8.Scalar(cp)
    ensures Encode(cp).Some? && Encodes(Encode(cp).value, cp)
  {
    if cp <= 0x7FF { EncodeUpToTwo(cp); } else if cp <= 0xFFFF { EncodeThree(cp); } else { EncodeFour(cp); }
  }

  /** The number that the escape completed by `c` stands for. */
  function CodePoint(st: State, c: char): int {
    var hex := st.hex * 16 + HexDigit(c);
    if 0xDC00 <= hex < 0xE000 then 0x1_0000 + (st.lasthex - 0xD800) * 0x400 + (hex - 0xDC00) else hex
  }

  /** The escape completed by `c` is a low surrogate with no high one before it, or a second high
      one. */
  predicate Rejected(st: State, c: char) {
    var hex := st.hex * 16 + HexDigit(c);
    (0xD800 <= hex < 0xDC00 && st.lasthex != 0) || (0xDC00 <= hex < 0xE000 && st.lasthex == 0)
  }

  /** It is a first high surrogate. */
  predicate HighSurrogate(st: State, c: char) {
    0xD800 <= st.hex * 16 + HexDigit(c) < 0xDC00 && st.lasthex == 0
  }

  /** It is no surrogate although a high one has been remembered. */
  predicate Dropped(st: State, c: char) {
    st.lasthex != 0 && !(0xD800 <= st.hex * 16 + HexDigit(c) < 0xE000)
  }

  lemma CodePointIsScalar(st: State, c: char)
    requires Inv(st) && st.phase == 5 && !Rejected(st, c) && !HighSurrogate(st, c)
    ensures Utf8.Scalar(CodePoint(st, c))
  {
  }

  lemma NoOverflow(hex: int, d: int)
    requires 0 <= hex < 0x1000 && 0 <= d < 16
    ensures (hex * 16 + d) % 0x1_0000_0000 == hex * 16 + d
  {
  }

  lemma FourthDigitIs(st: State, c: char)
    requires Inv(st) && st.phase == 5
    ensures Feed(st, c) == FourthDigit(st, st.hex * 16 + HexDigit(c))
  {
    NoOverflow(st.hex, HexDigit(c));
  }

  /** A complete escape is rejected, which is the only way to fail, or remembers a first high
      surrogate, or pushes a scalar.  In particular the branch for numbers beyond the code space
      is never taken.  A high surrogate before a number that is no surrogate is no error: nothing is
      pushed for it. */
  lemma EscapesPushScalars(st: State, c: char)
    requires Inv(st) && st.phase == 5
    ensures Feed(st, c) == Fail <==> Rejected(st, c)
    ensures HighSurrogate(st, c) ==> Feed(st, c) == Next(State(2, 0, st.hex * 16 + HexDigit(c), st.str))
    ensures !Rejected(st, c) && !HighSurrogate(st, c) ==>
      var cp := CodePoint(st, c);
      && Utf8.Scalar(cp) && Encode(cp).Some?
      && Feed(st, c).Next? && Feed(st, c).st.phase == 0 && Feed(st, c).st.str == st.str + Encode(cp).value
    ensures Dropped(st, c) ==>
      var hex := st.hex * 16 + HexDigit(c);
      && Utf8.Scalar(hex) && Encode(hex).Some?
      && Feed(st, c) == Next(State(0, hex, st.lasthex, st.str + Encode(hex).value))
  {
    FourthDigitIs(st, c);
    if !Rejected(st, c) && !HighSurrogate(st, c) {
      CodePointIsScalar(st, c);
      EncodeScalar(CodePoint(st, c));
    }
  }

  lemma FeedWellFormed(st: State, c: char)
    requires Inv(st) && Utf8.WellFormed(st.str) && c as int < 0x80
    ensures Feed(st, c).Next? ==> Utf8.WellFormed(Feed(st, c).st.str)
  {
    if st.phase < 2 {
      Utf8.Append(st.str, [c]);
      Utf8.Append(st.str, [ControlEscape(c)]);
    } else if st.phase == 5 {
      EscapesPushScalars(st, c);
      if Feed(st, c).Next? && Feed(st, c).st.phase == 0 {
        EncodeScalar(CodePoint(st, c));
        Utf8.Append(st.str, Encode(CodePoint(st, c)).value);
      }
    }
  }

  /** From pure ASCII text only well-formed UTF-8 strings are accepted. */
  lemma {:induction false} ScanWellFormed(s: string, st: State)
    requires Inv(st) && Utf8.WellFormed(st.str) && Utf8.Ascii(s)
    ensures Scan(s, st).Done? ==> Utf8.WellFormed(Scan(s, st).str)
  {
    if s != "" {
      FeedKeepsInv(st, s[0]);
      FeedWellFormed(st, s[0]);
      if Feed(st, s[0]).Next? {
        ScanWellFormed(s[1..], Feed(st, s[0]).st);
      }
    }
  }

  /** A finished scan leaves a proper suffix. */
  lemma {:induction false} ScanSuffix(s: string, st: State)
    requires Inv(st)
    ensures Scan(s, st).Done? ==>
      var rest := Scan(s, st).rest; |rest| < |s| && rest == s[|s| - |rest|..]
  {
    if s != "" {
      FeedKeepsInv(st, s[0]);
      if Feed(st, s[0]).Next? { ScanSuffix(s[1..], Feed(st, s[0]).st); }
    }
  }

  lemma {:induction false} ScanFails(s: string, st: State)
    requires Inv(st)
    ensures Scan(s, st).Failed? ==> Scan(s, st).error in {NonTerminatedString, InvalidUTF16String}
  {
    if s != "" {
      FeedKeepsInv(st, s[0]);
      if Feed(st, s[0]).Next? { ScanFails(s[1..], Feed(st, s[0]).st); }
    }
  }

  /** The part of the loop after the fourth hex digit. */
  method CompleteEscape(st: State, digits: int) returns (ok: bool, phase: int, hex: int, lasthex: int, str: string)
    requires 0 <= digits && (st.lasthex == 0 || 0xD800 <= st.lasthex)
    ensures FourthDigit(st, digits) == if ok then Next(State(phase, hex, lasthex, str)) else Fail
  {
    ok, phase, hex, lasthex, str := false, 0, digits, st.lasthex, st.str;
    if 0xD800 <= hex < 0xDC00 {
      if lasthex != 0 { return; }
      ok, phase, lasthex, hex := true, 2, hex, 0;
      return;
    } else if 0xDC00 <= hex < 0xE000 {
      if lasthex == 0 { return; }
      hex := 0x1_0000 + (lasthex - 0xD800) * 0x400 + (hex - 0xDC00);
      lasthex := 0;
    }
    var bytes := Encode(hex);
    if bytes == None { return; }
    str := str + bytes.value;
    ok := true;
  }

  /** The scanning loop of the parser. */
  method ScanString(json: string) returns (str: Option<string>, rest: string, ec: JsonError)
    ensures match Scan(json, START)
            case Done(s, r) => str == Some(s) && rest == r && ec == Success
            case Failed(e) => str == None && ec == e
  {
    rest := json;
    var phase, lasthex, hex, s := 0, 0, 0, "";
    var i := 0;
    while i < |json|
      invariant 0 <= i <= |json| && Inv(State(phase, hex, lasthex, s))
      invariant Scan(json, START) == Scan(json[i..], State(phase, hex, lasthex, s))
    {
      var c := json[i];
      FeedKeepsInv(State(phase, hex, lasthex, s), c);
      assert json[i..][0] == c && json[i..][1..] == json[i + 1..];
      i := i + 1;
      if phase == 0 {
        if c == '"' {
          return Some(s), json[i..], Success;
        } else if c == '\\' {
          phase := 1;
        } else {
          s := s + [c];
        }
      } else if phase == 1 {
        if c == 'u' {
          phase, hex, lasthex := 2, 0, 0;
        } else {
          s := s + [ControlEscape(c)];
          phase := 0;
        }
      } else {
        var digits := (hex * 16 + HexDigit(c)) % 0x1_0000_0000;
        if phase == 5 {
          var ok;
          ok, phase, hex, lasthex, s := CompleteEscape(State(phase, hex, lasthex, s), digits);
          if !ok { return None, rest, InvalidUTF16String; }
        } else {
          phase, hex := phase + 1, digits;
        }
      }
    }
    return None, rest, NonTerminatedString;
  }
}
