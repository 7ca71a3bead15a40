/** The recursive JSON parser.  `stod`, the library call that reads a real number, is a
    parameter: it gives none when it throws. */
module JsonParsing {
  import opened JsonScanner
  import opened JsonValues
  import Utf8
  import opened Wrappers

  type Stod = string -> Option<real>

  datatype Parsed = Ok(value: JsonValue, rest: string) | Err(error: JsonError)

  predicate IsBlank(c: char) { c == ' ' || c == '\t' || c == '\n' || c == '\r' || c == '\0' }

  function SkipBlanks(s: string): (t: string)
    ensures |t| <= |s| && (t != "" ==> !IsBlank(t[0]))
  {
    if s != "" && IsBlank(s[0]) then SkipBlanks(s[1..]) else s
  }

  lemma {:induction false} SkipBlanksSuffix(s: string)
    ensures IsSuffix(SkipBlanks(s), s)
  {
    if s != "" && IsBlank(s[0]) { SkipBlanksSuffix(s[1..]); }
  }

  /** The length of the text up to the first `,`, `]` or `}`. */
  function NumberEnd(s: string): (n: nat)
    ensures n <= |s|
  {
    if s == "" || s[0] in {',', ']', '}'} then 0 else 1 + NumberEnd(s[1..])
  }

  predicate IsDigit(c: char) { '0' <= c <= '9' }

  function LeadingDigits(s: string): (n: nat)
    ensures n <= |s| && forall i :: 0 <= i < n ==> IsDigit(s[i])
  {
    if s != "" && IsDigit(s[0]) then 1 + LeadingDigits(s[1..]) else 0
  }

  function DigitsValue(s: string): (v: int)
    requires forall i :: 0 <= i < |s| ==> IsDigit(s[i])
    ensures 0 <= v
  {
    if s == "" then 0
    else
      assert IsDigit(s[|s| - 1]);
      10 * DigitsValue(s[..|s| - 1]) + (s[|s| - 1] as int - '0' as int)
  }

  /** The library call that reads a 64-bit integer: blanks, a sign, digits; what follows is
      ignored.  No digits or a number out of range is an error. */
  function Stoll(s: string): Option<int> {
    var t := SkipSpaces(s);
    var signed := t != "" && (t[0] == '-' || t[0] == '+');
    var u := if signed then t[1..] else t;
    var n := LeadingDigits(u);
    if n == 0 then None
    else
      var v := DigitsValue(u[..n]);
      var w := if signed && t[0] == '-' then -v else v;
      if INT64_MIN <= w <= INT64_MAX then Some(w) else None
  }

  function SkipSpaces(s: string): string {
    if s != "" && (s[0] == ' ' || 9 <= s[0] as int <= 13) then SkipSpaces(s[1..]) else s
  }

  function ParseNumber(s: string, stod: Stod): Parsed {
    var end := NumberEnd(s);
    var str := s[..end];
    if '.' in str then
      match stod(str)
      case Some(r) => Ok(Real(r), s[end..])
      case None => Err(InvalidNumberFormat)
    else
      match Stoll(str)
      case Some(n) => Ok(Integer(n), s[end..])
      case None => Err(InvalidNumberFormat)
  }

  function ParseWord(s: string, word: string, value: JsonValue): Parsed {
    if word <= s then Ok(value, s[|word|..]) else Err(UnexpectedToken)
  }

  predicate StartsNumber(c: char) { IsDigit(c) || c == '.' || c == '-' || c == '+' }

  predicate Shorter(p: Parsed, s: string) { p.Ok? ==> |p.rest| < |s| }

  /** Everything but dictionaries and arrays; `t` does not start with a blank. */
  function ParseScalar(t: string, stod: Stod): (p: Parsed)
    requires t != ""
    ensures Shorter(p, t)
  {
    if t[0] == '"' then
      ScanSuffix(t[1..], START);
      match Scan(t[1..], START)
      case Done(str, rest) => Ok(Str(str), rest)
      case Failed(e) => Err(e)
    else if StartsNumber(t[0]) then ParseNumber(t, stod)
    else if t[0] == 't' then ParseWord(t, "true", Boolean(true))
    else if t[0] == 'f' then ParseWord(t, "false", Boolean(false))
    else if t[0] == 'n' then ParseWord(t, "null", Null)
    else Err(UnexpectedToken)
  }

  function Parse(s: string, stod: Stod): (p: Parsed)
    ensures Shorter(p, s)
    decreases |s|, 0
  {
    var t := SkipBlanks(s);
    if t == "" then Err(UnexpectedEnd)
    else if t[0] == '{' then ParseDict(t[1..], [], stod)
    else if t[0] == '[' then ParseArray(t[1..], [], stod)
    else ParseScalar(t, stod)
  }

  /** The loop over array elements; commas are skipped wherever they stand. */
  function ParseArray(s: string, acc: seq<JsonValue>, stod: Stod): (p: Parsed)
    ensures Shorter(p, s)
    decreases |s|, 1
  {
    var t := SkipBlanks(s);
    if t == "" then Err(UnexpectedEnd)
    else if t[0] == ']' then Ok(Arr(acc), t[1..])
    else if t[0] == ',' then ParseArray(t[1..], acc, stod)
    else
      match Parse(t, stod)
      case Err(e) => Err(e)
      case Ok(v, rest) => ParseArray(rest, acc + [v], stod)
  }

  /** Key, colon and value of one dictionary entry. */
  function ParseEntry(t: string, stod: Stod): (p: (Parsed, string))
    ensures Shorter(p.0, t)
    decreases |t|, 1
  {
    match Parse(t, stod)
    case Err(e) => (Err(e), "")
    case Ok(key, rest) =>
      if !key.Str? then (Err(DictKeyNotString), "")
      else
        var u := SkipBlanks(rest);
        if u == "" then (Err(UnexpectedEnd), "")
        else if u[0] != ':' then (Err(UnexpectedToken), "")
        else (Parse(u[1..], stod), key.s)
  }

  function ParseDict(s: string, acc: seq<Entry>, stod: Stod): (p: Parsed)
    ensures Shorter(p, s)
    decreases |s|, 2
  {
    var t := SkipBlanks(s);
    if t == "" then Err(UnexpectedEnd)
    else if t[0] == '}' then Ok(Dict(acc), t[1..])
    else if t[0] == ',' then ParseDict(t[1..], acc, stod)
    else
      match ParseEntry(t, stod)
      case (Err(e), _) => Err(e)
      case (Ok(v, rest), key) => ParseDict(rest, Emplace(acc, Entry(key, v)), stod)
  }

  // ---------------------------------------------------------------- outcome

  ghost predicate IsSuffix(r: string, s: string) { |r| <= |s| && r == s[|s| - |r|..] }

  lemma SuffixTransitive(a: string, b: string, c: string)
    requires IsSuffix(a, b) && IsSuffix(b, c)
    ensures IsSuffix(a, c)
  {
  }

  lemma HeadSuffix(s: string, t: string)
    requires t == SkipBlanks(s)
    ensures IsSuffix(t, s) && (t != "" ==> IsSuffix(t[1..], s))
  {
    SkipBlanksSuffix(s);
  }

  /** Either a value together with a suffix of the input, or a real error. */
  ghost predicate Sound(p: Parsed, s: string) {
    match p
    case Ok(_, rest) => |rest| < |s| && IsSuffix(rest, s)
    case Err(e) => e != Success
  }

  lemma Extend(p: Parsed, t: string, s: string)
    requires Sound(p, t) && IsSuffix(t, s)
    ensures Sound(p, s)
  {
  }

  lemma ScalarSound(t: string, stod: Stod)
    requires t != ""
    ensures Sound(ParseScalar(t, stod), t)
  {
    if t[0] == '"' {
      ScanSuffix(t[1..], START);
      ScanFails(t[1..], START);
    }
  }

  /** A successful parse leaves a proper suffix of its input; a failing one has an error code. */
  lemma {:induction false} ParseSound(s: string, stod: Stod)
    ensures Sound(Parse(s, stod), s)
    decreases |s|, 0
  {
    var t := SkipBlanks(s);
    HeadSuffix(s, t);
    if t == "" {
    } else if t[0] == '{' {
      ParseDictSound(t[1..], [], stod);
      Extend(ParseDict(t[1..], [], stod), t[1..], s);
    } else if t[0] == '[' {
      ParseArraySound(t[1..], [], stod);
      Extend(ParseArray(t[1..], [], stod), t[1..], s);
    } else {
      ScalarSound(t, stod);
      Extend(ParseScalar(t, stod), t, s);
    }
  }

  /** A first parse `p` and, if it succeeds, one of the rest. */
  lemma Chain(p: Parsed, q: Parsed, t: string, s: string)
    requires IsSuffix(t, s) && Sound(p, t) && (p.Ok? ==> Sound(q, p.rest))
    ensures Sound(if p.Ok? then q else p, s)
  {
    if p.Ok? {
      SuffixTransitive(p.rest, t, s);
      Extend(q, p.rest, s);
    } else {
      Extend(p, t, s);
    }
  }

  lemma {:induction false} ParseArraySound(s: string, acc: seq<JsonValue>, stod: Stod)
    ensures Sound(ParseArray(s, acc, stod), s)
    decreases |s|, 1
  {
    var t := SkipBlanks(s);
    HeadSuffix(s, t);
    if t == "" || t[0] == ']' {
    } else if t[0] == ',' {
      ParseArraySound(t[1..], acc, stod);
      Extend(ParseArray(t[1..], acc, stod), t[1..], s);
    } else {
      ParseSound(t, stod);
      var p := Parse(t, stod);
      var q := p;
      if p.Ok? {
        ParseArraySound(p.rest, acc + [p.value], stod);
        q := ParseArray(p.rest, acc + [p.value], stod);
      }
      Chain(p, q, t, s);
    }
  }

  lemma BehindColon(r: string, u: string)
    requires u == SkipBlanks(r) && u != ""
    ensures IsSuffix(u[1..], r)
  {
    HeadSuffix(r, u);
  }

  lemma {:induction false} ParseEntrySound(t: string, stod: Stod)
    ensures Sound(ParseEntry(t, stod).0, t)
    decreases |t|, 1
  {
    ParseSound(t, stod);
    var p := Parse(t, stod);
    if p.Ok? && p.value.Str? {
      var u := SkipBlanks(p.rest);
      if u != "" && u[0] == ':' {
        BehindColon(p.rest, u);
        SuffixTransitive(u[1..], p.rest, t);
        ParseSound(u[1..], stod);
        Extend(Parse(u[1..], stod), u[1..], t);
      }
    }
  }

  lemma {:induction false} ParseDictSound(s: string, acc: seq<Entry>, stod: Stod)
    ensures Sound(ParseDict(s, acc, stod), s)
    decreases |s|, 2
  {
    var t := SkipBlanks(s);
    HeadSuffix(s, t);
    if t == "" || t[0] == '}' {
    } else if t[0] == ',' {
      ParseDictSound(t[1..], acc, stod);
      Extend(ParseDict(t[1..], acc, stod), t[1..], s);
    } else {
      ParseEntrySound(t, stod);
      var p := ParseEntry(t, stod);
      var q := p.0;
      if q.Ok? {
        var acc' := Emplace(acc, Entry(p.1, q.value));
        ParseDictSound(p.0.rest, acc', stod);
        q := ParseDict(p.0.rest, acc', stod);
      }
      Chain(p.0, q, t, s);
    }
  }

  // ---------------------------------------------------------------- UTF-8

  ghost predicate Utf8Strings(v: JsonValue) {
    match v
    case Str(s) => Utf8.WellFormed(s)
    case Arr(items) => forall x :: x in items ==> Utf8Strings(x)
    case Dict(entries) => forall e :: e in entries ==> Utf8.WellFormed(e.key) && Utf8Strings(e.value)
    case _ => true
  }

  lemma AsciiSuffix(r: string, s: string)
    requires IsSuffix(r, s) && Utf8.Ascii(s)
    ensures Utf8.Ascii(r)
  {
  }

  lemma AsciiAfterBlanks(rest: string, t: string)
    requires IsSuffix(rest, t) && Utf8.Ascii(t) && SkipBlanks(rest) != ""
    ensures Utf8.Ascii(SkipBlanks(rest)[1..])
  {
    HeadSuffix(rest, SkipBlanks(rest));
    SuffixTransitive(SkipBlanks(rest)[1..], rest, t);
  }

  lemma {:induction false} EmplaceMembers(d: seq<Entry>, e: Entry)
    ensures forall x :: x in Emplace(d, e) ==> x in d || x == e
  {
    if d != [] { EmplaceMembers(d[1..], e); }
  }

  lemma ScalarUtf8(t: string, stod: Stod)
    requires t != "" && Utf8.Ascii(t[1..])
    ensures ParseScalar(t, stod).Ok? ==> Utf8Strings(ParseScalar(t, stod).value)
  {
    ScanWellFormed(t[1..], START);
  }

  /** Every string and key parsed from pure ASCII text is well-formed UTF-8. */
  lemma {:induction false} ParseUtf8(s: string, stod: Stod)
    requires Utf8.Ascii(s)
    ensures Parse(s, stod).Ok? ==> Utf8Strings(Parse(s, stod).value)
    decreases |s|, 0
  {
    var t := SkipBlanks(s);
    HeadSuffix(s, t);
    AsciiSuffix(t, s);
    if t == "" {
    } else if t[0] == '{' {
      AsciiSuffix(t[1..], t);
      ParseDictUtf8(t[1..], [], stod);
    } else if t[0] == '[' {
      AsciiSuffix(t[1..], t);
      ParseArrayUtf8(t[1..], [], stod);
    } else {
      AsciiSuffix(t[1..], t);
      ScalarUtf8(t, stod);
    }
  }

  lemma Utf8Snoc(acc: seq<JsonValue>, v: JsonValue)
    requires Utf8Strings(Arr(acc)) && Utf8Strings(v)
    ensures Utf8Strings(Arr(acc + [v]))
  {
  }

  lemma {:induction false} ParseArrayUtf8(s: string, acc: seq<JsonValue>, stod: Stod)
    requires Utf8.Ascii(s) && Utf8Strings(Arr(acc))
    ensures ParseArray(s, acc, stod).Ok? ==> Utf8Strings(ParseArray(s, acc, stod).value)
    decreases |s|, 1
  {
    var t := SkipBlanks(s);
    HeadSuffix(s, t);
    AsciiSuffix(t, s);
    if t == "" || t[0] == ']' {
    } else if t[0] == ',' {
      AsciiSuffix(t[1..], t);
      ParseArrayUtf8(t[1..], acc, stod);
    } else {
      ParseUtf8(t, stod);
      ParseSound(t, stod);
      var p := Parse(t, stod);
      if p.Ok? {
        AsciiSuffix(p.rest, t);
        Utf8Snoc(acc, p.value);
        ParseArrayUtf8(p.rest, acc + [p.value], stod);
      }
    }
  }

  lemma {:induction false} ParseEntryUtf8(t: string, stod: Stod)
    requires Utf8.Ascii(t)
    ensures ParseEntry(t, stod).0.Ok? ==>
      Utf8Strings(ParseEntry(t, stod).0.value) && Utf8.WellFormed(ParseEntry(t, stod).1)
    decreases |t|, 1
  {
    ParseUtf8(t, stod);
    ParseSound(t, stod);
    var p := Parse(t, stod);
    if p.Ok? && p.value.Str? {
      var u := SkipBlanks(p.rest);
      if u != "" && u[0] == ':' {
        AsciiAfterBlanks(p.rest, t);
        ParseUtf8(u[1..], stod);
      }
    }
  }

  lemma {:induction false} ParseDictUtf8(s: string, acc: seq<Entry>, stod: Stod)
    requires Utf8.Ascii(s) && Utf8Strings(Dict(acc))
    ensures ParseDict(s, acc, stod).Ok? ==> Utf8Strings(ParseDict(s, acc, stod).value)
    decreases |s|, 2
  {
    var t := SkipBlanks(s);
    HeadSuffix(s, t);
    AsciiSuffix(t, s);
    if t == "" || t[0] == '}' {
    } else if t[0] == ',' {
      AsciiSuffix(t[1..], t);
      ParseDictUtf8(t[1..], acc, stod);
    } else {
      ParseEntryUtf8(t, stod);
      ParseEntrySound(t, stod);
      var p := ParseEntry(t, stod);
      if p.0.Ok? {
        AsciiSuffix(p.0.rest, t);
        EmplaceMembers(acc, Entry(p.1, p.0.value));
        ParseDictUtf8(p.0.rest, Emplace(acc, Entry(p.1, p.0.value)), stod);
      }
    }
  }

  // ---------------------------------------------------------------- the parser itself

  /** The result a call must give: a value, the remaining text and the error code as it was,
      or no value and the error. */
  ghost predicate Gives(p: Parsed, ec0: JsonError, current: Option<JsonValue>, json: string, ec: JsonError) {
    match p
    case Ok(v, rest) => current == Some(v) && json == rest && ec == ec0
    case Err(e) => current == None && ec == e
  }

  /** `json` and `ec` are the caller's variables, given and returned.  Started with a clear
      error code, a call returns no value exactly if the code is set. */
  method JsonParse(json0: string, ec0: JsonError, stod: Stod)
    returns (current: Option<JsonValue>, json: string, ec: JsonError)
    ensures Gives(Parse(json0, stod), ec0, current, json, ec)
    ensures ec0 == Success ==> (current == None <==> ec != Success)
    decreases |json0|, 0
  {
    ParseSound(json0, stod);
    json, ec := SkipBlanks(json0), ec0;
    if json == "" { return None, json, UnexpectedEnd; }
    var c := json[0];
    if c == '{' {
      current, json, ec := ParseDictLoop(json[1..], ec, stod);
    } else if c == '[' {
      current, json, ec := ParseArrayLoop(json[1..], ec, stod);
    } else {
      current, json, ec := ParseScalarAt(json, ec, stod);
    }
  }

  method ParseScalarAt(json0: string, ec0: JsonError, stod: Stod)
    returns (current: Option<JsonValue>, json: string, ec: JsonError)
    requires json0 != ""
    ensures Gives(ParseScalar(json0, stod), ec0, current, json, ec)
  {
    current, json, ec := None, json0, ec0;
    var c := json[0];
    if c == '"' {
      var str, rest, e := ScanString(json[1..]);
      if str == None { return None, json, e; }
      return Some(Str(str.value)), rest, ec;
    } else if StartsNumber(c) {
      var end := NumberEnd(json);
      var str := json[..end];
      if '.' in str {
        var value := stod(str);
        if value == None { return None, json, InvalidNumberFormat; }
        current := Some(Real(value.value));
      } else {
        var value := Stoll(str);
        if value == None { return None, json, InvalidNumberFormat; }
        current := Some(Integer(value.value));
      }
      json := json[end..];
    } else if c == 't' {
      if !("true" <= json) { return None, json, UnexpectedToken; }
      return Some(Boolean(true)), json[4..], ec;
    } else if c == 'f' {
      if !("false" <= json) { return None, json, UnexpectedToken; }
      return Some(Boolean(false)), json[5..], ec;
    } else if c == 'n' {
      if !("null" <= json) { return None, json, UnexpectedToken; }
      return Some(Null), json[4..], ec;
    } else {
      return None, json, UnexpectedToken;
    }
  }

  method ParseArrayLoop(json0: string, ec0: JsonError, stod: Stod)
    returns (current: Option<JsonValue>, json: string, ec: JsonError)
    ensures Gives(ParseArray(json0, [], stod), ec0, current, json, ec)
    decreases |json0|, 1
  {
    json, ec := json0, ec0;
    var elements: seq<JsonValue> := [];
    while true
      invariant |json| <= |json0| && ec == ec0
      invariant ParseArray(json, elements, stod) == ParseArray(json0, [], stod)
      decreases |json|
    {
      json := SkipBlanks(json);
      if json == "" { return None, json, UnexpectedEnd; }
      if json[0] == ']' {
        return Some(Arr(elements)), json[1..], ec;
      } else if json[0] == ',' {
        json := json[1..];
      } else {
        var value;
        value, json, ec := JsonParse(json, ec, stod);
        if value == None { return None, json, ec; }
        elements := elements + [value.value];
      }
    }
  }

  method ParseEntryAt(json0: string, ec0: JsonError, stod: Stod)
    returns (current: Option<JsonValue>, key: string, json: string, ec: JsonError)
    ensures Gives(ParseEntry(json0, stod).0, ec0, current, json, ec)
    ensures current != None ==> key == ParseEntry(json0, stod).1
    decreases |json0|, 1
  {
    var keyValue;
    keyValue, json, ec := JsonParse(json0, ec0, stod);
    key := "";
    if keyValue == None { return None, key, json, ec; }
    if !keyValue.value.Str? { return None, key, json, DictKeyNotString; }
    key := keyValue.value.s;
    json := SkipBlanks(json);
    if json == "" { return None, key, json, UnexpectedEnd; }
    if json[0] != ':' { return None, key, json, UnexpectedToken; }
    current, json, ec := JsonParse(json[1..], ec, stod);
  }

  method ParseDictLoop(json0: string, ec0: JsonError, stod: Stod)
    returns (current: Option<JsonValue>, json: string, ec: JsonError)
    ensures Gives(ParseDict(json0, [], stod), ec0, current, json, ec)
    decreases |json0|, 2
  {
    json, ec := json0, ec0;
    var dict: seq<Entry> := [];
    while true
      invariant |json| <= |json0| && ec == ec0
      invariant ParseDict(json, dict, stod) == ParseDict(json0, [], stod)
      decreases |json|
    {
      json := SkipBlanks(json);
      if json == "" { return None, json, UnexpectedEnd; }
      if json[0] == '}' {
        return Some(Dict(dict)), json[1..], ec;
      } else if json[0] == ',' {
        json := json[1..];
      } else {
        var value, key;
        value, key, json, ec := ParseEntryAt(json, ec, stod);
        if value == None { return None, json, ec; }
        dict := Emplace(dict, Entry(key, value.value));
      }
    }
  }
}
