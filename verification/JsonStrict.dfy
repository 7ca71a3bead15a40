/** The printed text judged by the JSON grammar (sections 2 to 7 of RFC 8259) rather than by the
    parser here, which accepts much more: a recogniser without blanks, with one comma between
    neighbours and none elsewhere. */
module JsonStrict {
  import opened JsonEncoding
  import opened JsonParsing
  import opened JsonRoundTrips
  import opened JsonScanner
  import opened JsonValues
  import SplitStrings
  import opened Wrappers

  predicate IsHex(c: char) { '0' <= c <= '9' || 'a' <= c <= 'f' || 'A' <= c <= 'F' }

  /** The rest of a string behind its opening quote: what follows the closing one. */
  function StrictChars(s: string): (r: Option<string>)
    ensures r.Some? ==> |r.value| < |s|
  {
    if s == "" then None
    else if s[0] == '"' then Some(s[1..])
    else if s[0] as int < 0x20 then None
    else if s[0] != '\\' then StrictChars(s[1..])
    else if |s| >= 2 && s[1] in {'"', '\\', '/', 'b', 'f', 'n', 'r', 't'} then StrictChars(s[2..])
    else if |s| >= 6 && s[1] == 'u' && IsHex(s[2]) && IsHex(s[3]) && IsHex(s[4]) && IsHex(s[5]) then StrictChars(s[6..])
    else None
  }

  function SomeDigits(s: string): (r: Option<string>)
    ensures r.Some? ==> |r.value| < |s|
  {
    var n := LeadingDigits(s);
    if n == 0 then None else Some(s[n..])
  }

  /** Digits without a leading zero. */
  function StrictInt(s: string): (r: Option<string>)
    ensures r.Some? ==> |r.value| < |s|
  {
    if s != "" && s[0] == '0' then Some(s[1..]) else SomeDigits(s)
  }

  function StrictFraction(s: string): (r: Option<string>)
    ensures r.Some? ==> |r.value| <= |s|
  {
    if s != "" && s[0] == '.' then SomeDigits(s[1..]) else Some(s)
  }

  function StrictExponent(s: string): (r: Option<string>)
    ensures r.Some? ==> |r.value| <= |s|
  {
    if s == "" || (s[0] != 'e' && s[0] != 'E') then Some(s)
    else if |s| >= 2 && (s[1] == '+' || s[1] == '-') then SomeDigits(s[2..])
    else SomeDigits(s[1..])
  }

  function StrictNumber(s: string): (r: Option<string>)
    ensures r.Some? ==> |r.value| < |s|
  {
    match StrictInt(if s != "" && s[0] == '-' then s[1..] else s)
    case None => None
    case Some(t) =>
      match StrictFraction(t)
      case None => None
      case Some(u) => StrictExponent(u)
  }

  function StrictWord(s: string, word: string): (r: Option<string>)
    requires word != ""
    ensures r.Some? ==> |r.value| < |s|
  {
    if word <= s then Some(s[|word|..]) else None
  }

  /** One value at the front of a text: what follows it. */
  function Strict(s: string): (r: Option<string>)
    ensures r.Some? ==> |r.value| < |s|
    decreases |s|, 0
  {
    if s == "" then None
    else if s[0] == '{' then StrictMembers(s[1..], false)
    else if s[0] == '[' then StrictElements(s[1..], false)
    else if s[0] == '"' then StrictChars(s[1..])
    else if s[0] == 't' then StrictWord(s, "true")
    else if s[0] == 'f' then StrictWord(s, "false")
    else if s[0] == 'n' then StrictWord(s, "null")
    else StrictNumber(s)
  }

  /** Behind the opening bracket, or with `more` behind an element. */
  function StrictElements(s: string, more: bool): (r: Option<string>)
    ensures r.Some? ==> |r.value| < |s|
    decreases |s|, 1
  {
    if s == "" then None
    else if s[0] == ']' then Some(s[1..])
    else if more && s[0] != ',' then None
    else
      match Strict(if more then s[1..] else s)
      case None => None
      case Some(t) => StrictElements(t, true)
  }

  function StrictMembers(s: string, more: bool): (r: Option<string>)
    ensures r.Some? ==> |r.value| < |s|
    decreases |s|, 1
  {
    if s == "" then None
    else if s[0] == '}' then Some(s[1..])
    else if more && s[0] != ',' then None
    else
      match StrictMember(if more then s[1..] else s)
      case None => None
      case Some(t) => StrictMembers(t, true)
  }

  function StrictMember(s: string): (r: Option<string>)
    ensures r.Some? ==> |r.value| < |s|
    decreases |s|, 0
  {
    if s == "" || s[0] != '"' then None
    else
      match StrictChars(s[1..])
      case None => None
      case Some(t) => if t == "" || t[0] != ':' then None else Strict(t[1..])
  }

  // ---------------------------------------------------------------- strings

  predicate NoNul(s: string) { '\0' !in s }

  /** The printer's escape of each character: a short one for six, the hex form with lower-case
      digits for the other control characters, and none for all others. */
  lemma EscapeIs(c: char)
    ensures |Escape(c)| == 2 <==> c in {'\n', '\r', '\t', '\\', '\0', '"'}
    ensures |Escape(c)| == 6 <==> (c as int < 0x20 || c as int == 0x7F) && c !in {'\n', '\r', '\t', '\0'}
    ensures |Escape(c)| == 6 ==>
      && Escape(c)[..4] == "\\u00" && HexDigit(Escape(c)[4]) * 16 + HexDigit(Escape(c)[5]) == c as int
      && Escape(c)[4] in "0123456789abcdef" && Escape(c)[5] in "0123456789abcdef"
    ensures |Escape(c)| != 2 && |Escape(c)| != 6 ==> Escape(c) == [c]
  {
    if |Escape(c)| == 6 {
      HexDigitInverse(c as int / 16);
      HexDigitInverse(c as int % 16);
    }
  }

  lemma HexIsHex(k: nat)
    requires k < 16
    ensures IsHex(HEX_DIGITS[k])
  {
  }

  lemma StrictEscape(c: char, tail: string)
    ensures StrictChars(Escape(c) + tail) == if c == '\0' then None else StrictChars(tail)
  {
    var t := Escape(c) + tail;
    if |Escape(c)| == 6 {
      HexIsHex(c as int / 16);
      HexIsHex(c as int % 16);
      assert t[6..] == tail;
    } else if |Escape(c)| == 2 {
      assert t[2..] == tail;
    } else {
      assert t[1..] == tail;
    }
  }

  lemma {:induction false} StrictEscaped(s: string, rest: string)
    ensures StrictChars(EscapeAll(s) + ("\"" + rest)) == if NoNul(s) then Some(rest) else None
  {
    if s == "" {
      assert EscapeAll(s) + ("\"" + rest) == "\"" + rest;
      Cons('"', rest);
    } else {
      Associate(Escape(s[0]), EscapeAll(s[1..]), "\"" + rest);
      StrictEscape(s[0], EscapeAll(s[1..]) + ("\"" + rest));
      StrictEscaped(s[1..], rest);
      assert s == [s[0]] + s[1..];
    }
  }

  lemma StrictQuoted(s: string, rest: string)
    ensures Quoted(s) + rest == "\"" + (EscapeAll(s) + ("\"" + rest))
    ensures StrictChars((Quoted(s) + rest)[1..]) == if NoNul(s) then Some(rest) else None
  {
    assert Quoted(s) + rest == "\"" + (EscapeAll(s) + ("\"" + rest));
    Cons('"', EscapeAll(s) + ("\"" + rest));
    StrictEscaped(s, rest);
  }

  // ---------------------------------------------------------------- numbers

  /** What may follow a number: nothing that could belong to it. */
  predicate NumberOver(rest: string) { rest == "" || !(IsDigit(rest[0]) || rest[0] in {'.', 'e', 'E'}) }

  lemma {:induction false} NoLeadingZero(n: nat)
    ensures Digits(n)[0] == '0' <==> n == 0
    ensures n == 0 ==> |Digits(n)| == 1
  {
    if n >= 10 { NoLeadingZero(n / 10); }
  }

  lemma StrictDigits(n: nat, rest: string)
    requires NumberOver(rest)
    ensures StrictInt(Digits(n) + rest) == Some(rest)
  {
    NoLeadingZero(n);
    Halves(Digits(n), rest);
    LeadingDigitsAll(Digits(n), rest);
  }

  /** A minus sign exactly for negative numbers, and no leading zero. */
  lemma StrictDecimal(n: int, rest: string)
    requires NumberOver(rest)
    ensures Decimal(n)[0] == '-' <==> n < 0
    ensures Strict(Decimal(n) + rest) == Some(rest)
  {
    var m: nat := if n < 0 then -n else n;
    StrictDigits(m, rest);
    if n < 0 {
      Associate("-", Digits(m), rest);
      Cons('-', Digits(m) + rest);
    } else {
      Halves(Digits(m), rest);
    }
  }

  // ---------------------------------------------------------------- values

  /** No string and no key in the value holds a NUL. */
  ghost predicate Clean(v: JsonValue) {
    match v
    case Str(s) => NoNul(s)
    case Arr(items) => CleanItems(items)
    case Dict(entries) => CleanEntries(entries)
    case _ => true
  }

  ghost predicate CleanItems(items: seq<JsonValue>) { items == [] || (Clean(items[0]) && CleanItems(items[1..])) }

  ghost predicate CleanEntries(entries: seq<Entry>) {
    entries == [] || (NoNul(entries[0].key) && Clean(entries[0].value) && CleanEntries(entries[1..]))
  }

  ghost predicate ItemsAreStrict(items: seq<JsonValue>, comma: bool, rest: string)
    requires forall x :: x in items ==> Printable(x)
  {
    StrictElements(PrintItems(items, comma) + rest, comma) == if CleanItems(items) then Some(rest) else None
  }

  ghost predicate EntriesAreStrict(entries: seq<Entry>, comma: bool, rest: string)
    requires forall e :: e in entries ==> Printable(e.value)
  {
    StrictMembers(PrintEntries(entries, comma) + rest, comma) == if CleanEntries(entries) then Some(rest) else None
  }

  lemma StrictArray(items: seq<JsonValue>, rest: string)
    requires (forall x :: x in items ==> Printable(x)) && ItemsAreStrict(items, false, rest)
    ensures Strict("[" + PrintItems(items, false) + rest) == if CleanItems(items) then Some(rest) else None
  {
    Associate("[", PrintItems(items, false), rest);
    Cons('[', PrintItems(items, false) + rest);
  }

  lemma StrictDict(entries: seq<Entry>, rest: string)
    requires (forall e :: e in entries ==> Printable(e.value)) && EntriesAreStrict(entries, false, rest)
    ensures Strict("{" + PrintEntries(entries, false) + rest) == if CleanEntries(entries) then Some(rest) else None
  {
    Associate("{", PrintEntries(entries, false), rest);
    Cons('{', PrintEntries(entries, false) + rest);
  }

  lemma StrictLeaf(v: JsonValue, rest: string)
    requires Printable(v) && !v.Arr? && !v.Dict? && (v.Integer? ==> NumberOver(rest))
    ensures Strict(Print(v) + rest) == if Clean(v) then Some(rest) else None
  {
    if v.Integer? {
      StrictDecimal(v.n, rest);
    } else if v.Str? {
      StrictQuoted(v.s, rest);
      Cons('"', EscapeAll(v.s) + ("\"" + rest));
    } else if v.Null? {
      Halves("null", rest);
    } else if v.Boolean? {
      Halves(if v.b then "true" else "false", rest);
    }
  }

  /** The printed text of a value is a JSON text exactly if no string in it holds a NUL, for which
      the printer has an escape of its own. */
  lemma {:induction false} PrintStrict(v: JsonValue, rest: string)
    requires Printable(v) && (v.Integer? ==> NumberOver(rest))
    ensures Strict(Print(v) + rest) == if Clean(v) then Some(rest) else None
    decreases v, 0
  {
    if v.Arr? {
      ItemsStrict(v.items, false, rest);
      StrictArray(v.items, rest);
    } else if v.Dict? {
      EntriesStrict(v.entries, false, rest);
      StrictDict(v.entries, rest);
    } else {
      StrictLeaf(v, rest);
    }
  }

  lemma ItemsOver(items: seq<JsonValue>, rest: string)
    requires forall x :: x in items ==> Printable(x)
    ensures NumberOver(PrintItems(items, true) + rest)
  {
  }

  lemma EntriesOver(entries: seq<Entry>, rest: string)
    requires forall e :: e in entries ==> Printable(e.value)
    ensures NumberOver(PrintEntries(entries, true) + rest)
  {
  }

  lemma ElementStep(t: string, more: bool, tail: Option<string>)
    requires t != "" && t[0] != ']' && Strict(t) == tail
    ensures StrictElements((if more then "," else "") + t, more)
         == match tail case None => None case Some(u) => StrictElements(u, true)
  {
    if more { Cons(',', t); } else { assert "" + t == t; }
  }

  lemma MemberStep(t: string, more: bool, tail: Option<string>)
    requires t != "" && t[0] != '}' && StrictMember(t) == tail
    ensures StrictMembers((if more then "," else "") + t, more)
         == match tail case None => None case Some(u) => StrictMembers(u, true)
  {
    if more { Cons(',', t); } else { assert "" + t == t; }
  }

  lemma PrintHead(v: JsonValue)
    requires Printable(v)
    ensures Print(v) != "" && Print(v)[0] !in {']', '}'}
  {
    PlainText(v);
    TextHead(Plain(v));
  }

  lemma {:induction false} ItemsStrict(items: seq<JsonValue>, comma: bool, rest: string)
    requires forall x :: x in items ==> Printable(x)
    ensures ItemsAreStrict(items, comma, rest)
    decreases items, 1
  {
    if items == [] {
      Cons(']', rest);
    } else {
      var v, more := items[0], PrintItems(items[1..], true);
      ItemsOver(items[1..], rest);
      PrintStrict(v, more + rest);
      ItemsStrict(items[1..], true, rest);
      PrintHead(v);
      Halves(Print(v), more + rest);
      ElementStep(Print(v) + (more + rest), comma, if Clean(v) then Some(more + rest) else None);
      Associate(if comma then "," else "", Print(v), more);
      Regrouped(if comma then "," else "", Print(v), more, rest);
    }
  }

  lemma StrictEntry(e: Entry, tail: string)
    requires Printable(e.value) && Strict(Print(e.value) + tail) == if Clean(e.value) then Some(tail) else None
    ensures PrintEntry(e) + tail != "" && (PrintEntry(e) + tail)[0] == '"'
    ensures StrictMember(PrintEntry(e) + tail) == if NoNul(e.key) && Clean(e.value) then Some(tail) else None
  {
    var value := Print(e.value) + tail;
    Associate(Quoted(e.key), ":", Print(e.value));
    Regrouped(Quoted(e.key), ":", Print(e.value), tail);
    assert PrintEntry(e) + tail == Quoted(e.key) + (":" + value);
    StrictQuoted(e.key, ":" + value);
    Cons(':', value);
  }

  lemma {:induction false} EntriesStrict(entries: seq<Entry>, comma: bool, rest: string)
    requires forall e :: e in entries ==> Printable(e.value)
    ensures EntriesAreStrict(entries, comma, rest)
    decreases entries, 1
  {
    if entries == [] {
      Cons('}', rest);
    } else {
      var e, more := entries[0], PrintEntries(entries[1..], true);
      EntriesOver(entries[1..], rest);
      PrintStrict(e.value, more + rest);
      EntriesStrict(entries[1..], true, rest);
      StrictEntry(e, more + rest);
      MemberStep(PrintEntry(e) + (more + rest), comma,
                 if NoNul(e.key) && Clean(e.value) then Some(more + rest) else None);
      Associate(if comma then "," else "", PrintEntry(e), more);
      Regrouped(if comma then "," else "", PrintEntry(e), more, rest);
    }
  }

  /** The whole printed text is one JSON text exactly if the value is clean. */
  lemma PrintIsJson(v: JsonValue)
    requires Printable(v)
    ensures Strict(Print(v)) == Some("") <==> Clean(v)
  {
    PrintStrict(v, "");
    assert Print(v) + "" == Print(v);
  }

  // ---------------------------------------------------------------- commas

  ghost function Texts(items: seq<JsonValue>): seq<string>
    requires forall x :: x in items ==> Printable(x)
  {
    if items == [] then [] else [Print(items[0])] + Texts(items[1..])
  }

  ghost function EntryTexts(entries: seq<Entry>): seq<string>
    requires forall e :: e in entries ==> Printable(e.value)
  {
    if entries == [] then [] else [PrintEntry(entries[0])] + EntryTexts(entries[1..])
  }

  lemma JoinFirst(part: string, parts: seq<string>)
    ensures SplitStrings.Join([part] + parts, ",")
         == part + ((if parts != [] then "," else "") + SplitStrings.Join(parts, ","))
  {
    assert ([part] + parts)[1..] == parts;
    if parts == [] {
      assert part + ("" + "") == part;
    } else {
      Associate(part, ",", SplitStrings.Join(parts, ","));
    }
  }

  lemma Splice(a: string, b: string, c: string, d: string)
    ensures a + b + (c + d) == a + (b + c) + d
  {
  }

  lemma {:induction false} ItemsJoined(items: seq<JsonValue>, comma: bool)
    requires forall x :: x in items ==> Printable(x)
    ensures PrintItems(items, comma)
         == (if comma && items != [] then "," else "") + SplitStrings.Join(Texts(items), ",") + "]"
  {
    if items != [] {
      var more := Texts(items[1..]);
      ItemsJoined(items[1..], true);
      JoinFirst(Print(items[0]), more);
      Splice(if comma then "," else "", Print(items[0]),
             (if more != [] then "," else "") + SplitStrings.Join(more, ","), "]");
    }
  }

  lemma {:induction false} EntriesJoined(entries: seq<Entry>, comma: bool)
    requires forall e :: e in entries ==> Printable(e.value)
    ensures PrintEntries(entries, comma)
         == (if comma && entries != [] then "," else "") + SplitStrings.Join(EntryTexts(entries), ",") + "}"
  {
    if entries != [] {
      var more := EntryTexts(entries[1..]);
      EntriesJoined(entries[1..], true);
      JoinFirst(PrintEntry(entries[0]), more);
      Splice(if comma then "," else "", PrintEntry(entries[0]),
             (if more != [] then "," else "") + SplitStrings.Join(more, ","), "}");
    }
  }

  /** Brackets around the texts of the elements or entries, joined by single commas. */
  lemma PrintJoined(v: JsonValue)
    requires Printable(v)
    ensures v.Arr? ==> Print(v) == "[" + (SplitStrings.Join(Texts(v.items), ",") + "]")
    ensures v.Dict? ==> Print(v) == "{" + (SplitStrings.Join(EntryTexts(v.entries), ",") + "}")
  {
    if v.Arr? {
      ItemsJoined(v.items, false);
      assert "" + SplitStrings.Join(Texts(v.items), ",") == SplitStrings.Join(Texts(v.items), ",");
    } else if v.Dict? {
      EntriesJoined(v.entries, false);
      assert "" + SplitStrings.Join(EntryTexts(v.entries), ",") == SplitStrings.Join(EntryTexts(v.entries), ",");
    }
  }
}
