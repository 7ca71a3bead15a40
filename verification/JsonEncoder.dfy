/** The JSON printer. */
module JsonEncoding {
  import opened JsonValues
  import opened Wrappers

  const HEX_DIGITS := "0123456789abcdef"

  predicate IsControl(c: char) { c as int < 0x20 || c as int == 0x7F }

  function Escape(c: char): string {
    if c == '\n' then "\\n"
    else if c == '\r' then "\\r"
    else if c == '\t' then "\\t"
    else if c == '\\' then "\\\\"
    else if c == '\0' then "\\0"
    else if c == '"' then "\\\""
    else if IsControl(c) then "\\u00" + [HEX_DIGITS[c as int / 16], HEX_DIGITS[c as int % 16]]
    else [c]
  }

  function EscapeAll(s: string): string {
    if s == "" then "" else Escape(s[0]) + EscapeAll(s[1..])
  }

  lemma {:induction false} EscapeAllSnoc(s: string, i: nat)
    requires i < |s|
    ensures EscapeAll(s[..i + 1]) == EscapeAll(s[..i]) + Escape(s[i])
  {
    var t := s[..i + 1];
    if i == 0 {
      assert t[1..] == "";
    } else {
      EscapeAllSnoc(s[1..], i - 1);
      assert t[1..] == s[1..][..i] && s[..i][1..] == s[1..][..i - 1];
    }
  }

  function Quoted(s: string): string { "\"" + EscapeAll(s) + "\"" }

  function Digits(n: nat): (s: string)
    ensures s != "" && forall i :: 0 <= i < |s| ==> '0' <= s[i] <= '9'
  {
    var last := [('0' as int + n % 10) as char];
    if n < 10 then last else Digits(n / 10) + last
  }

  function Decimal(n: int): string {
    if n < 0 then "-" + Digits(-n) else Digits(n)
  }

  /** Values the printer handles here: everything but reals; integers fit in 64 bits. */
  ghost predicate Printable(v: JsonValue) {
    match v
    case Real(_) => false
    case Integer(n) => INT64_MIN <= n <= INT64_MAX
    case Arr(items) => forall x :: x in items ==> Printable(x)
    case Dict(entries) => forall e :: e in entries ==> Printable(e.value)
    case _ => true
  }

  function Print(v: JsonValue): string
    requires Printable(v)
  {
    match v
    case Null => "null"
    case Boolean(b) => if b then "true" else "false"
    case Integer(n) => Decimal(n)
    case Str(s) => Quoted(s)
    case Arr(items) => "[" + PrintItems(items, false)
    case Dict(entries) => "{" + PrintEntries(entries, false)
  }

  /** The items with their separators and the closing bracket; `comma` tells whether one has
      been printed before. */
  function PrintItems(items: seq<JsonValue>, comma: bool): string
    requires forall x :: x in items ==> Printable(x)
  {
    if items == [] then "]"
    else (if comma then "," else "") + Print(items[0]) + PrintItems(items[1..], true)
  }

  function PrintEntries(entries: seq<Entry>, comma: bool): string
    requires forall e :: e in entries ==> Printable(e.value)
  {
    if entries == [] then "}"
    else (if comma then "," else "") + PrintEntry(entries[0]) + PrintEntries(entries[1..], true)
  }

  function PrintEntry(e: Entry): string
    requires Printable(e.value)
  {
    Quoted(e.key) + ":" + Print(e.value)
  }

  class JsonEncoder {
    var json: string

    constructor ()
      ensures json == ""
    {
      json := "";
    }

    method Put(s: string)
      modifies this
      ensures json == old(json) + s
    {
      json := json + s;
    }

    method PutEscaped(c: char)
      modifies this
      ensures json == old(json) + Escape(c)
    {
      if c == '\n' { Put("\\n"); }
      else if c == '\r' { Put("\\r"); }
      else if c == '\t' { Put("\\t"); }
      else if c == '\\' { Put("\\\\"); }
      else if c == '\0' { Put("\\0"); }
      else if c == '"' { Put("\\\""); }
      else if IsControl(c) {
        Put("\\u00");
        Put([HEX_DIGITS[c as int / 16]]);
        Put([HEX_DIGITS[c as int % 16]]);
      } else { Put([c]); }
    }

    method PutEscapedAt(name: string, i: nat, ghost head: string)
      requires i < |name| && json == head + EscapeAll(name[..i])
      modifies this
      ensures json == head + EscapeAll(name[..i + 1])
    {
      EscapeAllSnoc(name, i);
      Associate(head, EscapeAll(name[..i]), Escape(name[i]));
      PutEscaped(name[i]);
    }

    method PutBody(name: string)
      modifies this
      ensures json == old(json) + EscapeAll(name)
    {
      ghost var head := json;
      assert name[..0] == "" && name[..|name|] == name;
      for i := 0 to |name|
        invariant json == head + EscapeAll(name[..i])
      {
        PutEscapedAt(name, i, head);
      }
    }

    method PutString(name: string)
      modifies this
      ensures json == old(json) + Quoted(name)
    {
      Associate(json, "\"", EscapeAll(name));
      Associate(json, "\"" + EscapeAll(name), "\"");
      Put("\"");
      PutBody(name);
      Put("\"");
    }

    method PutValue(v: JsonValue)
      requires Printable(v)
      modifies this
      ensures json == old(json) + Print(v)
      decreases v, 0
    {
      match v
      case Null => Put("null");
      case Boolean(b) => Put(if b then "true" else "false");
      case Integer(n) => Put(Decimal(n));
      case Str(s) => PutString(s);
      case Arr(items) => PutItems(items);
      case Dict(entries) => PutEntries(entries);
    }

    method PutItems(items: seq<JsonValue>)
      requires forall x :: x in items ==> Printable(x)
      modifies this
      ensures json == old(json) + ("[" + PrintItems(items, false))
      decreases items
    {
      Put("[");
      ghost var head := json;
      var comma := false;
      for i := 0 to |items|
        invariant comma == (i > 0)
        invariant json + PrintItems(items[i..], i > 0) == head + PrintItems(items, false)
      {
        NextItem(items, i, json);
        PutNextItem(items[i], comma);
        comma := true;
      }
      Put("]");
      Associate(old(json), "[", PrintItems(items, false));
    }

    /** An item with the comma that separates it from the one before. */
    method PutNextItem(item: JsonValue, comma: bool)
      requires Printable(item)
      modifies this
      ensures json == old(json) + ((if comma then "," else "") + Print(item))
      decreases item, 1
    {
      Separate(json, comma, Print(item));
      if comma { Put(","); }
      PutValue(item);
    }

    method PutEntry(entry: Entry)
      requires Printable(entry.value)
      modifies this
      ensures json == old(json) + PrintEntry(entry)
      decreases entry, 0
    {
      Associate(json, Quoted(entry.key), ":");
      Associate(json, Quoted(entry.key) + ":", Print(entry.value));
      PutString(entry.key);
      Put(":");
      PutValue(entry.value);
    }

    /** An entry with the comma that separates it from the one before. */
    method PutNextEntry(entry: Entry, comma: bool)
      requires Printable(entry.value)
      modifies this
      ensures json == old(json) + ((if comma then "," else "") + PrintEntry(entry))
      decreases entry, 1
    {
      Separate(json, comma, PrintEntry(entry));
      if comma { Put(","); }
      PutEntry(entry);
    }

    method PutEntries(entries: seq<Entry>)
      requires forall e :: e in entries ==> Printable(e.value)
      modifies this
      ensures json == old(json) + ("{" + PrintEntries(entries, false))
      decreases entries
    {
      Put("{");
      ghost var head := json;
      var comma := false;
      for i := 0 to |entries|
        invariant comma == (i > 0)
        invariant json + PrintEntries(entries[i..], i > 0) == head + PrintEntries(entries, false)
      {
        NextEntry(entries, i, json);
        PutNextEntry(entries[i], comma);
        comma := true;
      }
      Put("}");
      Associate(old(json), "{", PrintEntries(entries, false));
    }
  }

  lemma Separate(before: string, comma: bool, text: string)
    ensures before + ((if comma then "," else "") + text) == (if comma then before + "," else before) + text
  {
    if comma { Associate(before, ",", text); } else { assert "" + text == text; }
  }

  lemma NextItem(items: seq<JsonValue>, i: nat, before: string)
    requires i < |items| && forall x :: x in items ==> Printable(x)
    ensures before + PrintItems(items[i..], i > 0)
         == (before + ((if i > 0 then "," else "") + Print(items[i]))) + PrintItems(items[i + 1..], true)
  {
  }

  lemma NextEntry(entries: seq<Entry>, i: nat, before: string)
    requires i < |entries| && forall e :: e in entries ==> Printable(e.value)
    ensures before + PrintEntries(entries[i..], i > 0)
         == (before + ((if i > 0 then "," else "") + PrintEntry(entries[i]))) + PrintEntries(entries[i + 1..], true)
  {
  }
}
