/** JSON values, errors, and the sorted dictionary that holds object entries.
    A string holds one character per byte. */
module JsonValues {
  import opened Wrappers

  datatype JsonError =
    | Success
    | UnexpectedEnd
    | UnexpectedToken
    | NonTerminatedString
    | InvalidUTF16String
    | DictKeyNotString
    | InvalidNumberFormat

  datatype JsonValue =
    | Null
    | Str(s: string)
    | Dict(entries: seq<Entry>)
    | Arr(items: seq<JsonValue>)
    | Integer(n: int)
    | Real(r: real)
    | Boolean(b: bool)

  datatype Entry = Entry(key: string, value: JsonValue)

  const INT64_MIN: int := -0x8000_0000_0000_0000
  const INT64_MAX: int := 0x7fff_ffff_ffff_ffff

  /** Byte-wise lexicographic order, the key order of a dictionary. */
  predicate Less(a: string, b: string) {
    if b == "" then false
    else if a == "" then true
    else a[0] < b[0] || (a[0] == b[0] && Less(a[1..], b[1..]))
  }

  /** Adds an entry at its place unless the key is there already. */
  function Emplace(d: seq<Entry>, e: Entry): seq<Entry> {
    if d == [] then [e]
    else if d[0].key == e.key then d
    else if Less(e.key, d[0].key) then [e] + d
    else [d[0]] + Emplace(d[1..], e)
  }

  ghost predicate Above(d: seq<Entry>, key: string) {
    forall i :: 0 <= i < |d| ==> Less(key, d[i].key)
  }

  /** Keys strictly ascending: what a dictionary always looks like. */
  ghost predicate Ascending(d: seq<Entry>) {
    d == [] || (Above(d[1..], d[0].key) && Ascending(d[1..]))
  }

  function Find(d: seq<Entry>, key: string): Option<JsonValue> {
    if d == [] then None
    else if d[0].key == key then Some(d[0].value)
    else Find(d[1..], key)
  }

  /** The strings agree up to position `k`, where `a` is over or has the smaller byte. */
  predicate SmallerAt(a: string, b: string, k: nat) {
    k <= |a| && k < |b| && a[..k] == b[..k] && (k == |a| || a[k] < b[k])
  }

  /** The order is the lexicographic one. */
  lemma {:induction false} LessIs(a: string, b: string)
    ensures Less(a, b) <==> exists k: nat :: SmallerAt(a, b, k)
  {
    if b == "" {
    } else if a == "" {
      assert SmallerAt(a, b, 0);
    } else {
      LessIs(a[1..], b[1..]);
      if a[0] < b[0] { assert SmallerAt(a, b, 0); }
      if a[0] == b[0] && Less(a[1..], b[1..]) {
        var k: nat :| SmallerAt(a[1..], b[1..], k);
        assert a[..k + 1] == [a[0]] + a[1..][..k] && b[..k + 1] == [b[0]] + b[1..][..k];
        assert SmallerAt(a, b, k + 1);
      }
      if k: nat :| SmallerAt(a, b, k) {
        if k > 0 {
          assert a[0] == a[..k][0] == b[..k][0] == b[0];
          assert a[1..][..k - 1] == a[..k][1..] == b[..k][1..] == b[1..][..k - 1];
          assert SmallerAt(a[1..], b[1..], k - 1);
        }
      }
    }
  }

  lemma LessTotal(a: string, b: string)
    ensures a == b || Less(a, b) || Less(b, a)
  {
  }

  lemma LessTransitive(a: string, b: string, c: string)
    requires Less(a, b) && Less(b, c)
    ensures Less(a, c)
  {
  }

  lemma LessIrreflexive(a: string)
    ensures !Less(a, a)
  {
  }

  lemma {:induction false} EmplaceAbove(d: seq<Entry>, e: Entry, key: string)
    requires Above(d, key) && Less(key, e.key)
    ensures Above(Emplace(d, e), key)
  {
    if d != [] { EmplaceAbove(d[1..], e, key); }
  }

  lemma {:induction false} FindAbove(d: seq<Entry>, key: string)
    requires Above(d, key)
    ensures Find(d, key) == None
  {
    if d != [] {
      LessIrreflexive(key);
      FindAbove(d[1..], key);
    }
  }

  /** Adding keeps the keys ascending and never changes an entry that is already there. */
  lemma {:induction false} EmplaceKeepsOrder(d: seq<Entry>, e: Entry)
    requires Ascending(d)
    ensures Ascending(Emplace(d, e))
    ensures forall k :: Find(Emplace(d, e), k) ==
              (if Find(d, k).Some? then Find(d, k) else if k == e.key then Some(e.value) else None)
  {
    if d == [] {
    } else if d[0].key == e.key {
    } else if Less(e.key, d[0].key) {
      forall i | 0 <= i < |d| ensures Less(e.key, d[i].key) {
        if i > 0 { LessTransitive(e.key, d[0].key, d[1..][i - 1].key); }
      }
      FindAbove(d, e.key);
      assert Emplace(d, e)[1..] == d;
    } else {
      LessTotal(e.key, d[0].key);
      EmplaceKeepsOrder(d[1..], e);
      EmplaceAbove(d[1..], e, d[0].key);
      assert Emplace(d, e)[1..] == Emplace(d[1..], e);
    }
  }

  lemma {:induction false} AscendingLast(d: seq<Entry>, e: Entry)
    requires Ascending(d + [e])
    ensures Ascending(d) && Emplace(d, e) == d + [e]
  {
    var de := d + [e];
    if d != [] {
      assert de[1..] == d[1..] + [e] && de[0] == d[0];
      AscendingLast(d[1..], e);
      assert Less(d[0].key, e.key) by { assert de[1..][|d| - 1] == e; }
      forall i | 0 <= i < |d[1..]| ensures Less(d[0].key, d[1..][i].key) { assert de[1..][i] == d[1..][i]; }
      LessAsymmetric(d[0].key, e.key);
    }
  }

  lemma LessAsymmetric(a: string, b: string)
    requires Less(a, b)
    ensures !Less(b, a) && a != b
  {
  }
}
