/** Splitting a string at a non-empty delimiter. */
module SplitStrings {
  /** The first position at which `d` occurs, or -1. */
  function Find(s: string, d: string): (k: int)
    ensures -1 <= k && (k >= 0 ==> k + |d| <= |s| && s[k..k + |d|] == d)
  {
    if d <= s then 0
    else if s == "" then -1
    else
      var k := Find(s[1..], d);
      if k < 0 then -1 else k + 1
  }

  function Split(s: string, d: string): seq<string>
    requires d != ""
    decreases |s|
  {
    var pos := Find(s, d);
    if pos < 0 then [s] else [s[..pos]] + Split(s[pos + |d|..], d)
  }

  function Join(parts: seq<string>, d: string): string {
    if parts == [] then ""
    else if |parts| == 1 then parts[0]
    else parts[0] + d + Join(parts[1..], d)
  }

  /** `Find` misses no occurrence. */
  lemma {:induction false} FindFirst(s: string, d: string, j: nat)
    requires j + |d| <= |s| && s[j..j + |d|] == d
    ensures 0 <= Find(s, d) <= j
  {
    if !(d <= s) {
      assert j > 0;
      assert s[1..][j - 1..j - 1 + |d|] == s[j..j + |d|];
      FindFirst(s[1..], d, j - 1);
    }
  }

  /** What follows an occurrence does not matter for finding the first one. */
  lemma {:induction false} FindBefore(p: string, d: string, rest: string)
    ensures Find(p + d + rest, d) == Find(p + d, d) && 0 <= Find(p + d, d) <= |p|
  {
    if d <= p + d {
      assert d <= p + d + rest;
    } else {
      assert p == "" ==> p + d == d;
      assert !(d <= p + d + rest) by {
        assert (p + d + rest)[..|d|] == (p + d)[..|d|];
      }
      assert (p + d)[1..] == p[1..] + d && (p + d + rest)[1..] == p[1..] + d + rest;
      FindBefore(p[1..], d, rest);
    }
  }

  /** Joining the parts gives the string back. */
  lemma {:induction false} JoinSplit(s: string, d: string)
    requires d != ""
    ensures Split(s, d) != [] && Join(Split(s, d), d) == s
    decreases |s|
  {
    var pos := Find(s, d);
    if pos >= 0 {
      var rest := s[pos + |d|..];
      JoinSplit(rest, d);
      var parts := Split(s, d);
      assert parts[1..] == Split(rest, d) && parts[0] == s[..pos];
      assert s == s[..pos] + s[pos..pos + |d|] + rest;
    }
  }

  /** Before the first occurrence there is none. */
  lemma HeadClean(s: string, d: string)
    requires d != "" && Find(s, d) >= 0
    ensures Find(s[..Find(s, d)], d) == -1
  {
    var part := s[..Find(s, d)];
    var k := Find(part, d);
    if k >= 0 {
      assert s[k..k + |d|] == part[k..k + |d|];
      FindFirst(s, d, k);
    }
  }

  /** No part contains the delimiter. */
  lemma {:induction false} PartsClean(s: string, d: string, i: nat)
    requires d != "" && i < |Split(s, d)|
    ensures Find(Split(s, d)[i], d) == -1
    decreases |s|
  {
    var pos := Find(s, d);
    if pos >= 0 {
      HeadClean(s, d);
      if i > 0 { PartsClean(s[pos + |d|..], d, i - 1); }
    }
  }

  /** Each part ends where the delimiter behind it first occurs, and the last has none. */
  ghost predicate Separable(parts: seq<string>, d: string) {
    && parts != []
    && (forall i :: 0 <= i < |parts| - 1 ==> Find(parts[i] + d, d) == |parts[i]|)
    && Find(parts[|parts| - 1], d) == -1
  }

  /** Splitting undoes joining exactly for separable parts. */
  lemma {:induction false} SplitJoin(parts: seq<string>, d: string)
    requires d != ""
    ensures Split(Join(parts, d), d) == parts <==> Separable(parts, d)
    decreases |parts|
  {
    if |parts| == 0 {
      JoinSplit("", d);
    } else if |parts| == 1 {
      SplitOne(parts[0], d);
    } else {
      var rest := parts[1..];
      SplitJoin(rest, d);
      SplitMore(parts[0], rest, d);
      assert parts == [parts[0]] + rest;
      SeparableMore(parts, d);
    }
  }

  lemma SplitOne(s: string, d: string)
    requires d != ""
    ensures Split(s, d) == [s] <==> Find(s, d) == -1
  {
  }

  lemma Parts(p: string, d: string, rest: string)
    ensures (p + d + rest)[..|p|] == p && (p + d + rest)[|p| + |d|..] == rest
  {
  }

  lemma SplitHead(s: string, d: string)
    requires d != "" && Find(s, d) >= 0
    ensures Split(s, d) != [] && Split(s, d)[0] == s[..Find(s, d)]
    ensures Split(s, d)[1..] == Split(s[Find(s, d) + |d|..], d)
  {
  }

  lemma HeadAndTail(parts: seq<string>, p: string, rest: seq<string>)
    requires parts != []
    ensures parts == [p] + rest <==> parts[0] == p && parts[1..] == rest
  {
  }

  lemma SplitMore(p: string, rest: seq<string>, d: string)
    requires d != ""
    ensures Split(p + d + Join(rest, d), d) == [p] + rest
       <==> Find(p + d, d) == |p| && Split(Join(rest, d), d) == rest
  {
    var s := p + d + Join(rest, d);
    FindBefore(p, d, Join(rest, d));
    SplitHead(s, d);
    HeadAndTail(Split(s, d), p, rest);
    Parts(p, d, Join(rest, d));
  }

  lemma SeparableMore(parts: seq<string>, d: string)
    requires |parts| > 1
    ensures Separable(parts, d) <==> Find(parts[0] + d, d) == |parts[0]| && Separable(parts[1..], d)
  {
  }

  /** For a single character it is enough that no part contains it. */
  lemma {:induction false} SeparableChar(p: string, c: char)
    requires c !in p
    ensures Find(p + [c], [c]) == |p| && Find(p, [c]) == -1
  {
    if p == "" {
      assert p + [c] == [c];
    } else {
      assert (p + [c])[1..] == p[1..] + [c];
      SeparableChar(p[1..], c);
    }
  }

  lemma SplitJoinChar(parts: seq<string>, c: char)
    requires parts != [] && forall i :: 0 <= i < |parts| ==> c !in parts[i]
    ensures Split(Join(parts, [c]), [c]) == parts
  {
    forall i | 0 <= i < |parts| ensures Find(parts[i] + [c], [c]) == |parts[i]| && Find(parts[i], [c]) == -1 {
      SeparableChar(parts[i], c);
    }
    SplitJoin(parts, [c]);
  }

  class Iterator {
    var s: string
    const delimiter: string
    var current: string
    var ended: bool
    var toBeEnded: bool

    ghost predicate Valid()
      reads this
    {
      (toBeEnded ==> s == "") && (ended ==> toBeEnded)
    }

    /** The parts still to be delivered, the current one first. */
    ghost function Remaining(): seq<string>
      requires Valid() && delimiter != ""
      reads this
    {
      if ended then [] else if toBeEnded then [current] else [current] + Split(s, delimiter)
    }

    constructor (s: string, delimiter: string)
      ensures Valid() && this.delimiter == delimiter && (delimiter == "" ==> !ended && current == "")
      ensures delimiter != "" ==> Remaining() == Split(s, delimiter)
    {
      this.s, this.delimiter, current, ended, toBeEnded := s, delimiter, "", false, false;
      new;
      FindNext();
      if delimiter != "" {
        assert ([""] + Split(s, delimiter))[1..] == Split(s, delimiter);
        assert ([""] + Remaining())[1..] == Remaining();
      }
    }

    ghost function Left(): nat
      reads this
    {
      |s| + (if toBeEnded then 0 else 1) + (if ended then 0 else 1)
    }

    /** Moves on to the next part.  With an empty delimiter this is always the empty string, and
        the end is never reached. */
    method FindNext()
      requires Valid()
      modifies this
      ensures Valid() && (old(ended) ==> ended)
      ensures delimiter != "" && !old(ended) ==>
        old(Remaining()) == [old(current)] + Remaining() && Left() < old(Left())
      ensures delimiter == "" ==> current == "" && s == old(s) && ended == old(ended)
    {
      var pos := Find(s, delimiter);
      if pos == -1 {
        current := s;
        s := "";
        ended := toBeEnded;
        toBeEnded := true;
      } else {
        current := s[..pos];
        s := s[pos + |delimiter|..];
      }
    }
  }

  lemma MoveOne(parts: seq<string>, part: string, rest: seq<string>)
    ensures parts + ([part] + rest) == (parts + [part]) + rest
  {
  }

  lemma PartOf(parts: seq<string>, before: seq<string>, rest: seq<string>)
    requires parts == before + rest
    ensures before == parts[..|before|] && |parts| == |before| + |rest|
  {
  }

  /** The loop of `collect`, watched for at most `turns` turns.  It ends exactly if the delimiter
      is not empty and the turns are enough for all parts; with an empty delimiter it collects
      empty strings for ever. */
  method Collect(s: string, delimiter: string, turns: nat) returns (result: seq<string>, ended: bool)
    ensures ended <==> delimiter != "" && |Split(s, delimiter)| <= turns
    ensures ended ==> result == Split(s, delimiter)
    ensures !ended ==> |result| == turns
    ensures !ended && delimiter != "" ==> turns < |Split(s, delimiter)| && result == Split(s, delimiter)[..turns]
    ensures delimiter == "" ==> forall i :: 0 <= i < turns ==> result[i] == ""
  {
    result := [];
    var it := new Iterator(s, delimiter);
    while |result| < turns && !it.ended
      invariant fresh(it) && it.Valid() && it.delimiter == delimiter && |result| <= turns
      invariant delimiter != "" ==> Split(s, delimiter) == result + it.Remaining()
      invariant delimiter == "" ==> !it.ended && it.current == "" && forall i :: 0 <= i < |result| ==> result[i] == ""
    {
      ghost var part, before := it.current, result;
      result := result + [it.current];
      it.FindNext();
      if delimiter != "" { MoveOne(before, part, it.Remaining()); }
    }
    ended := it.ended;
    if delimiter != "" { PartOf(Split(s, delimiter), result, it.Remaining()); }
  }
}
