/** What draining the timers comes to, on values: a queue in the order of the expiry times, from
    whose front the due timers are fired while the resumed coroutines add new ones. */
module TimerDrain {
  import opened RbLayout

  /** A coroutine suspends on the timer `promise` until the time `expires`. */
  datatype Start = Start(promise: TimerNode, expires: int)

  /** Behind all timers that are due no later. */
  function Add(q: seq<Start>, e: Start): seq<Start> {
    if q == [] || e.expires < q[0].expires then [e] + q else [q[0]] + Add(q[1..], e)
  }

  function AddAll(q: seq<Start>, es: seq<Start>): seq<Start>
    decreases |es|
  {
    if es == [] then q else AddAll(Add(q, es[0]), es[1..])
  }

  /** What the coroutine that is resumed by the k-th timer starts. */
  function At(starts: seq<seq<Start>>, k: nat): seq<Start> { if k < |starts| then starts[k] else [] }

  /** How many more turns may start timers. */
  function TurnsLeft(starts: seq<seq<Start>>, k: nat): nat { if k < |starts| then |starts| - k else 0 }

  /** The timers fired, those left, and the number of the last look at the clock. */
  datatype Outcome = Outcome(fired: seq<Start>, left: seq<Start>, looks: nat)

  /** The loop before its k-th look at the clock, with the timers `q` pending.  Only finitely many
      new timers are started, so it ends. */
  ghost function Drain(q: seq<Start>, now: nat -> int, starts: seq<seq<Start>>, k: nat): Outcome
    decreases TurnsLeft(starts, k), |q|
  {
    if q == [] || q[0].expires > now(k) then Outcome([], q, k)
    else
      var d := Drain(AddAll(q[1..], At(starts, k)), now, starts, k + 1);
      Outcome([q[0]] + d.fired, d.left, d.looks)
  }

  ghost predicate Ordered(q: seq<Start>) {
    |q| <= 1 || (q[0].expires <= q[1].expires && Ordered(q[1..]))
  }

  lemma {:induction false} FirstIsLeast(q: seq<Start>, j: nat)
    requires Ordered(q) && j < |q|
    ensures q[0].expires <= q[j].expires
  {
    if j > 0 { FirstIsLeast(q[1..], j - 1); }
  }

  lemma {:induction false} OrderedIf(q: seq<Start>)
    requires forall i, j :: 0 <= i < j < |q| ==> q[i].expires <= q[j].expires
    ensures Ordered(q)
  {
    if |q| > 1 { OrderedIf(q[1..]); }
  }

  lemma {:induction false} AddAt(q: seq<Start>, e: Start, i: nat)
    requires i <= |q| && forall j :: 0 <= j < i ==> q[j].expires <= e.expires
    requires i < |q| ==> e.expires < q[i].expires
    ensures Add(q, e) == q[..i] + [e] + q[i..]
  {
    if i > 0 {
      AddAt(q[1..], e, i - 1);
      assert q[..i] == [q[0]] + q[1..][..i - 1] && q[i..] == q[1..][i - 1..];
    }
  }

  lemma {:induction false} AddContents(q: seq<Start>, e: Start)
    ensures multiset(Add(q, e)) == multiset(q) + multiset{e}
  {
    if q != [] && q[0].expires <= e.expires {
      AddContents(q[1..], e);
      assert q == [q[0]] + q[1..];
    }
  }

  lemma {:induction false} AddOrdered(q: seq<Start>, e: Start)
    requires Ordered(q)
    ensures Ordered(Add(q, e))
  {
    if q != [] {
      if e.expires < q[0].expires {
        assert ([e] + q)[1..] == q;
      } else {
        AddOrdered(q[1..], e);
        assert Add(q, e)[1..] == Add(q[1..], e);
      }
    }
  }

  lemma {:induction false} AddAllContents(q: seq<Start>, es: seq<Start>)
    ensures multiset(AddAll(q, es)) == multiset(q) + multiset(es)
    decreases |es|
  {
    if es != [] {
      AddContents(q, es[0]);
      AddAllContents(Add(q, es[0]), es[1..]);
      assert es == [es[0]] + es[1..];
    }
  }

  lemma {:induction false} AddAllOrdered(q: seq<Start>, es: seq<Start>)
    requires Ordered(q)
    ensures Ordered(AddAll(q, es))
    decreases |es|
  {
    if es != [] {
      AddOrdered(q, es[0]);
      AddAllOrdered(Add(q, es[0]), es[1..]);
    }
  }

  lemma {:induction false} AddAllSnoc(q: seq<Start>, es: seq<Start>, j: nat)
    requires j < |es|
    ensures AddAll(q, es[..j + 1]) == Add(AddAll(q, es[..j]), es[j])
    decreases j
  {
    var t := es[..j + 1];
    if j == 0 {
      assert t[1..] == [];
    } else {
      assert t[1..] == es[1..][..j] && es[..j][1..] == es[1..][..j - 1];
      AddAllSnoc(Add(q, es[0]), es[1..], j - 1);
    }
  }

  /** All that is started from the k-th look up to the n-th. */
  ghost function Started(starts: seq<seq<Start>>, k: nat, n: nat): multiset<Start>
    decreases n - k
  {
    if k >= n then multiset{} else multiset(At(starts, k)) + Started(starts, k + 1, n)
  }

  /** Each timer that is fired is due at the look that fires it, and those left are not due at the
      last one. */
  lemma {:induction false} DrainDue(q: seq<Start>, now: nat -> int, starts: seq<seq<Start>>, k: nat)
    requires Ordered(q)
    ensures var d := Drain(q, now, starts, k);
      && d.looks == k + |d.fired| && Ordered(d.left)
      && (forall i :: 0 <= i < |d.fired| ==> d.fired[i].expires <= now(k + i))
      && (forall i :: 0 <= i < |d.left| ==> d.left[i].expires > now(d.looks))
    decreases TurnsLeft(starts, k), |q|
  {
    if q != [] && q[0].expires <= now(k) {
      var next := AddAll(q[1..], At(starts, k));
      AddAllOrdered(q[1..], At(starts, k));
      DrainDue(next, now, starts, k + 1);
      var d, e := Drain(q, now, starts, k), Drain(next, now, starts, k + 1);
      forall i | 0 <= i < |d.fired| ensures d.fired[i].expires <= now(k + i) {
        if i > 0 { assert d.fired[i] == e.fired[i - 1] && e.fired[i - 1].expires <= now(k + 1 + (i - 1)); }
      }
    } else {
      forall i | 0 <= i < |q| ensures q[i].expires > now(k) { FirstIsLeast(q, i); }
    }
  }

  lemma Regroup(h: multiset<Start>, f: multiset<Start>, l: multiset<Start>, q: multiset<Start>, a: multiset<Start>,
                s: multiset<Start>)
    requires f + l == (q + a) + s
    ensures (h + f) + l == (h + q) + (a + s)
  {
    assert (h + f) + l == h + (f + l);
    assert (h + q) + (a + s) == h + ((q + a) + s);
  }

  lemma OneMore(q: seq<Start>, f: seq<Start>, l: seq<Start>, a: multiset<Start>, s: multiset<Start>)
    requires q != [] && multiset(f) + multiset(l) == (multiset(q[1..]) + a) + s
    ensures multiset([q[0]] + f) + multiset(l) == multiset(q) + (a + s)
  {
    Regroup(multiset{q[0]}, multiset(f), multiset(l), multiset(q[1..]), a, s);
    assert q == [q[0]] + q[1..];
  }

  /** Every timer pending at first or started meanwhile has been fired once or is left. */
  lemma {:induction false} DrainConserves(q: seq<Start>, now: nat -> int, starts: seq<seq<Start>>, k: nat)
    ensures var d := Drain(q, now, starts, k);
      k <= d.looks && multiset(d.fired) + multiset(d.left) == multiset(q) + Started(starts, k, d.looks)
    decreases TurnsLeft(starts, k), |q|
  {
    if q != [] && q[0].expires <= now(k) {
      var next := AddAll(q[1..], At(starts, k));
      AddAllContents(q[1..], At(starts, k));
      DrainConserves(next, now, starts, k + 1);
      var e := Drain(next, now, starts, k + 1);
      OneMore(q, e.fired, e.left, multiset(At(starts, k)), Started(starts, k + 1, e.looks));
    }
  }

  /** What the outcome of a drain satisfies: each timer fired was due at the look that fired it, no
      timer left is due at the last one, and no timer is lost or fired twice. */
  ghost predicate Sound(q: seq<Start>, now: nat -> int, starts: seq<seq<Start>>, d: Outcome) {
    && d.looks == |d.fired| && (forall i :: 0 <= i < |d.fired| ==> d.fired[i].expires <= now(i))
    && Ordered(d.left) && (forall i :: 0 <= i < |d.left| ==> d.left[i].expires > now(d.looks))
    && multiset(d.fired) + multiset(d.left) == multiset(q) + Started(starts, 0, d.looks)
  }

  lemma DrainSound(q: seq<Start>, now: nat -> int, starts: seq<seq<Start>>)
    requires Ordered(q)
    ensures Sound(q, now, starts, Drain(q, now, starts, 0))
  {
    DrainDue(q, now, starts, 0);
    DrainConserves(q, now, starts, 0);
  }

  lemma DrainStep(q: seq<Start>, now: nat -> int, k: nat)
    requires q != [] && q[0].expires <= now(k)
    ensures var e := Drain(q[1..], now, [], k + 1);
      Drain(q, now, [], k) == Outcome([q[0]] + e.fired, e.left, e.looks)
  {
    assert AddAll(q[1..], At([], k)) == q[1..];
  }

  /** If the resumed coroutines start nothing, the timers are fired in their order. */
  lemma {:induction false} DrainInOrder(q: seq<Start>, now: nat -> int, k: nat)
    ensures var d := Drain(q, now, [], k); q == d.fired + d.left
    decreases |q|
  {
    if q != [] && q[0].expires <= now(k) {
      DrainStep(q, now, k);
      DrainInOrder(q[1..], now, k + 1);
      assert q == [q[0]] + q[1..];
    }
  }
}
