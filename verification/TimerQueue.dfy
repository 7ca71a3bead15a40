/** Timers of the event loop: a tree of pending timers, drained from its front. */
module TimerQueue {
  import opened RbLayout
  import opened RbTree
  import opened TimerDrain
  import opened Wrappers

  ghost predicate Holds(h: Heap, order: seq<TimerNode>) {
    forall i :: 0 <= i < |order| ==> order[i] in h.cells
  }

  /** A sequence of timers with their keys. */
  ghost function Entries(h: Heap, order: seq<TimerNode>): (q: seq<Start>)
    requires Holds(h, order)
    ensures |q| == |order|
  {
    seq(|order|, i requires 0 <= i < |order| => Start(order[i], h.cells[order[i]].key))
  }

  lemma EntriesGrow(h: Heap, l: Layout, g: Heap, order: seq<TimerNode>, e: Start, i: int)
    requires Linked(h, l) && Holds(h, l.order) && Fits(h, l, e.expires, i)
    requires order == l.order[..i] + [e.promise] + l.order[i..] && Holds(g, order) && e.promise !in h.cells
    requires forall n :: n in g.cells ==> n in h.cells || n == e.promise
    requires forall n :: n in g.cells ==> g.cells[n].key == if n == e.promise then e.expires else h.cells[n].key
    ensures Entries(g, order) == Add(Entries(h, l.order), e)
  {
    var q := Entries(h, l.order);
    var r := q[..i] + [e] + q[i..];
    AddAt(q, e, i);
    forall j | 0 <= j < |order| ensures Entries(g, order)[j] == r[j] {
      if j < i {
        assert order[j] == l.order[j] && r[j] == q[j];
      } else if j > i {
        assert order[j] == l.order[j - 1] && r[j] == q[j - 1];
      }
    }
  }

  lemma EntriesShrink(h: Heap, l: Layout, g: Heap, order: seq<TimerNode>)
    requires l.order != [] && Holds(h, l.order) && order == l.order[1..] && Holds(g, order)
    requires forall n :: n in g.cells ==> n in h.cells && g.cells[n].key == h.cells[n].key
    ensures Entries(g, order) == Entries(h, l.order)[1..]
  {
  }

  lemma EntriesOrdered(h: Heap, l: Layout)
    requires Sorted(h, l) && Holds(h, l.order)
    ensures Ordered(Entries(h, l.order))
  {
    OrderedIf(Entries(h, l.order));
  }

  ghost function Promises(es: seq<Start>): set<TimerNode> { set e | e in es :: e.promise }

  ghost function AllPromises(starts: seq<seq<Start>>): set<TimerNode> {
    set i, a | 0 <= i < |starts| && 0 <= a < |starts[i]| :: starts[i][a].promise
  }

  ghost function Nodes(es: seq<Start>): seq<TimerNode> { seq(|es|, i requires 0 <= i < |es| => es[i].promise) }

  lemma NodesSnoc(before: seq<TimerNode>, fired: seq<Start>, e: Start)
    ensures before + Nodes(fired + [e]) == before + Nodes(fired) + [e.promise]
  {
  }

  lemma PromisesSnoc(fired: seq<Start>, e: Start)
    ensures Promises(fired + [e]) == Promises(fired) + {e.promise}
  {
    forall n | n in Promises(fired) + {e.promise} ensures n in Promises(fired + [e]) {
      if n != e.promise {
        var f :| f in fired && f.promise == n;
        assert f in fired + [e];
      } else {
        assert e in fired + [e];
      }
    }
  }

  lemma PromisesTake(es: seq<Start>, j: nat)
    requires j < |es|
    ensures Promises(es[..j + 1]) == Promises(es[..j]) + {es[j].promise}
  {
    assert es[..j + 1] == es[..j] + [es[j]];
    PromisesSnoc(es[..j], es[j]);
  }

  /** Each timer is started once. */
  ghost predicate Distinct(starts: seq<seq<Start>>) {
    forall i, a, j, b :: 0 <= i < |starts| && 0 <= a < |starts[i]| && 0 <= j < |starts| && 0 <= b < |starts[j]| ==>
      starts[i][a].promise == starts[j][b].promise ==> i == j && a == b
  }

  /** None of the timers started from the k-th look on is among `nodes`. */
  ghost predicate Ahead(starts: seq<seq<Start>>, k: nat, nodes: set<TimerNode>) {
    forall i, a :: k <= i < |starts| && 0 <= a < |starts[i]| ==> starts[i][a].promise !in nodes
  }

  /** The outcome of a drain that has fired some timers before. */
  ghost function After(fired: seq<Start>, d: Outcome): Outcome { Outcome(fired + d.fired, d.left, d.looks) }

  /** One more timer fired. */
  lemma DrainTurn(q: seq<Start>, now: nat -> int, starts: seq<seq<Start>>, fired: seq<Start>, p: seq<Start>, k: nat)
    requires p != [] && p[0].expires <= now(k)
    requires Drain(q, now, starts, 0) == After(fired, Drain(p, now, starts, k))
    ensures var next := AddAll(p[1..], At(starts, k));
      Drain(q, now, starts, 0) == After(fired + [p[0]], Drain(next, now, starts, k + 1))
  {
    var e := Drain(AddAll(p[1..], At(starts, k)), now, starts, k + 1);
    assert fired + ([p[0]] + e.fired) == (fired + [p[0]]) + e.fired;
  }

  lemma AheadTurn(starts: seq<seq<Start>>, k: nat, nodes: set<TimerNode>, fired: seq<Start>, front: Start)
    requires Distinct(starts) && Ahead(starts, k, nodes) && Ahead(starts, k, Promises(fired)) && front.promise in nodes
    ensures Ahead(starts, k + 1, nodes - {front.promise} + Promises(At(starts, k)))
    ensures Ahead(starts, k + 1, Promises(fired + [front]))
  {
  }

  lemma NotFired(starts: seq<seq<Start>>, k: nat, fired: seq<Start>)
    requires Ahead(starts, k, Promises(fired))
    ensures Promises(At(starts, k)) !! Promises(fired)
  {
  }

  lemma StartedAt(starts: seq<seq<Start>>, k: nat)
    ensures Promises(At(starts, k)) <= AllPromises(starts)
  {
    forall n | n in Promises(At(starts, k)) ensures n in AllPromises(starts) {
      var e :| e in At(starts, k) && e.promise == n;
      var a :| 0 <= a < |starts[k]| && starts[k][a] == e;
    }
  }

  lemma DrainStops(q: seq<Start>, now: nat -> int, starts: seq<seq<Start>>, fired: seq<Start>, p: seq<Start>, k: nat)
    requires p == [] || p[0].expires > now(k)
    requires Drain(q, now, starts, 0) == After(fired, Drain(p, now, starts, k))
    ensures Drain(q, now, starts, 0) == Outcome(fired, p, k)
  {
  }

  class GenericIOContext {
    const timers: TimerTree
    var resumed: seq<TimerNode>  // the coroutines resumed so far, in order

    constructor ()
      ensures timers.Valid() && Balanced(timers.lay) && timers.lay.order == [] && fresh(timers)
      ensures resumed == []
    {
      timers := new TimerTree();
      resumed := [];
    }

    /** The pending timers in tree order, with the times for which they are in the tree. */
    ghost function Pending(): seq<Start>
      requires timers.Valid()
      reads timers, timers.snap.cells.Keys
    {
      Entries(timers.snap, timers.lay.order)
    }

    /** Suspending on a timer: the expiry is stored and the node goes into the tree. */
    method AwaitSuspend(promise: TimerNode, expires: int) returns (ghost i: int)
      requires timers.Valid() && promise !in timers.snap.cells
      modifies timers, timers.Nodes()`left, timers.Nodes()`right, timers.Nodes()`parent, timers.Nodes()`red, promise
      ensures timers.Valid() && promise.expires == expires
      ensures old(Fits(timers.snap, timers.lay, expires, i))
      ensures timers.lay.order == old(timers.lay.order[..i]) + [promise] + old(timers.lay.order[i..])
      ensures timers.Nodes() == old(timers.Nodes()) + {promise}
      ensures Pending() == Add(old(Pending()), Start(promise, expires))
      ensures old(Balanced(timers.lay)) ==> Balanced(timers.lay)
    {
      promise.expires := expires;
      forall n | n in timers.snap.cells ensures timers.Mirrors(n) { assert old(timers.Mirrors(n)); }
      ghost var h, l := timers.snap, timers.lay;
      i := timers.Insert(promise);
      EntriesGrow(h, l, timers.snap, timers.lay.order, Start(promise, expires), i);
    }

    /** One due timer: marked as not cancelled, taken off the tree, its coroutine resumed. */
    method Fire(promise: TimerNode)
      requires timers.Valid() && promise in timers.snap.cells && promise.left == null
      requires timers.lay.order != [] && promise == timers.lay.order[0]
      modifies timers, timers.Nodes()`left, timers.Nodes()`right, timers.Nodes()`parent, timers.Nodes()`red
      modifies promise`linked, promise`cancelled, this`resumed
      ensures timers.Valid() && timers.Nodes() == old(timers.Nodes()) - {promise}
      ensures Pending() == old(Pending())[1..]
      ensures resumed == old(resumed) + [promise] && !promise.linked && !promise.cancelled
    {
      promise.cancelled := false;
      forall n | n in timers.snap.cells ensures timers.Mirrors(n) { assert old(timers.Mirrors(n)); }
      assert PlaceOk(timers.lay, promise);
      ghost var h, l := timers.snap, timers.lay;
      timers.Erase(promise);
      forall n | n in timers.snap.cells ensures timers.snap.cells[n].key == h.cells[n].key {
        assert timers.Mirrors(n) && old(timers.Mirrors(n));
      }
      EntriesShrink(h, l, timers.snap, timers.lay.order);
      resumed := resumed + [promise];
    }

    /** The timers `es`, none of which is in the tree. */
    ghost predicate Startable(es: seq<Start>)
      reads timers
    {
      && (forall a :: 0 <= a < |es| ==> es[a].promise !in timers.Nodes())
      && (forall a, b :: 0 <= a < b < |es| ==> es[a].promise != es[b].promise)
    }

    /** The first `j` of the timers `es` have been added to the timers `q`. */
    ghost predicate Suspended(q: seq<Start>, es: seq<Start>, j: nat)
      requires timers.Valid() && j <= |es|
      reads timers, timers.snap.cells.Keys
    {
      Pending() == AddAll(q, es[..j]) && Startable(es[j..])
    }

    method SuspendNext(es: seq<Start>, j: nat, ghost q: seq<Start>)
      requires timers.Valid() && j < |es| && Suspended(q, es, j)
      modifies timers, timers.Nodes()`left, timers.Nodes()`right, timers.Nodes()`parent, timers.Nodes()`red
      modifies es[j].promise
      ensures timers.Valid() && Suspended(q, es, j + 1)
      ensures timers.Nodes() == old(timers.Nodes()) + {es[j].promise}
    {
      AddAllSnoc(q, es, j);
      assert es[j] == es[j..][0] && es[j + 1..] == es[j..][1..];
      ghost var i := AwaitSuspend(es[j].promise, es[j].expires);
    }

    /** The coroutine that has been resumed suspends on new timers. */
    method SuspendAll(es: seq<Start>)
      requires timers.Valid() && Startable(es)
      modifies timers, timers.Nodes()`left, timers.Nodes()`right, timers.Nodes()`parent, timers.Nodes()`red
      modifies Promises(es)
      ensures timers.Valid() && timers.Nodes() == old(timers.Nodes()) + Promises(es)
      ensures Pending() == AddAll(old(Pending()), es)
    {
      ghost var q := Pending();
      assert es[0..] == es;
      for j := 0 to |es|
        invariant timers.Valid() && timers.Nodes() == old(timers.Nodes()) + Promises(es[..j])
        invariant Suspended(q, es, j)
      {
        PromisesTake(es, j);
        SuspendNext(es, j, q);
      }
      assert es[..|es|] == es;
    }

    /** A look at the front timer: it is fired if it is due, and its coroutine starts the timers
        `es`; otherwise its distance is returned. */
    method Look(now: int, es: seq<Start>) returns (sleep: Option<int>)
      requires timers.Valid() && timers.root != null
      requires Startable(es)
      modifies timers, timers.Nodes()`left, timers.Nodes()`right, timers.Nodes()`parent, timers.Nodes()`red
      modifies timers.Nodes()`linked, timers.Nodes()`cancelled, this`resumed, Promises(es)
      ensures timers.Valid() && old(Pending()) != []
      ensures sleep == None <==> old(Pending()[0].expires) <= now
      ensures sleep.Some? ==> Pending() == old(Pending()) && sleep.value == Pending()[0].expires - now
      ensures sleep.Some? ==> resumed == old(resumed) && timers.Nodes() == old(timers.Nodes())
      ensures sleep == None ==>
        var front := old(Pending()[0].promise);
        && Pending() == AddAll(old(Pending())[1..], es) && resumed == old(resumed) + [front]
        && front in old(timers.Nodes()) && !front.linked && !front.cancelled
        && timers.Nodes() == old(timers.Nodes()) - {front} + Promises(es)
    {
      var promise := timers.Front();
      if promise.expires <= now {
        Fire(promise);
        SuspendAll(es);
        return None;
      } else {
        return Some(promise.expires - now);
      }
    }

    /** The timers fired are out of the tree and marked as not cancelled. */
    ghost predicate Settled(fired: seq<Start>)
      reads timers, Promises(fired)
    {
      forall n :: n in Promises(fired) ==> n !in timers.Nodes() && !n.linked && !n.cancelled
    }

    /** The drain of the timers `q` has fired some of them before its k-th look. */
    ghost predicate Draining(q: seq<Start>, now: nat -> int, starts: seq<seq<Start>>, fired: seq<Start>, k: nat,
                             before: seq<TimerNode>)
      requires timers.Valid()
      reads `resumed, timers, timers.snap.cells.Keys
    {
      && Drain(q, now, starts, 0) == After(fired, Drain(Pending(), now, starts, k))
      && resumed == before + Nodes(fired)
      && Ahead(starts, k, timers.Nodes()) && Ahead(starts, k, Promises(fired))
    }

    /** One turn of the loop. */
    method Turn(ghost q: seq<Start>, now: nat -> int, starts: seq<seq<Start>>, ghost fired: seq<Start>, k: nat,
                ghost before: seq<TimerNode>)
      returns (sleep: Option<int>, ghost fired': seq<Start>)
      requires timers.Valid() && timers.root != null && Distinct(starts)
      requires Draining(q, now, starts, fired, k, before) && Settled(fired)
      modifies timers, timers.Nodes()`left, timers.Nodes()`right, timers.Nodes()`parent, timers.Nodes()`red
      modifies timers.Nodes()`linked, timers.Nodes()`cancelled, this`resumed, Promises(At(starts, k))
      ensures timers.Valid() && timers.Nodes() <= old(timers.Nodes()) + Promises(At(starts, k))
      ensures Draining(q, now, starts, fired', if sleep == None then k + 1 else k, before) && Settled(fired')
      ensures sleep.Some? ==> Pending() != [] && sleep.value == Pending()[0].expires - now(k) > 0
      ensures sleep == None ==>
        var a, b := TurnsLeft(starts, k), TurnsLeft(starts, k + 1);
        b < a || (b == a && |timers.lay.order| < |old(timers.lay.order)|)
    {
      ghost var p, nodes := Pending(), timers.Nodes();
      sleep := Look(now(k), At(starts, k));
      fired' := fired;
      if sleep == None {
        DrainTurn(q, now, starts, fired, p, k);
        AheadTurn(starts, k, nodes, fired, p[0]);
        NodesSnoc(before, fired, p[0]);
        fired' := fired + [p[0]];
        NotFired(starts, k, fired);
        PromisesSnoc(fired, p[0]);
        forall n | n in Promises(fired) ensures n !in timers.Nodes() && !n.linked && !n.cancelled {
          assert n !in nodes && n !in Promises(At(starts, k));
        }
      }
    }

    /** The loop, until no timer is left or none is due. */
    method Loop(ghost q: seq<Start>, now: nat -> int, starts: seq<seq<Start>>, ghost before: seq<TimerNode>)
      returns (sleep: Option<int>, ghost fired: seq<Start>, ghost k: nat)
      requires timers.Valid() && Distinct(starts) && Draining(q, now, starts, [], 0, before)
      modifies timers, timers.Nodes()`left, timers.Nodes()`right, timers.Nodes()`parent, timers.Nodes()`red
      modifies timers.Nodes()`linked, timers.Nodes()`cancelled, this`resumed, AllPromises(starts)
      ensures timers.Valid() && Draining(q, now, starts, fired, k, before) && Settled(fired)
      ensures sleep == None <==> timers.root == null
      ensures sleep.Some? ==> Pending() != [] && sleep.value == Pending()[0].expires - now(k) > 0
    {
      fired := [];
      var looks: nat := 0;
      sleep := None;
      while timers.root != null
        invariant timers.Valid() && timers.Nodes() <= old(timers.Nodes()) + AllPromises(starts) && sleep == None
        invariant Draining(q, now, starts, fired, looks, before) && Settled(fired)
        decreases TurnsLeft(starts, looks), |timers.lay.order|
      {
        StartedAt(starts, looks);
        sleep, fired := Turn(q, now, starts, fired, looks, before);
        if sleep.Some? { break; }
        looks := looks + 1;
      }
      k := looks;
    }

    /** Fires every timer that is due and tells how long to sleep.  `now(i)` is the clock at the
        i-th look; the coroutine resumed then starts the timers `starts[i]`, and cancels none. */
    method RunDuration(now: nat -> int, starts: seq<seq<Start>>) returns (sleep: Option<int>, ghost k: nat)
      requires timers.Valid() && Distinct(starts) && Ahead(starts, 0, timers.Nodes())
      modifies timers, timers.Nodes()`left, timers.Nodes()`right, timers.Nodes()`parent, timers.Nodes()`red
      modifies timers.Nodes()`linked, timers.Nodes()`cancelled, this`resumed, AllPromises(starts)
      ensures timers.Valid()
      ensures var d := old(Drain(Pending(), now, starts, 0));
        && resumed == old(resumed) + Nodes(d.fired) && Settled(d.fired)
        && Pending() == d.left && k == d.looks && Sound(old(Pending()), now, starts, d)
      ensures sleep == None <==> timers.lay.order == []
      ensures sleep.Some? ==> sleep.value > 0 && sleep.value == Pending()[0].expires - now(k)
    {
      ghost var q, fired := Pending(), [];
      EntriesOrdered(timers.snap, timers.lay);
      DrainSound(q, now, starts);
      sleep, fired, k := Loop(q, now, starts, resumed);
      DrainStops(q, now, starts, fired, Pending(), k);
    }
  }

  /** `perm` lists 0, ..., n-1 in the order of their expiry times `due`, equal ones in their
      original order: the stable sort of n timers. */
  ghost predicate StablySorted(due: seq<int>, perm: seq<int>, n: nat) {
    && |perm| == n <= |due|
    && (forall i :: 0 <= i < n ==> 0 <= perm[i] < n)
    && (forall i, j :: 0 <= i < j < n ==>
          due[perm[i]] < due[perm[j]] || (due[perm[i]] == due[perm[j]] && perm[i] < perm[j]))
  }

  /** Going in after all timers that are due no later keeps the order stable. */
  lemma InsertStably(due: seq<int>, perm: seq<int>, n: nat, i: int)
    requires StablySorted(due, perm, n) && n < |due| && 0 <= i <= n
    requires forall j :: 0 <= j < i ==> due[perm[j]] <= due[n]
    requires forall j :: i <= j < n ==> due[n] < due[perm[j]]
    ensures StablySorted(due, perm[..i] + [n] + perm[i..], n + 1)
  {
  }

  /** The first `k` of the timers `all`, with expiry times `due`, stand in the tree in the
      order `perm`. */
  ghost predicate InOrderOf(h: Heap, order: seq<TimerNode>, all: seq<TimerNode>, due: seq<int>, perm: seq<int>,
                            k: nat) {
    && |due| == |all| && k <= |all| && StablySorted(due, perm, k) && |order| == k
    && (forall i :: 0 <= i < k ==>
          order[i] == all[perm[i]] && order[i] in h.cells && h.cells[order[i]].key == due[perm[i]])
  }

  ghost predicate Scheduled(tree: TimerTree, all: seq<TimerNode>, due: seq<int>, perm: seq<int>, k: nat)
    reads tree, tree.snap.cells.Keys
  {
    && tree.Valid() && Balanced(tree.lay) && InOrderOf(tree.snap, tree.lay.order, all, due, perm, k)
    && (forall n :: n in tree.snap.cells ==> n in all[..k])
  }

  lemma ScheduledNext(h: Heap, l: Layout, g: Heap, all: seq<TimerNode>, due: seq<int>, perm: seq<int>, k: nat, i: int)
    requires Linked(h, l) && InOrderOf(h, l.order, all, due, perm, k) && k < |all| && Fits(h, l, due[k], i)
    requires g.cells.Keys == h.cells.Keys + {all[k]} && all[k] !in h.cells && g.cells[all[k]].key == due[k]
    requires forall n :: n in h.cells ==> g.cells[n].key == h.cells[n].key
    ensures InOrderOf(g, l.order[..i] + [all[k]] + l.order[i..], all, due, perm[..i] + [k] + perm[i..], k + 1)
  {
    InsertStably(due, perm, k, i);
  }

  method ScheduleNext(tree: TimerTree, all: seq<TimerNode>, ghost due: seq<int>, ghost perm: seq<int>, k: nat)
    returns (ghost perm': seq<int>)
    requires k < |all| && all[k] !in all[..k]
    requires Scheduled(tree, all, due, perm, k) && all[k].expires == due[k]
    modifies tree, tree.Nodes()`left, tree.Nodes()`right, tree.Nodes()`parent, tree.Nodes()`red, all[k]
    ensures Scheduled(tree, all, due, perm', k + 1) && all[k].expires == due[k]
  {
    ghost var h, l := tree.snap, tree.lay;
    ghost var i := tree.Insert(all[k]);
    ScheduledNext(h, l, tree.snap, all, due, perm, k, i);
    perm' := perm[..i] + [k] + perm[i..];
  }

  /** Any number of timers put into an empty tree end up in stable expiry order, in a tree
      whose height is at most 2 * log2 (n + 1). */
  method ScheduleAll(all: seq<TimerNode>, ghost due: seq<int>) returns (tree: TimerTree, ghost perm: seq<int>)
    requires forall i, j :: 0 <= i < j < |all| ==> all[i] != all[j]
    requires |due| == |all| && forall i :: 0 <= i < |all| ==> all[i].expires == due[i]
    modifies all
    ensures fresh(tree) && Scheduled(tree, all, due, perm, |all|)
    ensures forall i :: 0 <= i < |all| ==> all[i].expires == due[i]
    ensures var bh := Level(tree.lay);
      0 <= bh && Pow2(bh) <= |all| + 1 && Height(tree.snap, tree.lay, tree.snap.root) <= 2 * bh
  {
    tree := new TimerTree();
    perm := [];
    for k := 0 to |all|
      invariant fresh(tree) && Scheduled(tree, all, due, perm, k)
      invariant forall i :: 0 <= i < |all| ==> all[i].expires == due[i]
    {
      perm := ScheduleNext(tree, all, due, perm, k);
    }
    LogarithmicHeight(tree.snap, tree.lay);
  }

  /** Four timers put into an empty tree, whatever their expiry times, and the front fired once or
      twice: the tree is still valid, but its paths differ in their numbers of black nodes. */
  method DrainLosesBalance(all: seq<TimerNode>, ghost due: seq<int>) returns (tree: TimerTree, fired: seq<TimerNode>)
    requires |all| == 4 && forall i, j :: 0 <= i < j < |all| ==> all[i] != all[j]
    requires |due| == |all| && forall i :: 0 <= i < |all| ==> all[i].expires == due[i]
    modifies all
    ensures tree.Valid() && !Balanced(tree.lay)
    ensures 1 <= |fired| <= 2 && |tree.lay.order| + |fired| == 4
  {
    ghost var perm;
    tree, perm := ScheduleAll(all, due);
    FourNodes(tree.snap, tree.lay);
    FirstNotRoot(tree.snap, tree.lay);
    var first := tree.Front();
    var red := first.red;
    tree.Erase(first);
    fired := [first];
    if red {
      FirstNotRoot(tree.snap, tree.lay);
      var second := tree.Front();
      tree.Erase(second);
      fired := [first, second];
      TwoNodes(tree.snap, tree.lay);
    }
  }
}
