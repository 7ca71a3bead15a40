/** Which thread runs what: threads are created only where none was free, and the free ones are
    handed out in the order in which they became free. */
module PoolReuse {
  import opened PoolProtocol
  import opened Wrappers

  /** The submitter looks at the free list and finds none there. */
  ghost predicate FindsNone(s: State, a: Action) { a.TakeFree? && s.free == [] }

  function Needs(p: Submitter): nat { if p.NeedsThread? then 1 else 0 }

  /** How many submitters are about to create a thread. */
  function Needed(submitters: seq<Submitter>): nat {
    if submitters == [] then 0 else Needs(submitters[0]) + Needed(submitters[1..])
  }

  lemma {:induction false} NeededUpdate(s: seq<Submitter>, j: nat, p: Submitter)
    requires j < |s|
    ensures Needed(s[j := p]) == Needed(s) - Needs(s[j]) + Needs(p)
  {
    var after := s[j := p];
    if j == 0 {
      assert after[1..] == s[1..];
    } else {
      assert after[1..] == s[1..][j - 1 := p];
      NeededUpdate(s[1..], j - 1, p);
    }
  }

  lemma {:induction false} NeededSnoc(s: seq<Submitter>, p: Submitter)
    ensures Needed(s + [p]) == Needed(s) + Needs(p)
  {
    if s != [] {
      NeededSnoc(s[1..], p);
      assert (s + [p])[1..] == s[1..] + [p];
    }
  }

  lemma StepThreads(s: State, a: Action)
    requires Enabled(s, a)
    ensures var n := Apply(s, a);
      |n.threads| + Needed(n.submitters) == |s.threads| + Needed(s.submitters) + if FindsNone(s, a) then 1 else 0
  {
    var n := Apply(s, a);
    if a.Submit? {
      NeededSnoc(s.submitters, Entering);
    } else if a.TakeFree? || a.Create? || a.WorkOn? {
      NeededUpdate(s.submitters, a.j, n.submitters[a.j]);
    }
  }

  /** How often a submitter has found the free list empty in the first `i` actions. */
  ghost function TimesNone(states: seq<State>, actions: seq<Action>, i: nat): nat
    requires i <= |actions| < |states|
  {
    if i == 0 then 0
    else TimesNone(states, actions, i - 1) + if FindsNone(states[i - 1], actions[i - 1]) then 1 else 0
  }

  /** In every run there are as many threads, those about to be created included, as submitters
      that have found none free: a free thread is always used instead of a new one. */
  lemma {:induction false} ThreadsAreNeeded(states: seq<State>, actions: seq<Action>, i: nat)
    requires IsRun(states, actions) && i < |states|
    ensures |states[i].threads| + Needed(states[i].submitters) == TimesNone(states, actions, i)
  {
    if i > 0 {
      ThreadsAreNeeded(states, actions, i - 1);
      assert states[i - 1 + 1] == Apply(states[i - 1], actions[i - 1]);
      StepThreads(states[i - 1], actions[i - 1]);
    }
  }

  /** The threads that have become free in the first `i` actions, in order. */
  ghost function Freed(actions: seq<Action>, i: nat): seq<nat>
    requires i <= |actions|
  {
    if i == 0 then []
    else Freed(actions, i - 1) + if actions[i - 1].Free? then [actions[i - 1].w] else []
  }

  /** The thread that an action hands to a submitter out of the free list. */
  ghost function Handed(s: State, a: Action, n: State): seq<nat> {
    if a.TakeFree? && a.j < |n.submitters| && n.submitters[a.j].Assigned? then [n.submitters[a.j].w] else []
  }

  ghost function HandedOut(states: seq<State>, actions: seq<Action>, i: nat): seq<nat>
    requires i <= |actions| < |states|
  {
    if i == 0 then []
    else HandedOut(states, actions, i - 1) + Handed(states[i - 1], actions[i - 1], states[i])
  }

  lemma StepFree(s: State, a: Action)
    requires Enabled(s, a)
    ensures Handed(s, a, Apply(s, a)) + Apply(s, a).free == s.free + if a.Free? then [a.w] else []
  {
  }

  /** In every run the threads handed out, followed by those free now, are the threads that became
      free, in order: the one longest free is used first, and none is forgotten. */
  lemma {:induction false} FreeInOrder(states: seq<State>, actions: seq<Action>, i: nat)
    requires IsRun(states, actions) && i < |states|
    ensures HandedOut(states, actions, i) + states[i].free == Freed(actions, i)
  {
    if i > 0 {
      var s, a := states[i - 1], actions[i - 1];
      FreeInOrder(states, actions, i - 1);
      assert states[i - 1 + 1] == Apply(s, a);
      StepFree(s, a);
      Rejoin(HandedOut(states, actions, i - 1), Handed(s, a, states[i]), states[i].free,
             s.free, if a.Free? then [a.w] else []);
    }
  }

  lemma Rejoin(out: seq<nat>, handed: seq<nat>, now: seq<nat>, before: seq<nat>, freed: seq<nat>)
    requires handed + now == before + freed
    ensures (out + handed) + now == (out + before) + freed
  {
    assert (out + handed) + now == out + (handed + now);
    assert (out + before) + freed == out + (before + freed);
  }
}
