/** What becomes of the tasks that call `lock`: they stay in it until they hold the mutex or are
    cancelled, and without new calls everything comes to rest with nobody left in it. */
module MutexProgress {
  import opened MutexProtocol

  /** In a call of `lock` that has not got the mutex yet. */
  predicate InLock(p: Phase) { p == Trying || p == Submitted || p == Sleeping || p == Woken }

  /** Has the mutex, or is about to notify after giving it back. */
  predicate Owns(p: Phase) { p == Holding || p == Releasing }

  /** What a step does to one task: nobody leaves `lock` without the mutex unless cancelled, and
      nobody gets it without asking. */
  lemma StepTask(s: State, a: Action, t: nat)
    requires Enabled(s, a) && t < |s.tasks|
    ensures |Apply(s, a).tasks| == |s.tasks|
    ensures var p, q := s.tasks[t], Apply(s, a).tasks[t];
      && (InLock(p) ==> if a == Cancel(t) then q == Idle else InLock(q) || q == Holding)
      && (p == Idle && a == Lock(t) ==> InLock(q))
      && (p == Idle && a != Lock(t) ==> q == Idle || (a == TryLock(t) && q == Holding))
      && (p == Holding ==> q == if a == Clear(t) then Releasing else Holding)
      && (p == Releasing ==> q == if a == Notify(t) then Idle else Releasing)
  {
  }

  /** A try takes the mutex exactly if nobody holds it. */
  lemma TakesIfFree(s: State, a: Action)
    requires Inv(s) && Enabled(s, a) && (a.TryLock? || a.Exchange?)
    ensures Apply(s, a).tasks[a.t] == Holding <==> Holding !in s.tasks
  {
    CountZero(s.tasks, Holding);
  }

  /** A call of `lock` that is over and was not cancelled has held the mutex. */
  lemma {:induction false} LockHolds(states: seq<State>, actions: seq<Action>, i: nat, k: nat, t: nat) returns (m: nat)
    requires IsRun(states, actions) && i <= k < |states| && t < |states[i].tasks| && InLock(states[i].tasks[t])
    requires forall j :: i <= j < k ==> actions[j] != Cancel(t)
    requires |states[k].tasks| == |states[i].tasks| && !InLock(states[k].tasks[t])
    ensures i < m <= k && |states[m].tasks| == |states[i].tasks| && states[m].tasks[t] == Holding
    decreases k - i
  {
    assert states[i + 1] == Apply(states[i], actions[i]);
    StepTask(states[i], actions[i], t);
    if InLock(states[i + 1].tasks[t]) {
      m := LockHolds(states, actions, i + 1, k, t);
    } else {
      m := i + 1;
    }
  }

  // ---------------------------------------------------------------- coming to rest

  /** How many turns a task makes at most before it sleeps or takes the mutex, as long as the flag
      stays the same. */
  function Turns(p: Phase, flag: bool): nat {
    match p
    case Trying => if flag then 2 else 1
    case Submitted => if flag then 1 else 3
    case Woken => if flag then 3 else 2
    case _ => 0
  }

  /** What a task has still to go through: taking the mutex, clearing the flag, notifying. */
  function Stages(p: Phase): nat {
    if InLock(p) then 3 else if p == Holding then 2 else if p == Releasing then 1 else 0
  }

  function AllTurns(tasks: seq<Phase>, flag: bool): nat {
    if tasks == [] then 0 else Turns(tasks[0], flag) + AllTurns(tasks[1..], flag)
  }

  function AllStages(tasks: seq<Phase>): nat {
    if tasks == [] then 0 else Stages(tasks[0]) + AllStages(tasks[1..])
  }

  lemma {:induction false} TurnsUpdate(tasks: seq<Phase>, t: nat, p: Phase, flag: bool)
    requires t < |tasks|
    ensures AllTurns(tasks[t := p], flag) == AllTurns(tasks, flag) - Turns(tasks[t], flag) + Turns(p, flag)
    ensures AllStages(tasks[t := p]) == AllStages(tasks) - Stages(tasks[t]) + Stages(p)
  {
    var after := tasks[t := p];
    if t == 0 {
      assert after[1..] == tasks[1..];
    } else {
      assert after[1..] == tasks[1..][t - 1 := p];
      TurnsUpdate(tasks[1..], t - 1, p, flag);
    }
  }

  lemma {:induction false} TurnsNewFlag(tasks: seq<Phase>, flag: bool, flag': bool)
    ensures AllTurns(tasks, flag') <= AllTurns(tasks, flag) + 2 * |tasks|
  {
    if tasks != [] { TurnsNewFlag(tasks[1..], flag, flag'); }
  }

  /** What one stage is worth: more than all that its end can set going. */
  function Weight(s: State): nat { 2 * |s.tasks| + 5 }

  /** Bounds the number of steps that can still happen. */
  function Remaining(s: State): nat {
    AllStages(s.tasks) * Weight(s) + 4 * s.wakes + AllTurns(s.tasks, s.flag)
  }

  predicate Begins(a: Action) { a.TryLock? || a.Lock? }

  lemma {:induction false} Fewer(a: nat, b: nat, w: nat)
    requires a > b
    ensures a * w >= b * w + w
  {
    assert a * w == (a - 1) * w + w;
    if a - 1 > b { Fewer(a - 1, b, w); }
  }

  /** Every step that neither begins a call nor ends a sleep for no reason brings the mutex closer
      to rest. */
  lemma StepDescends(s: State, a: Action)
    requires Enabled(s, a) && !Begins(a) && !a.Spurious?
    ensures Remaining(Apply(s, a)) < Remaining(s)
  {
    var n := Apply(s, a);
    if !a.WakeNobody? {
      TurnsUpdate(s.tasks, a.t, n.tasks[a.t], s.flag);
      TurnsNewFlag(n.tasks, s.flag, n.flag);
      if AllStages(n.tasks) < AllStages(s.tasks) { Fewer(AllStages(s.tasks), AllStages(n.tasks), Weight(s)); }
    }
  }

  /** From the i-th state on, a run in which nobody calls and no sleep ends for no reason has a
      bounded number of steps, whatever the tasks and the kernel do. */
  lemma {:induction false} RunEnds(states: seq<State>, actions: seq<Action>, i: nat, k: nat)
    requires IsRun(states, actions) && i <= k < |states|
    requires forall m :: i <= m < k ==> !Begins(actions[m]) && !actions[m].Spurious?
    ensures Remaining(states[k]) + (k - i) <= Remaining(states[i])
    decreases k
  {
    if i < k {
      RunEnds(states, actions, i, k - 1);
      assert states[k - 1 + 1] == Apply(states[k - 1], actions[k - 1]);
      StepDescends(states[k - 1], actions[k - 1]);
    }
  }

  /** Where no such step is left, no task is in `lock` and nobody holds the mutex.  So whoever
      called `lock` and was not cancelled has held it. */
  lemma EndMeansIdle(states: seq<State>, actions: seq<Action>, i: nat, t: nat)
    requires IsRun(states, actions) && i < |states| && t < |states[i].tasks|
    requires forall a :: Enabled(states[i], a) ==> Begins(a) || a.Spurious? || a.Cancel?
    ensures states[i].tasks[t] == Idle && !states[i].flag
  {
    var s := states[i];
    forall u: nat | u < |s.tasks| ensures s.tasks[u] == Idle || s.tasks[u] == Sleeping {
      assert !Enabled(s, Exchange(u)) && !Enabled(s, Compare(u)) && !Enabled(s, Return(u));
      assert !Enabled(s, Clear(u)) && !Enabled(s, Notify(u));
    }
    NoWakes(s);
    QuietMeansIdle(states, actions, i);
    MutualExclusion(states, actions, i);
  }

  lemma NoWakes(s: State)
    requires forall a :: Enabled(s, a) ==> Begins(a) || a.Spurious? || a.Cancel?
    ensures s.wakes == 0
  {
    if Sleeping in s.tasks {
      var t :| 0 <= t < |s.tasks| && s.tasks[t] == Sleeping;
      assert !Enabled(s, Wake(t));
    } else {
      assert !Enabled(s, WakeNobody);
    }
  }
}
