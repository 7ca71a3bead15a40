/** Tasks on any number of threads that share one futex-based mutex.  Every access to the flag
    is one atomic step; the kernel compares the flag some time after a wait was submitted, and
    wakes a sleeper some time after a notification.  Waits may be cancelled. */
module MutexProtocol {
  datatype Phase =
    | Idle
    | Trying        // about to exchange the flag
    | Submitted     // waiting for the flag to be no longer set, not yet seen by the kernel
    | Sleeping
    | Woken         // the wait is over, the task has not run yet
    | Holding
    | Releasing     // has cleared the flag and is about to notify

  datatype State = State(flag: bool, wakes: nat, tasks: seq<Phase>)

  datatype Action =
    | TryLock(t: nat)
    | Lock(t: nat)
    | Exchange(t: nat)
    | Compare(t: nat)
    | Wake(t: nat)
    | WakeNobody
    | Spurious(t: nat)    // a sleep ends for no reason
    | Return(t: nat)      // a woken task goes back to the head of its loop
    | Cancel(t: nat)
    | Clear(t: nat)       // the first half of `unlock`
    | Notify(t: nat)      // the second half

  ghost predicate Enabled(s: State, a: Action) {
    if a.WakeNobody? then s.wakes > 0 && Sleeping !in s.tasks
    else
      a.t < |s.tasks| &&
      match a
      case TryLock(t) => s.tasks[t] == Idle
      case Lock(t) => s.tasks[t] == Idle
      case Exchange(t) => s.tasks[t] == Trying
      case Compare(t) => s.tasks[t] == Submitted
      case Wake(t) => s.tasks[t] == Sleeping && s.wakes > 0
      case Spurious(t) => s.tasks[t] == Sleeping
      case Return(t) => s.tasks[t] == Woken
      case Cancel(t) => s.tasks[t] == Submitted || s.tasks[t] == Sleeping
      case Clear(t) => s.tasks[t] == Holding
      case Notify(t) => s.tasks[t] == Releasing
  }

  function Becomes(s: State, t: nat, p: Phase): State
    requires t < |s.tasks|
  {
    s.(tasks := s.tasks[t := p])
  }

  function Apply(s: State, a: Action): State
    requires Enabled(s, a)
  {
    match a
    case TryLock(t) => Becomes(s, t, if s.flag then Idle else Holding).(flag := true)
    case Lock(t) => Becomes(s, t, Trying)
    case Exchange(t) => Becomes(s, t, if s.flag then Submitted else Holding).(flag := true)
    case Compare(t) => Becomes(s, t, if s.flag then Sleeping else Woken)
    case Wake(t) => Becomes(s, t, Woken).(wakes := s.wakes - 1)
    case WakeNobody => s.(wakes := s.wakes - 1)
    case Spurious(t) => Becomes(s, t, Woken)
    case Return(t) => Becomes(s, t, Trying)
    case Cancel(t) => Becomes(s, t, Idle)
    case Clear(t) => Becomes(s, t, Releasing).(flag := false)
    case Notify(t) => Becomes(s, t, Idle).(wakes := s.wakes + 1)
  }

  /** How many tasks are in a phase. */
  function Count(tasks: seq<Phase>, p: Phase): nat {
    if tasks == [] then 0 else (if tasks[0] == p then 1 else 0) + Count(tasks[1..], p)
  }

  lemma {:induction false} CountUpdate(tasks: seq<Phase>, t: nat, q: Phase, p: Phase)
    requires t < |tasks|
    ensures Count(tasks[t := q], p) == Count(tasks, p) - (if tasks[t] == p then 1 else 0) + (if q == p then 1 else 0)
  {
    var after := tasks[t := q];
    if t == 0 {
      assert after[1..] == tasks[1..];
    } else {
      assert after[1..] == tasks[1..][t - 1 := q];
      CountUpdate(tasks[1..], t - 1, q, p);
    }
  }

  lemma {:induction false} CountZero(tasks: seq<Phase>, p: Phase)
    ensures Count(tasks, p) == 0 <==> p !in tasks
  {
    if tasks != [] {
      CountZero(tasks[1..], p);
      assert tasks == [tasks[0]] + tasks[1..];
    }
  }

  lemma {:induction false} CountTwo(tasks: seq<Phase>, p: Phase, t: nat, u: nat)
    requires t < u < |tasks| && tasks[t] == p && tasks[u] == p
    ensures Count(tasks, p) >= 2
  {
    if t == 0 {
      assert tasks[u] == tasks[1..][u - 1];
      CountZero(tasks[1..], p);
    } else {
      assert tasks[t] == tasks[1..][t - 1] && tasks[u] == tasks[1..][u - 1];
      CountTwo(tasks[1..], p, t - 1, u - 1);
    }
  }

  /** Somebody or something will look at the mutex again without any further unlock. */
  ghost predicate Attended(s: State) {
    s.wakes > 0 || Releasing in s.tasks || Trying in s.tasks || Woken in s.tasks
  }

  /** The flag is set exactly while one task holds the mutex; a task sleeps only while the mutex
      is held or attended to. */
  ghost predicate Inv(s: State) {
    && Count(s.tasks, Holding) == (if s.flag then 1 else 0)
    && (Sleeping in s.tasks ==> s.flag || Attended(s))
  }

  lemma ApplyHolding(s: State, a: Action)
    requires Inv(s) && Enabled(s, a)
    ensures Count(Apply(s, a).tasks, Holding) == (if Apply(s, a).flag then 1 else 0)
  {
    if !a.WakeNobody? { CountUpdate(s.tasks, a.t, Apply(s, a).tasks[a.t], Holding); }
  }

  lemma ApplyAttended(s: State, a: Action)
    requires Inv(s) && Enabled(s, a)
    ensures var n := Apply(s, a); Sleeping in n.tasks ==> n.flag || Attended(n)
  {
    var n := Apply(s, a);
    if Sleeping in n.tasks && !n.flag && !a.WakeNobody? {
      assert n.tasks[a.t] in n.tasks;
      assert Sleeping in s.tasks;
      assert forall p :: p in s.tasks && p != s.tasks[a.t] ==> p in n.tasks by {
        forall p | p in s.tasks && p != s.tasks[a.t] ensures p in n.tasks {
          var k :| 0 <= k < |s.tasks| && s.tasks[k] == p;
          assert n.tasks[k] == p;
        }
      }
    }
  }

  /** Every step keeps the invariant. */
  lemma ApplyInv(s: State, a: Action)
    requires Inv(s) && Enabled(s, a)
    ensures Inv(Apply(s, a))
  {
    ApplyHolding(s, a);
    ApplyAttended(s, a);
  }

  // ---------------------------------------------------------------- runs

  ghost predicate Initial(s: State) {
    !s.flag && s.wakes == 0 && forall t :: 0 <= t < |s.tasks| ==> s.tasks[t] == Idle
  }

  ghost predicate IsRun(states: seq<State>, actions: seq<Action>) {
    && |states| == |actions| + 1 && Initial(states[0])
    && forall i :: 0 <= i < |actions| ==>
         Enabled(states[i], actions[i]) && states[i + 1] == Apply(states[i], actions[i])
  }

  lemma {:induction false} RunInv(states: seq<State>, actions: seq<Action>, i: nat)
    requires IsRun(states, actions) && i < |states|
    ensures Inv(states[i])
  {
    if i == 0 {
      CountZero(states[0].tasks, Holding);
    } else {
      RunInv(states, actions, i - 1);
      assert states[i - 1 + 1] == Apply(states[i - 1], actions[i - 1]);
      ApplyInv(states[i - 1], actions[i - 1]);
    }
  }

  /** Mutual exclusion, and the flag tells whether somebody holds the mutex. */
  lemma MutualExclusion(states: seq<State>, actions: seq<Action>, i: nat)
    requires IsRun(states, actions) && i < |states|
    ensures states[i].flag <==> Holding in states[i].tasks
    ensures forall t, u :: 0 <= t < u < |states[i].tasks| ==>
      !(states[i].tasks[t] == Holding && states[i].tasks[u] == Holding)
  {
    var s := states[i];
    RunInv(states, actions, i);
    CountZero(s.tasks, Holding);
    forall t, u | 0 <= t < u < |s.tasks| ensures !(s.tasks[t] == Holding && s.tasks[u] == Holding) {
      if s.tasks[t] == Holding && s.tasks[u] == Holding { CountTwo(s.tasks, Holding, t, u); }
    }
  }

  /** No lost wakeup: as long as a task sleeps, the mutex is held, a wake is under way or about
      to be sent, or a task is about to try the exchange; whatever waits are cancelled. */
  lemma NoLostWakeup(states: seq<State>, actions: seq<Action>, i: nat)
    requires IsRun(states, actions) && i < |states| && Sleeping in states[i].tasks
    ensures Holding in states[i].tasks || Attended(states[i])
  {
    RunInv(states, actions, i);
    CountZero(states[i].tasks, Holding);
  }

  /** When every task is idle or asleep and no wake is under way, nobody sleeps. */
  lemma QuietMeansIdle(states: seq<State>, actions: seq<Action>, i: nat)
    requires IsRun(states, actions) && i < |states| && states[i].wakes == 0
    requires forall t :: 0 <= t < |states[i].tasks| ==> states[i].tasks[t] == Idle || states[i].tasks[t] == Sleeping
    ensures forall t :: 0 <= t < |states[i].tasks| ==> states[i].tasks[t] == Idle
  {
    if Sleeping in states[i].tasks { NoLostWakeup(states, actions, i); }
  }
}
