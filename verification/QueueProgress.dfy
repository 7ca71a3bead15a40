/** What becomes of the operations that tasks start on a queue: each is done once, cancelled, or
    still in its task, and without new ones everything comes to rest. */
module QueueProgress {
  import opened QueueProtocol
  import opened Wrappers

  /** The operation a task is in. */
  function OpOf<T>(p: Phase<T>): Option<Op<T>> { if p.Idle? then None else Some(p.op) }

  /** The step does the operation: the value goes behind the queued ones, or the first one goes. */
  ghost predicate Does<T>(s: State<T>, n: State<T>, op: Op<T>) {
    match op
    case Push(v) => n.pushed == s.pushed + [v] && n.items == s.items + [v] && n.popped == s.popped
    case Pop => |n.popped| == |s.popped| + 1 && s.items == [n.popped[|s.popped|]] + n.items && n.pushed == s.pushed
  }

  ghost predicate SameValues<T>(s: State<T>, n: State<T>) {
    n.pushed == s.pushed && n.popped == s.popped && n.items == s.items
  }

  /** What a step does to one task's operation: it begins, is cancelled, is done, or goes on. */
  lemma StepOp<T>(s: State<T>, a: Action<T>, t: nat)
    requires Enabled(s, a) && t < |s.tasks|
    ensures |Apply(s, a).tasks| == |s.tasks|
    ensures var n, before, after := Apply(s, a), OpOf(s.tasks[t]), OpOf(Apply(s, a).tasks[t]);
      && (before == None ==> after == if a.Start? && a.t == t then Some(a.op) else None)
      && (before.Some? && after == None ==> a == Cancel(t) || (a == Run(t) && Does(s, n, before.value)))
      && (before.Some? && after.Some? ==> after == before && a != Cancel(t))
  {
  }

  /** The values change only in a step that ends the operation of the task that makes it, and a try
      ends it exactly if there is room or an item. */
  lemma StepValues<T>(s: State<T>, a: Action<T>)
    requires Enabled(s, a)
    ensures var n := Apply(s, a);
      if a.Run? && s.tasks[a.t].Trying? && Work(s, MaskOf(s.tasks[a.t].op)) > 0
      then n.tasks[a.t].Idle? && Does(s, n, s.tasks[a.t].op)
      else SameValues(s, n)
  {
  }

  /** A task whose wait is over tries again exactly if that number is no such multiple, and else
      waits again. */
  lemma RecheckTries<T>(s: State<T>, t: nat)
    requires Base(s) && Enabled(s, Run(t)) && s.tasks[t].Woken?
    ensures s.since[t] <= s.notifies
    ensures Apply(s, Run(t)).tasks[t].Trying? <==> (s.notifies - s.since[t]) % WORD_SIZE != 0
    ensures Apply(s, Run(t)).tasks[t].Submitted? <==> (s.notifies - s.since[t]) % WORD_SIZE == 0
  {
    assert WaitOk(s, t);
    SameWord(s.since[t], s.notifies);
  }

  // ---------------------------------------------------------------- no operation is lost

  ghost function One<T>(p: Phase<T>, op: Op<T>): nat { if OpOf(p) == Some(op) then 1 else 0 }

  /** How many tasks are in the operation `op`. */
  ghost function Pending<T>(tasks: seq<Phase<T>>, op: Op<T>): nat {
    if tasks == [] then 0 else One(tasks[0], op) + Pending(tasks[1..], op)
  }

  /** How often it has been done. */
  ghost function Done<T>(s: State<T>, op: Op<T>): nat {
    match op
    case Push(v) => multiset(s.pushed)[v]
    case Pop => |s.popped|
  }

  ghost function Begins<T>(a: Action<T>, op: Op<T>): nat { if a.Start? && a.op == op then 1 else 0 }

  ghost function Cancels<T>(s: State<T>, a: Action<T>, op: Op<T>): nat
    requires Enabled(s, a)
  {
    if a.Cancel? then One(s.tasks[a.t], op) else 0
  }

  lemma {:induction false} PendingUpdate<T>(tasks: seq<Phase<T>>, t: nat, p: Phase<T>, op: Op<T>)
    requires t < |tasks|
    ensures Pending(tasks[t := p], op) + One(tasks[t], op) == Pending(tasks, op) + One(p, op)
  {
    var after := tasks[t := p];
    if t == 0 {
      assert after[1..] == tasks[1..];
    } else {
      assert after[1..] == tasks[1..][t - 1 := p];
      PendingUpdate(tasks[1..], t - 1, p, op);
    }
  }

  lemma DoneStep<T>(s: State<T>, n: State<T>, does: Op<T>, op: Op<T>)
    requires Does(s, n, does)
    ensures Done(n, op) == Done(s, op) + if op == does then 1 else 0
  {
  }

  lemma SameTasks<T>(s: State<T>, a: Action<T>)
    requires Enabled(s, a) && !a.WakeNobody?
    ensures a.t < |s.tasks| && Apply(s, a).tasks == s.tasks[a.t := Apply(s, a).tasks[a.t]]
  {
  }

  /** Every step conserves every operation. */
  lemma StepConserves<T>(s: State<T>, a: Action<T>, op: Op<T>)
    requires Enabled(s, a)
    ensures var n := Apply(s, a);
      Pending(n.tasks, op) + Done(n, op) + Cancels(s, a, op) == Pending(s.tasks, op) + Done(s, op) + Begins(a, op)
  {
    var n := Apply(s, a);
    StepValues(s, a);
    if !a.WakeNobody? {
      StepOp(s, a, a.t);
      SameTasks(s, a);
      PendingUpdate(s.tasks, a.t, n.tasks[a.t], op);
      if a.Run? && s.tasks[a.t].Trying? && Work(s, MaskOf(s.tasks[a.t].op)) > 0 {
        DoneStep(s, n, s.tasks[a.t].op, op);
      }
    }
  }

  /** How often the first `i` actions of a run begin an operation, and cancel it. */
  ghost function AllBegun<T>(actions: seq<Action<T>>, i: nat, op: Op<T>): nat
    requires i <= |actions|
  {
    if i == 0 then 0 else AllBegun(actions, i - 1, op) + Begins(actions[i - 1], op)
  }

  ghost function AllCancelled<T>(states: seq<State<T>>, actions: seq<Action<T>>, i: nat, op: Op<T>): nat
    requires IsRun(states, actions) && i <= |actions|
  {
    if i == 0 then 0
    else AllCancelled(states, actions, i - 1, op) + Cancels(states[i - 1], actions[i - 1], op)
  }

  lemma {:induction false} NonePending<T>(tasks: seq<Phase<T>>, op: Op<T>)
    requires forall t :: 0 <= t < |tasks| ==> tasks[t].Idle?
    ensures Pending(tasks, op) == 0
  {
    if tasks != [] { NonePending(tasks[1..], op); }
  }

  /** In every run and for each value an operation has been begun as often as it has been done and
      cancelled and tasks are still in it: no push loses its value, and none is done twice. */
  lemma {:induction false} RunConserves<T>(states: seq<State<T>>, actions: seq<Action<T>>, i: nat, op: Op<T>)
    requires IsRun(states, actions) && i < |states|
    ensures AllBegun(actions, i, op)
         == Done(states[i], op) + AllCancelled(states, actions, i, op) + Pending(states[i].tasks, op)
  {
    if i == 0 {
      NonePending(states[0].tasks, op);
    } else {
      RunConserves(states, actions, i - 1, op);
      assert states[i - 1 + 1] == Apply(states[i - 1], actions[i - 1]);
      StepConserves(states[i - 1], actions[i - 1], op);
    }
  }

  // ---------------------------------------------------------------- coming to rest

  /** How many turns a task makes at most before it sleeps, as long as the word stays the same. */
  function Turns<T>(p: Phase<T>, word: nat): nat {
    match p
    case Idle => 0
    case Trying(_) => 2
    case Submitted(_, seen) => if seen == word then 1 else 4
    case Sleeping(_, _) => 0
    case Woken(_, seen) => if seen == word then 2 else 3
  }

  function AllTurns<T>(tasks: seq<Phase<T>>, word: nat): nat {
    if tasks == [] then 0 else Turns(tasks[0], word) + AllTurns(tasks[1..], word)
  }

  /** How many tasks are in an operation. */
  function Active<T>(tasks: seq<Phase<T>>): nat {
    if tasks == [] then 0 else (if tasks[0].Idle? then 0 else 1) + Active(tasks[1..])
  }

  lemma {:induction false} TurnsUpdate<T>(tasks: seq<Phase<T>>, t: nat, p: Phase<T>, word: nat)
    requires t < |tasks|
    ensures AllTurns(tasks[t := p], word) == AllTurns(tasks, word) - Turns(tasks[t], word) + Turns(p, word)
    ensures Active(tasks[t := p]) + (if tasks[t].Idle? then 0 else 1) == Active(tasks) + if p.Idle? then 0 else 1
  {
    var after := tasks[t := p];
    if t == 0 {
      assert after[1..] == tasks[1..];
    } else {
      assert after[1..] == tasks[1..][t - 1 := p];
      TurnsUpdate(tasks[1..], t - 1, p, word);
    }
  }

  lemma {:induction false} TurnsNewWord<T>(tasks: seq<Phase<T>>, word: nat, word': nat)
    ensures AllTurns(tasks, word') <= AllTurns(tasks, word) + 3 * |tasks|
  {
    if tasks != [] { TurnsNewWord(tasks[1..], word, word'); }
  }

  /** What an active task is worth: more than all that its success can set going. */
  function Weight<T>(s: State<T>): nat { 4 * |s.tasks| + 5 }

  /** Bounds the number of steps that can still happen. */
  function Remaining<T>(s: State<T>): nat {
    Active(s.tasks) * Weight(s) + 4 * (s.nonEmptyWakes + s.nonFullWakes) + AllTurns(s.tasks, Word(s))
  }

  lemma OneLess(a: nat, b: nat, w: nat)
    requires a == b + 1
    ensures a * w == b * w + w
  {
  }

  /** Every step that neither begins an operation nor ends a sleep for no reason brings the queue
      closer to rest. */
  lemma StepDescends<T>(s: State<T>, a: Action<T>)
    requires Enabled(s, a) && !a.Start? && !a.Spurious?
    ensures Remaining(Apply(s, a)) < Remaining(s)
  {
    var n := Apply(s, a);
    if !a.WakeNobody? {
      SameTasks(s, a);
      TurnsUpdate(s.tasks, a.t, n.tasks[a.t], Word(s));
      TurnsNewWord(n.tasks, Word(s), Word(n));
      if n.tasks[a.t].Idle? { OneLess(Active(s.tasks), Active(n.tasks), Weight(s)); }
    }
  }

  /** From the i-th state on, a run in which nothing is begun and no sleep ends for no reason has a
      bounded number of steps, whatever the tasks and the kernel do. */
  lemma {:induction false} RunEnds<T>(states: seq<State<T>>, actions: seq<Action<T>>, i: nat, k: nat)
    requires IsRun(states, actions) && i <= k < |states|
    requires forall m :: i <= m < k ==> !actions[m].Start? && !actions[m].Spurious?
    ensures Remaining(states[k]) + (k - i) <= Remaining(states[i])
    decreases k
  {
    if i < k {
      RunEnds(states, actions, i, k - 1);
      assert states[k - 1 + 1] == Apply(states[k - 1], actions[k - 1]);
      StepDescends(states[k - 1], actions[k - 1]);
    }
  }

  /** Where no such step is left, nothing is going on. */
  lemma EndIsQuiet<T>(s: State<T>)
    requires forall a :: Enabled(s, a) ==> a.Start? || a.Spurious? || a.Cancel?
    ensures Quiet(s)
  {
    forall t: nat | t < |s.tasks| ensures s.tasks[t].Idle? || s.tasks[t].Sleeping? {
      assert !Enabled(s, Run(t)) && !Enabled(s, Compare(t));
    }
    SomeWake(s, NonEmpty);
    SomeWake(s, NonFull);
  }

  lemma SomeWake<T>(s: State<T>, mask: Mask)
    requires forall a :: Enabled(s, a) ==> a.Start? || a.Spurious? || a.Cancel?
    ensures Wakes(s, mask) == 0
  {
    if t: nat :| t < |s.tasks| && Asleep(s.tasks[t], mask) {
      assert !Enabled(s, Wake(mask, t));
    } else {
      assert !Enabled(s, WakeNobody(mask));
    }
  }

  /** At such an end every operation begun has been done or cancelled, but for those of tasks that
      sleep with nothing to do. */
  lemma EndMeansDone<T>(states: seq<State<T>>, actions: seq<Action<T>>, i: nat, t: nat)
    requires IsRun(states, actions) && i < |states| && Harmless(states, i)
    requires forall a :: Enabled(states[i], a) ==> a.Start? || a.Spurious? || a.Cancel?
    requires t < |states[i].tasks|
    ensures var p := states[i].tasks[t];
      p.Idle? || (p.Sleeping? && Work(states[i], MaskOf(p.op)) == 0)
  {
    var s := states[i];
    EndIsQuiet(s);
    RunBase(states, actions, i);
    if s.tasks[t].Sleeping? { QuietMeansDone(states, actions, i, t, t); }
  }
}
