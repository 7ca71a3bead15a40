/** Submitters and workers of a thread pool.  Each action is one critical section of one of the
    locks, or the run of a job outside all of them; they interleave in any way.  Threads and
    jobs are numbered in the order in which they appear. */
module PoolProtocol {
  import opened Wrappers

  /** Where a worker is.  It holds its own mutex in `Resetting` and `Freed`. */
  datatype Phase =
    | Waiting              // about to look at its slot
    | Running(job: nat)
    | Ran                  // the job is over
    | Resetting            // has cleared its slot, not yet in the free list
    | Freed                // is in the free list, still holds its mutex

  datatype Thread = Thread(phase: Phase, slot: Option<nat>)

  /** Where the submitter of a job is. */
  datatype Submitter =
    | Entering
    | NeedsThread          // found the free list empty
    | Assigned(w: nat)     // is about to hand the job to that thread
    | Returned

  /** Where a job is. */
  datatype Place = Held | InSlot(w: nat) | RunBy(w: nat) | Done

  /** `place` and `runs` record history; no action depends on them. */
  datatype State = State(
    threads: seq<Thread>,
    free: seq<nat>,
    submitters: seq<Submitter>,
    place: seq<Place>,
    runs: seq<nat>)

  datatype Action =
    | Submit
    | TakeFree(j: nat)
    | Create(j: nat)
    | WorkOn(j: nat)
    | TakeJob(w: nat)
    | Finish(w: nat)
    | Reset(w: nat)
    | Free(w: nat)
    | Release(w: nat)

  predicate HoldsMutex(p: Phase) { p == Resetting || p == Freed }

  ghost predicate Enabled(s: State, a: Action) {
    match a
    case Submit => true
    case TakeFree(j) => j < |s.submitters| && s.submitters[j] == Entering
    case Create(j) => j < |s.submitters| && s.submitters[j] == NeedsThread
    case WorkOn(j) =>
      && j < |s.submitters| && s.submitters[j].Assigned? && s.submitters[j].w < |s.threads|
      && j < |s.place| && !HoldsMutex(s.threads[s.submitters[j].w].phase)
    case TakeJob(w) =>
      && w < |s.threads| && s.threads[w].phase == Waiting && s.threads[w].slot.Some?
      && s.threads[w].slot.value < |s.place| && s.threads[w].slot.value < |s.runs|
    case Finish(w) => w < |s.threads| && s.threads[w].phase.Running? && s.threads[w].phase.job < |s.place|
    case Reset(w) => w < |s.threads| && s.threads[w].phase == Ran
    case Free(w) => w < |s.threads| && s.threads[w].phase == Resetting
    case Release(w) => w < |s.threads| && s.threads[w].phase == Freed
  }

  function SetThread(s: State, w: nat, t: Thread): State
    requires w < |s.threads|
  {
    s.(threads := s.threads[w := t])
  }

  function SetSubmitter(s: State, j: nat, p: Submitter): State
    requires j < |s.submitters|
  {
    s.(submitters := s.submitters[j := p])
  }

  function Apply(s: State, a: Action): State
    requires Enabled(s, a)
  {
    match a
    case Submit => s.(submitters := s.submitters + [Entering], place := s.place + [Held], runs := s.runs + [0])
    case TakeFree(j) =>
      if s.free == [] then SetSubmitter(s, j, NeedsThread)
      else SetSubmitter(s, j, Assigned(s.free[0])).(free := s.free[1..])
    case Create(j) =>
      SetSubmitter(s, j, Assigned(|s.threads|)).(threads := s.threads + [Thread(Waiting, None)])
    case WorkOn(j) =>
      var w := s.submitters[j].w;
      SetThread(SetSubmitter(s, j, Returned), w, s.threads[w].(slot := Some(j))).(place := s.place[j := InSlot(w)])
    case TakeJob(w) =>
      var j := s.threads[w].slot.value;
      SetThread(s, w, Thread(Running(j), None)).(place := s.place[j := RunBy(w)], runs := s.runs[j := s.runs[j] + 1])
    case Finish(w) =>
      SetThread(s, w, s.threads[w].(phase := Ran)).(place := s.place[s.threads[w].phase.job := Done])
    case Reset(w) => SetThread(s, w, Thread(Resetting, None))
    case Free(w) => SetThread(s, w, s.threads[w].(phase := Freed)).(free := s.free + [w])
    case Release(w) => SetThread(s, w, s.threads[w].(phase := Waiting))
  }

  // ---------------------------------------------------------------- the invariant

  predicate Busy(p: Phase) { p.Running? || p == Ran || p == Resetting }

  /** Nobody is about to put anything into an idle thread's slot, and nothing is there. */
  predicate Idle(s: State, w: nat) {
    w < |s.threads| && !Busy(s.threads[w].phase) && s.threads[w].slot == None
  }

  ghost predicate ThreadOk(s: State, w: nat)
    requires w < |s.threads|
  {
    var t := s.threads[w];
    && (t.phase != Waiting ==> t.slot == None)
    && (t.slot.Some? ==> t.slot.value < |s.place| && s.place[t.slot.value] == InSlot(w))
    && (t.phase.Running? ==> t.phase.job < |s.place| && s.place[t.phase.job] == RunBy(w))
  }

  ghost predicate JobOk(s: State, j: nat)
    requires j < |s.submitters| == |s.place| == |s.runs|
  {
    && (s.submitters[j].Assigned? ==> Idle(s, s.submitters[j].w) && s.submitters[j].w !in s.free)
    && (s.place[j] == Held <==> s.submitters[j] != Returned)
    && (s.place[j].InSlot? ==> s.place[j].w < |s.threads| && s.threads[s.place[j].w].slot == Some(j))
    && (s.place[j].RunBy? ==> s.place[j].w < |s.threads| && s.threads[s.place[j].w].phase == Running(j))
    && s.runs[j] == (if s.place[j].RunBy? || s.place[j].Done? then 1 else 0)
  }

  ghost predicate FreeOk(s: State, i: nat)
    requires i < |s.free|
  {
    Idle(s, s.free[i]) && forall k :: i < k < |s.free| ==> s.free[k] != s.free[i]
  }

  ghost predicate Apart(s: State, j: nat, k: nat)
    requires j < |s.submitters| && k < |s.submitters|
  {
    s.submitters[j].Assigned? && s.submitters[k].Assigned? && s.submitters[j].w == s.submitters[k].w ==> j == k
  }

  ghost predicate Inv(s: State) {
    && |s.submitters| == |s.place| == |s.runs|
    && (forall w {:trigger ThreadOk(s, w)} :: 0 <= w < |s.threads| ==> ThreadOk(s, w))
    && (forall j {:trigger JobOk(s, j)} :: 0 <= j < |s.submitters| ==> JobOk(s, j))
    && (forall i {:trigger FreeOk(s, i)} :: 0 <= i < |s.free| ==> FreeOk(s, i))
    && (forall j, k {:trigger Apart(s, j, k)} :: 0 <= j < |s.submitters| && 0 <= k < |s.submitters| ==> Apart(s, j, k))
  }

  lemma FreeIdle(s: State, w: nat)
    requires Inv(s) && w in s.free
    ensures Idle(s, w)
  {
    var i :| 0 <= i < |s.free| && s.free[i] == w;
    assert FreeOk(s, i);
  }

  /** What the invariant says about the threads and jobs that an action touches. */
  ghost predicate Facts(s: State, a: Action)
    requires Enabled(s, a) && |s.submitters| == |s.place| == |s.runs|
  {
    match a
    case Submit => true
    case TakeFree(j) => JobOk(s, j) && (s.free != [] ==> FreeOk(s, 0) && s.free[0] !in s.free[1..])
    case Create(j) => JobOk(s, j) && |s.threads| !in s.free
    case WorkOn(j) => JobOk(s, j) && ThreadOk(s, s.submitters[j].w)
    case TakeJob(w) => ThreadOk(s, w) && JobOk(s, s.threads[w].slot.value) && w !in s.free
    case Finish(w) => ThreadOk(s, w) && JobOk(s, s.threads[w].phase.job) && w !in s.free
    case Reset(w) => ThreadOk(s, w) && w !in s.free
    case Free(w) => ThreadOk(s, w) && w !in s.free
    case Release(w) => ThreadOk(s, w)
  }

  lemma FactsHold(s: State, a: Action)
    requires Inv(s) && Enabled(s, a)
    ensures Facts(s, a)
  {
    match a
    case Submit =>
    case TakeFree(j) =>
      assert JobOk(s, j);
      if s.free != [] { assert FreeOk(s, 0); }
    case Create(j) =>
      assert JobOk(s, j);
      if |s.threads| in s.free { FreeIdle(s, |s.threads|); }
    case WorkOn(j) => assert JobOk(s, j) && ThreadOk(s, s.submitters[j].w);
    case TakeJob(w) =>
      assert ThreadOk(s, w) && JobOk(s, s.threads[w].slot.value);
      if w in s.free { FreeIdle(s, w); }
    case Finish(w) =>
      assert ThreadOk(s, w) && JobOk(s, s.threads[w].phase.job);
      if w in s.free { FreeIdle(s, w); }
    case Reset(w) =>
      assert ThreadOk(s, w);
      if w in s.free { FreeIdle(s, w); }
    case Free(w) =>
      assert ThreadOk(s, w);
      if w in s.free { FreeIdle(s, w); }
    case Release(w) => assert ThreadOk(s, w);
  }

  lemma ApplyThread(s: State, a: Action, w: nat)
    requires |s.submitters| == |s.place| == |s.runs| && Enabled(s, a) && Facts(s, a)
    requires w < |s.threads| ==> ThreadOk(s, w)
    requires w < |Apply(s, a).threads|
    ensures ThreadOk(Apply(s, a), w)
  {
  }

  lemma ApplyJob(s: State, a: Action, j: nat)
    requires |s.submitters| == |s.place| == |s.runs| && Enabled(s, a) && Facts(s, a)
    requires j < |s.submitters| ==> JobOk(s, j)
    requires a.WorkOn? && j < |s.submitters| ==> Apart(s, j, a.j)
    requires j < |Apply(s, a).submitters|
    ensures |Apply(s, a).submitters| == |Apply(s, a).place| == |Apply(s, a).runs|
    ensures JobOk(Apply(s, a), j)
  {
  }

  lemma ApplyFree(s: State, a: Action, i: nat)
    requires Inv(s) && Enabled(s, a) && Facts(s, a) && i < |Apply(s, a).free|
    ensures FreeOk(Apply(s, a), i)
  {
    if a.TakeFree? && s.free != [] {
      assert FreeOk(s, i + 1);
    } else if i < |s.free| {
      assert FreeOk(s, i);
    }
  }

  lemma ApplyApart(s: State, a: Action, j: nat, k: nat)
    requires Inv(s) && Enabled(s, a) && Facts(s, a)
    requires j < |Apply(s, a).submitters| && k < |Apply(s, a).submitters|
    ensures Apart(Apply(s, a), j, k)
  {
    if j < |s.submitters| && k < |s.submitters| {
      assert JobOk(s, j) && JobOk(s, k) && Apart(s, j, k);
    }
  }

  /** Every step keeps the invariant. */
  lemma ApplyInv(s: State, a: Action)
    requires Inv(s) && Enabled(s, a)
    ensures Inv(Apply(s, a))
  {
    var n := Apply(s, a);
    FactsHold(s, a);
    forall w | 0 <= w < |n.threads| ensures ThreadOk(n, w) {
      if w < |s.threads| { assert ThreadOk(s, w); }
      ApplyThread(s, a, w);
    }
    assert |n.submitters| == |n.place| == |n.runs|;
    forall j | 0 <= j < |n.submitters| ensures JobOk(n, j) {
      if j < |s.submitters| {
        assert JobOk(s, j);
        if a.WorkOn? { assert Apart(s, j, a.j); }
      }
      ApplyJob(s, a, j);
    }
    forall i | 0 <= i < |n.free| ensures FreeOk(n, i) { ApplyFree(s, a, i); }
    forall j, k | 0 <= j < |n.submitters| && 0 <= k < |n.submitters| ensures Apart(n, j, k) { ApplyApart(s, a, j, k); }
  }

  // ---------------------------------------------------------------- runs

  ghost predicate Initial(s: State) {
    s.threads == [] && s.free == [] && s.submitters == [] && s.place == [] && s.runs == []
  }

  ghost predicate IsRun(states: seq<State>, actions: seq<Action>) {
    && |states| == |actions| + 1 && Initial(states[0])
    && forall i :: 0 <= i < |actions| ==>
         Enabled(states[i], actions[i]) && states[i + 1] == Apply(states[i], actions[i])
  }

  lemma {:induction false} RunInv(states: seq<State>, actions: seq<Action>, i: nat)
    requires IsRun(states, actions) && i < |states|
    ensures Inv(states[i])
  {
    if i > 0 {
      RunInv(states, actions, i - 1);
      assert states[i - 1 + 1] == Apply(states[i - 1], actions[i - 1]);
      ApplyInv(states[i - 1], actions[i - 1]);
    }
  }

  /** A job is where the state says it is. */
  ghost predicate IsAt(s: State, j: nat, p: Place) {
    match p
    case Held => j < |s.submitters| && s.submitters[j] != Returned
    case InSlot(w) => w < |s.threads| && s.threads[w].slot == Some(j)
    case RunBy(w) => w < |s.threads| && s.threads[w].phase == Running(j)
    case Done => j < |s.place| && s.place[j] == Done
  }

  /** Every submitted job is in exactly one place: with its submitter, in one thread's slot,
      being run by one thread, or done.  It has been run once if it is being run or done, and
      not at all otherwise. */
  lemma EachJobOnce(states: seq<State>, actions: seq<Action>, i: nat, j: nat)
    requires IsRun(states, actions) && i < |states| && j < |states[i].submitters|
    ensures |states[i].place| == |states[i].runs| == |states[i].submitters|
    ensures forall p :: IsAt(states[i], j, p) <==> p == states[i].place[j]
    ensures states[i].runs[j] == (if states[i].place[j].RunBy? || states[i].place[j].Done? then 1 else 0)
  {
    var s := states[i];
    RunInv(states, actions, i);
    assert JobOk(s, j);
    forall p ensures IsAt(s, j, p) <==> p == s.place[j] {
      if (p.InSlot? || p.RunBy?) && p.w < |s.threads| { assert ThreadOk(s, p.w); }
    }
  }

  /** Handing a job to a thread never overwrites another job, and the reset after a job never
      drops one. */
  lemma NothingLost(states: seq<State>, actions: seq<Action>, i: nat)
    requires IsRun(states, actions) && i < |actions|
    ensures actions[i].WorkOn? ==> states[i].threads[states[i].submitters[actions[i].j].w].slot == None
    ensures actions[i].Reset? ==> states[i].threads[actions[i].w].slot == None
  {
    RunInv(states, actions, i);
    FactsHold(states[i], actions[i]);
  }

  /** The free list has no duplicates and only idle threads, to which no submitter is about to
      hand a job; and no two submitters have the same thread. */
  lemma FreeListOk(states: seq<State>, actions: seq<Action>, i: nat, a: nat, b: nat)
    requires IsRun(states, actions) && i < |states| && a < |states[i].free|
    ensures Idle(states[i], states[i].free[a])
    ensures b < |states[i].free| && a != b ==> states[i].free[a] != states[i].free[b]
    ensures b < |states[i].submitters| ==> states[i].submitters[b] != Assigned(states[i].free[a])
  {
    var s := states[i];
    RunInv(states, actions, i);
    assert FreeOk(s, a);
    if b < |s.free| { assert FreeOk(s, b); }
    if b < |s.submitters| { assert JobOk(s, b); }
  }

  lemma OneThreadEach(states: seq<State>, actions: seq<Action>, i: nat, j: nat, k: nat)
    requires IsRun(states, actions) && i < |states| && j < k < |states[i].submitters|
    requires states[i].submitters[j].Assigned? && states[i].submitters[k].Assigned?
    ensures states[i].submitters[j].w != states[i].submitters[k].w
  {
    RunInv(states, actions, i);
    assert Apart(states[i], j, k);
  }

  /** As long as a job is not done, some thread or submitter can go on. */
  lemma SomethingEnabled(states: seq<State>, actions: seq<Action>, i: nat, j: nat) returns (a: Action)
    requires IsRun(states, actions) && i < |states| && j < |states[i].submitters|
    requires |states[i].place| == |states[i].submitters| && states[i].place[j] != Done
    ensures a != Submit && Enabled(states[i], a)
  {
    var s := states[i];
    RunInv(states, actions, i);
    assert JobOk(s, j);
    match s.place[j]
    case RunBy(w) => a := Finish(w);
    case InSlot(w) =>
      assert ThreadOk(s, w);
      a := TakeJob(w);
    case Held =>
      match s.submitters[j]
      case Entering => a := TakeFree(j);
      case NeedsThread => a := Create(j);
      case Assigned(w) => a := if s.threads[w].phase == Freed then Release(w) else WorkOn(j);
  }

  // ---------------------------------------------------------------- every job gets done

  function SubmitterSteps(p: Submitter): nat {
    match p
    case Entering => 8
    case NeedsThread => 7
    case Assigned(_) => 6
    case Returned => 0
  }

  function ThreadSteps(t: Thread): nat {
    var left := match t.phase
      case Waiting => 0
      case Running(_) => 4
      case Ran => 3
      case Resetting => 2
      case Freed => 1;
    left + if t.slot.Some? then 5 else 0
  }

  function AllSubmitterSteps(s: seq<Submitter>): nat {
    if s == [] then 0 else SubmitterSteps(s[0]) + AllSubmitterSteps(s[1..])
  }

  function AllThreadSteps(s: seq<Thread>): nat {
    if s == [] then 0 else ThreadSteps(s[0]) + AllThreadSteps(s[1..])
  }

  lemma {:induction false} SubmitterUpdate(s: seq<Submitter>, j: nat, p: Submitter)
    requires j < |s|
    ensures AllSubmitterSteps(s[j := p]) == AllSubmitterSteps(s) - SubmitterSteps(s[j]) + SubmitterSteps(p)
  {
    var after := s[j := p];
    if j == 0 {
      assert after[1..] == s[1..];
    } else {
      assert after[1..] == s[1..][j - 1 := p];
      SubmitterUpdate(s[1..], j - 1, p);
    }
  }

  lemma {:induction false} ThreadUpdate(s: seq<Thread>, w: nat, t: Thread)
    requires w < |s|
    ensures AllThreadSteps(s[w := t]) == AllThreadSteps(s) - ThreadSteps(s[w]) + ThreadSteps(t)
  {
    var after := s[w := t];
    if w == 0 {
      assert after[1..] == s[1..];
    } else {
      assert after[1..] == s[1..][w - 1 := t];
      ThreadUpdate(s[1..], w - 1, t);
    }
  }

  lemma {:induction false} NewThread(s: seq<Thread>)
    ensures AllThreadSteps(s + [Thread(Waiting, None)]) == AllThreadSteps(s)
  {
    if s != [] {
      NewThread(s[1..]);
      assert (s + [Thread(Waiting, None)])[1..] == s[1..] + [Thread(Waiting, None)];
    }
  }

  /** Bounds the number of actions that can still happen without another `Submit`. */
  function Remaining(s: State): nat { AllSubmitterSteps(s.submitters) + AllThreadSteps(s.threads) }

  /** Every action but `Submit` brings the pool closer to its end. */
  lemma ActionDescends(s: State, a: Action)
    requires Enabled(s, a) && a != Submit
    ensures Remaining(Apply(s, a)) < Remaining(s)
  {
    var n := Apply(s, a);
    if a.TakeFree? || a.Create? {
      SubmitterUpdate(s.submitters, a.j, n.submitters[a.j]);
      NewThread(s.threads);
    } else if a.WorkOn? {
      var w := s.submitters[a.j].w;
      SubmitterUpdate(s.submitters, a.j, Returned);
      ThreadUpdate(s.threads, w, n.threads[w]);
    } else {
      ThreadUpdate(s.threads, a.w, n.threads[a.w]);
    }
  }

  /** From the i-th state on a run without further `Submit` has a bounded number of actions. */
  lemma {:induction false} RunEnds(states: seq<State>, actions: seq<Action>, i: nat, k: nat)
    requires IsRun(states, actions) && i <= k < |states|
    requires forall m :: i <= m < k ==> actions[m] != Submit
    ensures Remaining(states[k]) + (k - i) <= Remaining(states[i])
    decreases k
  {
    if i < k {
      RunEnds(states, actions, i, k - 1);
      assert states[k - 1 + 1] == Apply(states[k - 1], actions[k - 1]);
      ActionDescends(states[k - 1], actions[k - 1]);
    }
  }

  /** Where nothing but `Submit` can happen, every job has been run, once, and is done. */
  lemma EndMeansDone(states: seq<State>, actions: seq<Action>, i: nat, j: nat)
    requires IsRun(states, actions) && i < |states| && j < |states[i].submitters|
    requires forall a :: Enabled(states[i], a) ==> a == Submit
    ensures |states[i].place| == |states[i].runs| == |states[i].submitters|
    ensures states[i].place[j] == Done && states[i].runs[j] == 1
  {
    EachJobOnce(states, actions, i, j);
    if states[i].place[j] != Done {
      var a := SomethingEnabled(states, actions, i, j);
    }
  }
}
