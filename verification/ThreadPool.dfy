/** The thread pool's objects.  Each method is one critical section; program counters of the
    submitters and workers are ghost.  A job is known by its number. */
module ThreadPools {
  import opened PoolProtocol
  import opened Wrappers

  class Worker {
    var mTask: Option<nat>
    ghost const id: nat
    ghost var phase: Phase

    constructor (ghost id: nat)
      ensures mTask == None && this.id == id && phase == Waiting
    {
      mTask, this.id, phase := None, id, Waiting;
    }
  }

  class ThreadPool {
    var mThreads: seq<Worker>
    var mFreeThreads: seq<Worker>
    ghost var state: State

    ghost predicate Mirrored(i: nat)
      requires i < |mThreads|
      reads `mThreads, `state, mThreads
    {
      && mThreads[i].id == i && i < |state.threads|
      && state.threads[i] == PoolProtocol.Thread(mThreads[i].phase, mThreads[i].mTask)
    }

    ghost predicate Listed(i: nat)
      requires i < |mFreeThreads|
      reads `mThreads, `mFreeThreads, `state
    {
      i < |state.free| && state.free[i] < |mThreads| && mFreeThreads[i] == mThreads[state.free[i]]
    }

    ghost predicate Valid()
      reads this, mThreads
    {
      && Inv(state) && |state.threads| == |mThreads| && |state.free| == |mFreeThreads|
      && (forall i {:trigger Mirrored(i)} :: 0 <= i < |mThreads| ==> Mirrored(i))
      && (forall i {:trigger Listed(i)} :: 0 <= i < |mFreeThreads| ==> Listed(i))
    }

    ghost predicate Has(t: Worker)
      reads `mThreads
    {
      t.id < |mThreads| && mThreads[t.id] == t
    }

    constructor ()
      ensures Valid() && Initial(state)
    {
      mThreads, mFreeThreads := [], [];
      state := State([], [], [], [], []);
    }

    method Submit() returns (ghost j: nat)
      requires Valid()
      modifies `state
      ensures Valid() && state == Apply(old(state), Action.Submit) && j == |old(state).submitters|
    {
      j := |state.submitters|;
      ApplyInv(state, Action.Submit);
      state := Apply(state, Action.Submit);
      forall i | 0 <= i < |mThreads| ensures Mirrored(i) { assert old(Mirrored(i)); }
      forall i | 0 <= i < |mFreeThreads| ensures Listed(i) { assert old(Listed(i)); }
    }

    /** Under the free list's lock: the first free thread, if there is one. */
    method TakeFree(ghost j: nat) returns (t: Worker?)
      requires Valid() && Enabled(state, Action.TakeFree(j))
      modifies `mFreeThreads, `state
      ensures Valid() && state == Apply(old(state), Action.TakeFree(j))
      ensures t == null ==> state.submitters[j] == NeedsThread
      ensures t != null ==> Has(t) && state.submitters[j] == Assigned(t.id)
    {
      ApplyInv(state, Action.TakeFree(j));
      t := null;
      if mFreeThreads != [] {
        t := mFreeThreads[0];
        assert Listed(0) && Mirrored(state.free[0]);
        mFreeThreads := mFreeThreads[1..];
      }
      state := Apply(state, Action.TakeFree(j));
      forall i | 0 <= i < |mThreads| ensures Mirrored(i) { assert old(Mirrored(i)); }
      forall i | 0 <= i < |mFreeThreads| ensures Listed(i) { assert old(Listed(i + 1)); }
    }

    /** Under the thread list's lock: a new thread. */
    method Create(ghost j: nat) returns (t: Worker)
      requires Valid() && Enabled(state, Action.Create(j))
      modifies `mThreads, `state
      ensures Valid() && fresh(t) && Has(t) && state == Apply(old(state), Action.Create(j))
      ensures state.submitters[j] == Assigned(t.id)
    {
      ApplyInv(state, Action.Create(j));
      t := new Worker(|mThreads|);
      mThreads := mThreads + [t];
      state := Apply(state, Action.Create(j));
      forall i | 0 <= i < |mThreads| ensures Mirrored(i) { if i < |mThreads| - 1 { assert old(Mirrored(i)); } }
      forall i | 0 <= i < |mFreeThreads| ensures Listed(i) { assert old(Listed(i)); }
    }

    /** Under the thread's own lock: the job goes into its slot, which was empty. */
    method WorkOn(t: Worker, j: nat)
      requires Valid() && Enabled(state, Action.WorkOn(j)) && Has(t) && state.submitters[j] == Assigned(t.id)
      modifies t`mTask, `state
      ensures Valid() && state == Apply(old(state), Action.WorkOn(j)) && old(t.mTask) == None
    {
      assert Mirrored(t.id);
      ApplyInv(state, Action.WorkOn(j));
      FactsHold(state, Action.WorkOn(j));
      t.mTask := Some(j);
      state := Apply(state, Action.WorkOn(j));
      forall i | 0 <= i < |mThreads| ensures Mirrored(i) { assert old(Mirrored(i)); }
      forall i | 0 <= i < |mFreeThreads| ensures Listed(i) { assert old(Listed(i)); }
    }

    /** Under the thread's own lock: the worker takes the job out of its slot. */
    method TakeJob(t: Worker) returns (task: nat)
      requires Valid() && Has(t) && Enabled(state, Action.TakeJob(t.id))
      modifies t, `state
      ensures Valid() && state == Apply(old(state), Action.TakeJob(t.id))
      ensures old(t.mTask) == Some(task) && t.phase == Running(task)
    {
      assert Mirrored(t.id);
      ApplyInv(state, Action.TakeJob(t.id));
      task := t.mTask.value;
      t.mTask := None;
      t.phase := Running(task);
      state := Apply(state, Action.TakeJob(t.id));
      forall i | 0 <= i < |mThreads| ensures Mirrored(i) { assert old(Mirrored(i)); }
      forall i | 0 <= i < |mFreeThreads| ensures Listed(i) { assert old(Listed(i)); }
    }

    /** The job has been run, outside all locks. */
    ghost method Finish(t: Worker)
      requires Valid() && Has(t) && Enabled(state, Action.Finish(t.id))
      modifies t`phase, `state
      ensures Valid() && state == Apply(old(state), Action.Finish(t.id))
    {
      assert Mirrored(t.id);
      ApplyInv(state, Action.Finish(t.id));
      t.phase := Ran;
      state := Apply(state, Action.Finish(t.id));
      forall i | 0 <= i < |mThreads| ensures Mirrored(i) { assert old(Mirrored(i)); }
      forall i | 0 <= i < |mFreeThreads| ensures Listed(i) { assert old(Listed(i)); }
    }

    /** The worker locks itself again and clears its slot, which drops nothing. */
    method Reset(t: Worker)
      requires Valid() && Has(t) && Enabled(state, Action.Reset(t.id))
      modifies t, `state
      ensures Valid() && state == Apply(old(state), Action.Reset(t.id)) && old(t.mTask) == None
    {
      assert Mirrored(t.id);
      ApplyInv(state, Action.Reset(t.id));
      FactsHold(state, Action.Reset(t.id));
      t.mTask := None;
      t.phase := Resetting;
      state := Apply(state, Action.Reset(t.id));
      forall i | 0 <= i < |mThreads| ensures Mirrored(i) { assert old(Mirrored(i)); }
      forall i | 0 <= i < |mFreeThreads| ensures Listed(i) { assert old(Listed(i)); }
    }

    /** Under the free list's lock: the worker is free again. */
    method Free(t: Worker)
      requires Valid() && Has(t) && Enabled(state, Action.Free(t.id))
      modifies t`phase, `mFreeThreads, `state
      ensures Valid() && state == Apply(old(state), Action.Free(t.id)) && mFreeThreads == old(mFreeThreads) + [t]
    {
      assert Mirrored(t.id);
      ApplyInv(state, Action.Free(t.id));
      t.phase := Freed;
      mFreeThreads := mFreeThreads + [t];
      state := Apply(state, Action.Free(t.id));
      forall i | 0 <= i < |mThreads| ensures Mirrored(i) { assert old(Mirrored(i)); }
      forall i | 0 <= i < |mFreeThreads| ensures Listed(i) { if i < |mFreeThreads| - 1 { assert old(Listed(i)); } }
    }

    /** At the end of the loop body the worker unlocks itself. */
    ghost method Release(t: Worker)
      requires Valid() && Has(t) && Enabled(state, Action.Release(t.id))
      modifies t`phase, `state
      ensures Valid() && state == Apply(old(state), Action.Release(t.id))
    {
      assert Mirrored(t.id);
      ApplyInv(state, Action.Release(t.id));
      t.phase := Waiting;
      state := Apply(state, Action.Release(t.id));
      forall i | 0 <= i < |mThreads| ensures Mirrored(i) { assert old(Mirrored(i)); }
      forall i | 0 <= i < |mFreeThreads| ensures Listed(i) { assert old(Listed(i)); }
    }
  }
}
