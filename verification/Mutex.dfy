/** The mutex: one flag and a futex on it, with the tasks that use it.  Each method is one
    atomic access, or one step of the kernel, and does exactly what the protocol's action does. */
module Mutexes {
  import opened MutexProtocol

  class BasicMutex {
    var mFutex: bool
    var wakes: nat
    const tasks: array<Phase>

    ghost function Abs(): State
      reads this, tasks
    {
      State(mFutex, wakes, tasks[..])
    }

    constructor (taskCount: nat)
      ensures Initial(Abs()) && |Abs().tasks| == taskCount && fresh(tasks)
    {
      mFutex, wakes := false, 0;
      tasks := new Phase[taskCount](_ => Idle);
    }

    method SetPhase(t: nat, p: Phase)
      requires t < tasks.Length
      modifies tasks
      ensures Abs() == Becomes(old(Abs()), t, p)
    {
      tasks[t] := p;
      assert tasks[..] == old(tasks[..])[t := p];
    }

    method ExchangeTrue() returns (previous: bool)
      modifies `mFutex
      ensures previous == old(mFutex) && mFutex
    {
      previous := mFutex;
      mFutex := true;
    }

    method TryLock(t: nat) returns (ok: bool)
      requires t < tasks.Length && tasks[t] == Idle
      modifies this, tasks
      ensures Abs() == old(Apply(Abs(), Action.TryLock(t)))
      ensures ok <==> tasks[t] == Holding
    {
      var previous := ExchangeTrue();
      ok := previous == false;
      SetPhase(t, if ok then Holding else Idle);
    }

    /** `lock` at the head of its loop: take the mutex or submit a wait for the set flag. */
    method Lock(t: nat) returns (ok: bool)
      requires t < tasks.Length && tasks[t] == Trying
      modifies this, tasks
      ensures Abs() == old(Apply(Abs(), Exchange(t)))
      ensures ok <==> tasks[t] == Holding
    {
      var previous := ExchangeTrue();
      if previous == false {
        SetPhase(t, Holding);
        return true;
      }
      SetPhase(t, Submitted);
      return false;
    }

    /** `unlock` clears the flag ... */
    method UnlockStore(t: nat)
      requires t < tasks.Length && tasks[t] == Holding
      modifies this, tasks
      ensures Abs() == old(Apply(Abs(), Clear(t)))
    {
      mFutex := false;
      SetPhase(t, Releasing);
    }

    /** ... and then submits a wake that nobody waits for. */
    method UnlockNotify(t: nat)
      requires t < tasks.Length && tasks[t] == Releasing
      modifies this, tasks
      ensures Abs() == old(Apply(Abs(), Notify(t)))
    {
      wakes := wakes + 1;
      SetPhase(t, Idle);
    }

    /** The kernel compares and sleeps in one step. */
    method Compare(t: nat)
      requires t < tasks.Length && tasks[t] == Submitted
      modifies tasks
      ensures Abs() == old(Apply(Abs(), Action.Compare(t)))
    {
      SetPhase(t, if mFutex then Sleeping else Woken);
    }

    /** After the wait `lock` goes back to the head of its loop. */
    method Return(t: nat)
      requires t < tasks.Length && tasks[t] == Woken
      modifies tasks
      ensures Abs() == old(Apply(Abs(), Action.Return(t)))
    {
      SetPhase(t, Trying);
    }

    /** The kernel cancels a wait; the error ends the call of `lock`. */
    method Cancel(t: nat)
      requires t < tasks.Length && (tasks[t] == Submitted || tasks[t] == Sleeping)
      modifies tasks
      ensures Abs() == old(Apply(Abs(), Action.Cancel(t)))
    {
      SetPhase(t, Idle);
    }

    /** The kernel carries out a notification: any one sleeper is woken. */
    method Wake() returns (sleeper: int)
      requires wakes > 0
      modifies this, tasks
      ensures sleeper < tasks.Length
      ensures sleeper >= 0 ==> old(Enabled(Abs(), Action.Wake(sleeper)))
      ensures sleeper >= 0 ==> Abs() == old(Apply(Abs(), Action.Wake(sleeper)))
      ensures sleeper < 0 ==> old(Enabled(Abs(), WakeNobody)) && Abs() == old(Apply(Abs(), WakeNobody))
    {
      wakes := wakes - 1;
      if t: nat :| 0 <= t < tasks.Length && tasks[t] == Sleeping {
        SetPhase(t, Woken);
        return t;
      } else {
        return -1;
      }
    }
  }
}
