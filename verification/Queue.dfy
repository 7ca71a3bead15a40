/** The queue itself: a ring of slots and a condition variable, and the tasks that use it.
    Each method is one run of a task up to its next await, or one step of the kernel, and does
    exactly what the protocol's action does. */
module Queues {
  import opened QueueProtocol
  import opened RingQueues

  /** The next value of a 32-bit word. */
  lemma NextWord(n: nat)
    ensures (n + 1) % WORD_SIZE == (if n % WORD_SIZE + 1 == WORD_SIZE then 0 else n % WORD_SIZE + 1)
  {
  }

  class Queue<T(0)> {
    const mQueue: RingQueue<T>
    /** The condition variable's 32-bit word. */
    var mFutex: nat
    var nonEmptyWakes: nat
    var nonFullWakes: nat
    const tasks: array<Phase<T>>
    ghost var notifies: nat
    ghost var since: seq<nat>
    ghost var pushed: seq<T>
    ghost var popped: seq<T>

    ghost predicate Valid()
      reads this, mQueue
    {
      && mQueue.Valid() && mFutex == notifies % WORD_SIZE
      && tasks as object != mQueue.mHead && |since| == tasks.Length
    }

    ghost function Abs(): State<T>
      requires Valid()
      reads this, mQueue, mQueue.mHead, tasks
    {
      State(mQueue.mTail, mQueue.Contents(), notifies, nonEmptyWakes, nonFullWakes, tasks[..], since, pushed, popped)
    }

    constructor (size: nat, taskCount: nat)
      ensures Valid() && Initial(Abs()) && Abs().capacity == size && |Abs().tasks| == taskCount
      ensures fresh(mQueue) && fresh(mQueue.mHead) && fresh(tasks)
    {
      mQueue := new RingQueue(size);
      mFutex, nonEmptyWakes, nonFullWakes, notifies, pushed, popped := 0, 0, 0, 0, [], [];
      tasks := new Phase<T>[taskCount](_ => Idle);
      since := seq(taskCount, _ => 0);
    }

    /** Increments the word, which wraps around, and submits a wake that nobody waits for. */
    method NotifyOne(mask: Mask)
      requires Valid()
      modifies `mFutex, `nonEmptyWakes, `nonFullWakes, `notifies
      ensures Valid() && Abs() == Notify(old(Abs()), mask)
    {
      NextWord(notifies);
      mFutex := if mFutex + 1 == WORD_SIZE then 0 else mFutex + 1;
      notifies := notifies + 1;
      if mask == NonEmpty {
        nonEmptyWakes := nonEmptyWakes + 1;
      } else {
        nonFullWakes := nonFullWakes + 1;
      }
    }

    method SetPhase(t: nat, p: Phase<T>)
      requires Valid() && t < tasks.Length
      modifies tasks
      ensures Valid() && Abs() == Becomes(old(Abs()), t, p)
    {
      tasks[t] := p;
      assert tasks[..] == old(tasks[..])[t := p];
    }

    /** The masked wait: reads the word and submits the futex wait. */
    method Wait(t: nat, op: Op<T>)
      requires Valid() && t < tasks.Length && tasks[t] == Trying(op)
      modifies tasks, `since
      ensures Valid() && Abs() == Waits(old(Abs()), t)
    {
      SetPhase(t, Submitted(op, mFutex));
      since := since[t := notifies];
    }

    /** The wait's loop condition, after the futex wait has returned. */
    method Recheck(t: nat)
      requires Valid() && t < tasks.Length && tasks[t].Woken?
      modifies tasks
      ensures Valid() && Abs() == old(Apply(Abs(), Run(t)))
    {
      var p := tasks[t];
      if mFutex == p.seen {
        SetPhase(t, Submitted(p.op, p.seen));
      } else {
        SetPhase(t, Trying(p.op));
      }
    }

    /** `push` at the head of its loop. */
    method Push(t: nat, value: T)
      requires Valid() && t < tasks.Length && tasks[t] == Trying(QueueProtocol.Push(value))
      modifies this, mQueue, mQueue.mHead, tasks
      ensures Valid() && Abs() == old(Apply(Abs(), Run(t)))
    {
      var ok := mQueue.Push(value);
      if !ok {
        Wait(t, QueueProtocol.Push(value));
      } else {
        pushed := pushed + [value];
        SetPhase(t, Idle);
        NotifyOne(NonEmpty);
      }
    }

    /** `pop` at the head of its loop. */
    method Pop(t: nat) returns (result: seq<T>)
      requires Valid() && t < tasks.Length && tasks[t] == Trying(QueueProtocol.Pop)
      modifies this, mQueue, mQueue.mHead, tasks
      ensures Valid() && Abs() == old(Apply(Abs(), Run(t)))
      ensures Abs().popped == old(Abs().popped) + result
    {
      var ok, value := mQueue.Pop();
      if ok {
        popped := popped + [value];
        SetPhase(t, Idle);
        NotifyOne(NonFull);
        return [value];
      } else {
        Wait(t, QueueProtocol.Pop);
        return [];
      }
    }

    /** The kernel compares and sleeps in one step. */
    method Compare(t: nat)
      requires Valid() && t < tasks.Length && tasks[t].Submitted?
      modifies tasks
      ensures Valid() && Abs() == old(Apply(Abs(), Action.Compare(t)))
    {
      var p := tasks[t];
      if mFutex == p.seen {
        SetPhase(t, Sleeping(p.op, p.seen));
      } else {
        SetPhase(t, Woken(p.op, p.seen));
      }
    }

    /** The kernel cancels a wait; the error ends the task's push or pop. */
    method Cancel(t: nat)
      requires Valid() && t < tasks.Length && (tasks[t].Submitted? || tasks[t].Sleeping?)
      modifies tasks
      ensures Valid() && Abs() == old(Apply(Abs(), Action.Cancel(t)))
    {
      SetPhase(t, Idle);
    }

    method TakeWake(mask: Mask)
      requires Valid() && Wakes(Abs(), mask) > 0
      modifies `nonEmptyWakes, `nonFullWakes
      ensures Valid() && Abs() == Woke(old(Abs()), mask)
    {
      if mask == NonEmpty {
        nonEmptyWakes := nonEmptyWakes - 1;
      } else {
        nonFullWakes := nonFullWakes - 1;
      }
    }

    /** The kernel carries out a notification: any one sleeper whose mask matches is woken. */
    method Wake(mask: Mask) returns (sleeper: int)
      requires Valid() && Wakes(Abs(), mask) > 0
      modifies this, tasks
      ensures sleeper < tasks.Length
      ensures sleeper >= 0 ==> old(Enabled(Abs(), Action.Wake(mask, sleeper)))
      ensures sleeper >= 0 ==> Valid() && Abs() == old(Apply(Abs(), Action.Wake(mask, sleeper)))
      ensures sleeper < 0 ==> old(Enabled(Abs(), WakeNobody(mask)))
      ensures sleeper < 0 ==> Valid() && Abs() == old(Apply(Abs(), WakeNobody(mask)))
    {
      TakeWake(mask);
      if t: nat :| 0 <= t < tasks.Length && Asleep(tasks[t], mask) {
        SetPhase(t, Woken(tasks[t].op, tasks[t].seen));
        return t;
      } else {
        return -1;
      }
    }
  }
}
