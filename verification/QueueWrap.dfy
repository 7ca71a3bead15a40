/** What a 32-bit word cannot tell apart.  A queue with room for two items or more has a run at
    whose end a consumer sleeps beside them with no wake left; a smaller one has none. */
module QueueWrap {
  import opened QueueProtocol

  function Last(states: seq<State<int>>): State<int>
    requires states != []
  {
    states[|states| - 1]
  }

  ghost predicate RunTo(states: seq<State<int>>, actions: seq<Action<int>>, first: State<int>, last: State<int>) {
    IsRun(states, actions) && states[0] == first && Last(states) == last
  }

  lemma Extend(states: seq<State<int>>, actions: seq<Action<int>>, first: State<int>, last: State<int>, a: Action<int>)
    returns (states': seq<State<int>>, actions': seq<Action<int>>)
    requires RunTo(states, actions, first, last) && Enabled(last, a)
    ensures RunTo(states', actions', first, Apply(last, a))
  {
    var n, k := Apply(last, a), |actions|;
    states', actions' := states + [n], actions + [a];
    forall i | 0 <= i < |actions'|
      ensures Enabled(states'[i], actions'[i]) && states'[i + 1] == Apply(states'[i], actions'[i])
    {
      if i < k {
        assert states'[i] == states[i] && states'[i + 1] == states[i + 1] && actions'[i] == actions[i];
      } else {
        assert states'[i] == last && states'[i + 1] == n && actions'[i] == a;
      }
    }
  }

  function Sevens(k: nat): (s: seq<int>)
    ensures |s| == k
  {
    if k == 0 then [] else Sevens(k - 1) + [7]
  }

  /** Task 0 is idle, task 1 has submitted its wait at the start, and `pushes` and `pops` have
      been made meanwhile. */
  function During(capacity: nat, pushes: nat, pops: nat): State<int>
    requires pops <= pushes
  {
    State(capacity, Sevens(pushes - pops), pushes + pops, 0, 0, [Idle, Submitted(Pop, 0)], [0, 0],
          Sevens(pushes), Sevens(pops))
  }

  function Start2(capacity: nat): State<int> { State(capacity, [], 0, 0, 0, [Idle, Idle], [0, 0], [], []) }

  /** The consumer finds the queue empty and submits its wait. */
  lemma WaitFirst(capacity: nat) returns (states: seq<State<int>>, actions: seq<Action<int>>)
    ensures RunTo(states, actions, Start2(capacity), During(capacity, 0, 0))
  {
    var first := Start2(capacity);
    states, actions := [first], [];
    states, actions := Extend(states, actions, first, first, Start(1, Pop));
    var s := Apply(first, Start(1, Pop));
    assert s.tasks == [Idle, Trying(Pop)];
    states, actions := Extend(states, actions, first, s, Run(1));
    assert Apply(s, Run(1)) == During(capacity, 0, 0);
  }

  /** One push by the other task, whose wake finds nobody asleep. */
  lemma PushOnce(states: seq<State<int>>, actions: seq<Action<int>>, capacity: nat, pushes: nat, pops: nat)
    returns (states': seq<State<int>>, actions': seq<Action<int>>)
    requires pops <= pushes < pops + capacity
    requires RunTo(states, actions, Start2(capacity), During(capacity, pushes, pops))
    ensures RunTo(states', actions', Start2(capacity), During(capacity, pushes + 1, pops))
  {
    var first, s0 := Start2(capacity), During(capacity, pushes, pops);
    states', actions' := Extend(states, actions, first, s0, Start(0, Push(7)));
    var s1 := Apply(s0, Start(0, Push(7)));
    assert s1.tasks == [Trying(Push(7)), Submitted(Pop, 0)];
    states', actions' := Extend(states', actions', first, s1, Run(0));
    var s2 := Apply(s1, Run(0));
    assert s2.tasks == [Idle, Submitted(Pop, 0)] && s2.nonEmptyWakes == 1;
    states', actions' := Extend(states', actions', first, s2, WakeNobody(NonEmpty));
    assert Apply(s2, WakeNobody(NonEmpty)) == During(capacity, pushes + 1, pops);
  }

  lemma {:induction false} SevensTail(k: nat)
    requires k > 0
    ensures Sevens(k)[0] == 7 && Sevens(k)[1..] == Sevens(k - 1)
  {
    if k > 1 { SevensTail(k - 1); }
  }

  /** One pop by the other task. */
  lemma PopOnce(states: seq<State<int>>, actions: seq<Action<int>>, capacity: nat, pushes: nat, pops: nat)
    returns (states': seq<State<int>>, actions': seq<Action<int>>)
    requires pops < pushes
    requires RunTo(states, actions, Start2(capacity), During(capacity, pushes, pops))
    ensures RunTo(states', actions', Start2(capacity), During(capacity, pushes, pops + 1))
  {
    var first, s0 := Start2(capacity), During(capacity, pushes, pops);
    SevensTail(pushes - pops);
    states', actions' := Extend(states, actions, first, s0, Start(0, Pop));
    var s1 := Apply(s0, Start(0, Pop));
    assert s1.tasks == [Trying(Pop), Submitted(Pop, 0)];
    states', actions' := Extend(states', actions', first, s1, Run(0));
    var s2 := Apply(s1, Run(0));
    assert s2.tasks == [Idle, Submitted(Pop, 0)] && s2.nonFullWakes == 1;
    states', actions' := Extend(states', actions', first, s2, WakeNobody(NonFull));
    assert Apply(s2, WakeNobody(NonFull)) == During(capacity, pushes, pops + 1);
  }

  /** Any number of pushes and pops in turn while the one wait stays uncompared. */
  lemma {:induction false} Cycles(capacity: nat, k: nat) returns (states: seq<State<int>>, actions: seq<Action<int>>)
    requires capacity > 0
    ensures RunTo(states, actions, Start2(capacity), During(capacity, k, k))
  {
    if k == 0 {
      states, actions := WaitFirst(capacity);
    } else {
      states, actions := Cycles(capacity, k - 1);
      states, actions := PushOnce(states, actions, capacity, k - 1, k - 1);
      states, actions := PopOnce(states, actions, capacity, k, k - 1);
    }
  }

  /** A run of any queue with room for two items that loses a wakeup: 2^31 + 1 pushes and 2^31 - 1
      pops bring the word back to the one the consumer waits for. */
  lemma WrapAroundLosesWakeup(capacity: nat) returns (states: seq<State<int>>, actions: seq<Action<int>>)
    requires capacity >= 2
    ensures IsRun(states, actions) && states[0].capacity == capacity
    ensures var s := Last(states);
      && Quiet(s) && s.tasks == [Idle, Sleeping(Pop, 0)] && s.items == [7, 7] && s.notifies == WORD_SIZE
      && !Covered(s, NonEmpty)
  {
    var k := WORD_SIZE / 2 - 1;
    states, actions := Cycles(capacity, k);
    states, actions := PushOnce(states, actions, capacity, k, k);
    states, actions := PushOnce(states, actions, capacity, k + 1, k);
    var s := During(capacity, k + 2, k);
    states, actions := Extend(states, actions, Start2(capacity), s, Compare(1));
    var n := Apply(s, Compare(1));
    assert n.tasks == [Idle, Sleeping(Pop, 0)];
    assert Sevens(2) == [7, 7] by { assert Sevens(1) == [7]; }
    NobodyAwake(n.tasks, NonEmpty, Word(n));
    assert Asleep(n.tasks[1], NonEmpty);
  }

  ghost predicate AlwaysCovered(states: seq<State<int>>) {
    forall i {:trigger states[i]} :: 0 <= i < |states| ==> Covered(states[i], NonEmpty) && Covered(states[i], NonFull)
  }

  /** No run of a queue loses a wakeup exactly if the queue has room for at most one item. */
  lemma SafeCapacities(capacity: nat)
    ensures (forall states: seq<State<int>>, actions: seq<Action<int>> {:trigger IsRun(states, actions)} ::
               IsRun(states, actions) && states[0].capacity == capacity ==> AlwaysCovered(states))
            <==> capacity <= 1
  {
    if capacity <= 1 {
      forall states: seq<State<int>>, actions: seq<Action<int>>
        | IsRun(states, actions) && states[0].capacity == capacity
        ensures AlwaysCovered(states)
      {
        forall i | 0 <= i < |states| ensures Covered(states[i], NonEmpty) && Covered(states[i], NonFull) {
          RunCovered(states, actions, i);
        }
      }
    } else {
      var states, actions := WrapAroundLosesWakeup(capacity);
      assert !Covered(states[|states| - 1], NonEmpty);
    }
  }
}
