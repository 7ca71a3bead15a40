/** `when_all`: children are started one after the other and finish in any order, some of them
    already while the others are being started; the last one to finish resumes the parent. */
module WhenAlls {
  datatype Child = Waiting | Running | Done

  /** A result slot: filled once, moved out once. */
  datatype Slot<+T> = Empty | Full(value: T) | Taken

  /** What control can be handed to. */
  datatype Handle = Noop | Parent | Helper(i: nat)

  ghost function Unfinished(children: seq<Child>): nat {
    if children == [] then 0
    else Unfinished(children[1..]) + if children[0] == Done then 0 else 1
  }

  lemma {:induction false} UnfinishedStep(children: seq<Child>, i: nat, c: Child)
    requires i < |children|
    ensures children[i] == Waiting && c == Running ==> Unfinished(children[i := c]) == Unfinished(children)
    ensures children[i] != Done && c == Done ==> Unfinished(children[i := c]) == Unfinished(children) - 1
  {
    var after := children[i := c];
    if i == 0 {
      assert after[1..] == children[1..];
    } else {
      assert after[1..] == children[1..][i - 1 := c];
      UnfinishedStep(children[1..], i - 1, c);
    }
  }

  /** The count is zero exactly when every child is done. */
  lemma {:induction false} UnfinishedZero(children: seq<Child>)
    ensures Unfinished(children) == 0 <==> forall i :: 0 <= i < |children| ==> children[i] == Done
  {
    if children != [] {
      UnfinishedZero(children[1..]);
      assert forall i :: 1 <= i < |children| ==> children[i] == children[1..][i - 1];
    }
  }

  lemma {:induction false} UnfinishedAll(children: seq<Child>)
    requires forall i :: 0 <= i < |children| ==> children[i] == Waiting
    ensures Unfinished(children) == |children|
  {
    if children != [] { UnfinishedAll(children[1..]); }
  }

  /** The frame of one `when_all` over children of which the i-th one returns `tasks[i]`. */
  class WhenAllFrame<T> {
    ghost const tasks: seq<T>
    var mCount: nat
    var mPrevious: Handle
    const result: array<Slot<T>>
    const children: array<Child>
    /** How often the parent has been resumed. */
    var resumed: nat

    ghost predicate Sound()
      reads this, result, children
    {
      && result.Length == children.Length == |tasks| && result as object != children
      && mCount == Unfinished(children[..])
      && forall i :: 0 <= i < |tasks| ==> result[i] == if children[i] == Done then Full(tasks[i]) else Empty
    }

    /** The parent has been resumed once if every child is done, and not at all before. */
    ghost predicate Valid()
      reads this, result, children
    {
      Sound() && mPrevious == Parent && resumed == if mCount == 0 then 1 else 0
    }

    constructor (tasks: seq<T>)
      ensures Sound() && this.tasks == tasks && fresh(result) && fresh(children)
      ensures mCount == |tasks| && mPrevious == Noop && resumed == 0
      ensures forall i :: 0 <= i < |tasks| ==> children[i] == Waiting
    {
      this.tasks, mCount, mPrevious, resumed := tasks, |tasks|, Noop, 0;
      result := new Slot<T>[|tasks|](_ => Empty);
      children := new Child[|tasks|](_ => Waiting);
      new;
      UnfinishedAll(children[..]);
    }

    method Resume(h: Handle)
      requires Sound()
      requires h.Helper? ==> h.i < |tasks| && children[h.i] == Waiting
      modifies `resumed, children
      ensures Sound() && resumed == old(resumed) + if h == Parent then 1 else 0
      ensures children[..] == if h.Helper? then old(children[..])[h.i := Running] else old(children[..])
    {
      match h
      case Noop =>
      case Parent => resumed := resumed + 1;
      case Helper(i) =>
        UnfinishedStep(children[..], i, Running);
        children[i] := Running;
        assert children[..] == old(children[..])[i := Running];
    }

    /** The end of a helper: it stores its child's value, counts down, and says who is next. */
    method Finish(i: nat, value: T) returns (next: Handle)
      requires Sound() && i < |tasks| && children[i] == Running && value == tasks[i]
      modifies `mCount, result, children
      ensures Sound() && mCount == old(mCount) - 1
      ensures children[..] == old(children[..])[i := Done]
      ensures next == if mCount == 0 then mPrevious else Noop
    {
      UnfinishedStep(children[..], i, Done);
      result[i] := Full(value);
      mCount := mCount - 1;
      children[i] := Done;
      assert children[..] == old(children[..])[i := Done];
      next := if mCount == 0 then mPrevious else Noop;
    }

    method Complete(i: nat, value: T)
      requires Valid() && i < |tasks| && children[i] == Running && value == tasks[i]
      modifies `mCount, `resumed, result, children
      ensures Valid() && mCount == old(mCount) - 1
      ensures children[..] == old(children[..])[i := Done]
    {
      UnfinishedStep(children[..], i, Done);
      var next := Finish(i, value);
      Resume(next);
    }

    /** Some of the children that run finish now, in an order nobody controls; with `all`, as
        many as there are. */
    method Settle(tasks: seq<T>, all: bool)
      requires Valid() && tasks == this.tasks
      modifies `mCount, `resumed, result, children
      ensures Valid()
      ensures forall i :: 0 <= i < |tasks| ==>
        if old(children[i]) == Running then children[i] != Waiting && (all ==> children[i] == Done)
        else children[i] == old(children[i])
    {
      while exists i :: 0 <= i < children.Length && children[i] == Running
        invariant Valid()
        invariant forall i :: 0 <= i < |tasks| ==>
          if old(children[i]) == Running then children[i] != Waiting else children[i] == old(children[i])
        decreases mCount
      {
        if !all {
          if * { return; }
        }
        var i :| 0 <= i < children.Length && children[i] == Running;
        Complete(i, tasks[i]);
        assert forall k :: 0 <= k < |tasks| ==> children[k] == children[..][k];
      }
    }

    /** Starts all children but the last, and says what runs next: the last one, or with no
        children the parent again. */
    method AwaitSuspend(tasks: seq<T>, coroutine: Handle) returns (next: Handle)
      requires Sound() && tasks == this.tasks && coroutine == Parent && resumed == 0
      requires forall i :: 0 <= i < |tasks| ==> children[i] == Waiting
      modifies this, result, children
      ensures tasks == [] ==> next == Parent && resumed == 0 && Sound()
      ensures tasks != [] ==>
        && Valid() && next == Helper(|tasks| - 1) && children[|tasks| - 1] == Waiting
        && forall i :: 0 <= i < |tasks| - 1 ==> children[i] != Waiting
    {
      if children.Length == 0 { return coroutine; }
      mPrevious := coroutine;
      UnfinishedZero(children[..]);
      for i := 0 to children.Length - 1
        invariant Valid()
        invariant forall k :: 0 <= k < |tasks| ==> (children[k] == Waiting <==> i <= k)
      {
        Start(i);
        Settle(tasks, false);
      }
      return Helper(children.Length - 1);
    }

    method Start(i: nat)
      requires Valid() && i < |tasks| && children[i] == Waiting
      modifies `resumed, children
      ensures Valid() && children[..] == old(children[..])[i := Running]
      ensures forall k :: 0 <= k < |tasks| ==> children[k] == if k == i then Running else old(children[k])
    {
      UnfinishedStep(children[..], i, Running);
      Resume(Helper(i));
      assert forall k :: 0 <= k < |tasks| ==> children[k] == children[..][k];
    }

    /** The parent after its resumption: each value is moved out of its slot once. */
    method Collect() returns (res: seq<T>)
      requires Sound() && mCount == 0
      modifies result
      ensures res == tasks && forall i :: 0 <= i < result.Length ==> result[i] == Taken
    {
      UnfinishedZero(children[..]);
      assert forall i :: 0 <= i < |tasks| ==> children[i] == children[..][i];
      res := [];
      for i := 0 to result.Length
        invariant res == tasks[..i]
        invariant forall k :: 0 <= k < result.Length ==> result[k] == if k < i then Taken else Full(tasks[k])
      {
        res := res + [result[i].value];
        result[i] := Taken;
      }
    }
  }

  /** The whole `when_all`.  Whatever order the children finish in, the parent is resumed
      exactly once, after all of them, and gets the i-th child's value at position i. */
  method WhenAll<T>(tasks: seq<T>) returns (res: seq<T>, frame: WhenAllFrame<T>)
    ensures res == tasks && frame.resumed == 1
    ensures frame.children.Length == frame.result.Length == |tasks|
    ensures forall i :: 0 <= i < |tasks| ==> frame.children[i] == Done && frame.result[i] == Taken
  {
    frame := new WhenAllFrame(tasks);
    var next := frame.AwaitSuspend(tasks, Parent);
    if next == Parent {
      frame.Resume(next);
    } else {
      frame.Start(next.i);
      frame.Settle(tasks, true);
      assert forall i :: 0 <= i < |tasks| ==> frame.children[i] == frame.children[..][i];
      UnfinishedZero(frame.children[..]);
    }
    res := frame.Collect();
  }
}
