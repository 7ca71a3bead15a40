/** A bounded queue in a ring of slots, one slot more than it holds values. */
module RingQueues {
  /** The slots between the read and the write position, in reading order. */
  function Between<T>(slots: seq<T>, read: nat, write: nat): (s: seq<T>)
    requires read < |slots| && write < |slots|
    ensures |s| == if read <= write then write - read else |slots| - read + write
  {
    if read <= write then slots[read..write] else slots[read..] + slots[..write]
  }

  function Advance(position: nat, tail: nat): (next: nat)
    requires position <= tail
    ensures next <= tail
  {
    if position == tail then 0 else position + 1
  }

  /** Writing at the write position appends, as long as the ring is not full. */
  lemma WriteAppends<T>(slots: seq<T>, read: nat, write: nat, value: T)
    requires read < |slots| && write < |slots| && Advance(write, |slots| - 1) != read
    ensures Between(slots[write := value], read, Advance(write, |slots| - 1)) == Between(slots, read, write) + [value]
  {
  }

  /** Advancing the read position drops the first value. */
  lemma ReadDrops<T>(slots: seq<T>, read: nat, write: nat)
    requires read < |slots| && write < |slots| && read != write
    ensures Between(slots, read, write) == [slots[read]] + Between(slots, Advance(read, |slots| - 1), write)
  {
    if read == |slots| - 1 { assert slots[read..] == [slots[read]]; }
  }

  /** Equal positions mean empty, a write position just behind the read position means full. */
  lemma EmptyAndFull<T>(slots: seq<T>, read: nat, write: nat)
    requires read < |slots| && write < |slots|
    ensures read == write <==> Between(slots, read, write) == []
    ensures Advance(write, |slots| - 1) == read <==> |Between(slots, read, write)| == |slots| - 1
  {
  }

  class RingQueue<T(0)> {
    const mHead: array<T>
    const mTail: nat
    var mRead: nat
    var mWrite: nat

    ghost predicate Valid()
      reads this
    {
      mHead.Length == mTail + 1 && mRead <= mTail && mWrite <= mTail
    }

    ghost function Contents(): seq<T>
      requires Valid()
      reads this, mHead
    {
      Between(mHead[..], mRead, mWrite)
    }

    constructor (maxSize: nat)
      ensures Valid() && mTail == maxSize && Contents() == [] && fresh(mHead)
    {
      mHead := new T[maxSize + 1];
      mTail, mRead, mWrite := maxSize, 0, 0;
    }

    method Empty() returns (b: bool)
      requires Valid()
      ensures b <==> Contents() == []
    {
      EmptyAndFull(mHead[..], mRead, mWrite);
      return mRead == mWrite;
    }

    method Full() returns (b: bool)
      requires Valid()
      ensures b <==> |Contents()| == mTail
    {
      EmptyAndFull(mHead[..], mRead, mWrite);
      var nextWrite := if mWrite == mTail then 0 else mWrite + 1;
      return nextWrite == mRead;
    }

    /** Appends the value unless the queue is full. */
    method Push(value: T) returns (ok: bool)
      requires Valid()
      modifies this, mHead
      ensures Valid() && |old(Contents())| <= mTail
      ensures ok <==> |old(Contents())| < mTail
      ensures Contents() == if ok then old(Contents()) + [value] else old(Contents())
    {
      EmptyAndFull(mHead[..], mRead, mWrite);
      var nextWrite := if mWrite == mTail then 0 else mWrite + 1;
      if nextWrite == mRead { return false; }
      WriteAppends(mHead[..], mRead, mWrite, value);
      mHead[mWrite] := value;
      assert mHead[..] == old(mHead[..])[mWrite := value];
      mWrite := nextWrite;
      return true;
    }

    /** Takes out the oldest value, if there is one. */
    method Pop() returns (ok: bool, value: T)
      requires Valid()
      modifies this
      ensures Valid() && |old(Contents())| <= mTail
      ensures ok <==> old(Contents()) != []
      ensures old(Contents()) == if ok then [value] + Contents() else Contents()
    {
      EmptyAndFull(mHead[..], mRead, mWrite);
      value := mHead[mRead];
      if mRead == mWrite { return false, value; }
      ReadDrops(mHead[..], mRead, mWrite);
      mRead := if mRead == mTail then 0 else mRead + 1;
      return true, value;
    }
  }
}
