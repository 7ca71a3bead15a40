/** Buffered reading and writing on top of a raw stream.  What a call delivers and leaves is
    what the plain operation on the unread bytes would, however the raw stream cuts them up. */
module BufferedStreams {
  import opened RawStreams
  import opened Wrappers

  const STREAM_BUFFER_SIZE: nat := 8192

  /** Of the text `p`, the part before the first `eol` has been added to `s0`, and what follows
      the `eol` is left. */
  ghost predicate LineTaken(p: string, now: string, s0: string, s: string, eol: char) {
    exists line :: eol !in line && s == s0 + line && p == line + ([eol] + now)
  }

  /** Of the text `p` the part that is gone from `now` has been added to `s0`, and it has no `eol`. */
  ghost predicate Partly(p: string, now: string, s0: string, s: string, eol: char) {
    exists d :: eol !in d && s == s0 + d && p == d + now
  }

  lemma PartlyStart(p: string, s0: string, eol: char)
    ensures Partly(p, p, s0, s0, eol)
  {
    assert s0 == s0 + "" && p == "" + p;
  }

  lemma PartlyMore(p: string, piece: string, rest: string, s0: string, s: string, eol: char)
    requires Partly(p, piece + rest, s0, s, eol) && eol !in piece
    ensures Partly(p, rest, s0, s + piece, eol)
  {
    var d :| eol !in d && s == s0 + d && p == d + (piece + rest);
    Associate(s0, d, piece);
    Associate(d, piece, rest);
    assert eol !in d + piece;
  }

  lemma PartlyEnd(p: string, now: string, s0: string, s: string, eol: char, a: string, after: string)
    requires Partly(p, now, s0, s, eol) && eol !in a && now == a + ([eol] + after)
    ensures LineTaken(p, after, s0, s + a, eol)
  {
    var d :| eol !in d && s == s0 + d && p == d + now;
    Associate(s0, d, a);
    Associate(d, a, [eol] + after);
    assert eol !in d + a;
  }

  lemma PartlyNone(p: string, s0: string, s: string, eol: char)
    requires Partly(p, "", s0, s, eol)
    ensures eol !in p && s == s0 + p
  {
  }

  /** The first `k` bytes of the text `p` have been added to `s0`, and the others are left. */
  ghost predicate Taken(p: string, now: string, s0: string, s: string, k: int) {
    exists d :: |d| == k && s == s0 + d && p == d + now
  }

  lemma TakenStart(p: string, s0: string)
    ensures Taken(p, p, s0, s0, 0)
  {
  }

  lemma TakenMore(p: string, piece: string, rest: string, s0: string, s: string, k: int)
    requires Taken(p, piece + rest, s0, s, k)
    ensures Taken(p, rest, s0, s + piece, k + |piece|)
  {
    var d :| |d| == k && s == s0 + d && p == d + (piece + rest);
    Associate(s0, d, piece);
    Associate(d, piece, rest);
    assert |d + piece| == k + |piece|;
  }

  lemma TakenAll(p: string, s0: string, s: string, k: int)
    requires Taken(p, "", s0, s, k)
    ensures s == s0 + p && |p| == k
  {
  }

  lemma TakenLength(p: string, now: string, s0: string, s: string, k: int)
    requires Taken(p, now, s0, s, k)
    ensures |s| == |s0| + k && |p| == k + |now|
  {
  }

  lemma SplitAt(u: string, k: nat)
    requires k < |u|
    ensures u == u[..k] + ([u[k]] + u[k + 1..])
  {
  }

  // ---------------------------------------------------------------- writing, on values

  /** How the loop of `flush` ends: its outcome, the bytes written, the number of the next call. */
  datatype Ended = Ended(r: Outcome, k: nat, call: nat)

  /** The loop of `flush`, which has written `k` of `hi` bytes before the call number `call`. */
  function WriteLoop(kind: Kind, call: nat, k: nat, hi: nat): (e: Ended)
    requires k < hi
    ensures k <= e.k <= hi && (e.r == Ok <==> e.k == hi)
    decreases hi - k
  {
    match Reply(kind, call, hi - k)
    case Fail => Ended(Failed, k, call + 1)
    case Take(n) =>
      if n == 0 then Ended(Eof, k, call + 1)
      else if n >= hi - k then Ended(Ok, hi, call + 1)
      else WriteLoop(kind, call + 1, k + n, hi)
  }

  /** After a flush: its outcome, the bytes written and those buffered, how many of the buffered
      bytes are among those written, and the number of the next call. */
  datatype Flushed = Flushed(r: Outcome, out: string, left: string, k: nat, call: nat)

  /** What `flush` makes of the bytes `out` written before and the bytes `b` buffered. */
  function FlushOf(kind: Kind, call: nat, out: string, b: string): (f: Flushed)
    ensures f.k <= |f.left|
  {
    if b == "" then Flushed(Ok, out, "", 0, call)
    else
      var e := WriteLoop(kind, call, 0, |b|);
      if e.r != Ok then Flushed(e.r, out + b[..e.k], b, e.k, e.call)
      else Flushed(if Reply(kind, e.call, 0).Take? then Ok else Failed, out + b, "", 0, e.call + 1)
  }

  /** The bytes written and the bytes buffered are what was put. */
  predicate Conserves(kind: Kind, call: nat, out: string, b: string) {
    var f := FlushOf(kind, call, out, b);
    f.out + f.left == out + b
  }

  /** One more flush, if it succeeds, leaves every byte written once. */
  predicate WritesOnce(kind: Kind, call: nat, out: string, b: string) {
    var f := FlushOf(kind, call, out, b);
    var g := FlushOf(kind, f.call, f.out, f.left);
    g.r == Ok ==> g.out == out + b
  }

  lemma SomeTwice(out: string, b: string, k: nat)
    requires k <= |b|
    ensures (out + b[..k]) + b == out + b <==> k == 0
  {
    if k == 0 {
      assert out + b[..0] == out;
    } else {
      assert |(out + b[..k]) + b| == |out| + k + |b|;
    }
  }

  /** A flush fails to conserve the bytes exactly if its first write takes some but not all of
      them and a later write fails or takes nothing. */
  lemma LosesCount(kind: Kind, call: nat, out: string, b: string)
    ensures !Conserves(kind, call, out, b) <==>
      && b != "" && WriteLoop(kind, call, 0, |b|).r != Ok
      && Reply(kind, call, |b|).Take? && 0 < Reply(kind, call, |b|).n < |b|
  {
    if b != "" { SomeTwice(out, b, WriteLoop(kind, call, 0, |b|).k); }
  }

  /** After a flush that has kept the buffer, one that succeeds writes the whole buffer, its
      first `k` bytes for the second time. */
  lemma SecondFlush(kind: Kind, call: nat, out: string, b: string)
    ensures var f := FlushOf(kind, call, out, b);
      var g := FlushOf(kind, f.call, f.out, f.left);
      && (g.r == Ok && f.left != "" ==> f.left == b && g.left == "" && g.out == out + b[..f.k] + b)
      && (g.r == Ok && f.left == "" ==> g.left == "" && g.out == out + b)
  {
  }

  /** The raw stream takes one byte, fails once, and then takes everything. */
  function ShortThenFail(m: nat): Kind {
    Arbitrary(call => if call == 0 then Take(1) else if call == 1 then Fail else Take(m), _ => Fail)
  }

  lemma ShortThenFailLoops(hi: nat)
    requires hi >= 2
    ensures WriteLoop(ShortThenFail(hi), 0, 0, hi) == Ended(Failed, 1, 2)
    ensures WriteLoop(ShortThenFail(hi), 2, 0, hi) == Ended(Ok, hi, 3)
  {
  }

  lemma FirstTwice(out: string, b: string)
    requires |b| >= 2
    ensures var f := FlushOf(ShortThenFail(|b|), 0, out, b);
      && f == Flushed(Failed, out + b[..1], b, 1, 2)
      && FlushOf(ShortThenFail(|b|), 2, f.out, b) == Flushed(Ok, out + b[..1] + b, "", 0, 4)
  {
    ShortThenFailLoops(|b|);
  }

  /** Whatever the raw stream does, a flush conserves the bytes and a second one writes none of
      them twice: that is so exactly if at most one byte is buffered. */
  lemma ConservedIf(out: string, b: string)
    ensures (forall kind, call :: Conserves(kind, call, out, b)) <==> |b| <= 1
    ensures (forall kind, call :: WritesOnce(kind, call, out, b)) <==> |b| <= 1
  {
    if |b| <= 1 {
      forall kind, call ensures Conserves(kind, call, out, b) && WritesOnce(kind, call, out, b) {
        LosesCount(kind, call, out, b);
        SecondFlush(kind, call, out, b);
        SomeTwice(out, b, 0);
      }
    } else {
      FirstTwice(out, b);
      SomeTwice(out, b, 1);
      assert !Conserves(ShortThenFail(|b|), 0, out, b) && !WritesOnce(ShortThenFail(|b|), 0, out, b);
    }
  }

  class BorrowedStream {
    const mRaw: Stream
    var mInBuffer: array?<char>
    var mInIndex: nat
    var mInEnd: nat
    var mOutBuffer: array?<char>
    var mOutIndex: nat

    ghost predicate ValidIn()
      reads this, mRaw
    {
      && mRaw.Valid() && mInIndex <= mInEnd
      && (if mInBuffer == null then mInEnd == 0 else mInBuffer.Length > 0 && mInEnd <= mInBuffer.Length)
    }

    ghost predicate ValidOut()
      reads this
    {
      if mOutBuffer == null then mOutIndex == 0 else mOutBuffer.Length > 0 && mOutIndex <= mOutBuffer.Length
    }

    ghost predicate Valid()
      reads this, mRaw
    {
      ValidIn() && ValidOut() && (mInBuffer != null ==> mInBuffer != mOutBuffer)
    }

    /** The bytes in the input buffer that have not been handed out. */
    ghost function Unread(): string
      requires ValidIn()
      reads this, mRaw, mInBuffer
    {
      if mInBuffer == null then "" else mInBuffer[mInIndex..mInEnd]
    }

    /** All bytes still to come. */
    ghost function Pending(): string
      requires ValidIn()
      reads this, mRaw, mInBuffer
    {
      Unread() + mRaw.Source()
    }

    /** The bytes in the output buffer that have not been written. */
    ghost function Buffered(): string
      requires ValidOut()
      reads this, mOutBuffer
    {
      if mOutBuffer == null then "" else mOutBuffer[..mOutIndex]
    }

    constructor (raw: Stream)
      requires raw.Valid()
      ensures Valid() && mRaw == raw && Unread() == "" && Buffered() == ""
      ensures mInBuffer == null && mOutBuffer == null
    {
      mRaw, mInBuffer, mOutBuffer, mInIndex, mInEnd, mOutIndex := raw, null, null, 0, 0, 0;
    }

    // -------------------------------------------------------------- reading

    /** Nothing on the writing side has changed. */
    twostate predicate OutputKept()
      requires old(ValidOut()) && ValidOut()
      reads this, mRaw, mOutBuffer
    {
      mOutBuffer == old(mOutBuffer) && Buffered() == old(Buffered()) && mRaw.mOutput == old(mRaw.mOutput)
    }

    /** The input buffer is allocated at most once. */
    twostate predicate BufferKept()
      reads this
    {
      mInBuffer == old(mInBuffer) || (old(mInBuffer) == null && fresh(mInBuffer))
    }

    method AllocInBuf(size: nat)
      requires size > 0 && Valid()
      modifies `mInBuffer, `mInIndex, `mInEnd
      ensures Valid() && BufferKept() && mInBuffer != null
      ensures mInIndex == old(mInIndex) && mInEnd == old(mInEnd)
      ensures old(mInBuffer) == null ==> mInBuffer.Length == size
    {
      if mInBuffer == null {
        mInBuffer := new char[size];
        mInIndex, mInEnd := 0, 0;
      }
    }

    /** One raw read has failed, after the `failures` before it, exactly if `r` says so; and none
        fails if the raw stream is reliable. */
    ghost predicate FailedSince(failures: nat, r: Outcome)
      reads this, mRaw
    {
      mRaw.failures == failures + (if r == Failed then 1 else 0) && (Reliable(mRaw.kind) ==> r != Failed)
    }

    lemma UnreadTail()
      requires ValidIn() && mInBuffer != null
      ensures Unread() == mInBuffer[mInIndex..][..mInEnd - mInIndex]
    {
    }

    /** Reads the next piece into the input buffer, from the read position on; what was unread
        there is overwritten.  Nothing can be read at the end of the source, or if the read
        position is at the end of the buffer. */
    method FillBuf() returns (r: Outcome)
      requires Valid()
      modifies `mInBuffer, `mInIndex, `mInEnd, mInBuffer, mRaw`mPosition, mRaw`mReads, mRaw`failures
      ensures Valid() && OutputKept() && BufferKept() && mInBuffer != null && mInIndex == old(mInIndex)
      ensures r == Ok ==> Unread() != "" && Pending() == old(mRaw.Source()) && |mRaw.Source()| < |old(mRaw.Source())|
      ensures r != Ok ==> Unread() == old(Unread()) && mRaw.Source() == old(mRaw.Source())
      ensures r == Eof ==> old(mRaw.Source()) == "" || mInIndex == mInBuffer.Length
      ensures mRaw.mReads == old(mRaw.mReads) + 1 && (r == Failed <==> ReadFails(mRaw.kind, old(mRaw.mReads)))
      ensures mRaw.failures == old(mRaw.failures) + if r == Failed then 1 else 0
      ensures old(mInBuffer) == null ==> mInBuffer.Length == STREAM_BUFFER_SIZE
    {
      AllocInBuf(STREAM_BUFFER_SIZE);
      UnreadTail();
      var ok, n := mRaw.RawRead(mInBuffer, mInIndex);
      if !ok || n == 0 {
        UnreadTail();
        return if ok then Eof else Failed;
      }
      mInEnd := mInIndex + n;
      return Ok;
    }

    /** The position of `eol` in the buffer from `start` on, or `mInEnd`. */
    method Scan(start: nat, eol: char) returns (i: nat)
      requires Valid() && start == mInIndex
      ensures mInIndex <= i <= mInEnd && eol !in Unread()[..i - mInIndex]
      ensures i < mInEnd ==> mInBuffer != null && mInBuffer[i] == eol
    {
      i := start;
      while i < mInEnd
        invariant start <= i <= mInEnd
        invariant eol !in Unread()[..i - start]
      {
        if mInBuffer[i] == eol { return; }
        assert Unread()[..i - start + 1] == Unread()[..i - start] + [mInBuffer[i]];
        i := i + 1;
      }
    }

    /** All that has been read is dropped from the buffer and the next piece is fetched. */
    method NextPiece() returns (r: Outcome)
      requires Valid()
      modifies `mInBuffer, `mInIndex, `mInEnd, mInBuffer, mRaw`mPosition, mRaw`mReads, mRaw`failures
      ensures Valid() && OutputKept() && BufferKept() && mInIndex == 0
      ensures r == Ok ==> Pending() == old(mRaw.Source()) && |mRaw.Source()| < |old(mRaw.Source())|
      ensures r == Eof ==> Pending() == old(mRaw.Source()) == ""
      ensures r == Failed ==> Unread() == "" && Pending() == old(mRaw.Source())
      ensures mRaw.mReads == old(mRaw.mReads) + 1 && (r == Failed <==> ReadFails(mRaw.kind, old(mRaw.mReads)))
      ensures mRaw.failures == old(mRaw.failures) + if r == Failed then 1 else 0
    {
      mInEnd, mInIndex := 0, 0;
      r := FillBuf();
    }

    lemma UnreadIs(i: nat)
      requires ValidIn() && mInIndex <= i <= mInEnd && mInBuffer != null
      ensures mInBuffer[mInIndex..i] == Unread()[..i - mInIndex]
      ensures mInBuffer[i..mInEnd] == Unread()[i - mInIndex..]
      ensures i < mInEnd ==> mInBuffer[i] == Unread()[i - mInIndex]
    {
    }

    /** Takes the line that ends at position `i` of the buffer. */
    method EatLine(i: nat, eol: char)
      requires Valid() && mInBuffer != null && mInIndex <= i < mInEnd && mInBuffer[i] == eol
      modifies `mInIndex
      ensures Valid() && OutputKept() && mRaw.Source() == old(mRaw.Source())
      ensures old(Pending()) == old(Unread()[..i - mInIndex]) + ([eol] + Pending())
    {
      ghost var u, k, rest := Unread(), i - mInIndex, mRaw.Source();
      UnreadIs(i);
      UnreadIs(i + 1);
      SplitAt(u, k);
      mInIndex := i + 1;
      Associate(u[..k], [eol] + Unread(), rest);
      Associate([eol], Unread(), rest);
    }

    /** Takes the part of the buffer before the next `eol`, and the `eol`, or finds none. */
    method SkipInPiece(start: nat, eol: char) returns (i: nat, found: bool, ghost a: string)
      requires Valid() && start == mInIndex
      modifies `mInIndex
      ensures Valid() && OutputKept() && eol !in a
      ensures start <= i <= mInEnd && a == if mInBuffer == null then "" else mInBuffer[start..i]
      ensures mRaw.Source() == old(mRaw.Source())
      ensures found ==> old(Pending()) == a + ([eol] + Pending())
      ensures !found ==> Pending() == old(Pending()) == a + mRaw.Source() && a == old(Unread())
    {
      i := Scan(start, eol);
      found := i < mInEnd;
      a := Unread()[..i - start];
      if mInBuffer != null { UnreadIs(i); }
      if found { EatLine(i, eol); }
    }

    /** Reads up to the next `eol`, which is taken out but not delivered.  `s` is given and
        returned. */
    method GetLine(s0: string, eol: char) returns (s: string, r: Outcome)
      requires Valid()
      modifies `mInBuffer, `mInIndex, `mInEnd, mInBuffer, mRaw`mPosition, mRaw`mReads, mRaw`failures
      ensures Valid() && OutputKept() && BufferKept()
      ensures r == Ok ==> LineTaken(old(Pending()), Pending(), s0, s, eol)
      ensures r == Eof ==> eol !in old(Pending()) && s == s0 + old(Pending()) && Pending() == ""
      ensures r == Failed ==> Partly(old(Pending()), Pending(), s0, s, eol)
      ensures eol in old(Unread()) ==> mRaw.mReads == old(mRaw.mReads)
      ensures FailedSince(old(mRaw.failures), r)
    {
      s := s0;
      ghost var p := Pending();
      PartlyStart(p, s0, eol);
      var start := mInIndex;
      ghost var first := true;
      while true
        invariant Valid() && OutputKept() && BufferKept() && start == mInIndex
        invariant Partly(p, Pending(), s0, s, eol)
        invariant FailedSince(old(mRaw.failures), Ok)
        invariant if first then Unread() == old(Unread()) && mRaw.mReads == old(mRaw.mReads) else eol !in old(Unread())
        decreases |mRaw.Source()|
      {
        ghost var now := Pending();
        var i, found, a := SkipInPiece(start, eol);
        if found {
          PartlyEnd(p, now, s0, s, eol, a, Pending());
          return s + mInBuffer[start..i], Ok;
        }
        PartlyMore(p, a, mRaw.Source(), s0, s, eol);
        s := s + if mInBuffer == null then "" else mInBuffer[start..i];
        r := NextPiece();
        first := false;
        if r != Ok {
          if r == Eof { PartlyNone(p, s0, s, eol); }
          return;
        }
        start := 0;
      }
    }

    /** Drops everything up to and including the next `eol`.  The ghost result is what
        `GetLine` would have delivered. */
    method DropLine(eol: char) returns (r: Outcome, ghost s: string)
      requires Valid()
      modifies `mInBuffer, `mInIndex, `mInEnd, mInBuffer, mRaw`mPosition, mRaw`mReads, mRaw`failures
      ensures Valid() && OutputKept() && BufferKept()
      ensures r == Ok ==> LineTaken(old(Pending()), Pending(), "", s, eol)
      ensures r == Eof ==> eol !in old(Pending()) && Pending() == ""
      ensures r == Failed ==> Partly(old(Pending()), Pending(), "", s, eol)
      ensures eol in old(Unread()) ==> mRaw.mReads == old(mRaw.mReads)
      ensures FailedSince(old(mRaw.failures), r)
    {
      s := "";
      ghost var p := Pending();
      PartlyStart(p, "", eol);
      var start := mInIndex;
      ghost var first := true;
      while true
        invariant Valid() && OutputKept() && BufferKept() && start == mInIndex
        invariant Partly(p, Pending(), "", s, eol)
        invariant FailedSince(old(mRaw.failures), Ok)
        invariant if first then Unread() == old(Unread()) && mRaw.mReads == old(mRaw.mReads) else eol !in old(Unread())
        decreases |mRaw.Source()|
      {
        ghost var now := Pending();
        var i, found, a := SkipInPiece(start, eol);
        if found {
          PartlyEnd(p, now, "", s, eol, a, Pending());
          return Ok, s + a;
        }
        PartlyMore(p, a, mRaw.Source(), "", s, eol);
        s := s + a;
        r := NextPiece();
        first := false;
        if r != Ok {
          if r == Eof { PartlyNone(p, "", s, eol); }
          return;
        }
        start := 0;
      }
    }

    /** Takes the next `n` bytes of the buffer, or finds fewer.  Of the text `p` the first `k`
        bytes had been taken before, giving `s`. */
    method SkipBytes(n: nat, ghost p: string, ghost s0: string, ghost s: string, ghost k: nat)
      returns (found: bool, ghost a: string)
      requires Valid() && Taken(p, Pending(), s0, s, k)
      modifies `mInIndex
      ensures Valid() && OutputKept() && mRaw.Source() == old(mRaw.Source())
      ensures found == (old(mInIndex) + n <= mInEnd)
      ensures found ==> mInIndex == old(mInIndex) + n && Taken(p, Pending(), s0, s + a, k + n)
      ensures !found ==> |old(Unread())| == mInEnd - mInIndex < n && mInIndex == old(mInIndex)
      ensures !found ==> Taken(p, mRaw.Source(), s0, s + a, k + (mInEnd - mInIndex))
      ensures mInBuffer == null ==> a == ""
      ensures mInBuffer != null ==> a == mInBuffer[old(mInIndex)..if found then mInIndex else mInEnd]
    {
      var end := mInIndex + n;
      found := end <= mInEnd;
      a := Unread();
      if found {
        if mInBuffer != null { UnreadIs(end); }
        a := a[..n];
        Associate(a, Unread()[n..], mRaw.Source());
        assert Unread() == a + Unread()[n..];
        mInIndex := end;
      }
      TakenMore(p, a, if found then Pending() else mRaw.Source(), s0, s, k);
    }

    /** The next piece, after the first `k` bytes of `p` have been taken, which gave `s`. */
    method FetchAfter(ghost p: string, ghost s0: string, ghost s: string, ghost k: nat) returns (r: Outcome)
      requires Valid() && Taken(p, mRaw.Source(), s0, s, k)
      modifies `mInBuffer, `mInIndex, `mInEnd, mInBuffer, mRaw`mPosition, mRaw`mReads, mRaw`failures
      ensures Valid() && OutputKept() && BufferKept() && FailedSince(old(mRaw.failures), r)
      ensures Taken(p, Pending(), s0, s, k) && |s| == |s0| + k && |p| >= k
      ensures r == Ok ==> |mRaw.Source()| < |old(mRaw.Source())|
      ensures r == Eof ==> |p| == k && s == s0 + p && Pending() == ""
    {
      r := NextPiece();
      TakenLength(p, Pending(), s0, s, k);
      if r == Eof { TakenAll(p, s0, s, k); }
    }

    /** Reads `n0` bytes. */
    method GetN(s0: string, n0: nat) returns (s: string, r: Outcome)
      requires Valid()
      modifies `mInBuffer, `mInIndex, `mInEnd, mInBuffer, mRaw`mPosition, mRaw`mReads, mRaw`failures
      ensures Valid() && OutputKept() && BufferKept()
      ensures r == Ok ==> Taken(old(Pending()), Pending(), s0, s, n0)
      ensures r == Eof ==> |old(Pending())| < n0 && s == s0 + old(Pending()) && Pending() == ""
      ensures r == Failed ==> |s| - |s0| <= n0 && Taken(old(Pending()), Pending(), s0, s, |s| - |s0|)
      ensures n0 <= |old(Unread())| ==> mRaw.mReads == old(mRaw.mReads)
      ensures FailedSince(old(mRaw.failures), r)
    {
      var n: nat := n0;
      s := s0;
      ghost var p: string, k: nat := Pending(), 0;
      TakenStart(p, s0);
      ghost var first := true;
      while true
        invariant Valid() && OutputKept() && BufferKept()
        invariant k + n == n0 && Taken(p, Pending(), s0, s, k)
        invariant FailedSince(old(mRaw.failures), Ok)
        invariant if first then n == n0 && Unread() == old(Unread()) && mRaw.mReads == old(mRaw.mReads)
                  else |old(Unread())| < n0
        decreases |mRaw.Source()|
      {
        var start, m := mInIndex, mInEnd - mInIndex;
        var found, a := SkipBytes(n, p, s0, s, k);
        var piece := if mInBuffer == null then "" else mInBuffer[start..if found then mInIndex else mInEnd];
        assert piece == a;
        s := s + piece;
        if found { return s, Ok; }
        n, k := n - m, k + m;
        r := FetchAfter(p, s0, s, k);
        first := false;
        if r != Ok { return; }
      }
    }

    /** Drops `n0` bytes.  The ghost result is what `GetN` would have delivered. */
    method DropN(n0: nat) returns (r: Outcome, ghost s: string)
      requires Valid()
      modifies `mInBuffer, `mInIndex, `mInEnd, mInBuffer, mRaw`mPosition, mRaw`mReads, mRaw`failures
      ensures Valid() && OutputKept() && BufferKept()
      ensures r == Ok ==> Taken(old(Pending()), Pending(), "", s, n0)
      ensures r == Eof ==> |old(Pending())| < n0 && Pending() == ""
      ensures r == Failed ==> |s| <= n0 && Taken(old(Pending()), Pending(), "", s, |s|)
      ensures n0 <= |old(Unread())| ==> mRaw.mReads == old(mRaw.mReads)
      ensures FailedSince(old(mRaw.failures), r)
    {
      var n: nat := n0;
      s := "";
      ghost var p: string, k: nat := Pending(), 0;
      TakenStart(p, "");
      ghost var first := true;
      while true
        invariant Valid() && OutputKept() && BufferKept()
        invariant k + n == n0 && Taken(p, Pending(), "", s, k)
        invariant FailedSince(old(mRaw.failures), Ok)
        invariant if first then n == n0 && Unread() == old(Unread()) && mRaw.mReads == old(mRaw.mReads)
                  else |old(Unread())| < n0
        decreases |mRaw.Source()|
      {
        var m := mInEnd - mInIndex;
        var found, a := SkipBytes(n, p, "", s, k);
        s := s + a;
        if found { return Ok, s; }
        n, k := n - m, k + m;
        r := FetchAfter(p, "", s, k);
        first := false;
        if r != Ok { return; }
      }
    }

    /** Reads to the end of the source, which is no error here. */
    method GetAll(s0: string) returns (s: string, r: Outcome)
      requires Valid()
      modifies `mInBuffer, `mInIndex, `mInEnd, mInBuffer, mRaw`mPosition, mRaw`mReads, mRaw`failures
      ensures Valid() && OutputKept() && BufferKept() && r != Eof
      ensures r == Ok ==> s == s0 + old(Pending()) && Pending() == ""
      ensures r == Failed ==> |s0| <= |s| && Taken(old(Pending()), Pending(), s0, s, |s| - |s0|)
      ensures FailedSince(old(mRaw.failures), r)
    {
      s := s0;
      ghost var p, k := Pending(), 0;
      TakenStart(p, s0);
      while true
        invariant Valid() && OutputKept() && BufferKept()
        invariant Taken(p, Pending(), s0, s, k)
        invariant FailedSince(old(mRaw.failures), Ok)
        decreases |mRaw.Source()|
      {
        ghost var piece, rest := Unread(), mRaw.Source();
        TakenMore(p, piece, rest, s0, s, k);
        s := s + if mInBuffer == null then "" else mInBuffer[mInIndex..mInEnd];
        k := k + |piece|;
        r := NextPiece();
        if r == Eof {
          TakenAll(p, s0, s, k);
          return s, Ok;
        }
        if r == Failed { return; }
      }
    }

    /** Hands out what is in the buffer already, as far as there is room for it. */
    method TryRead(buffer: array<char>) returns (n: nat)
      requires Valid() && buffer != mInBuffer && buffer != mOutBuffer
      modifies `mInIndex, buffer
      ensures Valid() && OutputKept() && mRaw.Source() == old(mRaw.Source())
      ensures n == Min(buffer.Length, |old(Unread())|)
      ensures old(Unread()) == buffer[..n] + Unread() && buffer[n..] == old(buffer[n..])
    {
      n := Min(buffer.Length, mInEnd - mInIndex);
      ghost var u := Unread();
      if mInBuffer != null {
        forall i | 0 <= i < n { buffer[i] := mInBuffer[mInIndex + i]; }
        assert buffer[..n] == u[..n];
        UnreadIs(mInIndex + n);
      }
      mInIndex := mInIndex + n;
      assert Unread() == u[n..];
    }

    // -------------------------------------------------------------- writing

    /** All bytes ever put: those written and, after them, those still buffered. */
    ghost function Total(): string
      requires ValidOut()
      reads this, mRaw, mOutBuffer
    {
      mRaw.mOutput + Buffered()
    }

    /** Nothing on the reading side has changed. */
    twostate predicate InputKept()
      requires old(ValidIn()) && ValidIn()
      reads this, mRaw, mInBuffer
    {
      mInBuffer == old(mInBuffer) && Unread() == old(Unread()) && mRaw.Source() == old(mRaw.Source())
    }

    /** The output buffer is allocated at most once. */
    twostate predicate OutBufferKept()
      reads this
    {
      mOutBuffer == old(mOutBuffer) || (old(mOutBuffer) == null && fresh(mOutBuffer))
    }

    /** One write was refused or flush has failed, after the `refusals` before it, exactly if `r`
        says so; and none is if the raw stream is willing. */
    ghost predicate RefusedSince(refusals: nat, r: Outcome)
      reads this, mRaw
    {
      mRaw.refusals == refusals + (if r == Ok then 0 else 1) && (Willing(mRaw.kind) ==> r == Ok)
    }

    method AllocOutBuf(size: nat)
      requires size > 0 && Valid()
      modifies `mOutBuffer, `mOutIndex
      ensures Valid() && InputKept() && OutBufferKept() && mOutBuffer != null && Buffered() == old(Buffered())
      ensures old(mOutBuffer) == null ==> mOutBuffer.Length == size
    {
      if mOutBuffer == null {
        mOutBuffer := new char[size];
        mOutIndex := 0;
      }
    }

    /** Writes the first `hi` bytes of a buffer, in as many pieces as the raw stream takes.
        Ending early, it has written the first `k`. */
    method WriteAll(buf: array<char>, hi: nat) returns (r: Outcome, k: nat)
      requires 0 < hi <= buf.Length
      modifies mRaw`mOutput, mRaw`mCalls, mRaw`refusals
      ensures Ended(r, if r == Ok then hi else k, mRaw.mCalls) == WriteLoop(mRaw.kind, old(mRaw.mCalls), 0, hi)
      ensures r == Ok ==> mRaw.mOutput == old(mRaw.mOutput) + buf[..hi]
      ensures r != Ok ==> k < hi && mRaw.mOutput == old(mRaw.mOutput) + buf[..k]
      ensures RefusedSince(old(mRaw.refusals), r)
    {
      k := 0;
      var ok, n := mRaw.RawWrite(buf, k, hi);
      ghost var w: nat := if ok then n else 0;
      while ok && n > 0 && n != hi - k
        invariant k < hi && w == (if ok then k + n else k) && w <= hi
        invariant mRaw.mOutput == old(mRaw.mOutput) + buf[..w] && mRaw.mCalls > 0
        invariant ok == Reply(mRaw.kind, mRaw.mCalls - 1, hi - k).Take?
        invariant ok ==> n == Min(Reply(mRaw.kind, mRaw.mCalls - 1, hi - k).n, hi - k)
        invariant WriteLoop(mRaw.kind, old(mRaw.mCalls), 0, hi) == WriteLoop(mRaw.kind, mRaw.mCalls - 1, k, hi)
        invariant mRaw.refusals == old(mRaw.refusals) + if Refuses(mRaw.kind, mRaw.mCalls - 1) then 1 else 0
        decreases hi - k
      {
        k := k + n;
        ok, n := mRaw.RawWrite(buf, k, hi);
        w := if ok then k + n else k;
        assert buf[..w] == buf[..k] + buf[k..w];
        Associate(old(mRaw.mOutput), buf[..k], buf[k..w]);
      }
      r := if !ok then Failed else if n == 0 then Eof else Ok;
    }

    /** Writes what is buffered.  Ending early, it either keeps the whole buffer, of which the
        first `k` bytes have been written, or only the raw stream's own flush has failed. */
    method Flush() returns (r: Outcome, ghost k: nat)
      requires Valid()
      modifies `mOutBuffer, `mOutIndex, mRaw`mOutput, mRaw`mCalls, mRaw`refusals, mRaw`synced
      ensures Valid() && InputKept() && OutBufferKept() && mOutBuffer != null
      ensures old(mOutBuffer) == null ==> mOutBuffer.Length == STREAM_BUFFER_SIZE
      ensures Flushed(r, mRaw.mOutput, Buffered(), k, mRaw.mCalls)
           == FlushOf(mRaw.kind, old(mRaw.mCalls), old(mRaw.mOutput), old(Buffered()))
      ensures r == Ok ==> Buffered() == "" && mRaw.mOutput == old(Total())
      ensures r == Ok && old(Buffered()) != "" ==> mRaw.synced == |mRaw.mOutput|
      ensures old(Buffered()) == "" ==> r == Ok && mRaw.mCalls == old(mRaw.mCalls)
      ensures r != Ok ==> k <= |Buffered()| && mRaw.mOutput + Buffered()[k..] == old(Total())
      ensures r != Ok ==> (Buffered() == old(Buffered()) && k < |Buffered()|) || (Buffered() == "" && k == 0)
      ensures old(|Buffered()|) <= 1 ==> Total() == old(Total())
      ensures |Total()| == |old(Total())| + k && (Total() == old(Total()) <==> k == 0)
      ensures RefusedSince(old(mRaw.refusals), r)
    {
      k := 0;
      if mOutBuffer == null {
        AllocOutBuf(STREAM_BUFFER_SIZE);
        return Ok, k;
      }
      if mOutIndex != 0 {
        var written;
        r, written := WriteAll(mOutBuffer, mOutIndex);
        if r != Ok {
          assert Buffered() == Buffered()[..written] + Buffered()[written..];
          Associate(old(mRaw.mOutput), Buffered()[..written], Buffered()[written..]);
          return r, written;
        }
        mOutIndex := 0;
        var flushed := mRaw.RawFlush();
        if !flushed { return Failed, k; }
      }
      return Ok, k;
    }

    /** A flush and, if it has not succeeded, one more. */
    method FlushAgain() returns (r: Outcome, again: Outcome, ghost kept: bool, ghost k: nat)
      requires Valid()
      modifies `mOutBuffer, `mOutIndex, mRaw`mOutput, mRaw`mCalls, mRaw`refusals, mRaw`synced
      ensures Valid() && InputKept() && OutBufferKept() && (r == Ok ==> again == Ok)
      ensures var f := FlushOf(mRaw.kind, old(mRaw.mCalls), old(mRaw.mOutput), old(Buffered()));
        && r == f.r && k == f.k && kept == (f.left != "")
        && (r != Ok ==> again == FlushOf(mRaw.kind, f.call, f.out, f.left).r)
      ensures again == Ok ==> Buffered() == "" && k <= |old(Buffered())|
      ensures again == Ok && kept ==> r != Ok && mRaw.mOutput == old(mRaw.mOutput + Buffered()[..k] + Buffered())
      ensures again == Ok && !kept ==> k == 0 && mRaw.mOutput == old(Total())
    {
      SecondFlush(mRaw.kind, mRaw.mCalls, mRaw.mOutput, Buffered());
      r, k := Flush();
      kept := Buffered() != "";
      if r == Ok { return r, Ok, kept, k; }
      ghost var unused;
      again, unused := Flush();
    }

    method Copy(b: array<char>, at: nat, s: string, p: nat, m: nat)
      requires p + m <= |s| && at + m <= b.Length
      modifies b
      ensures b[..at] == old(b[..at]) && b[at..at + m] == s[p..p + m]
    {
      var i := 0;
      while i < m
        invariant 0 <= i <= m && b[..at] == old(b[..at])
        invariant b[at..at + i] == s[p..p + i]
      {
        b[at + i] := s[p + i];
        assert b[at..at + i + 1] == b[at..at + i] + [s[p + i]];
        i := i + 1;
      }
    }

    /** Copies `m` bytes of `s` behind the buffered ones. */
    method CopyOut(s: string, p: nat, m: nat)
      requires Valid() && p + m <= |s| && m <= (if mOutBuffer == null then 0 else mOutBuffer.Length - mOutIndex)
      modifies `mOutIndex, mOutBuffer
      ensures Valid() && InputKept() && Total() == old(Total()) + s[p..p + m]
      ensures mOutIndex == old(mOutIndex) + m
    {
      if mOutBuffer != null {
        Copy(mOutBuffer, mOutIndex, s, p, m);
        assert mOutBuffer[..mOutIndex + m] == mOutBuffer[..mOutIndex] + mOutBuffer[mOutIndex..mOutIndex + m];
      }
      Associate(mRaw.mOutput, old(Buffered()), s[p..p + m]);
      mOutIndex := mOutIndex + m;
    }

    lemma PrefixGrows(s: string, p: nat, m: nat, t: string)
      requires p + m <= |s|
      ensures (t + s[..p]) + s[p..p + m] == t + s[..p + m]
    {
    }

    function Room(): nat
      requires ValidOut()
      reads this
    {
      if mOutBuffer == null then 0 else mOutBuffer.Length - mOutIndex
    }

    /** Buffers what is left of `s` from position `p` on, or as much of it as there is room for. */
    method PutPiece(s: string, p: nat, ghost before: string) returns (m: nat, done: bool)
      requires Valid() && p <= |s| && Total() == before + s[..p]
      modifies `mOutIndex, mOutBuffer
      ensures Valid() && InputKept() && OutBufferKept()
      ensures p + m <= |s| && Total() == before + s[..p + m]
      ensures mOutIndex == old(mOutIndex) + m
      ensures done ==> p + m == |s|
      ensures done <==> |s| - p <= old(Room())
      ensures !done ==> m == old(Room()) && p + m < |s|
    {
      done := |s| - p <= Room();
      m := if done then |s| - p else Room();
      PrefixGrows(s, p, m, before);
      CopyOut(s, p, m);
    }

    /** One turn of the loop in `PutSpan`: a piece, and a flush if that was not all. */
    method PutAndFlush(s: string, p: nat, ghost before: string) returns (m: nat, done: bool, r: Outcome, ghost k: nat)
      requires Valid() && p <= |s| && Total() == before + s[..p]
      modifies `mOutBuffer, `mOutIndex, mOutBuffer, mRaw`mOutput, mRaw`mCalls, mRaw`refusals, mRaw`synced
      ensures Valid() && InputKept() && OutBufferKept() && p + m <= |s|
      ensures done ==> p + m == |s| && r == Ok
      ensures !done ==> m == old(Room()) && p + m < |s| && mOutBuffer != null
      ensures done <==> |s| - p <= old(Room())
      ensures done ==> mRaw.mCalls == old(mRaw.mCalls) && mOutIndex == old(mOutIndex) + m
      ensures r == Ok ==> Total() == before + s[..p + m] && (!done ==> mOutIndex == 0)
      ensures r != Ok ==> k <= |Buffered()| && mRaw.mOutput + Buffered()[k..] == before + s[..p + m]
      ensures RefusedSince(old(mRaw.refusals), r)
    {
      m, done := PutPiece(s, p, before);
      if done { return m, done, Ok, 0; }
      r, k := Flush();
      if r == Ok { mOutIndex := 0; }
    }

    lemma NoneAndAll(before: string, s: string)
      ensures before + s[..0] == before && before + s[..|s|] == before + s
    {
      assert s[..|s|] == s;
    }

    /** Puts all of `s`: what is written and what is buffered together grow by exactly `s`.  If
        the raw stream fails, the first `j` bytes of `s` have been put, and the first `k`
        buffered bytes have been written already. */
    method PutSpan(s: string) returns (r: Outcome, ghost j: nat, ghost k: nat)
      requires Valid()
      modifies `mOutBuffer, `mOutIndex, mOutBuffer, mRaw`mOutput, mRaw`mCalls, mRaw`refusals, mRaw`synced
      ensures Valid() && InputKept() && OutBufferKept()
      ensures r == Ok ==> Total() == old(Total()) + s
      ensures r != Ok ==> j <= |s| && k <= |Buffered()| && mRaw.mOutput + Buffered()[k..] == old(Total()) + s[..j]
      ensures |s| <= old(Room()) ==> mRaw.mCalls == old(mRaw.mCalls)
      ensures r == Ok && s != "" ==> Buffered() != ""
      ensures RefusedSince(old(mRaw.refusals), r)
    {
      var p: nat := 0;
      ghost var before := Total();
      NoneAndAll(before, s);
      while true
        invariant Valid() && InputKept() && OutBufferKept() && p <= |s|
        invariant Total() == before + s[..p] && RefusedSince(old(mRaw.refusals), Ok)
        invariant p == 0 || p < |s|
        invariant |s| <= old(Room()) ==> p == 0 && Room() == old(Room()) && mRaw.mCalls == old(mRaw.mCalls)
        decreases |s| - p, if mOutBuffer == null then 2 else if Room() == 0 then 1 else 0
      {
        var m, done;
        m, done, r, k := PutAndFlush(s, p, before);
        p, j := p + m, p + m;
        if done || r != Ok { return; }
      }
    }

    /** Puts as much as there is room for in the buffer. */
    method TryWrite(s: string) returns (n: nat)
      requires Valid()
      modifies `mOutBuffer, `mOutIndex, mOutBuffer
      ensures Valid() && InputKept() && OutBufferKept() && mOutBuffer != null
      ensures n <= |s| && Total() == old(Total()) + s[..n] && mRaw.mOutput == old(mRaw.mOutput)
      ensures n == |s| || mOutIndex == mOutBuffer.Length
      ensures old(mOutBuffer) == null ==> mOutBuffer.Length == STREAM_BUFFER_SIZE
    {
      if mOutBuffer == null { AllocOutBuf(STREAM_BUFFER_SIZE); }
      n := Min(|s|, mOutBuffer.Length - mOutIndex);
      CopyOut(s, 0, n);
    }

    lemma LineParts(before: string, s: string, j: nat)
      requires j <= 1
      ensures (before + s) + "\n"[..j] == before + (s + "\n")[..|s| + j]
    {
      Associate(before, s, "\n"[..j]);
      assert (s + "\n")[..|s| + j] == s + "\n"[..j];
    }

    /** Puts a line with its end and flushes.  Ending early, `j` bytes of the line and its end
        have been put, and the first `k` buffered bytes have been written already. */
    method PutLine(s: string) returns (r: Outcome, ghost j: nat, ghost k: nat)
      requires Valid()
      modifies `mOutBuffer, `mOutIndex, mOutBuffer, mRaw`mOutput, mRaw`mCalls, mRaw`refusals, mRaw`synced
      ensures Valid() && InputKept() && OutBufferKept()
      ensures r == Ok ==> Buffered() == "" && mRaw.mOutput == old(Total()) + (s + "\n")
      ensures r == Ok ==> mRaw.synced == |mRaw.mOutput|
      ensures r != Ok ==> j <= |s| + 1 && k <= |Buffered()|
      ensures r != Ok ==> mRaw.mOutput + Buffered()[k..] == old(Total()) + (s + "\n")[..j]
      ensures RefusedSince(old(mRaw.refusals), r)
    {
      ghost var before := Total();
      r, j, k := PutSpan(s);
      if r != Ok {
        assert (s + "\n")[..j] == s[..j];
        return;
      }
      r, j, k := PutSpan("\n");
      if r != Ok {
        LineParts(before, s, j);
        return r, |s| + j, k;
      }
      LineParts(before, s, 1);
      assert "\n"[..1] == "\n" && (s + "\n")[..|s| + 1] == s + "\n";
      r, k := Flush();
      j := |s| + 1;
    }
  }

  /** A new stream with the text `b` in its output buffer and nothing written. */
  method Filled(kind: Kind, b: string) returns (stream: BorrowedStream)
    requires |b| <= STREAM_BUFFER_SIZE
    ensures fresh(stream) && fresh(stream.mRaw) && stream.Valid() && stream.mRaw.kind == kind
    ensures stream.Buffered() == b && stream.mRaw.mOutput == "" && stream.mRaw.mCalls == 0
  {
    var raw := new Stream(kind, "");
    stream := new BorrowedStream(raw);
    assert stream.Total() == "" + stream.Buffered() == "";
    var n := stream.TryWrite(b);
    assert stream.Total() == "" + stream.Buffered() == stream.Buffered() == b[..n];
    assert n == |stream.Buffered()| == |b|;
  }

  /** A raw stream on which two flushes write the first byte twice, for any two bytes or more
      that fit into the buffer. */
  method FirstByteTwice(b: string) returns (output: string, first: Outcome, second: Outcome)
    requires 2 <= |b| <= STREAM_BUFFER_SIZE
    ensures first == Failed && second == Ok && output == b[..1] + b
  {
    var stream := Filled(ShortThenFail(|b|), b);
    FirstTwice("", b);
    assert "" + b[..1] == b[..1];
    ghost var kept, k;
    first, second, kept, k := stream.FlushAgain();
    return stream.mRaw.mOutput, first, second;
  }
}
