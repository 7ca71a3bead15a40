/** Raw byte streams: a string stream that reads and writes as much as it can, and an arbitrary
    one that reads and writes any part of what it is asked for and may fail at any time. */
module RawStreams {
  /** What an arbitrary stream says to a call: it fails, or takes or delivers up to `n` bytes. */
  datatype Answer = Fail | Take(n: nat)

  /** An arbitrary stream gives its i-th answer to the i-th write or flush, and likewise to the i-th
      read. */
  datatype Kind = StringStream | Arbitrary(answers: nat -> Answer, pieces: nat -> Answer)

  datatype Outcome = Ok | Eof | Failed

  /** The answer to the call number `call`, which offers `m` bytes. */
  function Reply(kind: Kind, call: nat, m: nat): Answer {
    match kind
    case StringStream => Take(m)
    case Arbitrary(answers, _) => answers(call)
  }

  function Min(a: nat, b: nat): nat { if a <= b then a else b }

  predicate ReadFails(kind: Kind, call: nat) { kind.Arbitrary? && kind.pieces(call).Fail? }

  /** No read ever fails. */
  ghost predicate Reliable(kind: Kind) { forall i: nat :: !ReadFails(kind, i) }

  /** How much a read delivers of `m` bytes that are there and have room: something, if it can. */
  function Delivered(kind: Kind, call: nat, m: nat): nat {
    if kind.StringStream? || kind.pieces(call).Fail? then m
    else Min(if kind.pieces(call).n == 0 then 1 else kind.pieces(call).n, m)
  }

  /** A write that fails or takes nothing. */
  predicate Refuses(kind: Kind, call: nat) {
    kind.Arbitrary? && (kind.answers(call).Fail? || kind.answers(call).n == 0)
  }

  predicate Fails(kind: Kind, call: nat) { kind.Arbitrary? && kind.answers(call).Fail? }

  /** Every write takes something, and no flush fails. */
  ghost predicate Willing(kind: Kind) { forall i: nat :: !Refuses(kind, i) }

  class Stream {
    const kind: Kind
    const mStringView: string
    var mPosition: nat
    var mOutput: string
    var mCalls: nat       // the writes and flushes so far, which count off the answers
    var mReads: nat       // the reads so far
    ghost var failures: nat   // how many of them have failed
    ghost var refusals: nat   // how many writes were refused and flushes failed
    ghost var synced: nat     // how much of the output had been written at the last flush

    ghost predicate Valid()
      reads this
    {
      mPosition <= |mStringView|
    }

    /** What has not been read yet. */
    ghost function Source(): string
      requires Valid()
      reads this
    {
      mStringView[mPosition..]
    }

    constructor (kind: Kind, strView: string)
      ensures Valid() && this.kind == kind && Source() == strView && mOutput == "" && mCalls == mReads == 0
      ensures failures == refusals == synced == 0
    {
      this.kind, mStringView, mPosition, mOutput, mCalls, mReads := kind, strView, 0, "", 0, 0;
      failures, refusals, synced := 0, 0, 0;
    }

    /** Reads into `buffer` from position `lo` on.  Nothing read, though there was room, means
        the end of the source. */
    method RawRead(buffer: array<char>, lo: nat) returns (ok: bool, n: nat)
      requires Valid() && lo <= buffer.Length
      modifies `mPosition, `mReads, `failures, buffer
      ensures Valid() && mReads == old(mReads) + 1 && (ok <==> !ReadFails(kind, old(mReads)))
      ensures failures == old(failures) + if ok then 0 else 1
      ensures ok ==> n == Delivered(kind, old(mReads), Min(buffer.Length - lo, |old(Source())|))
      ensures !ok ==> n == 0
      ensures lo + n <= buffer.Length && buffer[..lo] == old(buffer[..lo]) && buffer[lo + n..] == old(buffer[lo + n..])
      ensures n <= |old(Source())| && old(Source()) == buffer[lo..lo + n] + Source()
      ensures ok && n == 0 ==> old(Source()) == "" || lo == buffer.Length
    {
      var call := mReads;
      mReads := mReads + 1;
      if ReadFails(kind, call) {
        failures := failures + 1;
        return false, 0;
      }
      var size := Delivered(kind, call, Min(buffer.Length - lo, |mStringView| - mPosition));
      forall i | 0 <= i < size { buffer[lo + i] := mStringView[mPosition + i]; }
      assert buffer[lo..lo + size] == mStringView[mPosition..mPosition + size];
      mPosition := mPosition + size;
      return true, size;
    }

    /** Writes from `buffer[lo..hi]` as much as the stream takes. */
    method RawWrite(buffer: array<char>, lo: nat, hi: nat) returns (ok: bool, n: nat)
      requires lo <= hi <= buffer.Length
      modifies `mOutput, `mCalls, `refusals
      ensures mCalls == old(mCalls) + 1
      ensures ok == Reply(kind, old(mCalls), hi - lo).Take?
      ensures ok ==> n == Min(Reply(kind, old(mCalls), hi - lo).n, hi - lo)
      ensures mOutput == old(mOutput) + if ok then buffer[lo..lo + n] else ""
      ensures refusals == old(refusals) + if Refuses(kind, old(mCalls)) then 1 else 0
    {
      var reply := Reply(kind, mCalls, hi - lo);
      refusals := refusals + if Refuses(kind, mCalls) then 1 else 0;
      mCalls := mCalls + 1;
      if reply.Fail? { return false, 0; }
      n := Min(reply.n, hi - lo);
      mOutput := mOutput + buffer[lo..lo + n];
      return true, n;
    }

    method RawFlush() returns (ok: bool)
      modifies `mCalls, `refusals, `synced
      ensures synced == if ok then |mOutput| else old(synced)
      ensures mCalls == old(mCalls) + 1 && (ok <==> !Fails(kind, old(mCalls)))
      ensures !ok ==> Refuses(kind, old(mCalls))
      ensures refusals == old(refusals) + if ok then 0 else 1
    {
      ok := !Fails(kind, mCalls);
      refusals := refusals + if ok then 0 else 1;
      synced := if ok then |mOutput| else synced;
      mCalls := mCalls + 1;
    }
  }
}
