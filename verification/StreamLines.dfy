/** Lines written to one stream and read back from another, and why neither depends on how the raw
    streams cut up their bytes. */
module StreamLines {
  import opened BufferedStreams
  import opened RawStreams
  import opened Wrappers

  /** A text has one first line: what `GetLine` delivers and leaves is determined by the unread
      bytes alone. */
  lemma LineUnique(p: string, s0: string, now: string, s: string, now': string, s': string, eol: char)
    requires LineTaken(p, now, s0, s, eol) && LineTaken(p, now', s0, s', eol)
    ensures now == now' && s == s' && eol in p
  {
    var a :| eol !in a && s == s0 + a && p == a + ([eol] + now);
    var b :| eol !in b && s' == s0 + b && p == b + ([eol] + now');
    assert p[|a|] == eol && p[|b|] == eol;
    assert a == p[..|a|] && b == p[..|b|];
    assert forall i :: 0 <= i < |a| ==> a[i] == p[i] != eol;
    assert forall i :: 0 <= i < |b| ==> b[i] == p[i] != eol;
    assert |a| == |b|;
    assert now == p[|a| + 1..] && now' == p[|b| + 1..];
  }

  /** The same for a number of bytes. */
  lemma TakenUnique(p: string, s0: string, now: string, s: string, now': string, s': string, n: nat)
    requires Taken(p, now, s0, s, n) && Taken(p, now', s0, s', n)
    ensures now == now' && s == s' && n <= |p|
  {
    var a :| |a| == n && s == s0 + a && p == a + now;
    var b :| |b| == n && s' == s0 + b && p == b + now';
    assert a == p[..n] && b == p[..n];
    assert now == p[n..] && now' == p[n..];
  }

  /** Each line followed by a newline. */
  function Joined(lines: seq<string>): string {
    if lines == [] then "" else (lines[0] + "\n") + Joined(lines[1..])
  }

  lemma {:induction false} JoinedSnoc(lines: seq<string>, i: nat)
    requires i < |lines|
    ensures Joined(lines[..i + 1]) == Joined(lines[..i]) + (lines[i] + "\n")
  {
    var t := lines[..i + 1];
    if i == 0 {
      assert t[1..] == [];
    } else {
      JoinedSnoc(lines[1..], i - 1);
      assert t[1..] == lines[1..][..i] && lines[..i][1..] == lines[1..][..i - 1];
      Associate(lines[0] + "\n", Joined(lines[1..][..i - 1]), lines[i] + "\n");
    }
  }

  predicate OneLine(s: string) { '\n' !in s }

  /** Writes all lines, one `PutLine` each. */
  method WriteLines(stream: BorrowedStream, lines: seq<string>)
    requires stream.Valid() && Willing(stream.mRaw.kind)
    requires stream.Buffered() == "" && stream.mRaw.mOutput == ""
    modifies stream`mOutBuffer, stream`mOutIndex, stream.mOutBuffer
    modifies stream.mRaw`mOutput, stream.mRaw`mCalls, stream.mRaw`refusals, stream.mRaw`synced
    ensures stream.mRaw.mOutput == Joined(lines)
  {
    assert lines[..|lines|] == lines;
    for i := 0 to |lines|
      invariant stream.Valid() && stream.OutBufferKept()
      invariant stream.Buffered() == "" && stream.mRaw.mOutput == Joined(lines[..i])
    {
      JoinedSnoc(lines, i);
      assert stream.Total() == stream.mRaw.mOutput;
      var r, j, k := stream.PutLine(lines[i]);
    }
  }

  /** Reads lines until the end of the source. */
  method ReadLines(stream: BorrowedStream, ghost lines: seq<string>) returns (read: seq<string>)
    requires stream.Valid() && Reliable(stream.mRaw.kind)
    requires stream.Pending() == Joined(lines) && forall i :: 0 <= i < |lines| ==> OneLine(lines[i])
    modifies stream, stream.mInBuffer, stream.mRaw`mPosition, stream.mRaw`mReads, stream.mRaw`failures
    ensures read == lines
  {
    read := [];
    while true
      invariant stream.Valid() && stream.BufferKept() && stream.mOutBuffer == old(stream.mOutBuffer)
      invariant |read| <= |lines| && read == lines[..|read|] && stream.Pending() == Joined(lines[|read|..])
      decreases |lines| - |read|
    {
      ghost var p, n := stream.Pending(), |read|;
      var s, r := stream.GetLine("", '\n');
      if n < |lines| {
        NextLine(lines, n, s, stream.Pending());
      }
      if r != Ok { return; }
      read := read + [s];
    }
  }

  lemma NextLine(lines: seq<string>, n: nat, s: string, now: string)
    requires n < |lines| && OneLine(lines[n])
    ensures '\n' in Joined(lines[n..])
    ensures LineTaken(Joined(lines[n..]), now, "", s, '\n') ==>
      lines[..n] + [s] == lines[..n + 1] && now == Joined(lines[n + 1..])
  {
    var p := Joined(lines[n..]);
    assert lines[n..][1..] == lines[n + 1..];
    Associate(lines[n], "\n", Joined(lines[n + 1..]));
    assert LineTaken(p, Joined(lines[n + 1..]), "", lines[n], '\n') by { assert "" + lines[n] == lines[n]; }
    assert p[|lines[n]|] == '\n';
    if LineTaken(p, now, "", s, '\n') {
      LineUnique(p, "", now, s, Joined(lines[n + 1..]), lines[n], '\n');
    }
  }

  /** What was written line by line is read back line by line, in whatever pieces the raw streams
      take and deliver it, as long as none of them fails. */
  method WriteThenRead(lines: seq<string>, out: Kind, into: Kind) returns (read: seq<string>)
    requires forall i :: 0 <= i < |lines| ==> OneLine(lines[i])
    requires Willing(out) && Reliable(into)
    ensures read == lines
  {
    var output := new Stream(out, "");
    var writer := new BorrowedStream(output);
    WriteLines(writer, lines);
    var input := new Stream(into, output.mOutput);
    var reader := new BorrowedStream(input);
    assert reader.Pending() == Joined(lines);
    read := ReadLines(reader, lines);
  }

  /** A new stream on the text `p`. */
  method Over(kind: Kind, p: string) returns (stream: BorrowedStream)
    ensures fresh(stream) && fresh(stream.mRaw) && stream.mRaw.kind == kind
    ensures stream.Valid() && stream.Pending() == p
    ensures stream.mInBuffer == null
  {
    var raw := new Stream(kind, p);
    stream := new BorrowedStream(raw);
    assert "" + p == p;
  }

  /** On a stream that does not fail the outcome of a line read, the line and what is left are
      determined by the text: there is a line exactly if the text has an `eol`. */
  method LineFromAnywhere(p: string, kind: Kind, s0: string, eol: char)
    returns (s: string, r: Outcome, ghost now: string)
    requires Reliable(kind)
    ensures r == if eol in p then Ok else Eof
    ensures r == Ok ==> LineTaken(p, now, s0, s, eol)
    ensures r == Eof ==> s == s0 + p && now == ""
  {
    var stream := Over(kind, p);
    s, r := stream.GetLine(s0, eol);
    now := stream.Pending();
    if r == Ok { LineUnique(p, s0, now, s, now, s, eol); }
  }

  /** The same for a read of `n` bytes. */
  method BytesFromAnywhere(p: string, kind: Kind, s0: string, n: nat)
    returns (s: string, r: Outcome, ghost now: string)
    requires Reliable(kind)
    ensures r == if n <= |p| then Ok else Eof
    ensures r == Ok ==> s == s0 + p[..n] && now == p[n..]
    ensures r == Eof ==> s == s0 + p && now == ""
  {
    var stream := Over(kind, p);
    s, r := stream.GetN(s0, n);
    now := stream.Pending();
    if r == Ok {
      ghost var d :| |d| == n && s == s0 + d && p == d + now;
      assert d == p[..n] && now == p[n..];
    }
  }
}
