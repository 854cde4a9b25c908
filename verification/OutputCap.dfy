/** The output cap of a spawned command (`runCli`, src/executors/apptainer-cli-executor.ts): stdout and stderr
    share one byte budget. */
module OutputCap {
  import opened Common

  /** One `data` event, of stderr or stdout. */
  datatype Chunk = Chunk(err: bool, data: seq<Byte>)

  datatype Output = Output(stdout: seq<Byte>, stderr: seq<Byte>, bytes: nat, truncated: bool)

  const NOTHING := Output([], [], 0, false)

  function Append(o: Output, err: bool, data: seq<Byte>): Output {
    if err then o.(stderr := o.stderr + data) else o.(stdout := o.stdout + data)
  }

  /** A cap of 0 is no cap; nothing is counted then. */
  function Collect(max: nat, o: Output, c: Chunk): Output {
    if max == 0 then Append(o, c.err, c.data)
    else if o.bytes >= max then o.(truncated := true)
    else
      var taken := if |c.data| > max - o.bytes then c.data[..max - o.bytes] else c.data;
      Append(o, c.err, taken).(bytes := o.bytes + |taken|, truncated := o.truncated || |taken| < |c.data|)
  }

  /** The collector; a kill of the child is not an obstacle to chunks already under way. */
  class Collector {
    const maxOutput: nat
    var stdout: seq<Byte>
    var stderr: seq<Byte>
    var outputBytes: nat
    var outputTruncated: bool

    ghost function Value(): Output
      reads this
    {
      Output(stdout, stderr, outputBytes, outputTruncated)
    }

    constructor (maxOutput: nat)
      ensures this.maxOutput == maxOutput && Value() == NOTHING
    {
      this.maxOutput := maxOutput;
      stdout, stderr, outputBytes, outputTruncated := [], [], 0, false;
    }

    method OnData(c: Chunk)
      modifies this
      ensures Value() == Collect(maxOutput, old(Value()), c)
    {
      if maxOutput == 0 {
        if c.err {
          stderr := stderr + c.data;
        } else {
          stdout := stdout + c.data;
        }
        return;
      }
      var remaining: int := maxOutput - outputBytes;
      if remaining <= 0 {
        outputTruncated := true;
        return;
      }
      var accepted := if |c.data| > remaining then c.data[..remaining] else c.data;
      if c.err {
        stderr := stderr + accepted;
      } else {
        stdout := stdout + accepted;
      }
      outputBytes := outputBytes + |accepted|;
      if |accepted| < |c.data| {
        outputTruncated := true;
      }
    }
  }

  function After(max: nat, cs: seq<Chunk>): Output {
    if cs == [] then NOTHING else Collect(max, After(max, cs[..|cs| - 1]), cs[|cs| - 1])
  }

  // ---- the stream as it arrived ----

  datatype Tagged = Tagged(err: bool, byte: Byte)

  function Tag(c: Chunk): seq<Tagged> {
    seq(|c.data|, i requires 0 <= i < |c.data| => Tagged(c.err, c.data[i]))
  }

  function Arrived(cs: seq<Chunk>): seq<Tagged> {
    if cs == [] then [] else Arrived(cs[..|cs| - 1]) + Tag(cs[|cs| - 1])
  }

  function Stream(ts: seq<Tagged>, err: bool): seq<Byte> {
    if ts == [] then []
    else Stream(ts[..|ts| - 1], err) + if ts[|ts| - 1].err == err then [ts[|ts| - 1].byte] else []
  }

  lemma {:induction false} StreamAppends(a: seq<Tagged>, b: seq<Tagged>, err: bool)
    ensures Stream(a + b, err) == Stream(a, err) + Stream(b, err)
  {
    if b == [] {
      assert a + b == a;
    } else {
      assert (a + b)[..|a + b| - 1] == a + b[..|b| - 1];
      StreamAppends(a, b[..|b| - 1], err);
    }
  }

  lemma {:induction false} StreamOfTag(c: Chunk, k: nat, err: bool)
    requires k <= |c.data|
    ensures Stream(Tag(c)[..k], err) == if c.err == err then c.data[..k] else []
  {
    if k > 0 {
      StreamOfTag(c, k - 1, err);
      assert Tag(c)[..k][..k - 1] == Tag(c)[..k - 1];
      assert c.data[..k] == c.data[..k - 1] + [c.data[k - 1]];
    }
  }

  function First(ts: seq<Tagged>, n: nat): seq<Tagged> {
    if n <= |ts| then ts[..n] else ts
  }

  /** One more chunk: it adds its first bytes while there is room. */
  lemma FirstWithOneMore(max: nat, seen: seq<Tagged>, c: Chunk, err: bool)
    ensures var k := if |seen| >= max then 0 else if |c.data| > max - |seen| then max - |seen| else |c.data|;
      && |First(seen + Tag(c), max)| == |First(seen, max)| + k
      && Stream(First(seen + Tag(c), max), err)
         == Stream(First(seen, max), err) + if c.err == err then c.data[..k] else []
  {
    hide Stream;
    if |seen| >= max {
      assert First(seen + Tag(c), max) == First(seen, max);
    } else {
      var k := if |c.data| > max - |seen| then max - |seen| else |c.data|;
      assert First(seen + Tag(c), max) == seen + Tag(c)[..k];
      StreamAppends(seen, Tag(c)[..k], err);
      StreamOfTag(c, k, err);
    }
  }

  function Kept(max: nat, arrived: seq<Tagged>): seq<Tagged> {
    if max == 0 then arrived else First(arrived, max)
  }

  /** What is kept of both streams is what arrived first, up to the cap, in order and with nothing skipped;
      without a cap it is everything. */
  lemma {:induction false} KeepsFirstBytes(max: nat, cs: seq<Chunk>)
    ensures var o := After(max, cs); var kept := Kept(max, Arrived(cs));
      && o.stdout == Stream(kept, false) && o.stderr == Stream(kept, true)
      && o.bytes == if max == 0 then 0 else |kept|
  {
    if cs != [] {
      var before, c := cs[..|cs| - 1], cs[|cs| - 1];
      var seen := Arrived(before);
      KeepsFirstBytes(max, before);
      assert c.data[..|c.data|] == c.data && Tag(c)[..|c.data|] == Tag(c);
      StreamOfTag(c, |c.data|, false);
      StreamOfTag(c, |c.data|, true);
      StreamAppends(seen, Tag(c), false);
      StreamAppends(seen, Tag(c), true);
      hide Tag, Stream;
      FirstWithOneMore(max, seen, c, false);
      FirstWithOneMore(max, seen, c, true);
    }
  }

  /** An empty event that finds the budget used up. */
  ghost predicate EmptyWhenFull(max: nat, cs: seq<Chunk>) {
    exists i :: 0 <= i < |cs| && cs[i].data == [] && |Arrived(cs[..i])| >= max
  }

  /** Truncation is reported exactly when there is a cap and more arrived than it allows, or an empty event
      came too late. */
  lemma {:induction false} ReportsTruncationExactly(max: nat, cs: seq<Chunk>)
    ensures After(max, cs).truncated <==> max > 0 && (|Arrived(cs)| > max || EmptyWhenFull(max, cs))
  {
    if cs != [] {
      var n := |cs| - 1;
      var before, c := cs[..n], cs[n];
      KeepsFirstBytes(max, before);
      ReportsTruncationExactly(max, before);
      hide Tag, Stream, After, Arrived, EmptyWhenFull;
      OneMoreEmpty(max, cs);
      OneMoreArrives(max, cs);
    }
  }

  lemma OneMoreEmpty(max: nat, cs: seq<Chunk>)
    requires cs != []
    ensures var n := |cs| - 1;
      EmptyWhenFull(max, cs) <==> EmptyWhenFull(max, cs[..n]) || (cs[n].data == [] && |Arrived(cs[..n])| >= max)
  {
    hide Arrived;
    var n := |cs| - 1;
    if EmptyWhenFull(max, cs) {
      var i :| 0 <= i < |cs| && cs[i].data == [] && |Arrived(cs[..i])| >= max;
      assert i < n ==> cs[..n][i] == cs[i] && cs[..n][..i] == cs[..i];
    }
    if EmptyWhenFull(max, cs[..n]) {
      var i :| 0 <= i < n && cs[..n][i].data == [] && |Arrived(cs[..n][..i])| >= max;
      assert cs[..n][i] == cs[i] && cs[..n][..i] == cs[..i];
    }
  }

  lemma OneMoreArrives(max: nat, cs: seq<Chunk>)
    requires cs != []
    ensures |Arrived(cs)| == |Arrived(cs[..|cs| - 1])| + |cs[|cs| - 1].data|
    ensures After(max, cs) == Collect(max, After(max, cs[..|cs| - 1]), cs[|cs| - 1])
  {
  }
}
