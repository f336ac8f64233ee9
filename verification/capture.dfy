/** Reading the two output streams of a remote command side by side, up to a limit. */
module Capture {
  import opened Utf8

  const USIZE_MAX: nat := 0xFFFF_FFFF_FFFF_FFFF

  /** One non-blocking read: the end of the stream, some bytes, nothing yet, or a fault. */
  datatype Read = Eof | Bytes(bytes: seq<byte>) | WouldBlock | Fault

  datatype Stream = Stdout | Stderr

  datatype Chunk = Chunk(stream: Stream, bytes: seq<byte>)

  /** Sum, held at the machine's largest length. */
  function Capped(a: nat, b: nat): nat {
    if a + b > USIZE_MAX then USIZE_MAX else a + b
  }

  function CombinedLength(target: nat, other: nat, added: nat): nat {
    if target + other > USIZE_MAX then USIZE_MAX else Capped(target + other, added)
  }

  /** The limit is kept to; a limit of the largest length is none, since sums are held at it. */
  predicate Within(length: nat, limit: nat) { limit == USIZE_MAX || length <= limit }

  method AppendOutputBounded(target: seq<byte>, bytes: seq<byte>, other: nat, limit: nat) returns (ok: bool,
                             grown: seq<byte>)
    requires limit <= USIZE_MAX
    ensures ok <==> Within(|target| + other + |bytes|, limit)
    ensures grown == if ok then target + bytes else target
  {
    ok := CombinedLength(|target|, other, |bytes|) <= limit;
    grown := if ok then target + bytes else target;
  }

  /** The caller's callback. */
  class Sink {
    var calls: seq<Chunk>

    method Call(chunk: Chunk, accepts: bool) returns (ok: bool)
      modifies this
      ensures ok == accepts && calls == old(calls) + [chunk]
    {
      calls := calls + [chunk];
      ok := accepts;
    }
  }

  /** One round of the loop: what each stream has, whether the deadline holds, whether the callback accepts. */
  datatype Round = Round(deadline: bool, out: Read, err: Read, acceptsOut: bool, acceptsErr: bool)

  /** Both buffers, in full or as far as they got. */
  datatype Drained =
    | Complete(out: seq<byte>, err: seq<byte>)
    | Partial(out: seq<byte>, err: seq<byte>)
    | StillOpen(out: seq<byte>, err: seq<byte>)

  /** The bytes of one stream among some chunks, in order. */
  function BytesOf(chunks: seq<Chunk>, stream: Stream): seq<byte> {
    if chunks == [] then []
    else
      var last := chunks[|chunks| - 1];
      BytesOf(chunks[..|chunks| - 1], stream) + (if last.stream == stream then last.bytes else [])
  }

  lemma BytesOfMore(chunks: seq<Chunk>, chunk: Chunk)
    ensures BytesOf(chunks + [chunk], chunk.stream) == BytesOf(chunks, chunk.stream) + chunk.bytes
    ensures forall s: Stream | s != chunk.stream :: BytesOf(chunks + [chunk], s) == BytesOf(chunks, s)
  {
    assert (chunks + [chunk])[..|chunks|] == chunks;
    forall s: Stream | s != chunk.stream ensures BytesOf(chunks + [chunk], s) == BytesOf(chunks, s) {
      assert BytesOf(chunks + [chunk], s) == BytesOf(chunks, s) + [];
    }
  }

  predicate Ends(read: Read) { read.Eof? || (read.Bytes? && read.bytes == []) }

  /** What one read adds to what has arrived. */
  function Arrived(read: Read, stream: Stream): seq<Chunk> {
    if read.Bytes? && read.bytes != [] then [Chunk(stream, read.bytes)] else []
  }

  /** A stream has ended within these rounds. */
  predicate Ended(rounds: seq<Round>, stream: Stream) {
    exists i | 0 <= i < |rounds| :: Ends(if stream == Stdout then rounds[i].out else rounds[i].err)
  }

  /** What a round adds to what has arrived on a stream that has or has not ended. */
  function Adds(done: bool, read: Read, stream: Stream): seq<Chunk> {
    if done then [] else Arrived(read, stream)
  }

  /** Everything that arrives in these rounds; a stream that has ended is not read again. */
  function Arrivals(rounds: seq<Round>): seq<Chunk> {
    if rounds == [] then []
    else
      var earlier, last := rounds[..|rounds| - 1], rounds[|rounds| - 1];
      Arrivals(earlier)
        + Adds(Ended(earlier, Stdout), last.out, Stdout)
        + Adds(Ended(earlier, Stderr), last.err, Stderr)
  }

  /** Why a read of a stream that has not ended stops the run: a fault, bytes over the limit, or a callback that
      does not accept them. */
  predicate Fails(read: Read, length: nat, limit: nat, accepts: bool) {
    || read.Fault?
    || (read.Bytes? && read.bytes != [] && (!accepts || !Within(length + |read.bytes|, limit)))
  }

  function Length(chunks: seq<Chunk>): nat { |BytesOf(chunks, Stdout)| + |BytesOf(chunks, Stderr)| }

  /** Whether the run goes on, and what has been stored. */
  datatype Step = Step(ok: bool, stored: seq<Chunk>)

  /** What a read does: bytes that fit are stored, whether they are accepted or not. */
  function AfterRead(before: seq<Chunk>, done: bool, read: Read, stream: Stream, limit: nat, accepts: bool): Step {
    var fits := read.Bytes? ==> Within(Length(before) + |read.bytes|, limit);
    Step(done || !Fails(read, Length(before), limit, accepts), before + if fits then Adds(done, read, stream) else [])
  }

  /** What a round does; `called` says whether there is a callback. */
  function AfterRound(before: seq<Chunk>, outDone: bool, errDone: bool, round: Round, limit: nat, called: bool): Step {
    if !round.deadline then Step(false, before)
    else
      var out := AfterRead(before, outDone, round.out, Stdout, limit, round.acceptsOut || !called);
      if !out.ok then out
      else AfterRead(out.stored, errDone, round.err, Stderr, limit, round.acceptsErr || !called)
  }

  /** What this round does when none has stopped the run before it. */
  function RoundAt(rounds: seq<Round>, i: nat, limit: nat, called: bool): Step
    requires i < |rounds|
  {
    var earlier := rounds[..i];
    AfterRound(Arrivals(earlier), Ended(earlier, Stdout), Ended(earlier, Stderr), rounds[i], limit, called)
  }

  /** The run is stopped in this round, unless it was before. */
  predicate Breaks(rounds: seq<Round>, i: nat, limit: nat, called: bool)
    requires i < |rounds|
  {
    !(Ended(rounds[..i], Stdout) && Ended(rounds[..i], Stderr)) && !RoundAt(rounds, i, limit, called).ok
  }

  /** No round among the first stops the run. */
  predicate Unbroken(rounds: seq<Round>, n: nat, limit: nat, called: bool)
    requires n <= |rounds|
  {
    forall i: nat | i < n :: !Breaks(rounds, i, limit, called)
  }

  /** The run is stopped in its first such round, with this stored. */
  predicate CutShort(rounds: seq<Round>, limit: nat, called: bool, stored: seq<Chunk>) {
    exists i: nat | i < |rounds| ::
      && Breaks(rounds, i, limit, called) && Unbroken(rounds, i, limit, called)
      && stored == RoundAt(rounds, i, limit, called).stored
  }

  lemma NoneYet(rounds: seq<Round>, limit: nat, called: bool)
    ensures Unbroken(rounds, 0, limit, called) && Within(0, limit)
  {
  }

  lemma RoundDone(rounds: seq<Round>, i: nat, limit: nat, called: bool, step: Step)
    requires i < |rounds| && Unbroken(rounds, i, limit, called) && step == RoundAt(rounds, i, limit, called)
    requires !(Ended(rounds[..i], Stdout) && Ended(rounds[..i], Stderr))
    ensures step.ok ==> Unbroken(rounds, i + 1, limit, called)
    ensures !step.ok ==> CutShort(rounds, limit, called, step.stored) && !Unbroken(rounds, |rounds|, limit, called)
  {
    hide RoundAt, Ended;
    assert Breaks(rounds, i, limit, called) <==> !step.ok;
    hide Breaks;
  }

  /** Store a chunk and hand it on; a chunk over the limit is neither stored nor handed on. */
  method Accept(sink: Sink?, buffer: seq<byte>, chunk: Chunk, other: nat, limit: nat, accepts: bool,
                ghost before: seq<Chunk>)
    returns (ok: bool, grown: seq<byte>, ghost accepted: seq<Chunk>)
    requires limit <= USIZE_MAX && buffer == BytesOf(before, chunk.stream) && Within(|buffer| + other, limit)
    modifies sink
    ensures accepted == if Within(|buffer| + other + |chunk.bytes|, limit) then before + [chunk] else before
    ensures sink != null ==> sink.calls == old(sink.calls) + accepted[|before|..]
    ensures grown == BytesOf(accepted, chunk.stream) && Within(|grown| + other, limit)
    ensures forall s: Stream | s != chunk.stream :: BytesOf(accepted, s) == BytesOf(before, s)
    ensures ok <==> Within(|buffer| + other + |chunk.bytes|, limit) && (accepts || sink == null)
  {
    BytesOfMore(before, chunk);
    ok, grown := AppendOutputBounded(buffer, chunk.bytes, other, limit);
    if !ok { return false, grown, before; }
    accepted := before + [chunk];
    if sink != null { ok := sink.Call(chunk, accepts); }
  }

  /** One read of one stream. */
  method ReadStream(sink: Sink?, read: Read, stream: Stream, done: bool, buffer: seq<byte>, other: nat, limit: nat,
                    accepts: bool, ghost before: seq<Chunk>)
    returns (ok: bool, done': bool, grown: seq<byte>, ghost accepted: seq<Chunk>)
    requires limit <= USIZE_MAX && buffer == BytesOf(before, stream) && Within(|buffer| + other, limit)
    requires |buffer| + other == Length(before)
    modifies sink
    ensures before <= accepted <= before + Adds(done, read, stream)
    ensures sink != null ==> sink.calls == old(sink.calls) + accepted[|before|..]
    ensures grown == BytesOf(accepted, stream) && Within(|grown| + other, limit)
    ensures forall s: Stream | s != stream :: BytesOf(accepted, s) == BytesOf(before, s)
    ensures ok ==> accepted == before + Adds(done, read, stream) && done' == (done || Ends(read))
    ensures Step(ok, accepted) == AfterRead(before, done, read, stream, limit, accepts || sink == null)
  {
    hide BytesOf;
    ok, done', grown, accepted := true, done, buffer, before;
    if done { return; }
    match read
    case Eof => done' := true;
    case Bytes(bytes) =>
      if bytes == [] {
        done' := true;
      } else {
        ok, grown, accepted := Accept(sink, buffer, Chunk(stream, bytes), other, limit, accepts, before);
      }
    case WouldBlock =>
    case Fault => ok := false;
  }

  /** One round: what both streams have. */
  method ReadBoth(sink: Sink?, round: Round, outDone: bool, errDone: bool, out: seq<byte>, err: seq<byte>, limit: nat,
                  ghost before: seq<Chunk>)
    returns (ok: bool, outDone': bool, errDone': bool, out': seq<byte>, err': seq<byte>, ghost accepted: seq<Chunk>)
    requires limit <= USIZE_MAX && round.deadline
    requires out == BytesOf(before, Stdout) && err == BytesOf(before, Stderr) && Within(|out| + |err|, limit)
    modifies sink
    ensures out' == BytesOf(accepted, Stdout) && err' == BytesOf(accepted, Stderr) && Within(|out'| + |err'|, limit)
    ensures before <= accepted <= before + Adds(outDone, round.out, Stdout) + Adds(errDone, round.err, Stderr)
    ensures sink != null ==> sink.calls == old(sink.calls) + accepted[|before|..]
    ensures ok ==> accepted == before + Adds(outDone, round.out, Stdout) + Adds(errDone, round.err, Stderr)
    ensures ok ==> outDone' == (outDone || Ends(round.out)) && errDone' == (errDone || Ends(round.err))
    ensures Step(ok, accepted) == AfterRound(before, outDone, errDone, round, limit, sink != null)
  {
    hide BytesOf, Ends, Adds, AfterRead, Within;
    errDone', err' := errDone, err;
    ok, outDone', out', accepted := ReadStream(sink, round.out, Stdout, outDone, out, |err|, limit, round.acceptsOut,
                                               before);
    if !ok { return; }
    ghost var middle := accepted;
    ok, errDone', err', accepted := ReadStream(sink, round.err, Stderr, errDone, err, |out'|, limit, round.acceptsErr,
                                               accepted);
    assert middle[|before|..] + accepted[|middle|..] == accepted[|before|..];
  }

  /** Faithful bounded capture: whatever order the streams deliver in and however the run ends, what was
      captured is a beginning of what arrived, it is within the limit, each buffer is its own stream's
      part of it in order, and the callback was given exactly that. */
  method DrainBothStreams(sink: Sink?, rounds: seq<Round>, limit: nat) returns (drained: Drained,
                          ghost accepted: seq<Chunk>)
    requires limit <= USIZE_MAX
    modifies sink
    ensures drained.out == BytesOf(accepted, Stdout) && drained.err == BytesOf(accepted, Stderr)
    ensures Within(|drained.out| + |drained.err|, limit)
    ensures sink != null ==> sink.calls == old(sink.calls) + accepted
    ensures accepted <= Arrivals(rounds)
    ensures !drained.Partial? ==> accepted == Arrivals(rounds)
    ensures !drained.Partial? ==> (drained.Complete? <==> Ended(rounds, Stdout) && Ended(rounds, Stderr))
    // Capture is cut short exactly when some round stops it, and then in the first one that does.
    ensures drained.Partial? <==> !Unbroken(rounds, |rounds|, limit, sink != null)
    ensures drained.Partial? ==> CutShort(rounds, limit, sink != null, accepted)
  {
    var out: seq<byte>, err: seq<byte>, outDone, errDone := [], [], false, false;
    accepted := [];
    hide BytesOf, Ended, Ends, Arrivals, Adds, AfterRead, Unbroken, CutShort, Within;
    NothingYet();
    NoneYet(rounds, limit, sink != null);
    for i := 0 to |rounds|
      invariant out == BytesOf(accepted, Stdout) && err == BytesOf(accepted, Stderr) && Within(|out| + |err|, limit)
      invariant sink != null ==> sink.calls == old(sink.calls) + accepted
      invariant accepted == Arrivals(rounds[..i])
      invariant outDone == Ended(rounds[..i], Stdout) && errDone == Ended(rounds[..i], Stderr)
      invariant Unbroken(rounds, i, limit, sink != null)
    {
      RoundsGrow(rounds, i);
      if outDone && errDone {
        RestArrivesNot(rounds, i);
        StaysOver(rounds, i, limit, sink != null);
        return Complete(out, err), accepted;
      }
      ArrivalsGrow(rounds, i);
      ArrivalsGrow(rounds, i + 1);
      if !rounds[i].deadline {
        RoundDone(rounds, i, limit, sink != null, Step(false, accepted));
        return Partial(out, err), accepted;
      }
      var ok;
      ok, outDone, errDone, out, err, accepted := ReadBoth(sink, rounds[i], outDone, errDone, out, err, limit,
                                                           accepted);
      RoundDone(rounds, i, limit, sink != null, Step(ok, accepted));
      if !ok { return Partial(out, err), accepted; }
    }
    assert rounds[..|rounds|] == rounds;
    drained := if outDone && errDone then Complete(out, err) else StillOpen(out, err);
  }

  /** Once both streams have ended nothing stops the run. */
  lemma StaysOver(rounds: seq<Round>, i: nat, limit: nat, called: bool)
    requires i < |rounds| && Ended(rounds[..i], Stdout) && Ended(rounds[..i], Stderr)
    requires Unbroken(rounds, i, limit, called)
    ensures Unbroken(rounds, |rounds|, limit, called)
  {
    hide RoundAt;
    forall j: nat, s: Stream | i <= j < |rounds| && Ended(rounds[..i], s) ensures Ended(rounds[..j], s) {
      var k :| 0 <= k < i && Ends(if s == Stdout then rounds[..i][k].out else rounds[..i][k].err);
      assert rounds[..j][k] == rounds[..i][k];
    }
  }

  lemma NothingYet()
    ensures forall s: Stream :: BytesOf([], s) == [] && !Ended([], s)
    ensures Arrivals([]) == []
  {
  }

  lemma RoundsGrow(rounds: seq<Round>, i: nat)
    requires i < |rounds|
    ensures var shorter, longer := rounds[..i], rounds[..i + 1];
      && longer[..i] == shorter && longer[|longer| - 1] == rounds[i]
      && (Ended(longer, Stdout) <==> Ended(shorter, Stdout) || Ends(rounds[i].out))
      && (Ended(longer, Stderr) <==> Ended(shorter, Stderr) || Ends(rounds[i].err))
      && Arrivals(longer) == Arrivals(shorter)
           + Adds(Ended(shorter, Stdout), rounds[i].out, Stdout) + Adds(Ended(shorter, Stderr), rounds[i].err, Stderr)
  {
    var shorter, longer := rounds[..i], rounds[..i + 1];
    assert forall j | 0 <= j < i :: longer[j] == shorter[j];
    assert longer[i] == rounds[i] && longer[..i] == shorter;
  }

  lemma {:induction false} ArrivalsGrow(rounds: seq<Round>, i: nat)
    requires i <= |rounds|
    ensures Arrivals(rounds[..i]) <= Arrivals(rounds)
    decreases |rounds| - i
  {
    if i == |rounds| {
      assert rounds[..i] == rounds;
    } else {
      ArrivalsGrow(rounds, i + 1);
      assert rounds[..i + 1][..i] == rounds[..i];
    }
  }

  lemma {:induction false} RestArrivesNot(rounds: seq<Round>, i: nat)
    requires i <= |rounds| && Ended(rounds[..i], Stdout) && Ended(rounds[..i], Stderr)
    ensures Arrivals(rounds) == Arrivals(rounds[..i]) && Ended(rounds, Stdout) && Ended(rounds, Stderr)
    decreases |rounds| - i
  {
    if i == |rounds| {
      assert rounds[..i] == rounds;
    } else {
      RoundsGrow(rounds, i);
      RestArrivesNot(rounds, i + 1);
    }
  }
}
