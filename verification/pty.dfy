/** Driving `su` on a terminal: watch for the password prompt or the command's first output, and then make
    the one input exchange that is allowed. */
module PtyLoop {
  import opened Text
  import opened Utf8
  import opened Capture

  // ---------- What the loop looks for ----------

  predicate SliceAt(hay: seq<byte>, needle: seq<byte>, i: nat) {
    i + |needle| <= |hay| && hay[i..i + |needle|] == needle
  }

  predicate HasSlice(hay: seq<byte>, needle: seq<byte>) {
    exists i: nat | i <= |hay| :: SliceAt(hay, needle, i)
  }

  /** Index just past the last line end, or 0. */
  function TailStart(s: string, n: nat): (r: nat)
    requires n <= |s|
    ensures r <= n
    ensures forall i | r <= i < n :: s[i] != '\n' && s[i] != '\r'
    ensures r > 0 ==> s[r - 1] == '\n' || s[r - 1] == '\r'
  {
    if n == 0 || s[n - 1] == '\n' || s[n - 1] == '\r' then n else TailStart(s, n - 1)
  }

  /** The last, unterminated line asks for a password. */
  predicate PromptWaits(out: seq<byte>) {
    var text := Decode(out);
    var lower := Lower(text[TailStart(text, |text|)..]);
    Contains(lower, "password") && EndsWith(TrimEnd(lower), ":")
  }

  /** The last character of the line but for white space is a colon at `e`. */
  ghost predicate LastColon(line: string, e: nat) { e < |line| && line[e] == ':' && Blank(line[e + 1..]) }

  /** The line mentions a password, in any capital or small letters, and a colon is the last thing on it. */
  ghost predicate AsksForPassword(line: string) {
    exists i: nat, e: nat :: SpelledAt(line, "password", i) && LastColon(line, e) && i + 8 <= e
  }

  lemma TailAfter(before: string, line: string)
    requires before == "" || before[|before| - 1] in {'\n', '\r'}
    requires '\n' !in line && '\r' !in line
    ensures (before + line)[TailStart(before + line, |before + line|)..] == line
  {
    var text := before + line;
    var r := TailStart(text, |text|);
    assert forall i | |before| <= i < |text| :: text[i] == line[i - |before|] && text[i] in line;
    assert before != "" ==> text[|before| - 1] == before[|before| - 1];
    assert r == |before|;
  }

  lemma ContainsSpelled(line: string, word: string)
    requires forall i | 0 <= i < |word| :: 'a' <= word[i] <= 'z'
    ensures Contains(Lower(line), word) <==> exists i: nat :: SpelledAt(line, word, i)
  {
    forall i: nat ensures OccursAt(Lower(line), word, i) <==> SpelledAt(line, word, i) {
      OccursSpelled(line, word, i);
    }
    hide Lower, SpelledAt;
  }

  lemma LowerMarks(line: string)
    ensures !IsWhitespace(':')
    ensures forall i | 0 <= i < |line| :: IsWhitespace(Lower(line)[i]) <==> IsWhitespace(line[i])
    ensures forall i | 0 <= i < |line| :: Lower(line)[i] == ':' <==> line[i] == ':'
  {
  }

  lemma ColonAtEnd(t: string)
    ensures EndsWith(t, ":") <==> t != "" && t[|t| - 1] == ':'
  {
    if t != "" { assert t[|t| - 1..][0] == t[|t| - 1]; }
  }

  lemma ColonLast(line: string)
    ensures EndsWith(TrimEnd(Lower(line)), ":") <==> exists e: nat :: LastColon(line, e)
  {
    LowerMarks(line);
    hide IsWhitespace, Lower, TrimEnd, EndsWith;
    var lower := Lower(line);
    var t := TrimEnd(lower);
    ColonAtEnd(t);
    if e: nat :| LastColon(line, e) {
      assert forall i | e < i < |line| :: line[i] == line[e + 1..][i - e - 1];
      assert !IsWhitespace(lower[e]);
      assert |t| > e;
      assert t[|t| - 1] == lower[|t| - 1];
    }
    if EndsWith(t, ":") {
      var e := |t| - 1;
      assert t[e] == lower[e];
      var rest := line[e + 1..];
      forall i | 0 <= i < |rest| ensures IsWhitespace(rest[i]) {
        assert IsWhitespace(lower[e + 1 + i]);
      }
      assert LastColon(line, e);
    }
  }

  lemma PasswordLetters()
    ensures |"password"| == 8 && forall i | 0 <= i < 8 :: 'a' <= "password"[i] <= 'z'
  {
  }

  lemma ColonIsBehind(line: string, i: nat, e: nat)
    requires SpelledAt(line, "password", i) && LastColon(line, e)
    ensures i + 8 <= e
  {
    var last := line[i + 7];
    assert IsCaseOf(line[i + 7], "password"[7]);
    assert !IsWhitespace(last) && last != ':';
    hide IsWhitespace;
    assert forall x | e < x < |line| :: line[x] == line[e + 1..][x - e - 1];
  }

  /** When the prompt waits, by the line that is not finished alone. */
  lemma PromptExactlyWhen(before: string, line: string)
    requires before == "" || before[|before| - 1] in {'\n', '\r'}
    requires '\n' !in line && '\r' !in line
    ensures PromptWaits(Encode(before + line)) <==> AsksForPassword(line)
  {
    hide Decode, Encode, Lower, TrimEnd, TailStart, SpelledAt, LastColon, Contains, EndsWith;
    DecodeEncode(before + line);
    TailAfter(before, line);
    PasswordLetters();
    ContainsSpelled(line, "password");
    ColonLast(line);
    if PromptWaits(Encode(before + line)) {
      var i: nat :| SpelledAt(line, "password", i);
      var e: nat :| LastColon(line, e);
      ColonIsBehind(line, i, e);
    }
  }

  // ---------- The terminal's input ----------

  datatype Piece = PasswordBytes | LineFeed | Veof | ChannelEof

  class Input {
    /** Everything that was attempted, in order. */
    var log: seq<Piece>

    /** A write that fails may have gone out in part. */
    method Send(piece: Piece, succeeds: bool) returns (ok: bool)
      modifies this
      ensures ok == succeeds && log == old(log) + [piece]
    {
      log := log + [piece];
      ok := succeeds;
    }
  }

  function Exchange(inject: bool): (pieces: seq<Piece>)
    ensures pieces != []
  {
    (if inject then [PasswordBytes, LineFeed] else []) + [Veof, ChannelEof]
  }

  /** One turn of the loop: whether the deadline and the prompt wait hold, what is read, and, for an exchange,
      whether the deadline holds before it and before input is closed, and how many writes get through. */
  datatype Turn = Turn(deadline: bool, read: Read, before: bool, through: nat, closing: bool, promptExpired: bool)

  datatype Ending = Collected | ReadFailed | TimedOut | OverLimit | WriteFailed | NoPrompt | StillRunning

  /** All writes of the exchange get through, and no deadline passes before its end. */
  predicate Through(turn: Turn, inject: bool) {
    turn.before && turn.closing && |Exchange(inject)| <= turn.through
  }

  /** How many writes are attempted: up to the first that fails, and the last one only within the deadline. */
  function Attempts(turn: Turn, inject: bool): (n: nat)
    ensures n <= |Exchange(inject)|
  {
    var most := |Exchange(inject)| - if turn.closing then 0 else 1;
    if !turn.before then 0 else if turn.through < most then turn.through + 1 else most
  }

  function Gathered(turns: seq<Turn>): seq<byte> {
    if turns == [] then []
    else
      var last := turns[|turns| - 1];
      Gathered(turns[..|turns| - 1]) + (if last.read.Bytes? then last.read.bytes else [])
  }

  /** What has been gathered after the read of turn `j`. */
  function After(turns: seq<Turn>, j: nat): seq<byte>
    requires j < |turns|
  {
    Gathered(turns[..j + 1])
  }

  /** The exchange is due: the command was seen to start, or the prompt waits. */
  predicate Due(out: seq<byte>, begin: seq<byte>) { HasSlice(out, begin) || PromptWaits(out) }

  predicate Injects(out: seq<byte>, begin: seq<byte>) { !HasSlice(out, begin) && PromptWaits(out) }

  /** The exchange is not due within the first turns. */
  ghost predicate NeverDue(turns: seq<Turn>, begin: seq<byte>, n: nat)
    requires n <= |turns|
  {
    forall j: nat | j < n :: !Due(After(turns, j), begin)
  }

  lemma NotYetDue(turns: seq<Turn>, begin: seq<byte>, n: nat)
    requires n < |turns| && NeverDue(turns, begin, n) && !Due(After(turns, n), begin)
    ensures NeverDue(turns, begin, n + 1)
  {
  }

  /** The first turn after whose read the exchange was due. */
  ghost predicate FirstDue(turns: seq<Turn>, begin: seq<byte>, k: nat) {
    && k < |turns|
    && Due(After(turns, k), begin)
    && NeverDue(turns, begin, k)
  }

  /** What was sent is part of the exchange that was due first, after turn `k`. */
  ghost predicate Exchanged(turns: seq<Turn>, begin: seq<byte>, k: nat, log: seq<Piece>) {
    FirstDue(turns, begin, k) && log <= Exchange(Injects(After(turns, k), begin))
  }

  // ---------- How a run ends ----------

  /** The read of turn `j` is made in time, goes well and fits. */
  predicate ReadPasses(turns: seq<Turn>, limit: nat, j: nat)
    requires j < |turns|
  {
    && turns[j].deadline && !Ends(turns[j].read) && !turns[j].read.Fault?
    && (turns[j].read.Bytes? ==> Within(|After(turns, j)|, limit))
  }

  /** If the exchange is first due after turn `j`, it gets through. */
  ghost predicate ExchangePasses(turns: seq<Turn>, begin: seq<byte>, j: nat)
    requires j < |turns|
  {
    FirstDue(turns, begin, j) ==> Through(turns[j], Injects(After(turns, j), begin))
  }

  /** The wait for the prompt is not over at turn `j`, or the command has been seen to start. */
  predicate WaitPasses(turns: seq<Turn>, begin: seq<byte>, j: nat)
    requires j < |turns|
  {
    turns[j].promptExpired ==> HasSlice(After(turns, j), begin)
  }

  /** Nothing ends the run in the first turns. */
  ghost predicate Passes(turns: seq<Turn>, begin: seq<byte>, limit: nat, n: nat)
    requires n <= |turns|
  {
    forall j: nat | j < n ::
      ReadPasses(turns, limit, j) && ExchangePasses(turns, begin, j) && WaitPasses(turns, begin, j)
  }

  lemma DueOnce(turns: seq<Turn>, begin: seq<byte>, k: nat, j: nat)
    requires FirstDue(turns, begin, k) && k < j < |turns|
    ensures !FirstDue(turns, begin, j)
  {
    hide Due;
  }

  /** The run ends so after this many turns: the first thing that ends it is of this kind. */
  ghost predicate EndsSo(turns: seq<Turn>, begin: seq<byte>, limit: nat, ending: Ending, used: nat) {
    match ending
    case StillRunning => used == |turns| && Passes(turns, begin, limit, used)
    case Collected =>
      used < |turns| && Passes(turns, begin, limit, used) && turns[used].deadline && Ends(turns[used].read)
    case TimedOut => used < |turns| && Passes(turns, begin, limit, used) && !turns[used].deadline
    case ReadFailed =>
      used < |turns| && Passes(turns, begin, limit, used) && turns[used].deadline && turns[used].read.Fault?
    case OverLimit =>
      && used < |turns| && Passes(turns, begin, limit, used) && turns[used].deadline
      && turns[used].read.Bytes? && !Ends(turns[used].read) && !Within(|After(turns, used)|, limit)
    case WriteFailed =>
      && 0 < used <= |turns| && Passes(turns, begin, limit, used - 1)
      && ReadPasses(turns, limit, used - 1) && !ExchangePasses(turns, begin, used - 1)
    case NoPrompt =>
      && 0 < used <= |turns| && Passes(turns, begin, limit, used - 1)
      && ReadPasses(turns, limit, used - 1) && ExchangePasses(turns, begin, used - 1)
      && !WaitPasses(turns, begin, used - 1)
  }

  lemma EndsAtRead(turns: seq<Turn>, begin: seq<byte>, limit: nat, i: nat)
    requires i < |turns| && Passes(turns, begin, limit, i)
    ensures !turns[i].deadline ==> EndsSo(turns, begin, limit, TimedOut, i)
    ensures turns[i].deadline && Ends(turns[i].read) ==> EndsSo(turns, begin, limit, Collected, i)
    ensures turns[i].deadline && turns[i].read.Fault? ==> EndsSo(turns, begin, limit, ReadFailed, i)
    ensures turns[i].deadline && turns[i].read.Bytes? && !Ends(turns[i].read) && !Within(|After(turns, i)|, limit) ==>
      EndsSo(turns, begin, limit, OverLimit, i)
    ensures (turns[i].deadline && !Ends(turns[i].read) && !turns[i].read.Fault?
             && (turns[i].read.Bytes? ==> Within(|After(turns, i)|, limit))) ==> ReadPasses(turns, limit, i)
  {
    hide Passes, After, Ends, Within;
  }

  lemma EndsAfterRead(turns: seq<Turn>, begin: seq<byte>, limit: nat, i: nat)
    requires i < |turns| && Passes(turns, begin, limit, i) && ReadPasses(turns, limit, i)
    ensures !ExchangePasses(turns, begin, i) ==> EndsSo(turns, begin, limit, WriteFailed, i + 1)
    ensures ExchangePasses(turns, begin, i) && !WaitPasses(turns, begin, i) ==>
      EndsSo(turns, begin, limit, NoPrompt, i + 1)
    ensures ExchangePasses(turns, begin, i) && WaitPasses(turns, begin, i) ==> Passes(turns, begin, limit, i + 1)
  {
    hide ExchangePasses, WaitPasses, ReadPasses;
  }

  /** The turn in which something ended the run, or their number. */
  function LastTurn(ending: Ending, used: nat): int {
    if ending in {WriteFailed, NoPrompt} then used - 1 else used
  }

  lemma EndsAtLastTurn(turns: seq<Turn>, begin: seq<byte>, limit: nat, ending: Ending, used: nat)
    requires EndsSo(turns, begin, limit, ending, used)
    ensures var n := LastTurn(ending, used);
      && 0 <= n <= |turns| && Passes(turns, begin, limit, n) && (n == |turns| <==> ending == StillRunning)
      && (n < |turns| ==>
           !(ReadPasses(turns, limit, n) && ExchangePasses(turns, begin, n) && WaitPasses(turns, begin, n)))
  {
    hide ExchangePasses, WaitPasses, Gathered, Passes, Within;
  }

  /** Two endings do not fall to turns apart. */
  lemma NoLaterEnding(turns: seq<Turn>, begin: seq<byte>, limit: nat, n: int, m: int)
    requires 0 <= n && 0 <= m <= |turns| && Passes(turns, begin, limit, m)
    ensures n < m ==>
      ReadPasses(turns, limit, n) && ExchangePasses(turns, begin, n) && WaitPasses(turns, begin, n)
  {
    hide ReadPasses, ExchangePasses, WaitPasses;
  }

  lemma SameTurnSameEnding(turns: seq<Turn>, begin: seq<byte>, limit: nat, ending: Ending, used: nat, other: Ending,
                           after: nat)
    requires EndsSo(turns, begin, limit, ending, used) && EndsSo(turns, begin, limit, other, after)
    requires LastTurn(ending, used) == LastTurn(other, after)
    ensures ending == other
  {
    hide ExchangePasses, WaitPasses, After, Passes, Within;
  }

  /** The turns decide the ending: there is one at most. */
  lemma OneEnding(turns: seq<Turn>, begin: seq<byte>, limit: nat, ending: Ending, used: nat, other: Ending, after: nat)
    requires EndsSo(turns, begin, limit, ending, used) && EndsSo(turns, begin, limit, other, after)
    ensures ending == other && used == after
  {
    EndsAtLastTurn(turns, begin, limit, ending, used);
    EndsAtLastTurn(turns, begin, limit, other, after);
    hide EndsSo, Passes, ReadPasses, ExchangePasses, WaitPasses;
    var n, m := LastTurn(ending, used), LastTurn(other, after);
    NoLaterEnding(turns, begin, limit, n, m);
    NoLaterEnding(turns, begin, limit, m, n);
    SameTurnSameEnding(turns, begin, limit, ending, used, other, after);
  }

  /** The one exchange.  Nothing is sent if the deadline has passed before it. */
  method MakeExchange(input: Input, inject: bool, turn: Turn) returns (ok: bool)
    requires input.log == []
    modifies input
    ensures input.log == Exchange(inject)[..Attempts(turn, inject)]
    ensures ok <==> Through(turn, inject)
  {
    if !turn.before { return false; }
    var sent := 0;
    if inject {
      ok := input.Send(PasswordBytes, sent < turn.through);
      if !ok { return; }
      sent := sent + 1;
      ok := input.Send(LineFeed, sent < turn.through);
      if !ok { return; }
      sent := sent + 1;
    }
    ok := input.Send(Veof, sent < turn.through);
    if !ok || !turn.closing { return false; }
    sent := sent + 1;
    ok := input.Send(ChannelEof, sent < turn.through);
  }

  /** Nothing is ever sent but one exchange, at the first moment at which it is due, and of the kind that
      the output gathered by then calls for; what is returned is everything that was read. */
  method PtyCollectLoop(input: Input, turns: seq<Turn>, begin: seq<byte>, limit: nat)
    returns (ending: Ending, out: seq<byte>, ghost used: nat)
    requires input.log == [] && limit <= USIZE_MAX
    modifies input
    ensures used <= |turns| && out == Gathered(turns[..used]) && Within(|out|, limit)
    ensures EndsSo(turns, begin, limit, ending, used)
    ensures input.log == [] && ending != WriteFailed ==> NeverDue(turns, begin, used)
    ensures input.log != [] || ending == WriteFailed ==>
      exists k: nat | k <= used :: Exchanged(turns, begin, k, input.log)
    ensures input.log != [] && ending != WriteFailed ==> exists inject :: input.log == Exchange(inject)
    ensures ending == WriteFailed ==> used > 0 && var inject := Injects(After(turns, used - 1), begin);
      input.log == Exchange(inject)[..Attempts(turns[used - 1], inject)]
  {
    StartsQuiet(turns, begin, limit);
    hide PromptWaits, HasSlice, Gathered, NeverDue, Exchange, Through, Attempts, Passes, Within, EndsSo, ReadPasses,
      ExchangePasses, WaitPasses, FirstDue, Due, Injects;
    out, used := [], 0;
    var injected, inputClosed, commandStarted := false, false, false;
    ghost var at: nat := 0;
    StartsEmpty(turns);
    for i := 0 to |turns|
      invariant out == Gathered(turns[..i]) && Within(|out|, limit)
      invariant commandStarted ==> HasSlice(out, begin)
      invariant !inputClosed ==> input.log == [] && !injected && !commandStarted
      invariant !inputClosed ==> NeverDue(turns, begin, i)
      invariant inputClosed ==>
          && at < i && Exchanged(turns, begin, at, input.log)
          && input.log == Exchange(injected)
      invariant Passes(turns, begin, limit, i)
    {
      var turn := turns[i];
      used := i;
      GatheredMore(turns, i);
      EndsAtRead(turns, begin, limit, i);
      if !turn.deadline { return TimedOut, out, i; }
      if Ends(turn.read) { return Collected, out, i; }
      if turn.read.Fault? { return ReadFailed, out, i; }
      if turn.read.Bytes? {
        StaysFound(out, turn.read.bytes, begin);
        var ok;
        ok, out := AppendOutputBounded(out, turn.read.bytes, 0, limit);
        if !ok { return OverLimit, out, i; }
      }
      assert out == After(turns, i) && ReadPasses(turns, limit, i);
      EndsAfterRead(turns, begin, limit, i);
      if !commandStarted && HasSlice(out, begin) { commandStarted := true; }
      var shouldInject := !injected && !commandStarted && PromptWaits(out);
      TurnFacts(turns, begin, i, at, inputClosed);
      if !inputClosed && (shouldInject || commandStarted) {
        at := i;
        var ok := MakeExchange(input, shouldInject, turn);
        ExchangeBegins(turn, shouldInject, input.log);
        assert Exchanged(turns, begin, i, input.log);
        if !ok { return WriteFailed, out, i + 1; }
        injected := injected || shouldInject;
        inputClosed := true;
      }
      if !commandStarted && turn.promptExpired { return NoPrompt, out, i + 1; }
    }
    assert turns[..|turns|] == turns;
    EndsRunning(turns, begin, limit);
    return StillRunning, out, |turns|;
  }

  lemma StartsQuiet(turns: seq<Turn>, begin: seq<byte>, limit: nat)
    ensures NeverDue(turns, begin, 0) && Passes(turns, begin, limit, 0) && Within(0, limit)
  {
  }

  lemma EndsRunning(turns: seq<Turn>, begin: seq<byte>, limit: nat)
    requires Passes(turns, begin, limit, |turns|)
    ensures EndsSo(turns, begin, limit, StillRunning, |turns|)
  {
    hide Passes;
  }

  lemma ExchangeBegins(turn: Turn, inject: bool, log: seq<Piece>)
    requires log == Exchange(inject)[..Attempts(turn, inject)]
    ensures log <= Exchange(inject) && (log == [] ==> !Through(turn, inject))
    ensures Through(turn, inject) ==> log == Exchange(inject)
  {
  }

  /** What a turn in which the run goes on means for the exchange. */
  lemma TurnFacts(turns: seq<Turn>, begin: seq<byte>, i: nat, at: nat, closed: bool)
    requires i < |turns| && (closed ==> at < i && FirstDue(turns, begin, at)) && (!closed ==> NeverDue(turns, begin, i))
    ensures closed ==> ExchangePasses(turns, begin, i)
    ensures !closed && !Due(After(turns, i), begin) ==> NeverDue(turns, begin, i + 1) && ExchangePasses(turns, begin, i)
    ensures !closed && Due(After(turns, i), begin) ==>
      && FirstDue(turns, begin, i)
      && (ExchangePasses(turns, begin, i) <==> Through(turns[i], Injects(After(turns, i), begin)))
    ensures WaitPasses(turns, begin, i) <==> (turns[i].promptExpired ==> HasSlice(After(turns, i), begin))
    ensures Due(After(turns, i), begin) <==> HasSlice(After(turns, i), begin) || PromptWaits(After(turns, i))
    ensures Injects(After(turns, i), begin) <==> !HasSlice(After(turns, i), begin) && PromptWaits(After(turns, i))
  {
    hide HasSlice, PromptWaits, Through, After;
    if closed { DueOnce(turns, begin, at, i); }
    if !closed && !Due(After(turns, i), begin) { NotYetDue(turns, begin, i); }
  }

  lemma StartsEmpty(turns: seq<Turn>)
    ensures Gathered(turns[..0]) == []
  {
  }

  lemma GatheredMore(turns: seq<Turn>, i: nat)
    requires i < |turns|
    ensures Gathered(turns[..i + 1])
         == Gathered(turns[..i]) + (if turns[i].read.Bytes? then turns[i].read.bytes else [])
  {
    assert turns[..i + 1][..i] == turns[..i];
  }

  /** Once seen, the marker stays seen. */
  lemma StaysFound(out: seq<byte>, more: seq<byte>, needle: seq<byte>)
    ensures HasSlice(out, needle) ==> HasSlice(out + more, needle)
  {
    if i: nat :| i <= |out| && SliceAt(out, needle, i) {
      assert (out + more)[i..i + |needle|] == needle;
      assert SliceAt(out + more, needle, i);
    }
  }

  lemma {:induction false} StaysGathered(turns: seq<Turn>, i: nat, j: nat, needle: seq<byte>)
    requires i <= j < |turns|
    ensures HasSlice(After(turns, i), needle) ==> HasSlice(After(turns, j), needle)
  {
    hide Gathered, HasSlice;
    if i < j {
      StaysGathered(turns, i, j - 1, needle);
      GatheredMore(turns, j);
      StaysFound(After(turns, j - 1), if turns[j].read.Bytes? then turns[j].read.bytes else [], needle);
    }
  }

  predicate AtMostOnce(log: seq<Piece>, piece: Piece) {
    forall i, j | 0 <= i < |log| && 0 <= j < |log| && log[i] == log[j] == piece :: i == j
  }

  /** What the loop's contract means for the password: it is sent at most once, and then first; only when the
      prompt was waiting and nothing of the command's had come; and never if the command was seen to start
      at or before the moment at which the exchange was due.  Input is closed at most once, and last. */
  lemma PasswordSafety(turns: seq<Turn>, begin: seq<byte>, log: seq<Piece>, k: nat)
    requires Exchanged(turns, begin, k, log)
    ensures AtMostOnce(log, PasswordBytes) && AtMostOnce(log, ChannelEof)
    ensures PasswordBytes in log ==>
      && log[0] == PasswordBytes && PromptWaits(After(turns, k))
      && forall j: nat | j <= k :: !HasSlice(After(turns, j), begin)
    ensures ChannelEof in log ==> log[|log| - 1] == ChannelEof
    ensures (exists j: nat | j <= k :: HasSlice(After(turns, j), begin)) ==> PasswordBytes !in log
  {
    hide PromptWaits, Gathered, HasSlice, After;
    forall j: nat | j <= k ensures HasSlice(After(turns, j), begin) ==> HasSlice(After(turns, k), begin) {
      StaysGathered(turns, j, k, begin);
    }
  }

  /** A finished line that mentions a password is not a prompt. */
  lemma FinishedLineIsNoPrompt(out: seq<byte>)
    requires Decode(out) != "" && Decode(out)[|Decode(out)| - 1] in {'\n', '\r'}
    ensures !PromptWaits(out)
  {
    var text := Decode(out);
    assert Lower(text[TailStart(text, |text|)..]) == "";
  }
}
