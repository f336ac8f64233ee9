/** The two redactors behind the streamed output of a command. */
module StreamWriter {
  import opened Utf8
  import opened KnownSecrets
  import opened Capture
  import opened Streaming

  class Writer {
    const secrets: Secrets
    const out: Redactor
    const err: Redactor

    /** What has been written to each side. */
    var stdout: string
    var stderr: string

    ghost var pushed: seq<Chunk>

    /** One side: its redactor and its text are those of the bytes pushed to it so far. */
    ghost predicate Follows(redactor: Redactor, text: string, stream: Stream)
      reads this, redactor
    {
      && redactor.Valid() && redactor.setup == Setup(secrets, stream == Stderr)
      && redactor.State() == AfterPush(redactor.setup, START, BytesOf(pushed, stream))
      && text == PushText(redactor.setup, START, BytesOf(pushed, stream))
    }

    ghost predicate Valid()
      reads this, out, err
    {
      out != err && Follows(out, stdout, Stdout) && Follows(err, stderr, Stderr)
    }

    constructor (secrets: Secrets)
      ensures Valid() && fresh(out) && fresh(err) && this.secrets == secrets && pushed == []
    {
      this.secrets := secrets;
      var o := new Redactor(secrets, false);
      var e := new Redactor(secrets, true);
      out, err := o, e;
      stdout, stderr, pushed := "", "", [];
      new;
      hide AfterPush, PushText;
      NothingPushed(out.setup);
      NothingPushed(err.setup);
      NoBytes();
    }

    method Push(stream: Stream, bytes: seq<byte>)
      requires Valid()
      modifies this, out, err
      ensures Valid() && pushed == old(pushed) + [Chunk(stream, bytes)]
    {
      hide AfterPush, PushText, BytesOf;
      PushTwice(if stream == Stdout then out.setup else err.setup, START, BytesOf(pushed, stream), bytes);
      BytesOfMore(pushed, Chunk(stream, bytes));
      match stream {
        case Stdout =>
          var text := out.Push(bytes);
          stdout := stdout + text;
        case Stderr =>
          var text := err.Push(bytes);
          stderr := stderr + text;
      }
      pushed := pushed + [Chunk(stream, bytes)];
    }

    method Finish(failed: bool)
      requires Valid()
      modifies this, out, err
      ensures stdout == StreamedText(Setup(secrets, false), [BytesOf(old(pushed), Stdout)], failed)
      ensures stderr == StreamedText(Setup(secrets, true), [BytesOf(old(pushed), Stderr)], failed)
    {
      hide AfterPush, PushText, FinishText, BytesOf;
      OnePush(out.setup, BytesOf(pushed, Stdout));
      OnePush(err.setup, BytesOf(pushed, Stderr));
      var last := out.Finish(failed);
      stdout := stdout + last;
      last := err.Finish(failed);
      stderr := stderr + last;
    }
  }

  lemma NoBytes()
    ensures forall s: Stream :: BytesOf([], s) == []
  {
  }

  lemma OnePush(setup: Setup, bytes: seq<byte>)
    ensures AfterPushes(setup, START, [bytes]) == AfterPush(setup, START, bytes)
    ensures PushedText(setup, START, [bytes]) == PushText(setup, START, bytes)
  {
    PushesJoined(setup, START, [bytes]);
    hide AfterPush, PushText;
    assert Flatten([bytes]) == bytes + Flatten([]) == bytes;
  }

  /** Any interleaving of chunks on the two streams: each side is the redaction of all that came on its
      stream, whenever the secrets make streaming agree with redaction of the whole text on that side. */
  method StreamAll(secrets: Secrets, chunks: seq<Chunk>, failed: bool) returns (stdout: string, stderr: string)
    ensures stdout == StreamedText(Setup(secrets, false), [BytesOf(chunks, Stdout)], failed)
    ensures stderr == StreamedText(Setup(secrets, true), [BytesOf(chunks, Stderr)], failed)
    ensures Agreeable(Setup(secrets, false), failed) ==>
      stdout == WholeText(Setup(secrets, false), Decode(BytesOf(chunks, Stdout)), failed)
    ensures Agreeable(Setup(secrets, true), failed) ==>
      stderr == WholeText(Setup(secrets, true), Decode(BytesOf(chunks, Stderr)), failed)
  {
    hide *;
    var writer := new Writer(secrets);
    for i := 0 to |chunks|
      invariant writer.Valid() && writer.pushed == chunks[..i] && writer.secrets == secrets
      invariant fresh(writer) && fresh(writer.out) && fresh(writer.err)
    {
      writer.Push(chunks[i].stream, chunks[i].bytes);
    }
    assert chunks[..|chunks|] == chunks;
    writer.Finish(failed);
    stdout, stderr := writer.stdout, writer.stderr;
    if Agreeable(Setup(secrets, false), failed) {
      StreamAgrees(Setup(secrets, false), BytesOf(chunks, Stdout), failed);
    }
    if Agreeable(Setup(secrets, true), failed) {
      StreamAgrees(Setup(secrets, true), BytesOf(chunks, Stderr), failed);
    }
  }
}
