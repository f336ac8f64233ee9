/** Masking of secrets whose values are known, on top of pattern redaction. */
module KnownSecrets {
  import opened Wrappers
  import opened Text
  import opened Redaction
  import Utf8

  type Secrets = seq<Option<string>>

  function ByteLength(s: string): nat { |Utf8.Encode(s)| }

  /** Longer secrets go first; ties are broken by content. */
  predicate GoesBefore(a: string, b: string) {
    ByteLength(a) > ByteLength(b) || (ByteLength(a) == ByteLength(b) && LexLess(a, b))
  }

  function Insert(known: seq<Needle>, secret: Needle): seq<Needle> {
    if known == [] then [secret]
    else if secret == known[0] then known
    else if GoesBefore(secret, known[0]) then [secret] + known
    else [known[0]] + Insert(known[1..], secret)
  }

  /** The non-empty secrets, each once, in the order in which they are masked. */
  function InOrder(secrets: Secrets): seq<Needle> {
    if secrets == [] then []
    else match secrets[0]
      case Some(secret) => if secret == "" then InOrder(secrets[1..]) else Insert(InOrder(secrets[1..]), secret)
      case None => InOrder(secrets[1..])
  }

  function MaskAll(text: string, known: seq<Needle>): string
    decreases known
  {
    if known == [] then text else MaskAll(ReplaceAll(text, known[0], REDACTED), known[1..])
  }

  function RedactKnown(input: string, secrets: Secrets): string {
    MaskAll(RedactSecrets(input), InOrder(secrets))
  }

  method RedactWithKnownSecrets(input: string, secrets: Secrets) returns (redacted: string)
    ensures redacted == RedactKnown(input, secrets)
  {
    hide RedactSecrets;
    redacted := RedactSecrets(input);
    var known := InOrder(secrets);
    for i := 0 to |known|
      invariant MaskAll(redacted, known[i..]) == RedactKnown(input, secrets)
    {
      assert known[i..][1..] == known[i + 1..];
      redacted := ReplaceAll(redacted, known[i], REDACTED);
    }
  }

  // ---------- Text cut off at an unknown place ----------

  function TrimReplacement(s: string): (r: string)
    ensures r <= s
  {
    if s != "" && s[|s| - 1] == Utf8.REPLACEMENT then TrimReplacement(s[..|s| - 1]) else s
  }

  /** The last `n` characters are a proper prefix of some secret. */
  predicate EndsInCut(text: string, secrets: Secrets, n: nat) {
    exists i | 0 <= i < |secrets| ::
      secrets[i].Some? && 0 < n < |secrets[i].value| && EndsWith(text, secrets[i].value[..n])
  }

  /** The length of the longest such prefix of at most `n` characters. */
  function LongestCut(text: string, secrets: Secrets, n: nat): (r: nat)
    ensures r <= n
    ensures r > 0 ==> EndsInCut(text, secrets, r) && r <= |text|
    ensures forall m: nat | r < m <= n :: !EndsInCut(text, secrets, m)
  {
    if n == 0 || EndsInCut(text, secrets, n) then n else LongestCut(text, secrets, n - 1)
  }

  function MaskCut(redacted: string, secrets: Secrets): string {
    var complete := TrimReplacement(redacted);
    var cut := LongestCut(complete, secrets, |complete|);
    if cut > 0 then redacted[..|complete| - cut] + REDACTED else redacted
  }

  function RedactPartial(text: string, secrets: Secrets): string {
    MaskCut(RedactKnown(text, secrets), secrets)
  }

  lemma {:induction false} TrimsReplacement(s: string, tail: string)
    requires s != "" && s[|s| - 1] != Utf8.REPLACEMENT
    requires forall i | 0 <= i < |tail| :: tail[i] == Utf8.REPLACEMENT
    ensures TrimReplacement(s + tail) == s
  {
    if tail == "" {
      assert s + tail == s;
    } else {
      TrimsReplacement(s, tail[..|tail| - 1]);
      assert (s + tail)[..|s + tail| - 1] == s + tail[..|tail| - 1];
    }
  }

  /** A secret that was cut off, even amid a character: nothing of its beginning is left. */
  lemma CutSecretIsMasked(text: string, part: string, tail: string, secrets: Secrets, i: nat) returns (kept: string)
    requires i < |secrets| && secrets[i].Some? && part <= secrets[i].value && 0 < |part| < |secrets[i].value|
    requires part[|part| - 1] != Utf8.REPLACEMENT && forall i | 0 <= i < |tail| :: tail[i] == Utf8.REPLACEMENT
    ensures kept <= text && MaskCut(text + part + tail, secrets) == kept + REDACTED
  {
    var complete := text + part;
    TrimsReplacement(complete, tail);
    assert complete[|complete| - |part|..] == part == secrets[i].value[..|part|];
    assert EndsInCut(complete, secrets, |part|);
    hide EndsInCut, TrimReplacement, REDACTED;
    var cut := LongestCut(complete, secrets, |complete|);
    kept := text[..|complete| - cut];
    assert (complete + tail)[..|complete| - cut] == kept;
  }

  /** Text that does not end like a secret that was cut off is left alone. */
  lemma NoCutIsKept(text: string, secrets: Secrets)
    requires forall n: nat :: !EndsInCut(TrimReplacement(text), secrets, n)
    ensures MaskCut(text, secrets) == text
  {
  }

  // ---------- The masking order ----------

  ghost predicate Ordered(known: seq<Needle>) {
    forall i, j | 0 <= i < j < |known| :: GoesBefore(known[i], known[j])
  }

  lemma {:induction false} InsertOrdered(known: seq<Needle>, secret: Needle)
    requires Ordered(known)
    ensures Ordered(Insert(known, secret))
    ensures forall s :: s in Insert(known, secret) <==> s in known || s == secret
  {
    if known != [] {
      var head, rest := known[0], known[1..];
      LexTotal(secret, head);
      if secret == head {
      } else if GoesBefore(secret, head) {
        forall j | 0 <= j < |known| ensures GoesBefore(secret, known[j]) {
          if j > 0 && LexLess(secret, head) && LexLess(head, known[j]) { LexTransitive(secret, head, known[j]); }
        }
      } else {
        InsertOrdered(rest, secret);
        var more := Insert(rest, secret);
        assert forall j | 0 <= j < |more| :: more[j] in more;
      }
    }
  }

  /** Every non-empty secret is masked, once, and never before a longer one. */
  lemma {:induction false} OrderedSecrets(secrets: Secrets)
    ensures Ordered(InOrder(secrets))
    ensures forall s: Needle :: s in InOrder(secrets) <==> Some(s) in secrets
  {
    if secrets != [] {
      OrderedSecrets(secrets[1..]);
      assert secrets == [secrets[0]] + secrets[1..];
      if secrets[0].Some? && secrets[0].value != "" {
        InsertOrdered(InOrder(secrets[1..]), secrets[0].value);
      }
    }
  }

  // ---------- Masking line by line ----------

  predicate FeedFreeAll(known: seq<Needle>) {
    forall i | 0 <= i < |known| :: '\n' !in known[i]
  }

  lemma {:induction false} MaskAllSplits(a: string, b: string, known: seq<Needle>)
    requires FeedFreeAll(known) && Closed(a)
    ensures MaskAll(a + b, known) == MaskAll(a, known) + MaskAll(b, known)
    ensures Closed(MaskAll(a, known))
    decreases known
  {
    if known != [] {
      ReplaceSplits(a, b, known[0], REDACTED);
      ReplaceKeepsClosed(a, known[0], REDACTED);
      MaskAllSplits(ReplaceAll(a, known[0], REDACTED), ReplaceAll(b, known[0], REDACTED), known[1..]);
    }
  }

  lemma {:induction false} MaskAllIdle(text: string, known: seq<Needle>)
    requires forall i | 0 <= i < |known| :: !Contains(text, known[i])
    ensures MaskAll(text, known) == text
  {
    if known != [] {
      ReplaceNone(text, known[0], REDACTED);
      MaskAllIdle(text, known[1..]);
    }
  }

  /** Masking never goes unnoticed: it leaves the text alone or puts a mask in it. */
  lemma {:induction false} MaskAllMarks(text: string, known: seq<Needle>)
    requires '<' in text || exists i | 0 <= i < |known| :: Contains(text, known[i])
    ensures '<' in MaskAll(text, known)
    decreases known
  {
    if known != [] {
      if '<' in text || Contains(text, known[0]) {
        ReplaceMarks(text, known[0]);
      } else {
        ReplaceNone(text, known[0], REDACTED);
        assert exists i | 0 <= i < |known[1..]| :: Contains(text, known[1..][i]) by {
          var i :| 0 <= i < |known| && Contains(text, known[i]);
          assert known[1..][i - 1] == known[i];
        }
      }
      MaskAllMarks(ReplaceAll(text, known[0], REDACTED), known[1..]);
    }
  }

  lemma {:induction false} ReplaceMarks(text: string, secret: Needle)
    requires '<' in text || Contains(text, secret)
    ensures '<' in ReplaceAll(text, secret, REDACTED)
  {
    if text != "" {
      if secret <= text {
        assert REDACTED[0] == '<';
        assert '<' in REDACTED + ReplaceAll(text[|secret|..], secret, REDACTED);
      } else if text[0] != '<' {
        if Contains(text, secret) {
          var i: nat :| i <= |text| && OccursAt(text, secret, i);
          assert i > 0 && OccursAt(text[1..], secret, i - 1);
        }
        ReplaceMarks(text[1..], secret);
      }
    }
  }
}
