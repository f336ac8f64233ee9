/** Known secrets and the mask that is put in their place: when masking brings a secret back. */
module Overlap {
  import opened Wrappers
  import opened Text
  import opened Redaction
  import opened KnownSecrets
  import opened Removal

  // ---------- Overlap with the mask ----------

  /** Laid `d` characters behind the start of the mask, the secret agrees with it wherever they overlap. */
  predicate AgreesAt(secret: string, d: int) {
    forall i | 0 <= i < |secret| && 0 <= d + i < |REDACTED| :: secret[i] == REDACTED[d + i]
  }

  /** The secret and the mask can overlap. */
  predicate Touches(secret: string) {
    exists d | -|secret| < d < |REDACTED| :: AgreesAt(secret, d)
  }

  lemma MaskEnds()
    ensures |REDACTED| == 10 && REDACTED[0] == '<' && REDACTED[9] == '>'
  {
  }

  // ---------- Secrets that cannot overlap it ----------

  /** What is found of such a secret at the start of replaced text was at the start before. */
  lemma {:induction false} PrefixOrigin(text: string, pattern: Needle, secret: string, n: nat)
    requires !Touches(secret) && n <= |secret| && secret[n..] <= ReplaceAll(text, pattern, REDACTED)
    ensures secret[n..] <= text
    decreases |text|
  {
    hide REDACTED;
    if n < |secret| && text != "" {
      var all := ReplaceAll(text, pattern, REDACTED);
      MaskEnds();
      assert secret[n] == secret[n..][0] == all[0];
      if pattern <= text {
        var rest := ReplaceAll(text[|pattern|..], pattern, REDACTED);
        HeadAgrees(secret, n, rest);
      } else {
        assert all[1..] == ReplaceAll(text[1..], pattern, REDACTED);
        assert secret[n + 1..] == secret[n..][1..];
        PrefixOrigin(text[1..], pattern, secret, n + 1);
        assert secret[n..] == [secret[n]] + secret[n + 1..] && text == [text[0]] + text[1..];
      }
    }
  }

  lemma HeadAgrees(secret: string, n: nat, rest: string)
    requires n <= |secret| && secret[n..] <= REDACTED + rest
    ensures AgreesAt(secret, 0 - n as int)
  {
    var all := REDACTED + rest;
    forall i | 0 <= i < |secret| && 0 <= i - n < |REDACTED| ensures secret[i] == REDACTED[i - n] {
      assert secret[n..][i - n] == all[i - n];
    }
  }

  /** Masking makes no new occurrence of a secret that the mask cannot touch, and leaves none of the one
      that is masked. */
  lemma {:induction false} OccurrenceOrigin(text: string, pattern: Needle, secret: Needle, j: nat) returns (i: nat)
    requires !Touches(secret) && OccursAt(ReplaceAll(text, pattern, REDACTED), secret, j)
    ensures OccursAt(text, secret, i) && !(pattern <= text[i..])
    decreases |text|
  {
    var all := ReplaceAll(text, pattern, REDACTED);
    NotInMask(all, secret, j);
    hide OccursAt, REDACTED, Touches;
    var head := if pattern <= text then REDACTED else [text[0]];
    var skip := if pattern <= text then |pattern| else 1;
    assert all == head + ReplaceAll(text[skip..], pattern, REDACTED);
    if j == 0 && !(pattern <= text) {
      i := 0;
      AtStart(all, secret);
      assert secret[0..] == secret;
      PrefixOrigin(text, pattern, secret, 0);
      AtStart(text, secret);
      assert text[0..] == text;
    } else {
      OccursAfter(head, ReplaceAll(text[skip..], pattern, REDACTED), secret, j);
      i := OccurrenceOrigin(text[skip..], pattern, secret, j - |head|);
      assert text[skip..][i..] == text[skip + i..] && text == text[..skip] + text[skip..];
      OccursAfter(text[..skip], text[skip..], secret, skip + i);
      i := skip + i;
    }
  }

  lemma AtStart(text: string, part: string)
    ensures OccursAt(text, part, 0) <==> part <= text
  {
  }

  /** Such a secret does not start within a mask. */
  lemma NotInMask(all: string, secret: Needle, j: nat)
    requires !Touches(secret) && OccursAt(all, secret, j)
    ensures j < |all| && (REDACTED <= all ==> |REDACTED| <= j)
  {
    OccursPointwise(all, secret, j);
    if REDACTED <= all && j < |REDACTED| { assert AgreesAt(secret, j); }
  }

  lemma {:induction false} MaskedSecretsAreGone(text: string, known: seq<Needle>, secret: Needle)
    requires !Touches(secret) && (secret in known || !Contains(text, secret))
    ensures !Contains(MaskAll(text, known), secret)
    decreases known
  {
    hide Touches;
    if known != [] {
      var next := ReplaceAll(text, known[0], REDACTED);
      if j: nat :| j <= |next| && OccursAt(next, secret, j) {
        var i := OccurrenceOrigin(text, known[0], secret, j);
        assert Contains(text, secret);
        assert secret != known[0];
      }
      assert known == [known[0]] + known[1..];
      MaskedSecretsAreGone(next, known[1..], secret);
    }
  }

  /** Every known secret that cannot overlap the mask is nowhere in redacted text, whatever the text and
      whatever else is known. */
  lemma KnownSecretIsGone(input: string, secrets: Secrets, secret: Needle)
    requires Some(secret) in secrets && !Touches(secret)
    ensures !Contains(RedactKnown(input, secrets), secret)
  {
    hide RedactSecrets, Contains, InOrder, Touches;
    OrderedSecrets(secrets);
    MaskedSecretsAreGone(RedactSecrets(input), InOrder(secrets), secret);
  }

  // ---------- Secrets that the mask can overlap ----------

  /** Masking of known secrets alone: one of them is nowhere in its result, whatever the text and whatever
      else is known, exactly when it cannot overlap the mask. */
  lemma MaskingRemovesExactlyWhen(secret: Needle)
    ensures (forall text, secrets: Secrets | Some(secret) in secrets ::
               !Contains(MaskAll(text, InOrder(secrets)), secret))
       <==> !Touches(secret)
  {
    hide Contains, InOrder, Touches;
    if Touches(secret) {
      var text, secrets := OverlapStays(secret);
    } else {
      forall text, secrets: Secrets | Some(secret) in secrets
        ensures !Contains(MaskAll(text, InOrder(secrets)), secret)
      {
        OrderedSecrets(secrets);
        MaskedSecretsAreGone(text, InOrder(secrets), secret);
      }
    }
  }

  /** A second secret whose mask completes the first one again. */
  lemma OverlapStays(secret: Needle) returns (text: string, secrets: Secrets)
    requires Touches(secret)
    ensures Some(secret) in secrets && Contains(MaskAll(text, InOrder(secrets)), secret)
  {
    MaskEnds();
    hide REDACTED, Contains, InOrder;
    var d :| -|secret| < d < |REDACTED| && AgreesAt(secret, d);
    if 0 <= d && d + |secret| <= |REDACTED| {
      text, secrets := secret, [Some(secret)];
      AgreesWithin(secret, d);
      OnlySecret(secret);
    } else {
      text, secrets := OverhangStays(secret, d);
    }
  }

  lemma OverhangStays(secret: Needle, d: int) returns (text: string, secrets: Secrets)
    requires -|secret| < d < |REDACTED| && AgreesAt(secret, d) && (d < 0 || d + |secret| > |REDACTED|)
    ensures Some(secret) in secrets && Contains(MaskAll(text, InOrder(secrets)), secret)
  {
    hide REDACTED, Contains, InOrder, Run, MaskAll, ReplaceAll, AgreesAt;
    var left := if d < 0 then secret[..-d] else "";
    var right := if d + |secret| > |REDACTED| then secret[|REDACTED| - d..] else "";
    OverlapOccurs(secret, d, left, right);
    assert right != "" ==> right[|right| - 1] == secret[|secret| - 1];
    var c := NewChar(secret[0], secret[|secret| - 1], if left == "" then 'a' else left[|left| - 1]);
    RunReplaced(left, c, |secret| - 1, right);
    RunChars(c, |secret| - 1);
    var run := Run(c, |secret| - 1);
    text, secrets := left + run + right, [Some(secret), Some(run)];
    RunBetween(secret, left, c, right);
    ShorterIsSecond(secret, run);
    MaskTwo(text, secret, run);
  }

  lemma RunChars(c: char, n: nat)
    ensures |Run(c, n)| == n && forall i | 0 <= i < n :: Run(c, n)[i] == c
  {
  }

  lemma AgreesWithin(secret: Needle, d: nat)
    requires d + |secret| <= |REDACTED| && AgreesAt(secret, d)
    ensures Contains(REDACTED, secret)
  {
    assert REDACTED[d..d + |secret|] == secret;
    assert OccursAt(REDACTED, secret, d);
  }

  lemma OnlySecret(secret: Needle)
    ensures MaskAll(secret, InOrder([Some(secret)])) == REDACTED
  {
    hide REDACTED;
    var none: Secrets := [];
    assert [Some(secret)][1..] == none && InOrder(none) == [];
    assert InOrder([Some(secret)]) == [secret];
    assert secret[|secret|..] == "" && REDACTED + "" == REDACTED;
    assert ReplaceAll(secret, secret, REDACTED) == REDACTED;
    var rest: seq<Needle> := [];
    assert [secret][1..] == rest && MaskAll(REDACTED, rest) == REDACTED;
  }

  lemma OverlapOccurs(secret: Needle, d: int, left: string, right: string)
    requires -|secret| < d < |REDACTED| && AgreesAt(secret, d)
    requires left == if d < 0 then secret[..-d] else ""
    requires right == if d + |secret| > |REDACTED| then secret[|REDACTED| - d..] else ""
    ensures Contains(left + REDACTED + right, secret)
  {
    hide REDACTED;
    var text, at := left + REDACTED + right, if d < 0 then 0 else d;
    assert text[at..at + |secret|] == secret;
    assert OccursAt(text, secret, at);
  }

  function Run(c: char, n: nat): string { seq(n, _ => c) }

  lemma NewChar(x: char, y: char, z: char) returns (c: char)
    ensures c != x && c != y && c != z && 'a' <= c <= 'd'
  {
    c := if 'a' !in {x, y, z} then 'a' else if 'b' !in {x, y, z} then 'b' else if 'c' !in {x, y, z} then 'c' else 'd';
  }

  /** The text around the run does not hold the secret. */
  lemma RunBetween(secret: Needle, left: string, c: char, right: string)
    requires |left| < |secret| && |right| < |secret| && c != secret[0] && c != secret[|secret| - 1]
    ensures !Contains(left + Run(c, |secret| - 1) + right, secret)
  {
    var text := left + Run(c, |secret| - 1) + right;
    forall i: nat ensures !OccursAt(text, secret, i) {
      OccurrenceAt(text, secret, i, 0);
      OccurrenceAt(text, secret, i, |secret| - 1);
    }
  }

  lemma RunReplaced(left: string, c: char, n: nat, right: string)
    requires 0 < n && |left| <= n && |right| <= n
    requires (left != "" ==> c != left[|left| - 1]) && (right != "" ==> c != right[|right| - 1])
    ensures |Run(c, n)| == n
    ensures ReplaceAll(left + Run(c, n) + right, Run(c, n), REDACTED) == left + REDACTED + right
  {
    hide *;
    RunAtEnd(c, n, right);
    RunNotYet(left, c, n, right);
    FirstReplaced(left, Run(c, n), right, REDACTED);
  }

  /** Only the occurrence between two texts is replaced if none begins before it and none is behind it. */
  lemma FirstReplaced(left: string, pattern: Needle, right: string, mask: string)
    requires forall i: nat | i < |left| :: !OccursAt(left + (pattern + right), pattern, i)
    requires !Contains(right, pattern)
    ensures ReplaceAll(left + pattern + right, pattern, mask) == left + mask + right
  {
    hide *;
    Reassociated(left, pattern, right);
    Reassociated(left, mask, right);
    ReplaceLater(left, pattern + right, pattern, mask);
    ReplaceAtStart(pattern, right, mask);
  }

  lemma Reassociated(a: string, b: string, c: string)
    ensures a + b + c == a + (b + c)
  {
  }

  lemma RunAtEnd(c: char, n: nat, right: string)
    requires 0 < n && |right| <= n && (right != "" ==> c != right[|right| - 1])
    ensures |Run(c, n)| == n && !Contains(right, Run(c, n))
  {
    forall i: nat ensures !OccursAt(right, Run(c, n), i) { OccurrenceAt(right, Run(c, n), i, n - 1); }
  }

  lemma RunNotYet(left: string, c: char, n: nat, right: string)
    requires |left| <= n && (left != "" ==> c != left[|left| - 1])
    ensures forall i: nat | i < |left| :: !OccursAt(left + (Run(c, n) + right), Run(c, n), i)
  {
    var text := left + (Run(c, n) + right);
    forall i: nat | i < |left| ensures !OccursAt(text, Run(c, n), i) {
      OccurrenceAt(text, Run(c, n), i, |left| - 1 - i);
    }
  }

  lemma ReplaceAtStart(pattern: Needle, rest: string, mask: string)
    requires !Contains(rest, pattern)
    ensures ReplaceAll(pattern + rest, pattern, mask) == mask + rest
  {
    ReplaceNone(rest, pattern, mask);
    assert (pattern + rest)[|pattern|..] == rest;
  }

  /** Nothing happens before the first occurrence. */
  lemma {:induction false} ReplaceLater(left: string, rest: string, pattern: Needle, mask: string)
    requires forall i: nat | i < |left| :: !OccursAt(left + rest, pattern, i)
    ensures ReplaceAll(left + rest, pattern, mask) == left + ReplaceAll(rest, pattern, mask)
    decreases left
  {
    var text := left + rest;
    if left == "" {
      assert text == rest;
    } else {
      AtStart(text, pattern);
      var first, later := [text[0]], left[1..] + rest;
      assert text == first + later && text[1..] == later;
      forall i: nat | i < |left| - 1 ensures !OccursAt(later, pattern, i) {
        OccursAfter(first, later, pattern, i + 1);
      }
      ReplaceLater(left[1..], rest, pattern, mask);
      assert left == first + left[1..];
    }
  }

  lemma {:induction false} AsciiLength(s: string)
    requires forall i | 0 <= i < |s| :: 'a' <= s[i] <= 'd'
    ensures ByteLength(s) == |s|
  {
    if s != "" { AsciiLength(s[1..]); }
  }

  lemma {:induction false} AtLeastAsLong(s: string)
    ensures |s| <= ByteLength(s)
  {
    if s != "" { AtLeastAsLong(s[1..]); }
  }

  lemma ShorterIsSecond(secret: Needle, run: Needle)
    requires |run| < |secret| && forall i | 0 <= i < |run| :: 'a' <= run[i] <= 'd'
    ensures InOrder([Some(secret), Some(run)]) == [secret, run]
  {
    AsciiLength(run);
    AtLeastAsLong(secret);
    hide ByteLength;
    var none: Secrets := [];
    assert [Some(secret), Some(run)][1..] == [Some(run)] && [Some(run)][1..] == none && InOrder(none) == [];
    assert InOrder([Some(run)]) == [run];
  }

  lemma MaskTwo(text: string, secret: Needle, run: Needle)
    requires !Contains(text, secret)
    ensures MaskAll(text, [secret, run]) == ReplaceAll(text, run, REDACTED)
  {
    hide Contains, REDACTED;
    ReplaceNone(text, secret, REDACTED);
    var none: seq<Needle> := [];
    var masked := ReplaceAll(text, run, REDACTED);
    assert [secret, run][1..] == [run] && [run][1..] == none;
    assert MaskAll(text, [run]) == MaskAll(masked, none) == masked;
  }

  // ---------- Secrets without angle brackets ----------

  predicate Bracketless(secret: string) { '<' !in secret && '>' !in secret }

  /** A secret that stands out of the mask agrees with one of its ends. */
  lemma OverlapsBracket(secret: Needle, d: int)
    requires -|secret| < d < |REDACTED| && AgreesAt(secret, d)
    ensures (0 <= d && d + |secret| <= |REDACTED|) || !Bracketless(secret)
  {
    MaskEnds();
    hide REDACTED, Bracketless;
    if d < 0 {
      HasBracket(secret, -d);
    } else if d + |secret| > |REDACTED| {
      HasBracket(secret, 9 - d);
    }
  }

  lemma HasBracket(secret: string, i: nat)
    requires i < |secret| && secret[i] in {'<', '>'}
    ensures !Bracketless(secret)
  {
  }

  lemma BracketlessTouches(secret: Needle)
    requires Bracketless(secret)
    ensures Touches(secret) <==> Contains(REDACTED, secret)
  {
    hide REDACTED;
    if j: nat :| j <= |REDACTED| && OccursAt(REDACTED, secret, j) {
      OccursPointwise(REDACTED, secret, j);
      assert AgreesAt(secret, j);
    }
    if d :| -|secret| < d < |REDACTED| && AgreesAt(secret, d) {
      OverlapsBracket(secret, d);
      AgreesWithin(secret, d);
    }
  }

  /** A known secret without angle brackets is nowhere in redacted text, whatever the text and whatever else
      is known, exactly when it is not a part of the mask. */
  lemma KnownSecretIsGoneExactlyWhen(secret: Needle)
    requires Bracketless(secret)
    ensures (forall input, secrets: Secrets | Some(secret) in secrets :: !Contains(RedactKnown(input, secrets), secret))
       <==> !Contains(REDACTED, secret)
  {
    hide Contains, RedactKnown, Touches;
    BracketlessTouches(secret);
    if Contains(REDACTED, secret) {
      PartOfMaskStays(secret);
      assert Some(secret) in [Some(secret)];
    } else {
      forall input, secrets: Secrets | Some(secret) in secrets ensures !Contains(RedactKnown(input, secrets), secret) {
        KnownSecretIsGone(input, secrets, secret);
      }
    }
  }

  // ---------- A secret that the mask can overlap and that is gone all the same ----------

  const TOKEN := "bearer x"
  const TOKEN_AND_MARK := "bearer x<"

  lemma TokenChars()
    ensures |TOKEN| == 8 && BEARER == TOKEN[..7] && Lower(TOKEN) == TOKEN && TOKEN[7] == 'x' && !IsWhitespace('x')
    ensures forall c | c in TOKEN :: c !in {'<', '>', '\r', '\n'}
    ensures 'x' !in REDACTED && TOKEN_AND_MARK == TOKEN + "<"
  {
  }

  lemma TokenIsBearer(content: string, j: nat)
    requires OccursAt(content, TOKEN, j)
    ensures BearerAt(content, j + 7)
  {
    TokenChars();
    hide TOKEN, BEARER, IsWhitespace;
    OccursPointwise(content, TOKEN, j);
    assert Lower(content)[j..j + 7] == BEARER;
    assert content[j + 7..][0] == 'x';
  }

  /** No line keeps a token that starts like this one. */
  lemma TokenLeavesLine(line: string)
    requires IsLine(line)
    ensures !Contains(RedactLine(line), TOKEN)
  {
    hide IsLine, SecretStart, SplitEnding, TOKEN, REDACTED, Contains, BearerAt, IsWhitespace;
    EndingShape(line);
    var (content, ending) := SplitEnding(line);
    var found := SecretStart(content);
    TokenChars();
    forall v: nat | BearerAt(content, v) ensures found.Some? && found.value <= v { BearerIsPicked(content, v); }
    if found.Some? {
      TokenIsCut(content, found.value, REDACTED + ending);
      assert content[..found.value] + REDACTED + ending == content[..found.value] + (REDACTED + ending);
    } else {
      TokenIsCut(content, |content|, ending);
      assert content[..|content|] + ending == line;
    }
  }

  lemma TokenIsCut(content: string, end: nat, rest: string)
    requires end <= |content| && 'x' !in rest
    requires forall v: nat | BearerAt(content, v) :: end <= v
    ensures !Contains(content[..end] + rest, TOKEN)
  {
    TokenChars();
    hide TOKEN, REDACTED, BearerAt, IsWhitespace;
    var text := content[..end] + rest;
    assert forall x | end <= x < |text| :: text[x] == rest[x - end] && text[x] in rest;
    forall j: nat ensures !OccursAt(text, TOKEN, j) {
      OccurrenceAt(text, TOKEN, j, 7);
      if OccursAt(text, TOKEN, j) {
        assert j + 8 <= end;
        assert content[j..j + 8] == text[j..j + 8];
        TokenIsBearer(content, j);
      }
    }
  }

  lemma BearerIsPicked(content: string, v: nat)
    requires BearerAt(content, v)
    ensures SecretStart(content).Some? && SecretStart(content).value <= v
  {
    hide BearerAt, Lower, BearerValueStart;
    BearerIsLeftmost(content, v);
  }

  lemma {:induction false} JoinHoldsNone(lines: seq<string>, k: Needle)
    requires LinesOf(lines) && '\n' !in k && forall l | l in lines :: !Contains(l, k)
    ensures !Contains(Join(lines), k)
  {
    hide IsLine, Contains;
    if lines == [] {
      NoneInEmpty(k);
    } else {
      var line, rest := lines[0], Join(lines[1..]);
      LinesUncons(lines);
      JoinHoldsNone(lines[1..], k);
      assert line in lines;
      assert |lines| == 1 ==> rest == "";
      NoneInJoin(line, rest, k);
    }
  }

  lemma NoneInEmpty(k: Needle)
    ensures !Contains("", k)
  {
  }

  lemma FeedNotWithin(text: string, k: Needle, i: nat, x: nat)
    requires '\n' !in k && i <= x < |text| && x < i + |k| && text[x] == '\n'
    ensures !OccursAt(text, k, i)
  {
    OccurrenceAt(text, k, i, x - i);
  }

  lemma NoneInJoin(line: string, rest: string, k: Needle)
    requires (Closed(line) || rest == "") && '\n' !in k && !Contains(line, k) && !Contains(rest, k)
    ensures !Contains(line + rest, k)
  {
    var text := line + rest;
    forall i: nat ensures !OccursAt(text, k, i) {
      if i >= |line| {
        OccursAfter(line, rest, k, i);
        assert !OccursAt(text, k, i);
      } else if i + |k| <= |line| {
        assert text[i..i + |k|] == line[i..i + |k|];
        assert !OccursAt(line, k, i);
        assert !OccursAt(text, k, i);
      } else if rest == "" {
        assert text == line;
        assert !OccursAt(text, k, i);
      } else {
        FeedNotWithin(text, k, i, |line| - 1);
      }
    }
  }

  lemma TokenIsGone(input: string)
    ensures !Contains(RedactSecrets(input), TOKEN)
  {
    TokenChars();
    hide TOKEN, RedactSecrets, RedactLine, IsLine, Contains;
    var lines := DropKeys(SplitLines(input), false);
    SecretsByLine(input);
    DropKeysKeepsLines(SplitLines(input), false);
    var redacted := MapLines(RedactLine, lines);
    forall i | 0 <= i < |lines|
      ensures IsLine(redacted[i]) && (Closed(redacted[i]) <==> Closed(lines[i])) && !Contains(redacted[i], TOKEN)
    {
      RedactLineKeepsLine(lines[i]);
      TokenLeavesLine(lines[i]);
    }
    JoinHoldsNone(redacted, TOKEN);
  }

  /** Pattern redaction can take away on its own what a mask would have to complete: a secret that the mask can
      overlap and that is in no redacted text. */
  lemma TouchingYetGone(input: string, secrets: Secrets)
    ensures Touches(TOKEN_AND_MARK) && !Contains(RedactKnown(input, secrets), TOKEN_AND_MARK)
  {
    TokenChars();
    MaskEnds();
    assert AgreesAt(TOKEN_AND_MARK, -8);
    hide TOKEN, TOKEN_AND_MARK, REDACTED, RedactSecrets, InOrder;
    TokenIsGone(input);
    NotPartOfMask(TOKEN, 7);
    BracketlessTouches(TOKEN);
    var redacted := RedactKnown(input, secrets);
    MaskedSecretsAreGone(RedactSecrets(input), InOrder(secrets), TOKEN);
    forall i: nat ensures OccursAt(redacted, TOKEN_AND_MARK, i) ==> OccursAt(redacted, TOKEN, i) {
      if OccursAt(redacted, TOKEN_AND_MARK, i) {
        assert redacted[i..i + |TOKEN|] == redacted[i..i + |TOKEN_AND_MARK|][..|TOKEN|];
      }
    }
  }

  lemma NotPartOfMask(k: Needle, n: nat)
    requires n < |k| && k[n] !in REDACTED
    ensures !Contains(REDACTED, k)
  {
    hide REDACTED;
    forall i: nat ensures !OccursAt(REDACTED, k, i) { OccurrenceAt(REDACTED, k, i, n); }
  }

  // ---------- Parts of the mask ----------

  lemma PartOfMaskStays(secret: Needle)
    requires Bracketless(secret) && Contains(REDACTED, secret)
    ensures RedactKnown(secret, [Some(secret)]) == REDACTED
  {
    LettersOfMask(secret);
    hide Contains, REDACTED, RedactSecrets;
    LettersUntouched(secret);
    OnlySecret(secret);
  }

  lemma MaskChars()
    ensures forall x | 0 <= x < |REDACTED| :: REDACTED[x] == '<' || REDACTED[x] == '>' || 'a' <= REDACTED[x] <= 'z'
  {
  }

  lemma LettersOfMask(secret: Needle)
    requires Bracketless(secret) && Contains(REDACTED, secret)
    ensures forall i | 0 <= i < |secret| :: 'a' <= secret[i] <= 'z'
  {
    MaskChars();
    hide REDACTED;
    var j: nat :| j <= |REDACTED| && OccursAt(REDACTED, secret, j);
    forall i | 0 <= i < |secret| ensures 'a' <= secret[i] <= 'z' {
      OccurrenceAt(REDACTED, secret, j, i);
      assert secret[i] in secret;
    }
  }

  lemma LettersUntouched(word: Needle)
    requires forall i | 0 <= i < |word| :: 'a' <= word[i] <= 'z'
    ensures RedactSecrets(word) == word
  {
    assert forall i | 0 <= i < |word| :: !IsWhitespace(word[i]) && !Redaction.IsSeparator(word[i]);
    hide IsWhitespace, Redaction.IsSeparator, RedactSecrets, SENSITIVE_KEYWORDS, FirstKeywordValue, Lower,
      IsLine, SplitEnding, BeginsKey,
      BearerValueStart, BearerAt;
    NoSeparatorNoKeyword(word, SENSITIVE_KEYWORDS);
    if BearerValueStart(Lower(word), word).Some? {
      BearerFound(word, BearerValueStart(Lower(word), word).value);
    }
    forall v: nat ensures !BearerAt(word, v) { NoBlankNoBearer(word, v); }
    WordIsLine(word);
    OneLine(word);
  }
}
