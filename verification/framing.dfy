/** How the output and exit code of a command run through `su` are framed on a terminal and recovered. */
module SuFraming {
  import opened Wrappers
  import opened Text

  function BeginMarker(nonce: string): string { "__SSHW_BEGIN_" + nonce + "__" }

  function EndPrefix(nonce: string): string { "__SSHW_END_" + nonce + "_" }

  predicate IsNonce(nonce: string) {
    nonce != "" && forall i | 0 <= i < |nonce| :: '0' <= nonce[i] <= '9' || 'a' <= nonce[i] <= 'f'
  }

  predicate IsDigit(c: char) { '0' <= c <= '9' }

  // ---------- What the wrapper prints ----------

  function Decimal(n: nat): string {
    (if n < 10 then "" else Decimal(n / 10)) + [('0' as int + n % 10) as char]
  }

  function ImageChar(c: char): string { if c == '\n' then "\r\n" else [c] }

  /** What a terminal makes of line feeds. */
  function TerminalImage(s: string): string {
    if s == "" then "" else ImageChar(s[0]) + TerminalImage(s[1..])
  }

  /** The wrapper's output, up to and including the end of the exit code. */
  function Printed(nonce: string, output: string, code: nat): string {
    BeginMarker(nonce) + "\n" + output + EndPrefix(nonce) + Decimal(code) + "__"
  }

  // ---------- The parser ----------

  datatype FrameError = AuthenticationFailed | NoCompletionMarker | MalformedMarker

  const MAX_CODE: nat := 0x7FFF_FFFF

  function DigitRun(s: string): (n: nat)
    ensures n <= |s| && (forall i | 0 <= i < n :: IsDigit(s[i])) && (n < |s| ==> !IsDigit(s[n]))
  {
    if s != "" && IsDigit(s[0]) then 1 + DigitRun(s[1..]) else 0
  }

  function DigitValue(c: char): nat
    requires IsDigit(c)
  {
    c as int - '0' as int
  }

  function Value(digits: string): nat
    requires forall i | 0 <= i < |digits| :: IsDigit(digits[i])
  {
    if digits == "" then 0
    else Value(digits[..|digits| - 1]) * 10 + DigitValue(digits[|digits| - 1])
  }

  function ParseCode(tail: string): Result<nat, FrameError> {
    var n := DigitRun(tail);
    if n == 0 || !("__" <= tail[n..]) || Value(tail[..n]) > MAX_CODE then Err(MalformedMarker)
    else Ok(Value(tail[..n]))
  }

  function Unterminal(body: string): string { ReplaceAll(ReplaceAll(body, "\r\n", "\n"), "\r", "\n") }

  function BodyStart(raw: string, afterBegin: nat): (r: nat)
    requires afterBegin <= |raw|
    ensures afterBegin <= r <= |raw|
  {
    match FindFrom(raw, "\n", afterBegin)
    case Some(feed) => feed + 1
    case None => afterBegin
  }

  /** The rest of the parse, once it is known where the output starts. */
  function ParseBody(raw: string, nonce: string, start: nat): Result<(string, nat), FrameError>
    requires start <= |raw|
  {
    match FindFrom(raw, EndPrefix(nonce), start)
    case None => Err(NoCompletionMarker)
    case Some(end) =>
      match ParseCode(raw[end + |EndPrefix(nonce)|..])
      case Err(e) => Err(e)
      case Ok(code) => Ok((Unterminal(raw[start..end]), code))
  }

  function ExtractSuOutput(raw: string, nonce: string): Result<(string, nat), FrameError> {
    match FindFrom(raw, BeginMarker(nonce), 0)
    case None => Err(AuthenticationFailed)
    case Some(begin) => ParseBody(raw, nonce, BodyStart(raw, begin + |BeginMarker(nonce)|))
  }

  // ---------- Markers do not overlap themselves ----------

  /** A marker around a nonce. */
  predicate IsMarker(marker: string, word: string, nonce: string, tail: string) {
    marker == "__SSHW_" + word + nonce + tail && word in {"BEGIN_", "END_"} && tail in {"__", "_"} && IsNonce(nonce)
  }

  lemma FrontShape(word: string)
    requires word in {"BEGIN_", "END_"}
    ensures var front := "__SSHW_" + word;
      && |front| == 7 + |word| && |word| >= 4
      && front[0] == front[1] == '_' && front[2] == front[3] == 'S' && front[4] == 'H'
      && forall i | 0 <= i < |front| :: front[i] == 'S' ==> i in {2, 3}
  {
    assert forall i | 0 <= i < |word| :: ("__SSHW_" + word)[7 + i] == word[i] != 'S';
  }

  /** The letter S stands only at indices 2 and 3 of a marker. */
  lemma MarkerShape(marker: string, word: string, nonce: string, tail: string)
    requires IsMarker(marker, word, nonce, tail)
    ensures |marker| == 7 + |word| + |nonce| + |tail| && |word| >= 4
    ensures marker[0] == marker[1] == '_' && marker[2] == marker[3] == 'S' && marker[4] == 'H'
    ensures forall i | 0 <= i < |marker| && marker[i] == 'S' :: i in {2, 3}
    ensures marker[7 + |word|..7 + |word| + |nonce|] == nonce
    ensures marker[7 + |word| + |nonce| - 1] != '_'
  {
    FrontShape(word);
    assert forall i | 0 <= i < |nonce| :: nonce[i] != 'S' && nonce[i] != '_';
    assert forall i | 0 <= i < |tail| :: tail[i] != 'S';
    var front := "__SSHW_" + word;
    assert marker == front + nonce + tail && nonce != "" && |front| == 7 + |word|;
    hide *;
    PiecesAt(front, nonce, tail);
    assert nonce[|nonce| - 1] != '_';
  }

  lemma PiecesAt(a: string, b: string, c: string)
    ensures forall i | 0 <= i < |a + b + c| ::
      (a + b + c)[i] == if i < |a| then a[i] else if i < |a| + |b| then b[i - |a|] else c[i - |a| - |b|]
    ensures (a + b + c)[|a|..|a| + |b|] == b
  {
  }

  /** A marker shifted against itself by less than all but its tail differs from itself. */
  lemma ShiftedDiffers(marker: string, word: string, nonce: string, tail: string, d: nat) returns (k: nat)
    requires IsMarker(marker, word, nonce, tail) && 0 < d < |marker| - |tail|
    ensures k + d < |marker| && marker[k] != marker[k + d]
  {
    MarkerShape(marker, word, nonce, tail);
    if |marker| - d >= 3 {
      k := if marker[2 + d] != 'S' then 2 else 3;
    } else {
      // The tail is one underscore, and what stands before it is the nonce's last character.
      k := 0;
    }
  }

  /** Two occurrences of a marker that overlap do so in at most its tail. */
  lemma MarkersApart(text: string, marker: string, word: string, nonce: string, tail: string, i: nat, j: nat)
    requires IsMarker(marker, word, nonce, tail) && i < j
    ensures OccursAt(text, marker, i) && OccursAt(text, marker, j) ==> i + |marker| - |tail| <= j
  {
    if j - i < |marker| - |tail| {
      var k := ShiftedDiffers(marker, word, nonce, tail, j - i);
      OccurrenceAt(text, marker, j, k);
      OccurrenceAt(text, marker, i, k + (j - i));
    }
  }

  lemma SliceOfSlice(s: string, a: nat, b: nat, c: nat, d: nat)
    requires a <= b <= |s| && c <= d <= b - a
    ensures s[a..b][c..d] == s[a + c..a + d]
  {
    var t, u := s[a..b][c..d], s[a + c..a + d];
    assert |t| == |u| && forall k | 0 <= k < d - c :: t[k] == u[k];
  }

  /** An occurrence of a marker has its nonce inside. */
  lemma NonceInside(text: string, marker: string, word: string, nonce: string, tail: string, i: nat)
    requires IsMarker(marker, word, nonce, tail) && OccursAt(text, marker, i)
    ensures OccursAt(text, nonce, i + 7 + |word|)
  {
    MarkerShape(marker, word, nonce, tail);
    SliceOfSlice(text, i, i + |marker|, 7 + |word|, 7 + |word| + |nonce|);
  }

  /** What occurs in a text within a stretch of it occurs in that stretch. */
  lemma OccursWithin(text: string, part: string, n: nat, from: nat, to: nat)
    requires OccursAt(text, part, n) && from <= n && n + |part| <= to <= |text|
    ensures Contains(text[from..to], part)
  {
    SliceOfSlice(text, from, to, n - from, n - from + |part|);
    assert OccursAt(text[from..to], part, n - from);
  }

  /** The first marker after a stretch that does not have the nonce. */
  lemma FirstMarker(text: string, marker: string, word: string, nonce: string, tail: string, from: nat, at: nat)
    requires IsMarker(marker, word, nonce, tail) && OccursAt(text, marker, at)
    requires from <= at && !Contains(text[from..at], nonce)
    ensures FindFrom(text, marker, from) == Some(at)
  {
    MarkerShape(marker, word, nonce, tail);
    hide IsMarker, Contains;
    forall i: nat | from <= i < at ensures !OccursAt(text, marker, i) {
      MarkersApart(text, marker, word, nonce, tail, i, at);
      if OccursAt(text, marker, i) {
        NonceInside(text, marker, word, nonce, tail, i);
        OccursWithin(text, nonce, i + 7 + |word|, from, at);
      }
    }
    FindIs(text, marker, from, at);
  }

  // ---------- The terminal ----------

  lemma {:induction false} ImageConcat(a: string, b: string)
    ensures TerminalImage(a + b) == TerminalImage(a) + TerminalImage(b)
  {
    if a == "" {
      assert a + b == b;
    } else {
      ImageConcat(a[1..], b);
      assert (a + b)[1..] == a[1..] + b && (a + b)[0] == a[0];
      assert TerminalImage(a + b) == ImageChar(a[0]) + TerminalImage(a[1..] + b);
      assert TerminalImage(a) == ImageChar(a[0]) + TerminalImage(a[1..]);
      hide *;
      assert forall x: string, y: string, z: string {:trigger x + (y + z)} :: x + (y + z) == (x + y) + z;
    }
  }

  lemma {:induction false} ImageOfFeedFree(s: string)
    requires '\n' !in s
    ensures TerminalImage(s) == s
  {
    if s != "" { ImageOfFeedFree(s[1..]); }
  }

  /** The terminal's line ends are undone, whatever carriage returns the output has itself. */
  lemma {:induction false} ImageUndone(s: string)
    ensures ReplaceAll(TerminalImage(s), "\r\n", "\n") == s
    ensures s != "" ==> TerminalImage(s) != "" && TerminalImage(s)[0] != '\n'
  {
    if s != "" {
      ImageUndone(s[1..]);
      var image, rest := TerminalImage(s), TerminalImage(s[1..]);
      if s[0] == '\n' {
        assert image[2..] == rest;
      } else {
        assert image == [s[0]] + rest && (rest != "" ==> image[1] == rest[0]);
      }
    }
  }

  lemma {:induction false} NoReturn(s: string)
    ensures '\r' !in s ==> ReplaceAll(s, "\r", "\n") == s
    ensures '\r' in s ==> ReplaceAll(s, "\r", "\n") != s
    ensures |ReplaceAll(s, "\r", "\n")| == |s|
  {
    if s != "" {
      NoReturn(s[1..]);
      assert "\r" <= s <==> s[0] == '\r';
      var r := ReplaceAll(s, "\r", "\n");
      assert r == [if s[0] == '\r' then '\n' else s[0]] + ReplaceAll(s[1..], "\r", "\n");
      assert r[1..] == ReplaceAll(s[1..], "\r", "\n");
    }
  }

  /** What is found in the image without a line end was there before. */
  lemma {:induction false} ImageContains(s: string, part: string, i: nat) returns (j: nat)
    requires part != "" && '\n' !in part && '\r' !in part && OccursAt(TerminalImage(s), part, i)
    ensures OccursAt(s, part, j)
    decreases |s|
  {
    hide OccursAt;
    ImageStart(s, part, i);
    if s[0] == '\n' || i > 0 {
      OccursAfter(ImageChar(s[0]), TerminalImage(s[1..]), part, i);
      j := ImageContains(s[1..], part, i - |ImageChar(s[0])|);
      assert s == [s[0]] + s[1..];
      hide TerminalImage;
      OccursAfter([s[0]], s[1..], part, j + 1);
      j := j + 1;
    } else {
      j := 0;
      ImagePrefix(s, part);
      PrefixOccurs(s, part);
    }
  }

  /** An occurrence starts with a character of its own, so not within the image of a line feed. */
  lemma ImageStart(s: string, part: string, i: nat)
    requires part != "" && '\n' !in part && '\r' !in part && OccursAt(TerminalImage(s), part, i)
    ensures s != "" && TerminalImage(s) == ImageChar(s[0]) + TerminalImage(s[1..])
    ensures s[0] == '\n' ==> i >= 2
    ensures i == 0 ==> part <= TerminalImage(s)
  {
    assert TerminalImage(s)[i] == part[0] && part[0] in part;
  }

  lemma PrefixOccurs(s: string, part: string)
    requires part <= s
    ensures OccursAt(s, part, 0)
  {
  }

  lemma {:induction false} ImagePrefix(s: string, part: string)
    requires '\n' !in part && '\r' !in part && part <= TerminalImage(s)
    ensures part <= s
    decreases |s|
  {
    if part != "" {
      assert part[0] == TerminalImage(s)[0] && part[0] in part;
      assert TerminalImage(s)[1..] == TerminalImage(s[1..]);
      assert forall c | c in part[1..] :: c in part;
      ImagePrefix(s[1..], part[1..]);
      assert part == [part[0]] + part[1..] && s == [s[0]] + s[1..];
    }
  }

  // ---------- Numbers ----------

  lemma {:induction false} DecimalValue(n: nat)
    ensures Decimal(n) != "" && (forall i | 0 <= i < |Decimal(n)| :: IsDigit(Decimal(n)[i]))
    ensures Value(Decimal(n)) == n
  {
    var d := Decimal(n);
    if n >= 10 {
      DecimalValue(n / 10);
      assert d[..|d| - 1] == Decimal(n / 10);
    } else {
      assert d[..|d| - 1] == "";
    }
  }

  lemma {:induction false} DigitRunIs(digits: string, rest: string)
    requires (forall i | 0 <= i < |digits| :: IsDigit(digits[i])) && (rest == "" || !IsDigit(rest[0]))
    ensures DigitRun(digits + rest) == |digits|
  {
    if digits == "" {
      assert digits + rest == rest;
    } else {
      DigitRunIs(digits[1..], rest);
      assert (digits + rest)[1..] == digits[1..] + rest;
    }
  }

  lemma CodeParsed(code: nat, rest: string)
    ensures ParseCode((Decimal(code) + "__") + rest) == if code <= MAX_CODE then Ok(code) else Err(MalformedMarker)
  {
    var tail := Decimal(code) + "__" + rest;
    DecimalValue(code);
    assert tail == Decimal(code) + ("__" + rest);
    hide Decimal;
    DigitRunIs(Decimal(code), "__" + rest);
    assert tail[..|Decimal(code)|] == Decimal(code) && tail[|Decimal(code)|..] == "__" + rest;
  }

  // ---------- The round trip ----------

  lemma NoFeeds(nonce: string, code: nat)
    requires IsNonce(nonce)
    ensures '\n' !in BeginMarker(nonce) && '\n' !in EndPrefix(nonce) && '\n' !in Decimal(code) + "__"
  {
    DecimalValue(code);
    hide Decimal;
    assert forall c | c in Decimal(code) :: IsDigit(c);
  }

  lemma ImageOfFeed()
    ensures TerminalImage("\n") == "\r\n"
  {
    assert "\n"[1..] == "" && "\r\n" + "" == "\r\n";
  }

  lemma PrintedIs(nonce: string, output: string, code: nat)
    ensures Printed(nonce, output, code)
         == BeginMarker(nonce) + "\n" + output + EndPrefix(nonce) + (Decimal(code) + "__")
  {
    hide BeginMarker, EndPrefix, Decimal;
    Associates(BeginMarker(nonce) + "\n" + output + EndPrefix(nonce), Decimal(code), "__");
  }

  /** The framed stream as the terminal shows it. */
  lemma FrameLayout(nonce: string, output: string, code: nat)
    requires IsNonce(nonce)
    ensures TerminalImage(Printed(nonce, output, code))
         == BeginMarker(nonce) + "\r\n" + TerminalImage(output) + EndPrefix(nonce) + (Decimal(code) + "__")
  {
    hide *;
    var begin, end, rest := BeginMarker(nonce), EndPrefix(nonce), Decimal(code) + "__";
    NoFeeds(nonce, code);
    ImageOfFeedFree(begin);
    ImageOfFeedFree(end);
    ImageOfFeedFree(rest);
    ImageOfFeed();
    PrintedIs(nonce, output, code);
    ImageConcat(begin + "\n" + output + end, rest);
    ImageConcat(begin + "\n" + output, end);
    ImageConcat(begin + "\n", output);
    ImageConcat(begin, "\n");
  }

  lemma Associates(a: string, b: string, c: string)
    ensures a + (b + c) == (a + b) + c
  {
  }

  /** The pieces of a framed stream, at their places. */
  ghost predicate Laid(raw: string, noise: string, nonce: string, image: string, rest: string) {
    var begin, end := BeginMarker(nonce), EndPrefix(nonce);
    var start := |noise| + |begin| + 2;
    && |raw| == start + |image| + |end| + |rest|
    && raw[..|noise|] == noise
    && raw[|noise|..|noise| + |begin|] == begin
    && raw[start - 2] == '\r' && raw[start - 1] == '\n'
    && raw[start..start + |image|] == image
    && raw[start + |image|..start + |image| + |end|] == end
    && raw[start + |image| + |end|..] == rest
  }

  lemma Concatenated(noise: string, nonce: string, image: string, rest: string)
    ensures Laid(noise + (BeginMarker(nonce) + "\r\n" + image + EndPrefix(nonce) + rest), noise, nonce, image, rest)
  {
    hide BeginMarker, EndPrefix;
    var front := BeginMarker(nonce) + "\r\n";
    assert front[|front| - 2] == '\r' && front[|front| - 1] == '\n';
  }

  /** Where the parser finds these pieces, whatever comes after them. */
  lemma PiecesFound(raw: string, noise: string, nonce: string, image: string, rest: string)
    requires IsNonce(nonce) && !Contains(noise, nonce) && !Contains(image, nonce)
    requires Laid(raw, noise, nonce, image, rest)
    ensures var start := |noise| + |BeginMarker(nonce)| + 2;
      && FindFrom(raw, BeginMarker(nonce), 0) == Some(|noise|)
      && FindFrom(raw, "\n", start - 2) == Some(start - 1)
      && FindFrom(raw, EndPrefix(nonce), start) == Some(start + |image|)
  {
    hide *;
    var begin, end := BeginMarker(nonce), EndPrefix(nonce);
    var start := |noise| + |begin| + 2;
    AreMarkers(nonce);
    LaidMarkers(raw, noise, nonce, image, rest);
    FirstMarker(raw, begin, "BEGIN_", nonce, "__", 0, |noise|);
    FirstMarker(raw, end, "END_", nonce, "_", start, start + |image|);
    FirstFeed(raw, start - 2);
  }

  lemma AreMarkers(nonce: string)
    requires IsNonce(nonce)
    ensures IsMarker(BeginMarker(nonce), "BEGIN_", nonce, "__") && IsMarker(EndPrefix(nonce), "END_", nonce, "_")
  {
    hide IsNonce;
  }

  lemma LaidMarkers(raw: string, noise: string, nonce: string, image: string, rest: string)
    requires Laid(raw, noise, nonce, image, rest)
    ensures var start := |noise| + |BeginMarker(nonce)| + 2;
      && OccursAt(raw, BeginMarker(nonce), |noise|) && OccursAt(raw, EndPrefix(nonce), start + |image|)
      && start <= |raw| && raw[start - 2] == '\r' && raw[start - 1] == '\n'
      && raw[0..|noise|] == noise && raw[start..start + |image|] == image
  {
    hide BeginMarker, EndPrefix;
    assert raw[0..|noise|] == raw[..|noise|];
  }

  lemma FirstFeed(raw: string, at: nat)
    requires at + 2 <= |raw| && raw[at] == '\r' && raw[at + 1] == '\n'
    ensures FindFrom(raw, "\n", at) == Some(at + 1)
  {
    assert raw[at..at + 1][0] == '\r';
    assert raw[at + 1..at + 2] == "\n";
    FindIs(raw, "\n", at, at + 1);
  }

  lemma ImageFree(output: string, nonce: string)
    requires IsNonce(nonce) && !Contains(output, nonce)
    ensures !Contains(TerminalImage(output), nonce)
  {
    if i: nat :| i <= |TerminalImage(output)| && OccursAt(TerminalImage(output), nonce, i) {
      assert '\n' !in nonce && '\r' !in nonce;
      var j := ImageContains(output, nonce, i);
    }
  }

  lemma BodyParsed(raw: string, nonce: string, start: nat, end: nat, image: string, rest: string)
    requires start <= end && FindFrom(raw, EndPrefix(nonce), start) == Some(end)
    requires raw[start..end] == image && raw[end + |EndPrefix(nonce)|..] == rest
    ensures ParseBody(raw, nonce, start)
         == match ParseCode(rest) case Err(e) => Err(e) case Ok(code) => Ok((Unterminal(image), code))
  {
    hide FindFrom, EndPrefix, ParseCode, Unterminal;
  }

  /** The parser on a stream whose pieces are at their places. */
  lemma ParserOnPieces(raw: string, noise: string, nonce: string, image: string, rest: string)
    requires IsNonce(nonce) && !Contains(noise, nonce) && !Contains(image, nonce)
    requires Laid(raw, noise, nonce, image, rest)
    ensures ExtractSuOutput(raw, nonce)
         == match ParseCode(rest) case Err(e) => Err(e) case Ok(code) => Ok((Unterminal(image), code))
  {
    hide *;
    var start := |noise| + |BeginMarker(nonce)| + 2;
    PiecesFound(raw, noise, nonce, image, rest);
    LaidBody(raw, noise, nonce, image, rest);
    Extracted(raw, nonce, |noise|, start);
    BodyParsed(raw, nonce, start, start + |image|, image, rest);
  }

  lemma LaidBody(raw: string, noise: string, nonce: string, image: string, rest: string)
    requires Laid(raw, noise, nonce, image, rest)
    ensures var start := |noise| + |BeginMarker(nonce)| + 2;
      && start + |image| + |EndPrefix(nonce)| + |rest| == |raw| && |EndPrefix(nonce)| > 2
      && raw[start..start + |image|] == image && raw[start + |image| + |EndPrefix(nonce)|..] == rest
  {
  }

  lemma Extracted(raw: string, nonce: string, begin: nat, start: nat)
    requires FindFrom(raw, BeginMarker(nonce), 0) == Some(begin)
    requires FindFrom(raw, "\n", begin + |BeginMarker(nonce)|) == Some(start - 1)
    ensures ExtractSuOutput(raw, nonce) == ParseBody(raw, nonce, start)
  {
    hide FindFrom, BeginMarker, ParseBody;
  }

  /** Noise, the terminal's image of what the wrapper prints, and anything after it: the parser returns the
      exit code and the output, with each of the output's own carriage returns as a line feed. */
  lemma SuRoundTrip(noise: string, nonce: string, output: string, code: nat, rest: string)
    requires IsNonce(nonce) && !Contains(noise, nonce) && !Contains(output, nonce) && code <= MAX_CODE
    ensures ExtractSuOutput(noise + TerminalImage(Printed(nonce, output, code)) + rest, nonce)
         == Ok((ReplaceAll(output, "\r", "\n"), code))
  {
    var image, end := TerminalImage(output), Decimal(code) + "__";
    FrameLayout(nonce, output, code);
    ImageFree(output, nonce);
    CodeParsed(code, rest);
    ImageUndone(output);
    assert Unterminal(image) == ReplaceAll(output, "\r", "\n");
    hide *;
    var raw := noise + TerminalImage(Printed(nonce, output, code)) + rest;
    Regroup(noise, BeginMarker(nonce) + "\r\n" + image + EndPrefix(nonce), end, rest);
    Concatenated(noise, nonce, image, end + rest);
    ParserOnPieces(raw, noise, nonce, image, end + rest);
  }

  lemma Regroup(a: string, b: string, c: string, d: string)
    ensures a + (b + c) + d == a + (b + (c + d))
  {
  }

  /** The output comes back unchanged exactly when it has no carriage return. */
  lemma SuRoundTripExactly(noise: string, nonce: string, output: string, code: nat, rest: string)
    requires IsNonce(nonce) && !Contains(noise, nonce) && !Contains(output, nonce) && code <= MAX_CODE
    ensures ExtractSuOutput(noise + TerminalImage(Printed(nonce, output, code)) + rest, nonce) == Ok((output, code))
       <==> '\r' !in output
  {
    SuRoundTrip(noise, nonce, output, code, rest);
    NoReturn(output);
  }

  /** A real output that does not come back unchanged. */
  lemma CarriageReturnIsLost()
    ensures ExtractSuOutput("" + TerminalImage(Printed("0", "a\rb", 7)) + "", "0") == Ok(("a\nb", 7))
  {
    var output := "a\rb";
    assert output[1..] == "\rb" && output[1..][1..] == "b" && output[1..][1..][1..] == "";
    assert ReplaceAll("b", "\r", "\n") == "b";
    assert ReplaceAll("\rb", "\r", "\n") == "\n" + "b";
    assert ReplaceAll(output, "\r", "\n") == "a" + ("\n" + "b") == "a\nb";
    assert '0' !in output && "0"[0] == '0';
    assert forall i: nat | OccursAt(output, "0", i) :: output[i..i + 1][0] == output[i];
    hide *;
    SuRoundTrip("", "0", output, 7, "");
  }

  /** Authentication is reported as failed exactly when the command was never reached. */
  lemma NotStartedExactly(raw: string, nonce: string)
    ensures ExtractSuOutput(raw, nonce) == Err(AuthenticationFailed) <==> !Contains(raw, BeginMarker(nonce))
  {
    hide BeginMarker, EndPrefix, Value, DigitRun, Unterminal;
    var found := FindFrom(raw, BeginMarker(nonce), 0);
    assert found.Some? ==> OccursAt(raw, BeginMarker(nonce), found.value);
  }

  // ---------- Streams cut short ----------

  /** What is found in the beginning of a text is found there in the whole. */
  lemma FoundInPart(text: string, cut: nat, needle: string, from: nat, at: nat)
    requires cut <= |text| && FindFrom(text, needle, from) == Some(at) && at + |needle| <= |text|
    ensures FindFrom(text[..cut], needle, from) == if at + |needle| <= cut then Some(at) else None
  {
    var part := text[..cut];
    forall i: nat | OccursAt(part, needle, i) ensures OccursAt(text, needle, i) {
      assert part[i..i + |needle|] == text[i..i + |needle|];
    }
    if at + |needle| <= cut {
      assert part[at..at + |needle|] == text[at..at + |needle|];
      FindIs(part, needle, from, at);
    }
  }

  lemma CutCode(code: nat, cut: nat)
    requires cut < |Decimal(code) + "__"|
    ensures ParseCode((Decimal(code) + "__")[..cut]) == Err(MalformedMarker)
  {
    DecimalValue(code);
    var d := Decimal(code);
    var tail := (d + "__")[..cut];
    hide Decimal;
    if cut <= |d| {
      assert tail == d[..cut] + "";
      DigitRunIs(d[..cut], "");
    } else {
      assert tail == d + "_";
      DigitRunIs(d, "_");
      assert tail[|d|..] == "_";
    }
  }

  lemma BodyCut(raw: string, noise: string, nonce: string, image: string, code: nat, cut: nat)
    requires Laid(raw, noise, nonce, image, Decimal(code) + "__")
    requires |noise| + |BeginMarker(nonce)| + 2 <= cut < |raw|
    requires FindFrom(raw, EndPrefix(nonce), |noise| + |BeginMarker(nonce)| + 2)
          == Some(|noise| + |BeginMarker(nonce)| + 2 + |image|)
    ensures ParseBody(raw[..cut], nonce, |noise| + |BeginMarker(nonce)| + 2).Err?
  {
    hide *;
    var start := |noise| + |BeginMarker(nonce)| + 2;
    var digits := start + |image| + |EndPrefix(nonce)|;
    var part := raw[..cut];
    LaidBody(raw, noise, nonce, image, Decimal(code) + "__");
    if digits <= cut { CutCode(code, cut - digits); }
    FoundInPart(raw, cut, EndPrefix(nonce), start, start + |image|);
    if digits <= cut {
      assert part[digits..] == raw[digits..][..cut - digits];
      BodyParsed(part, nonce, start, start + |image|, part[start..start + |image|], part[digits..]);
    } else {
      BodyOpen(part, nonce, start);
    }
  }

  lemma BodyOpen(raw: string, nonce: string, start: nat)
    requires start <= |raw| && FindFrom(raw, EndPrefix(nonce), start) == None
    ensures ParseBody(raw, nonce, start) == Err(NoCompletionMarker)
  {
  }

  /** The parser on such a stream cut short within its exit code or before. */
  lemma ParserOnCut(raw: string, noise: string, nonce: string, image: string, code: nat, cut: nat)
    requires IsNonce(nonce) && !Contains(noise, nonce) && !Contains(image, nonce)
    requires Laid(raw, noise, nonce, image, Decimal(code) + "__") && cut < |raw|
    ensures ExtractSuOutput(raw[..cut], nonce).Err?
  {
    hide *;
    var begin, start := BeginMarker(nonce), |noise| + |BeginMarker(nonce)| + 2;
    var part := raw[..cut];
    PiecesFound(raw, noise, nonce, image, Decimal(code) + "__");
    LaidBody(raw, noise, nonce, image, Decimal(code) + "__");
    FoundInPart(raw, cut, begin, 0, |noise|);
    FoundInPart(raw, cut, "\n", start - 2, start - 1);
    if start <= cut {
      Extracted(part, nonce, |noise|, start);
      BodyCut(raw, noise, nonce, image, code, cut);
    } else {
      ExtractedOpen(part, nonce, |noise|);
    }
  }

  /** No line end after the first marker, if there is one. */
  lemma ExtractedOpen(raw: string, nonce: string, begin: nat)
    requires FindFrom(raw, BeginMarker(nonce), 0) in {None, Some(begin)}
    requires |raw| < begin + |BeginMarker(nonce)| + 2
    requires begin + |BeginMarker(nonce)| <= |raw| ==> FindFrom(raw, "\n", begin + |BeginMarker(nonce)|) == None
    ensures ExtractSuOutput(raw, nonce).Err?
  {
    var after := begin + |BeginMarker(nonce)|;
    assert |EndPrefix(nonce)| > 2;
    hide BeginMarker, EndPrefix, FindFrom;
    NoRoom(raw, EndPrefix(nonce), after);
    if after <= |raw| { BodyOpen(raw, nonce, after); }
  }

  /** A framed stream that ends early is an error, never a shorter output or another exit code. */
  lemma TruncatedIsError(noise: string, nonce: string, output: string, code: nat, cut: nat)
    requires IsNonce(nonce) && !Contains(noise, nonce) && !Contains(output, nonce)
    requires cut < |noise + TerminalImage(Printed(nonce, output, code))|
    ensures ExtractSuOutput((noise + TerminalImage(Printed(nonce, output, code)))[..cut], nonce).Err?
  {
    FrameLayout(nonce, output, code);
    ImageFree(output, nonce);
    hide *;
    Concatenated(noise, nonce, TerminalImage(output), Decimal(code) + "__");
    ParserOnCut(noise + TerminalImage(Printed(nonce, output, code)), noise, nonce, TerminalImage(output), code, cut);
  }

  lemma NoRoom(text: string, needle: string, from: nat)
    ensures |text| < from + |needle| ==> FindFrom(text, needle, from) == None
  {
  }
}
