/** Masking of high-confidence secret patterns: PEM private-key blocks, bearer tokens and
    `keyword = value` assignments. */
module Redaction {
  import opened Wrappers
  import opened Text

  const REDACTED := "<redacted>"
  const KEY_PLACEHOLDER := "[redacted private key]"
  const BEARER: Needle := "bearer "
  const STTY_NOISE := "stty: 'standard input'" + ": Inappropriate ioctl for device"

  const SENSITIVE_KEYWORDS: seq<Needle> := [
    "passphrase", "password", "passwd", "secret_access_key", "secret_key", "secret",
    "access_token", "refresh_token", "auth_token", "api_key", "apikey", "api-key",
    "token", "authorization", "credential", "private_key"
  ]

  // ---------- Private-key blocks ----------

  predicate IsPemMarker(trimmed: string, prefix: string) {
    prefix <= trimmed && Contains(trimmed, "PRIVATE KEY")
  }

  predicate BeginsKey(line: string) { IsPemMarker(Trim(line), "-----BEGIN") }

  predicate EndsKey(line: string) { IsPemMarker(Trim(line), "-----END") }

  function Placeholder(line: string): string {
    if EndsWith(line, "\n") then KEY_PLACEHOLDER + "\n" else KEY_PLACEHOLDER
  }

  /** What is left of the lines of a text once key blocks are replaced by placeholders. */
  function DropKeys(lines: seq<string>, inKey: bool): (kept: seq<string>) {
    if lines == [] then []
    else if inKey then DropKeys(lines[1..], !EndsKey(lines[0]))
    else if BeginsKey(lines[0]) then [Placeholder(lines[0])] + DropKeys(lines[1..], true)
    else [lines[0]] + DropKeys(lines[1..], false)
  }

  /** Whether a key block is still open after these lines. */
  function KeyOpen(lines: seq<string>, inKey: bool): bool {
    if lines == [] then inKey
    else KeyOpen(lines[1..], if inKey then !EndsKey(lines[0]) else BeginsKey(lines[0]))
  }

  method RedactPrivateKeyBlocks(input: string) returns (out: string)
    ensures out == Join(DropKeys(SplitLines(input), false))
  {
    hide BeginsKey, EndsKey, Placeholder, SplitLines;
    out := "";
    var inKey := false;
    var lines := SplitLines(input);
    for i := 0 to |lines|
      invariant out + Join(DropKeys(lines[i..], inKey)) == Join(DropKeys(lines, false))
    {
      var line := lines[i];
      assert lines[i..][1..] == lines[i + 1..];
      if inKey {
        inKey := !EndsKey(line);
      } else if BeginsKey(line) {
        inKey := true;
        out := out + Placeholder(line);
      } else {
        out := out + line;
      }
    }
  }

  // ---------- Assignments and bearer tokens within one line ----------

  /** Content and line ending, `\r\n` counting as one ending. */
  function SplitEnding(line: string): (r: (string, string))
    ensures r.0 + r.1 == line
  {
    if EndsWith(line, "\r\n") then (line[..|line| - 2], "\r\n")
    else if EndsWith(line, "\n") then (line[..|line| - 1], "\n")
    else (line, "")
  }

  function BearerValueStart(lower: string, content: string): (r: Option<nat>)
    requires |lower| == |content|
    ensures r.Some? ==> r.value < |content|
  {
    match FindFrom(lower, BEARER, 0)
    case None => None
    case Some(pos) =>
      var start := pos + |BEARER|;
      if start < |content| && !Blank(content[start..]) then Some(start) else None
  }

  predicate IsSeparator(c: char) { c == '=' || c == ':' }

  function SkipQuote(content: string, i: nat): (r: nat)
    requires i <= |content|
    ensures i <= r <= |content| && r <= i + 1
  {
    if i < |content| && IsQuote(content[i]) then i + 1 else i
  }

  /** The index at which the separator must stand for a keyword that ends at `keywordEnd`. */
  function SeparatorAt(content: string, keywordEnd: nat): (r: nat)
    requires keywordEnd <= |content|
    ensures keywordEnd <= r <= |content|
  {
    SkipWs(content, SkipQuote(content, keywordEnd))
  }

  /** The value assigned to a keyword that ends at `keywordEnd`, if it is assigned one. */
  function AssignedAt(content: string, keywordEnd: nat): (r: Option<nat>)
    requires keywordEnd <= |content|
    ensures r.Some? ==> keywordEnd < r.value < |content| && !Blank(content[r.value..])
  {
    var sep := SeparatorAt(content, keywordEnd);
    if sep < |content| && IsSeparator(content[sep]) then
      var start := SkipQuote(content, SkipWs(content, sep + 1));
      if start < |content| && !Blank(content[start..]) then Some(start) else None
    else None
  }

  /** The first value assigned to an occurrence of `keyword` at or after `from`. */
  function ValueStartFrom(lower: string, content: string, keyword: Needle, from: nat): (r: Option<nat>)
    requires |lower| == |content|
    ensures r.Some? ==> from < r.value < |content|
    decreases |content| - from
  {
    match FindFrom(lower, keyword, from)
    case None => None
    case Some(i) =>
      var end := i + |keyword|;
      match AssignedAt(content, end)
      case Some(start) => Some(start)
      case None => ValueStartFrom(lower, content, keyword, end)
  }

  method SensitiveValueStart(lower: string, content: string, keyword: Needle) returns (r: Option<nat>)
    requires |lower| == |content|
    ensures r == ValueStartFrom(lower, content, keyword, 0)
  {
    hide AssignedAt;
    var searchFrom: nat := 0;
    while true
      invariant searchFrom <= |content|
      invariant ValueStartFrom(lower, content, keyword, searchFrom) == ValueStartFrom(lower, content, keyword, 0)
      decreases |content| - searchFrom
    {
      var at := FindFrom(lower, keyword, searchFrom);
      if at.None? { return None; }
      var keywordEnd := at.value + |keyword|;
      var start := AssignedAt(content, keywordEnd);
      if start.Some? { return start; }
      searchFrom := keywordEnd;
    }
  }

  /** The value of the first keyword, in list order, that is assigned one. */
  function FirstKeywordValue(lower: string, content: string, keywords: seq<Needle>): (r: Option<nat>)
    requires |lower| == |content|
    ensures r.Some? ==> r.value < |content|
  {
    if keywords == [] then None
    else match ValueStartFrom(lower, content, keywords[0], 0)
      case Some(start) => Some(start)
      case None => FirstKeywordValue(lower, content, keywords[1..])
  }

  function SecretStart(content: string): (r: Option<nat>)
    ensures r.Some? ==> r.value < |content|
  {
    var lower := Lower(content);
    match BearerValueStart(lower, content)
    case Some(start) => Some(start)
    case None => FirstKeywordValue(lower, content, SENSITIVE_KEYWORDS)
  }

  function RedactLine(line: string): string {
    var (content, ending) := SplitEnding(line);
    match SecretStart(content)
    case Some(start) => content[..start] + REDACTED + ending
    case None => line
  }

  method RedactSensitiveLines(input: string) returns (out: string)
    ensures out == Join(MapLines(RedactLine, SplitLines(input)))
  {
    hide RedactLine, SplitLines;
    out := "";
    var lines := SplitLines(input);
    for i := 0 to |lines|
      invariant out + Join(MapLines(RedactLine, lines[i..])) == Join(MapLines(RedactLine, lines))
    {
      out := out + RedactLine(lines[i]);
      assert MapLines(RedactLine, lines[i..])[1..] == MapLines(RedactLine, lines[i + 1..]);
    }
  }

  function RedactSecrets(input: string): string {
    var withoutKeys := Join(DropKeys(SplitLines(input), false));
    Join(MapLines(RedactLine, SplitLines(withoutKeys)))
  }

  method RedactSecretsInTwoPasses(input: string) returns (out: string)
    ensures out == RedactSecrets(input)
  {
    var withoutKeys := RedactPrivateKeyBlocks(input);
    out := RedactSensitiveLines(withoutKeys);
  }

  // ---------- Start-up noise on stderr ----------

  function TrimLineEnd(s: string): string {
    if s != "" && (s[|s| - 1] == '\n' || s[|s| - 1] == '\r') then TrimLineEnd(s[..|s| - 1]) else s
  }

  predicate IsNoise(line: string) { TrimLineEnd(line) == STTY_NOISE }

  function DropNoise(lines: seq<string>): seq<string> {
    if lines == [] then []
    else (if IsNoise(lines[0]) then [] else [lines[0]]) + DropNoise(lines[1..])
  }

  function FilterNoise(stderr: string): string { Join(DropNoise(SplitLines(stderr))) }

  method FilterStartupStderrNoise(stderr: string) returns (filtered: string)
    ensures filtered == FilterNoise(stderr)
  {
    hide IsNoise, SplitLines, DropNoise, Join;
    filtered := "";
    var lines := SplitLines(stderr);
    assert lines[0..] == lines;
    for i := 0 to |lines|
      invariant filtered + Join(DropNoise(lines[i..])) == FilterNoise(stderr)
    {
      NoiseTaken(filtered, lines, i);
      if !IsNoise(lines[i]) {
        filtered := filtered + lines[i];
      }
    }
    NoiseDone(filtered, lines);
  }

  lemma NoiseTaken(filtered: string, lines: seq<string>, i: nat)
    requires i < |lines|
    ensures filtered + Join(DropNoise(lines[i..]))
         == (if IsNoise(lines[i]) then filtered else filtered + lines[i]) + Join(DropNoise(lines[i + 1..]))
  {
    hide IsNoise, DropNoise, Join;
    DropNoiseStep(lines, i);
    var rest := Join(DropNoise(lines[i + 1..]));
    assert filtered + ("" + rest) == filtered + rest && filtered + (lines[i] + rest) == (filtered + lines[i]) + rest;
  }

  lemma NoiseDone(filtered: string, lines: seq<string>)
    ensures filtered + Join(DropNoise(lines[|lines|..])) == filtered
  {
    hide IsNoise;
    assert lines[|lines|..] == [] && filtered + "" == filtered;
  }

  lemma DropNoiseStep(lines: seq<string>, i: nat)
    requires i <= |lines|
    ensures Join(DropNoise(lines[i..]))
         == if i == |lines| then "" else (if IsNoise(lines[i]) then "" else lines[i]) + Join(DropNoise(lines[i + 1..]))
  {
    hide IsNoise;
    if i < |lines| {
      assert lines[i..][1..] == lines[i + 1..];
      var rest := DropNoise(lines[i + 1..]);
      assert ([lines[i]] + rest)[1..] == rest && [] + rest == rest;
    }
  }

  lemma {:induction false} TrimsLineEnd(s: string)
    ensures TrimLineEnd(s) <= s && forall i | |TrimLineEnd(s)| <= i < |s| :: s[i] in {'\n', '\r'}
    ensures var t := TrimLineEnd(s); t != "" ==> t[|t| - 1] !in {'\n', '\r'}
  {
    if s != "" && s[|s| - 1] in {'\n', '\r'} { TrimsLineEnd(s[..|s| - 1]); }
  }

  lemma NoiseEnds()
    ensures STTY_NOISE != "" && STTY_NOISE[|STTY_NOISE| - 1] !in {'\n', '\r'}
  {
  }

  /** A line is start-up noise exactly if it is the message and a line ending of any kind. */
  lemma NoiseExactlyWhen(line: string)
    ensures IsNoise(line) <==>
      STTY_NOISE <= line && forall i | |STTY_NOISE| <= i < |line| :: line[i] in {'\n', '\r'}
  {
    NoiseEnds();
    hide STTY_NOISE, TrimLineEnd;
    var t := TrimLineEnd(line);
    TrimsLineEnd(line);
    if STTY_NOISE <= line && forall i | |STTY_NOISE| <= i < |line| :: line[i] in {'\n', '\r'} {
      assert |t| <= |STTY_NOISE|;
      assert line[|STTY_NOISE| - 1] == STTY_NOISE[|STTY_NOISE| - 1];
      assert t == STTY_NOISE;
    }
  }

  // ---------- Line structure is kept ----------

  lemma {:induction false} DropKeysKeepsLines(lines: seq<string>, inKey: bool)
    requires LinesOf(lines)
    ensures LinesOf(DropKeys(lines, inKey))
    ensures forall l <- DropKeys(lines, inKey) :: !BeginsKey(l)
  {
    hide BeginsKey, EndsKey, Placeholder, LinesOf, IsLine, Closed;
    if lines == [] {
      LinesNil();
    } else {
      LinesUncons(lines);
      var kept := DropKeys(lines[1..], if inKey then !EndsKey(lines[0]) else BeginsKey(lines[0]));
      DropKeysKeepsLines(lines[1..], if inKey then !EndsKey(lines[0]) else BeginsKey(lines[0]));
      PlaceholderIsPlain(lines[0]);
      if !inKey {
        LinesCons(if BeginsKey(lines[0]) then Placeholder(lines[0]) else lines[0], kept);
      }
    }
  }

  lemma PlaceholderIsPlain(line: string)
    ensures IsLine(Placeholder(line)) && !BeginsKey(Placeholder(line))
    ensures Closed(Placeholder(line)) <==> EndsWith(line, "\n")
    ensures IsLine(line) ==> (Closed(line) <==> EndsWith(line, "\n"))
  {
    var p := Placeholder(line);
    assert p[0] == '[' && !IsWhitespace('[');
    assert TrimStart(p) == p;
    assert Trim(p) == "" || Trim(p)[0] == '[';
  }

  lemma EndingShape(line: string)
    requires IsLine(line)
    ensures var (content, ending) := SplitEnding(line);
      '\n' !in content && ending in {"", "\n", "\r\n"} && (Closed(line) <==> ending != "")
  {
    var (content, ending) := SplitEnding(line);
    assert line[|content|..] == ending;
    assert EndsWith(line, "\n") <==> line[|line| - 1] == '\n';
  }

  lemma MaskHasNoFeed()
    ensures '\n' !in REDACTED && REDACTED != ""
  {
  }

  lemma RedactLineKeepsLine(line: string)
    requires IsLine(line)
    ensures IsLine(RedactLine(line)) && (Closed(RedactLine(line)) <==> Closed(line))
  {
    hide SecretStart, SplitEnding, REDACTED;
    EndingShape(line);
    MaskHasNoFeed();
    var (content, ending) := SplitEnding(line);
    if SecretStart(content).Some? {
      Reclosed(content[..SecretStart(content).value] + REDACTED, ending);
    }
  }

  lemma Reclosed(body: string, ending: string)
    requires body != "" && '\n' !in body && ending in {"", "\n", "\r\n"}
    ensures IsLine(body + ending) && (Closed(body + ending) <==> ending != "")
  {
    var line := body + ending;
    assert forall i | 0 <= i < |body| :: line[i] == body[i] && body[i] in body;
  }

  lemma SecretsByLine(input: string)
    ensures RedactSecrets(input) == Join(MapLines(RedactLine, DropKeys(SplitLines(input), false)))
  {
    DropKeysKeepsLines(SplitLines(input), false);
    SplitJoin(DropKeys(SplitLines(input), false));
  }

  /** Redaction of a single line. */
  lemma LineSplits(line: string)
    requires IsLine(line)
    ensures SplitLines(line) == [line]
  {
    SplitHead(line, "");
    assert line + "" == line && SplitLines("") == [];
  }

  lemma OneKept(line: string)
    ensures DropKeys([line], false) == if BeginsKey(line) then [Placeholder(line)] else [line]
    ensures DropNoise([line]) == if IsNoise(line) then [] else [line]
  {
    hide BeginsKey, IsNoise, Placeholder;
    var none: seq<string> := [];
    assert [line][1..] == none;
  }

  lemma OneJoined(line: string)
    ensures Join([line]) == line && Join([]) == ""
    ensures MapLines(RedactLine, [line]) == [RedactLine(line)]
  {
    hide RedactLine;
    assert [line][1..] == [] && line + "" == line;
  }

  lemma OneLine(line: string)
    requires IsLine(line)
    ensures SplitLines(line) == [line]
    ensures !BeginsKey(line) ==> RedactSecrets(line) == RedactLine(line)
    ensures FilterNoise(line) == if IsNoise(line) then "" else line
  {
    hide BeginsKey, RedactLine, IsNoise, RedactSecrets, IsLine, SplitLines, DropKeys, DropNoise, Join, Placeholder;
    LineSplits(line);
    OneKept(line);
    OneJoined(line);
    OneJoined(RedactLine(line));
    SecretsByLine(line);
  }

  // ---------- A masked line has nothing left to mask ----------

  /** Text in which the value that starts at `v` has been masked. */
  function Masked(content: string, v: nat): (r: string)
    requires v <= |content|
    ensures |r| == v + |REDACTED| && r[..v] == content[..v] && r[v] == '<'
  {
    content[..v] + REDACTED
  }

  /** A separator at `s` assigns the value that starts at `v`. */
  ghost predicate Assigns(content: string, s: nat, v: nat) {
    && s < v < |content|
    && IsSeparator(content[s])
    && SkipQuote(content, SkipWs(content, s + 1)) == v
    && !Blank(content[v..])
  }

  /** White space that ends by `v` ends at the same place once the value at `v` is masked. */
  lemma MaskedSkip(content: string, from: nat, v: nat)
    requires from <= v <= |content| && (SkipWs(content, from) <= v || from < v)
    ensures SkipWs(content, from) <= v ==> SkipWs(Masked(content, v), from) == SkipWs(content, from)
    ensures SkipQuote(Masked(content, v), from) == if from == v then v else SkipQuote(content, from)
  {
    assert !IsWhitespace('<') && !IsQuote('<');
    hide IsWhitespace, IsQuote;
    assert forall i | 0 <= i < v :: Masked(content, v)[i] == content[i];
  }

  /** The parts an assignment is made of, and that they suffice. */
  lemma AssignmentParts(content: string, e: nat, s: nat, v: nat)
    requires e <= |content|
    ensures AssignedAt(content, e) == Some(v) ==> Assigns(content, SeparatorAt(content, e), v)
    ensures SeparatorAt(content, e) == s && Assigns(content, s, v) ==> AssignedAt(content, e) == Some(v)
  {
    hide IsWhitespace, IsQuote, IsSeparator, Blank;
  }

  lemma MaskedStaysAssigned(content: string, e: nat, v: nat)
    requires e <= |content| && AssignedAt(content, e) == Some(v)
    ensures e <= SeparatorAt(content, e) < v && Assigns(content, SeparatorAt(content, e), v)
    ensures e <= v && AssignedAt(Masked(content, v), e) == Some(v)
  {
    hide Masked, SkipWs, SkipQuote, IsWhitespace, IsQuote, IsSeparator, AssignedAt, Blank;
    var t := Masked(content, v);
    var s := SeparatorAt(content, e);
    AssignmentParts(content, e, s, v);
    AssignmentParts(t, e, s, v);
    MaskedSkip(content, e, v);
    MaskedSkip(content, SkipQuote(content, e), v);
    MaskedSkip(content, s + 1, v);
    MaskedSkip(content, SkipWs(content, s + 1), v);
    MaskNotBlank(content, v);
    assert t[s] == t[..v][s] == content[..v][s];
  }

  lemma MaskNotBlank(content: string, v: nat)
    requires v <= |content|
    ensures !Blank(Masked(content, v)[v..])
  {
    assert Masked(content, v)[v..][0] == '<';
  }

  lemma NotBlankFrom(content: string, from: nat, s: nat)
    requires from <= |content| && s < |content| && !IsWhitespace(content[s]) && !IsQuote(content[s])
    ensures from <= s ==> !Blank(content[SkipQuote(content, SkipWs(content, from))..])
  {
    if from <= s {
      var start := SkipQuote(content, SkipWs(content, from));
      assert start <= s && content[start..][s - start] == content[s];
    }
  }

  lemma SeparatorsAreMarks()
    ensures forall c | IsSeparator(c) :: !IsWhitespace(c) && !IsQuote(c)
  {
  }

  lemma MaskedPrefix(content: string, v: nat)
    requires v <= |content|
    ensures |Masked(content, v)| > v && forall i | 0 <= i < v :: Masked(content, v)[i] == content[i]
  {
  }

  lemma SeparatorBefore(content: string, e: nat, s: nat)
    requires e <= s < |content| && !IsWhitespace(content[s]) && !IsQuote(content[s])
    ensures SeparatorAt(content, e) <= s
  {
    hide IsWhitespace;
  }

  lemma SameSeparator(a: string, b: string, e: nat, sep: nat, v: nat)
    requires e <= |a| && sep == SeparatorAt(a, e) && sep < v <= |a| && v < |b|
    requires forall i | 0 <= i < v :: a[i] == b[i]
    ensures e <= |b| && SeparatorAt(b, e) == sep
  {
    hide IsWhitespace, IsQuote;
  }

  lemma MaskedStaysUnassigned(content: string, e: nat, s: nat, v: nat)
    requires Assigns(content, s, v) && e <= s && AssignedAt(content, e) == None
    ensures AssignedAt(Masked(content, v), e) == None
  {
    hide IsWhitespace, IsQuote, IsSeparator, Blank, Masked, SkipWs, SkipQuote;
    SeparatorsAreMarks();
    MaskedPrefix(content, v);
    var t := Masked(content, v);
    var sep := SeparatorAt(content, e);
    SeparatorBefore(content, e, s);
    SameSeparator(content, t, e, sep, v);
    NotBlankFrom(content, sep + 1, s);
  }

  predicate KeywordChar(c: char) { 'a' <= c <= 'z' || c == '_' || c == '-' }

  /** The characters of the mask. */
  predicate MaskChar(c: char) { c == '<' || c == '>' || 'a' <= c <= 'e' || c == 'r' || c == 't' }

  lemma MaskIsMaskChars()
    ensures forall i | 0 <= i < |REDACTED| :: MaskChar(REDACTED[i])
  {
  }

  /** What every keyword of the list has in common: no character that can stand between a keyword
      and its value, and some character that the mask does not hold. */
  predicate KeywordShape(k: string) {
    && (forall i | 0 <= i < |k| :: KeywordChar(k[i]))
    && exists i | 0 <= i < |k| :: !MaskChar(k[i])
  }

  lemma KeywordsHaveShape1()
    ensures KeywordShape("passphrase") && KeywordShape("password") && KeywordShape("passwd")
    ensures KeywordShape("secret_access_key")
  {
    assert !MaskChar("passphrase"[0]);
    assert !MaskChar("password"[0]);
    assert !MaskChar("passwd"[0]);
    assert !MaskChar("secret_access_key"[0]);
  }

  lemma KeywordsHaveShape2()
    ensures KeywordShape("secret_key") && KeywordShape("secret") && KeywordShape("access_token")
    ensures KeywordShape("refresh_token")
  {
    assert !MaskChar("secret_key"[0]);
    assert !MaskChar("secret"[0]);
    assert !MaskChar("access_token"[4]);
    assert !MaskChar("refresh_token"[2]);
  }

  lemma KeywordsHaveShape3()
    ensures KeywordShape("auth_token") && KeywordShape("api_key") && KeywordShape("apikey") && KeywordShape("api-key")
  {
    assert !MaskChar("auth_token"[1]);
    assert !MaskChar("api_key"[1]);
    assert !MaskChar("apikey"[1]);
    assert !MaskChar("api-key"[1]);
  }

  lemma KeywordsHaveShape4()
    ensures KeywordShape("token") && KeywordShape("authorization") && KeywordShape("credential")
    ensures KeywordShape("private_key")
  {
    assert !MaskChar("token"[1]);
    assert !MaskChar("authorization"[1]);
    assert !MaskChar("credential"[5]);
    assert !MaskChar("private_key"[0]);
  }

  lemma KeywordsHaveShape()
    ensures forall i | 0 <= i < |SENSITIVE_KEYWORDS| :: KeywordShape(SENSITIVE_KEYWORDS[i])
  {
    hide KeywordShape;
    KeywordsHaveShape1();
    KeywordsHaveShape2();
    KeywordsHaveShape3();
    KeywordsHaveShape4();
  }

  /** An occurrence in masked text lies before the mask, where the text is unchanged. */
  lemma OccursBeforeMask(content: string, v: nat, k: string, i: nat)
    requires v <= |content| && '<' !in k && exists j | 0 <= j < |k| :: !MaskChar(k[j])
    requires OccursAt(Lower(Masked(content, v)), k, i)
    ensures i + |k| <= v && OccursAt(Lower(content), k, i)
  {
    hide MaskChar, Masked, Lower;
    var t := Lower(Masked(content, v));
    MaskInLower(content, v);
    OccursPointwise(t, k, i);
    var j :| 0 <= j < |k| && !MaskChar(k[j]);
    assert i + j < v;
    assert forall x | i <= x < i + |k| :: t[x] == k[x - i] && k[x - i] in k;
    assert !(i <= v < i + |k|);
    assert Lower(content)[i..i + |k|] == k;
  }

  lemma OccursPointwise(hay: string, k: string, i: nat)
    requires OccursAt(hay, k, i)
    ensures forall x {:trigger hay[x]} | i <= x < i + |k| :: hay[x] == k[x - i]
    ensures forall j {:trigger k[j]} | 0 <= j < |k| :: hay[i + j] == k[j]
  {
    assert forall x {:trigger hay[x]} | i <= x < i + |k| :: hay[x] == hay[i..i + |k|][x - i];
  }

  lemma MaskInLower(content: string, v: nat)
    requires v <= |content|
    ensures forall i | 0 <= i < v :: Lower(Masked(content, v))[i] == Lower(content)[i]
    ensures forall i | v <= i < v + |REDACTED| :: MaskChar(Lower(Masked(content, v))[i])
    ensures Lower(Masked(content, v))[v] == '<'
  {
    var m := Masked(content, v);
    MaskIsMaskChars();
    assert forall i | v <= i < |m| :: m[i] == REDACTED[i - v] && AsciiLower(m[i]) == m[i];
  }

  lemma OccursInMasked(content: string, v: nat, k: string, i: nat)
    requires v <= |content| && OccursAt(Lower(content), k, i) && i + |k| <= v
    ensures OccursAt(Lower(Masked(content, v)), k, i)
  {
    MaskInLower(content, v);
    assert Lower(Masked(content, v))[i..i + |k|] == Lower(content)[i..i + |k|];
  }

  /** Searching masked text for a keyword finds what lies before the mask, and nothing else. */
  lemma FindMasked(content: string, k: Needle, from: nat, s: nat, v: nat)
    requires KeywordShape(k) && Assigns(content, s, v)
    ensures var found, masked := FindFrom(Lower(content), k, from), FindFrom(Lower(Masked(content, v)), k, from);
      && (masked.Some? ==> masked == found && found.value + |k| <= s)
      && (found.Some? && found.value + |k| <= v ==> masked == found)
  {
    hide Masked, Lower, OccursAt, KeywordShape, FindFrom, Assigns;
    AssignsBounds(content, s, v);
    var t, lower := Lower(Masked(content, v)), Lower(content);
    var found, masked := FindFrom(lower, k, from), FindFrom(t, k, from);
    if masked.Some? {
      KeywordBeforeMask(content, s, v, k, masked.value);
      assert found.Some? && found.value <= masked.value;
    }
    if found.Some? && found.value + |k| <= v {
      OccursInMasked(content, v, k, found.value);
    }
  }

  lemma AssignsBounds(content: string, s: nat, v: nat)
    requires Assigns(content, s, v)
    ensures s < v < |content|
  {
  }

  /** Scanning masked text for a keyword that found this value, or none, finds the same again. */
  lemma {:induction false} MaskedScan(content: string, k: Needle, from: nat, s: nat, v: nat)
    requires KeywordShape(k) && Assigns(content, s, v)
    requires var found := ValueStartFrom(Lower(content), content, k, from); found == None || found == Some(v)
    ensures v <= |content|
    ensures ValueStartFrom(Lower(Masked(content, v)), Masked(content, v), k, from)
         == ValueStartFrom(Lower(content), content, k, from)
    decreases |content| - from
  {
    hide Masked, Lower, AssignedAt, OccursAt, KeywordShape, FindFrom, Assigns;
    AssignsBounds(content, s, v);
    FindMasked(content, k, from, s, v);
    var found := FindFrom(Lower(content), k, from);
    if found.Some? {
      OccurrenceFits(Lower(content), k, found.value);
      var e := found.value + |k|;
      if AssignedAt(content, e).Some? {
        MaskedStaysAssigned(content, e, v);
      } else if e <= s {
        MaskedStaysUnassigned(content, e, s, v);
        MaskedScan(content, k, e, s, v);
      } else {
        NothingAfter(content, k, e, s, v);
      }
    }
  }

  lemma NothingAfter(content: string, k: Needle, from: nat, s: nat, v: nat)
    requires KeywordShape(k) && Assigns(content, s, v) && s <= from
    ensures v <= |content|
    ensures ValueStartFrom(Lower(Masked(content, v)), Masked(content, v), k, from) == None
  {
    FindMasked(content, k, from, s, v);
  }

  lemma OccurrenceFits(hay: string, k: string, i: nat)
    requires OccursAt(hay, k, i)
    ensures i + |k| <= |hay|
  {
  }

  /** A keyword found in masked text lies before the separator of the masked assignment. */
  lemma KeywordBeforeMask(content: string, s: nat, v: nat, k: Needle, i: nat)
    requires KeywordShape(k) && Assigns(content, s, v)
    requires OccursAt(Lower(Masked(content, v)), k, i)
    ensures i + |k| <= s && OccursAt(Lower(content), k, i)
  {
    OccursBeforeMask(content, v, k, i);
    OccursPointwise(Lower(content), k, i);
    BetweenSeparatorAndValue(content, s, v);
    assert i <= s ==> KeywordChar(k[0]) && Lower(content)[i] == k[0];
  }

  /** No character from the separator up to the value can belong to a keyword. */
  lemma BetweenSeparatorAndValue(content: string, s: nat, v: nat)
    requires Assigns(content, s, v)
    ensures forall x | s <= x < v :: !KeywordChar(AsciiLower(content[x]))
  {
    var w := SkipWs(content, s + 1);
    assert forall x | s < x < w :: IsWhitespace(content[x]);
    assert w < v ==> v == w + 1 && IsQuote(content[w]);
  }

  /** Masking a keyword's value: the scan over the keyword list stops at the same place again. */
  lemma {:induction false} MaskedKeywords(content: string, keywords: seq<Needle>, v: nat)
    requires forall i | 0 <= i < |keywords| :: KeywordShape(keywords[i])
    requires FirstKeywordValue(Lower(content), content, keywords) == Some(v)
    ensures v <= |content|
    ensures FirstKeywordValue(Lower(Masked(content, v)), Masked(content, v), keywords) == Some(v)
    ensures exists s: nat | s < v :: Assigns(content, s, v)
  {
    hide Masked, Lower, KeywordShape, ValueStartFrom, Assigns;
    var k := keywords[0];
    if ValueStartFrom(Lower(content), content, k, 0).Some? {
      var s := AssignedSomewhere(content, k, 0, v);
      MaskedScan(content, k, 0, s, v);
    } else {
      MaskedKeywords(content, keywords[1..], v);
      var s: nat :| s < v && Assigns(content, s, v);
      MaskedScan(content, k, 0, s, v);
    }
  }

  lemma {:induction false} AssignedSomewhere(content: string, k: Needle, from: nat, v: nat) returns (s: nat)
    requires ValueStartFrom(Lower(content), content, k, from) == Some(v)
    ensures s < v && Assigns(content, s, v)
    decreases |content| - from
  {
    hide Lower, AssignedAt, Assigns, OccursAt;
    var i := FindFrom(Lower(content), k, from).value;
    OccurrenceFits(Lower(content), k, i);
    var e := i + |k|;
    if AssignedAt(content, e).Some? {
      MaskedStaysAssigned(content, e, v);
      s := SeparatorAt(content, e);
    } else {
      s := AssignedSomewhere(content, k, e, v);
    }
  }

  /** Text without a bearer token gains none by having an assigned value masked; text with one
      keeps it. */
  lemma MaskedBearer(content: string, v: nat)
    requires v < |content| && !Blank(content[v..])
    requires var found := BearerValueStart(Lower(content), content); found == None || found == Some(v)
    ensures BearerValueStart(Lower(Masked(content, v)), Masked(content, v)) == BearerValueStart(Lower(content), content)
  {
    assert '<' !in BEARER && !MaskChar(BEARER[6]);
    MaskNotBlank(content, v);
    hide Masked, Lower, IsWhitespace, MaskChar, OccursAt;
    var lower, t := Lower(content), Lower(Masked(content, v));
    var found, masked := FindFrom(lower, BEARER, 0), FindFrom(t, BEARER, 0);
    if masked.Some? {
      OccursBeforeMask(content, v, BEARER, masked.value);
      assert found.value <= masked.value;
      SuffixNotBlank(content, found.value + |BEARER|, v);
    }
    if found.Some? && found.value + |BEARER| <= v {
      OccursInMasked(content, v, BEARER, found.value);
    }
  }

  lemma SuffixNotBlank(content: string, from: nat, v: nat)
    requires from <= v <= |content| && !Blank(content[v..])
    ensures !Blank(content[from..])
  {
    var i :| 0 <= i < |content[v..]| && !IsWhitespace(content[v..][i]);
    assert content[from..][v - from + i] == content[v..][i];
  }

  lemma SecretStaysMasked(content: string, v: nat)
    requires SecretStart(content) == Some(v)
    ensures v <= |content| && SecretStart(Masked(content, v)) == Some(v)
  {
    hide Masked, Lower, BearerValueStart, FirstKeywordValue, Assigns, KeywordShape, SENSITIVE_KEYWORDS;
    if BearerValueStart(Lower(content), content).None? {
      KeywordsHaveShape();
      MaskedKeywords(content, SENSITIVE_KEYWORDS, v);
      var s: nat :| s < v && Assigns(content, s, v);
      AssignsNotBlank(content, s, v);
    } else {
      BearerNotBlank(content, v);
    }
    MaskedBearer(content, v);
  }

  lemma AssignsNotBlank(content: string, s: nat, v: nat)
    requires Assigns(content, s, v)
    ensures v < |content| && !Blank(content[v..])
  {
  }

  lemma BearerNotBlank(content: string, v: nat)
    requires BearerValueStart(Lower(content), content) == Some(v)
    ensures v < |content| && !Blank(content[v..])
  {
  }

  lemma RedactLineTwice(line: string)
    requires IsLine(line)
    ensures RedactLine(RedactLine(line)) == RedactLine(line)
  {
    hide SecretStart, IsLine;
    var (content, ending) := SplitEnding(line);
    var found := SecretStart(content);
    if found.Some? {
      SecretStaysMasked(content, found.value);
      var m := Masked(content, found.value);
      assert m[|m| - 1] == '>';
      assert RedactLine(line) == m + ending;
      EndingOf(m, ending);
    }
  }

  lemma EndingOf(content: string, ending: string)
    requires content != "" && content[|content| - 1] == '>'
    requires ending == "" || ending == "\n" || ending == "\r\n"
    ensures SplitEnding(content + ending) == (content, ending)
  {
    var line := content + ending;
    assert line[|content|..] == ending && line[..|content|] == content;
    assert ending == "\n" ==> line[|line| - 2..][0] == '>';
    assert ending == "" ==> line[|line| - 1..][0] == '>';
  }

  // ---------- Masking a line makes no key marker ----------

  const KEY_BEGIN := "-----BEGIN"
  const KEY_WORDS := "PRIVATE KEY"

  /** A marker line, stated by positions in the untrimmed line. */
  ghost predicate MarkerAt(line: string) {
    OccursAt(line, KEY_BEGIN, SkipWs(line, 0)) && exists i: nat :: OccursAt(line, KEY_WORDS, i)
  }

  lemma TrimKeepsPrefix(s: string, prefix: string)
    requires forall i | 0 <= i < |prefix| :: !IsWhitespace(prefix[i])
    ensures prefix <= TrimEnd(s) <==> prefix <= s
  {
    hide IsWhitespace;
    var t := TrimEnd(s);
    if prefix <= s && |t| < |s| {
      assert forall j {:trigger s[j]} | 0 <= j < |prefix| :: s[j] == prefix[j];
      assert IsWhitespace(s[|t|]);
    }
  }

  lemma BeginsKeyPositions(line: string)
    ensures BeginsKey(line) <==> MarkerAt(line)
  {
    var a := SkipWs(line, 0);
    var t := Trim(line);
    TrimKeepsPrefix(line[a..], KEY_BEGIN);
    assert KEY_BEGIN <= t <==> OccursAt(line, KEY_BEGIN, a);
    TrimmedOccurrence(line);
  }

  lemma OccursInSlice(s: string, a: nat, n: nat, k: string, i: nat)
    requires a + n <= |s|
    ensures OccursAt(s[a..][..n], k, i) <==> i + |k| <= n && OccursAt(s, k, a + i)
  {
    if i + |k| <= n {
      assert s[a..][..n][i..i + |k|] == s[a + i..a + i + |k|];
    }
  }

  lemma TrimmedOccurrence(line: string)
    ensures Contains(Trim(line), KEY_WORDS) <==> exists i: nat :: OccursAt(line, KEY_WORDS, i)
  {
    var a := SkipWs(line, 0);
    var n := |Trim(line)|;
    assert Trim(line) == line[a..][..n];
    if Contains(Trim(line), KEY_WORDS) {
      var i: nat :| OccursAt(Trim(line), KEY_WORDS, i);
      OccursInSlice(line, a, n, KEY_WORDS, i);
    }
    if i: nat :| OccursAt(line, KEY_WORDS, i) {
      WordsInsideTrim(line, i);
      OccursInSlice(line, a, n, KEY_WORDS, i - a);
      assert OccursAt(Trim(line), KEY_WORDS, i - a);
    }
  }

  lemma WordsInsideTrim(line: string, i: nat)
    requires OccursAt(line, KEY_WORDS, i)
    ensures SkipWs(line, 0) <= i && i + |KEY_WORDS| <= SkipWs(line, 0) + |Trim(line)|
  {
    var a := SkipWs(line, 0);
    var last := i + |KEY_WORDS| - 1;
    OccursPointwise(line, KEY_WORDS, i);
    assert !IsWhitespace(line[i]) && !IsWhitespace(line[last]);
    hide IsWhitespace;
    assert a <= i && line[a..][last - a] == line[last];
  }

  /** Whatever upper-case words occur in a masked line occurred before the mask. */
  lemma WordsBeforeMask(content: string, v: nat, ending: string, k: string, i: nat)
    requires v <= |content| && k != ""
    requires forall j | 0 <= j < |ending| :: ending[j] == '\r' || ending[j] == '\n'
    requires forall j | 0 <= j < |k| :: k[j] == '-' || k[j] == ' ' || 'A' <= k[j] <= 'Z'
    requires OccursAt(Masked(content, v) + ending, k, i)
    ensures i + |k| <= v && OccursAt(content + ending, k, i)
  {
    var t := Masked(content, v) + ending;
    OccursPointwise(t, k, i);
    assert t[v] == '<';
    MaskIsMaskChars();
    assert forall x | v <= x < v + |REDACTED| :: t[x] == REDACTED[x - v] && MaskChar(t[x]);
    assert t[i] == k[0] && !MaskChar(k[0]);
    assert i < v;
    assert forall x | i <= x < i + |k| :: t[x] == k[x - i];
    assert (content + ending)[i..i + |k|] == t[i..i + |k|];
  }

  lemma MaskedLineIsNoMarker(line: string)
    requires !BeginsKey(line)
    ensures !BeginsKey(RedactLine(line))
  {
    hide SecretStart, IsWhitespace, MaskChar, BeginsKey;
    var (content, ending) := SplitEnding(line);
    var found := SecretStart(content);
    if found.Some? {
      var v := found.value;
      assert RedactLine(line) == Masked(content, v) + ending;
      MaskedMarker(content, v, ending);
      assert content + ending == line;
    }
  }

  lemma MaskedMarker(content: string, v: nat, ending: string)
    requires v <= |content|
    requires forall j | 0 <= j < |ending| :: ending[j] == '\r' || ending[j] == '\n'
    ensures BeginsKey(Masked(content, v) + ending) ==> BeginsKey(content + ending)
  {
    hide IsWhitespace, MaskChar, BeginsKey, Masked, OccursAt;
    var t, line := Masked(content, v) + ending, content + ending;
    BeginsKeyPositions(t);
    BeginsKeyPositions(line);
    if MarkerAt(t) {
      var a := SkipWs(t, 0);
      WordsBeforeMask(content, v, ending, KEY_BEGIN, a);
      SameIndent(content, v, ending, a);
      var i: nat :| OccursAt(t, KEY_WORDS, i);
      WordsBeforeMask(content, v, ending, KEY_WORDS, i);
    }
  }

  lemma SameIndent(content: string, v: nat, ending: string, a: nat)
    requires a < v <= |content| && a == SkipWs(Masked(content, v) + ending, 0)
    ensures SkipWs(content + ending, 0) == a
  {
    hide IsWhitespace;
    var t, line := Masked(content, v) + ending, content + ending;
    assert forall x | 0 <= x < v :: t[x] == line[x];
  }

  // ---------- Redaction is idempotent ----------

  lemma {:induction false} DropKeysIdle(lines: seq<string>)
    requires forall l <- lines :: !BeginsKey(l)
    ensures DropKeys(lines, false) == lines
  {
    hide BeginsKey, EndsKey;
    if lines != [] { DropKeysIdle(lines[1..]); }
  }

  /** On every input, redacting redacted text changes nothing. */
  lemma RedactSecretsIdempotent(input: string)
    ensures RedactSecrets(RedactSecrets(input)) == RedactSecrets(input)
  {
    hide RedactLine, BeginsKey;
    var kept := DropKeys(SplitLines(input), false);
    var masked := MapLines(RedactLine, kept);
    DropKeysKeepsLines(SplitLines(input), false);
    MaskedLines(kept);
    SecretsByLine(input);
    SplitJoin(masked);
    DropKeysIdle(masked);
    SecretsByLine(RedactSecrets(input));
    assert MapLines(RedactLine, masked) == masked;
  }

  lemma MaskedLines(kept: seq<string>)
    requires LinesOf(kept) && forall l <- kept :: !BeginsKey(l)
    ensures LinesOf(MapLines(RedactLine, kept)) && forall l <- MapLines(RedactLine, kept) :: !BeginsKey(l)
    ensures forall i | 0 <= i < |kept| :: RedactLine(RedactLine(kept[i])) == RedactLine(kept[i])
  {
    hide RedactLine, BeginsKey;
    forall i | 0 <= i < |kept|
      ensures IsLine(RedactLine(kept[i])) && (Closed(RedactLine(kept[i])) <==> Closed(kept[i]))
      ensures !BeginsKey(RedactLine(kept[i])) && RedactLine(RedactLine(kept[i])) == RedactLine(kept[i])
    {
      RedactLineKeepsLine(kept[i]);
      MaskedLineIsNoMarker(kept[i]);
      RedactLineTwice(kept[i]);
    }
  }

  // ---------- Text without a separator ----------

  lemma {:induction false} NoSeparatorNoValue(content: string, k: Needle, from: nat)
    requires forall i | 0 <= i < |content| :: !IsSeparator(content[i])
    ensures ValueStartFrom(Lower(content), content, k, from) == None
    decreases |content| - from
  {
    hide IsSeparator, SeparatorAt, Lower, OccursAt;
    var found := FindFrom(Lower(content), k, from);
    if found.Some? {
      OccurrenceFits(Lower(content), k, found.value);
      NoSeparatorNoValue(content, k, found.value + |k|);
    }
  }

  lemma {:induction false} NoSeparatorNoKeyword(content: string, keywords: seq<Needle>)
    requires forall i | 0 <= i < |content| :: !IsSeparator(content[i])
    ensures FirstKeywordValue(Lower(content), content, keywords) == None
  {
    hide IsSeparator, ValueStartFrom, Lower;
    if keywords != [] {
      NoSeparatorNoValue(content, keywords[0], 0);
      NoSeparatorNoKeyword(content, keywords[1..]);
    }
  }

  /** The placeholder for a private key is not itself redacted. */
  lemma PlaceholderUnchanged(line: string)
    ensures RedactLine(Placeholder(line)) == Placeholder(line)
  {
    NoSeparatorNoKeyword(KEY_PLACEHOLDER, SENSITIVE_KEYWORDS);
    NoBearer();
    PlaceholderEnding();
    hide SENSITIVE_KEYWORDS, FirstKeywordValue, BearerValueStart, Lower, SplitEnding;
    assert SecretStart(KEY_PLACEHOLDER) == None;
  }

  lemma PlaceholderEnding()
    ensures SplitEnding(KEY_PLACEHOLDER) == (KEY_PLACEHOLDER, "")
    ensures SplitEnding(KEY_PLACEHOLDER + "\n") == (KEY_PLACEHOLDER, "\n")
  {
    var closed := KEY_PLACEHOLDER + "\n";
    assert closed[|closed| - 2..][0] == ']' && closed[|closed| - 1..] == "\n";
    assert KEY_PLACEHOLDER[|KEY_PLACEHOLDER| - 1..][0] == ']';
    assert KEY_PLACEHOLDER[|KEY_PLACEHOLDER| - 2..][1] == ']';
  }

  lemma NoBearer()
    ensures BearerValueStart(Lower(KEY_PLACEHOLDER), KEY_PLACEHOLDER) == None
  {
    assert forall i | 0 <= i < |KEY_PLACEHOLDER| :: AsciiLower(KEY_PLACEHOLDER[i]) != 'b';
    hide KEY_PLACEHOLDER;
    assert BEARER[0] == 'b';
    var found := FindFrom(Lower(KEY_PLACEHOLDER), BEARER, 0);
    if found.Some? {
      OccursPointwise(Lower(KEY_PLACEHOLDER), BEARER, found.value);
    }
  }
}
