/** What redaction takes for an assignment, and that no spelling of one leaves anything of its value. */
module Assignments {
  import opened Wrappers
  import opened Text
  import opened Redaction
  import opened Removal

  // ---------- The text between a keyword and its value ----------

  predicate OptionalQuote(s: string) { s in {"", "'", "\""} }

  /** A closing quotation mark, white space, a separator, white space, an opening quotation mark. */
  datatype Gap = Gap(closing: string, blank: string, separator: char, more: string, opening: string) {
    function Text(): string { closing + blank + [separator] + more + opening }

    /** What it leads to, with no part of the gap left at its start, is the value. */
    predicate LeadsTo(value: string) {
      && OptionalQuote(closing) && Blank(blank) && separator in {'=', ':'} && Blank(more) && OptionalQuote(opening)
      && !Blank(value)
      && (opening == "" ==> !IsWhitespace(value[0]) && value[0] !in {'\'', '"'})
    }
  }

  lemma SkipsTo(content: string, from: nat, to: nat)
    requires from <= to <= |content| && (forall i | from <= i < to :: IsWhitespace(content[i]))
    requires to < |content| ==> !IsWhitespace(content[to])
    ensures SkipWs(content, from) == to
  {
    hide IsWhitespace;
  }

  /** The parts of a line by position. */
  lemma Positions(start: string, g: Gap, value: string)
    ensures var line := start + g.Text() + value;
      var a := |start|;
      var b := a + |g.closing|;
      var c := b + |g.blank|;
      var d := c + 1 + |g.more|;
      var e := d + |g.opening|;
      && |line| == e + |value| && e == a + |g.Text()|
      && line[a..b] == g.closing && line[b..c] == g.blank && line[c] == g.separator
      && line[c + 1..d] == g.more && line[d..e] == g.opening && line[e..] == value && line[..a] == start
  {
  }

  lemma BlankSlice(content: string, from: nat, to: nat)
    requires from <= to <= |content| && Blank(content[from..to])
    ensures forall i | from <= i < to :: IsWhitespace(content[i])
  {
    forall i | from <= i < to ensures IsWhitespace(content[i]) {
      assert content[i] == content[from..to][i - from];
    }
  }

  lemma SkipsOptional(content: string, from: nat, to: nat)
    requires from <= to <= |content| && OptionalQuote(content[from..to])
    requires from == to < |content| ==> !IsQuote(content[to])
    ensures SkipQuote(content, from) == to
  {
    if from < to { assert content[from] == content[from..to][0]; }
  }

  lemma MarksAreNoBlanks()
    ensures forall c | c in {'=', ':', '\'', '"'} :: !IsWhitespace(c)
    ensures forall c | IsWhitespace(c) || c in {'=', ':'} :: !IsQuote(c)
    ensures forall c :: IsQuote(c) <==> c in {'\'', '"'}
    ensures forall c :: Redaction.IsSeparator(c) <==> c in {'=', ':'}
  {
  }

  lemma GapBefore(line: string, a: nat, b: nat, c: nat)
    requires a <= b <= c < |line| && OptionalQuote(line[a..b]) && Blank(line[b..c]) && line[c] in {'=', ':'}
    ensures SeparatorAt(line, a) == c
  {
    MarksAreNoBlanks();
    hide IsWhitespace, IsQuote, SkipWs, SkipQuote, Blank;
    BlankSlice(line, b, c);
    assert b < c ==> IsWhitespace(line[b]);
    SkipsOptional(line, a, b);
    SkipsTo(line, b, c);
  }

  lemma GapBehind(line: string, c: nat, d: nat, e: nat)
    requires c < d <= e < |line| && Blank(line[c + 1..d]) && OptionalQuote(line[d..e])
    requires d == e ==> !IsWhitespace(line[e]) && line[e] !in {'\'', '"'}
    ensures SkipQuote(line, SkipWs(line, c + 1)) == e
  {
    MarksAreNoBlanks();
    hide IsWhitespace, IsQuote, SkipWs, SkipQuote, Blank;
    BlankSlice(line, c + 1, d);
    assert d < e ==> line[d] == line[d..e][0];
    SkipsTo(line, c + 1, d);
    SkipsOptional(line, d, e);
  }

  lemma GapFacts(g: Gap, value: string)
    requires g.LeadsTo(value)
    ensures OptionalQuote(g.closing) && Blank(g.blank) && g.separator in {'=', ':'} && Blank(g.more)
    ensures OptionalQuote(g.opening) && value != "" && !Blank(value)
    ensures g.opening == "" ==> !IsWhitespace(value[0]) && value[0] !in {'\'', '"'}
  {
  }

  lemma AssignedIs(content: string, e: nat, s: nat, v: nat)
    requires e <= s < v <= |content| && SeparatorAt(content, e) == s && content[s] in {'=', ':'}
    requires SkipQuote(content, SkipWs(content, s + 1)) == v && !Blank(content[v..])
    ensures AssignedAt(content, e) == Some(v)
  {
    hide SeparatorAt, SkipQuote, SkipWs, IsWhitespace;
  }

  /** Whatever stands in such a gap, the value behind it is found. */
  lemma GapIsRead(start: string, g: Gap, value: string)
    requires g.LeadsTo(value)
    ensures AssignedAt(start + g.Text() + value, |start|) == Some(|start + g.Text()|)
  {
    hide *;
    Positions(start, g, value);
    GapFacts(g, value);
    var line := start + g.Text() + value;
    var a := |start|;
    var b := a + |g.closing|;
    var c := b + |g.blank|;
    var d := c + 1 + |g.more|;
    var e := d + |g.opening|;
    assert line[e] == line[e..][0];
    GapBefore(line, a, b, c);
    GapBehind(line, c, d, e);
    AssignedIs(line, a, c, e);
  }

  /** And nothing else is ever read as one. */
  lemma GapIsFound(content: string, e: nat, v: nat) returns (g: Gap)
    requires e <= |content| && AssignedAt(content, e) == Some(v)
    ensures e <= v <= |content| && content[e..v] == g.Text() && g.LeadsTo(content[v..])
  {
    MarksAreNoBlanks();
    hide IsWhitespace, Redaction.IsSeparator, SkipWs, SkipQuote, OptionalQuote, Blank;
    var b := SkipQuote(content, e);
    var c := SkipWs(content, b);
    var d := SkipWs(content, c + 1);
    OneQuote(content, e);
    OneQuote(content, d);
    BlankBetween(content, b, c);
    BlankBetween(content, c + 1, d);
    InPieces(content, e, b, c, d, v);
    g := Gap(content[e..b], content[b..c], content[c], content[c + 1..d], content[d..v]);
    assert content[v..][0] == content[v];
  }

  lemma BlankBetween(content: string, from: nat, to: nat)
    requires from <= to <= |content| && forall i | from <= i < to :: IsWhitespace(content[i])
    ensures Blank(content[from..to])
  {
  }

  lemma InPieces(content: string, e: nat, b: nat, c: nat, d: nat, v: nat)
    requires e <= b <= c < d <= v <= |content|
    ensures content[e..v] == content[e..b] + content[b..c] + [content[c]] + content[c + 1..d] + content[d..v]
  {
    TwoPieces(content, e, b, c);
    TwoPieces(content, e, c, c + 1);
    assert content[c..c + 1] == [content[c]];
    TwoPieces(content, e, c + 1, d);
    TwoPieces(content, e, d, v);
  }

  lemma TwoPieces(s: string, from: nat, mid: nat, to: nat)
    requires from <= mid <= to <= |s|
    ensures s[from..to] == s[from..mid] + s[mid..to]
  {
  }

  lemma OneQuote(content: string, i: nat)
    requires i <= |content|
    ensures var r := SkipQuote(content, i);
      i <= r <= |content| && OptionalQuote(content[i..r]) && (r == i < |content| ==> content[i] !in {'\'', '"'})
  {
    var r := SkipQuote(content, i);
    if r > i {
      assert content[i..r] == [content[i]] && ['\''] == "'" && ['"'] == "\"";
    }
  }

  /** The value assigned to a keyword that ends at `e`, by the text between them alone. */
  lemma AssignedExactlyWhen(content: string, e: nat, v: nat)
    requires e <= v <= |content|
    ensures AssignedAt(content, e) == Some(v) <==> exists g: Gap :: g.Text() == content[e..v] && g.LeadsTo(content[v..])
  {
    hide AssignedAt, Gap.Text, Gap.LeadsTo;
    if AssignedAt(content, e) == Some(v) {
      var g := GapIsFound(content, e, v);
    }
    if g: Gap :| g.Text() == content[e..v] && g.LeadsTo(content[v..]) {
      assert content == content[..e] + g.Text() + content[v..];
      GapIsRead(content[..e], g, content[v..]);
    }
  }

  // ---------- One assignment to a line ----------

  /** A value without white space and separators. */
  predicate PlainValue(value: string) {
    forall i | 0 <= i < |value| :: !IsWhitespace(value[i]) && value[i] !in {'=', ':'}
  }

  /** Every value that is assigned in a line with one separator is the one after it. */
  lemma OnlyOneValue(line: string, n: nat, e: nat, v: nat)
    requires e <= |line| && n < |line| && forall i | 0 <= i < |line| :: Redaction.IsSeparator(line[i]) <==> i == n
    requires AssignedAt(line, e) == Some(v)
    ensures v == SkipQuote(line, SkipWs(line, n + 1))
  {
    hide IsWhitespace, IsQuote, Blank;
  }

  lemma KeywordEnds()
    ensures forall k | k in SENSITIVE_KEYWORDS :: k[|k| - 1] != 'r'
  {
  }

  lemma KeywordLetters(k: string, u: string)
    requires k in SENSITIVE_KEYWORDS && Spells(u, k)
    ensures u != "" && Lower(u) == k && k[|k| - 1] != 'r' && ('a' <= u[0] <= 'z' || 'A' <= u[0] <= 'Z')
    ensures forall i | 0 <= i < |u| :: !IsWhitespace(u[i]) && !Redaction.IsSeparator(u[i])
  {
    hide SENSITIVE_KEYWORDS;
    KeywordsAreWords();
    KeywordEnds();
    SpelledLetters(k, u);
  }

  lemma SpelledLetters(k: string, u: string)
    requires k != "" && 'a' <= k[0] <= 'z' && Spells(u, k) && forall i | 0 <= i < |k| :: KeywordChar(k[i])
    ensures u != "" && Lower(u) == k && ('a' <= u[0] <= 'z' || 'A' <= u[0] <= 'Z')
    ensures forall i | 0 <= i < |u| :: !IsWhitespace(u[i]) && !Redaction.IsSeparator(u[i])
  {
    assert forall i | 0 <= i < |u| :: IsCaseOf(u[i], k[i]) && KeywordChar(k[i]);
    assert forall i | 0 <= i < |k| :: !('A' <= k[i] <= 'Z');
    LowerSpelled(u, k);
  }

  /** Where one part of the line may have what. */
  lemma PartChars(line: string, from: nat, to: nat, part: string, blanks: bool, marks: bool)
    requires from <= to <= |line| && line[from..to] == part
    requires forall i | 0 <= i < |part| :: !Redaction.IsSeparator(part[i])
    requires !blanks ==> forall i | 0 <= i < |part| :: !IsWhitespace(part[i])
    requires marks ==> forall i | 0 <= i < |part| :: IsWhitespace(part[i]) || part[i] in {'\'', '"'}
    ensures forall i | from <= i < to :: !Redaction.IsSeparator(line[i]) && (IsWhitespace(line[i]) ==> blanks)
    ensures marks ==> forall i | from <= i < to :: IsWhitespace(line[i]) || line[i] in {'\'', '"'}
  {
    hide IsWhitespace, Redaction.IsSeparator;
    forall i | from <= i < to ensures line[i] == part[i - from] { }
  }

  lemma GapParts(g: Gap, value: string)
    requires g.LeadsTo(value) && PlainValue(value)
    ensures forall part | part in {g.closing, g.blank, g.more, g.opening} :: forall i | 0 <= i < |part| ::
      !Redaction.IsSeparator(part[i]) && (IsWhitespace(part[i]) || part[i] in {'\'', '"'})
    ensures forall i | 0 <= i < |value| :: !Redaction.IsSeparator(value[i]) && !IsWhitespace(value[i])
    ensures Redaction.IsSeparator(g.separator) && g.separator in {'=', ':'} && !IsWhitespace(g.separator) && value != ""
  {
  }

  /** The line: its one separator, its white space, and its ends. */
  lemma LineChars(u: string, g: Gap, value: string)
    requires u != "" && g.LeadsTo(value) && PlainValue(value)
    requires forall i | 0 <= i < |u| :: !IsWhitespace(u[i]) && !Redaction.IsSeparator(u[i])
    ensures var line := u + g.Text() + value;
      var n, v := |u| + |g.closing| + |g.blank|, |u + g.Text()|;
      && n < v < |line| && (forall i | 0 <= i < |line| :: Redaction.IsSeparator(line[i]) <==> i == n)
      && (forall i | 0 <= i < |line| && IsWhitespace(line[i]) :: |u| <= i < v)
      && (forall i | |u| <= i < v :: IsWhitespace(line[i]) || line[i] in {'=', ':', '\'', '"'})
  {
    Positions(u, g, value);
    GapParts(g, value);
    hide IsWhitespace, Redaction.IsSeparator, Gap.LeadsTo, Gap.Text, PlainValue;
    var line := u + g.Text() + value;
    var b := |u| + |g.closing|;
    var n := b + |g.blank|;
    var d := n + 1 + |g.more|;
    var v := d + |g.opening|;
    assert line[0..|u|] == line[..|u|] && line[v..|line|] == line[v..];
    PartChars(line, 0, |u|, u, false, false);
    PartChars(line, |u|, b, g.closing, true, true);
    PartChars(line, b, n, g.blank, true, true);
    PartChars(line, n + 1, d, g.more, true, true);
    PartChars(line, d, v, g.opening, true, true);
    PartChars(line, v, |line|, value, false, false);
  }

  /** No bearer token where a letter before white space is not an `r`. */
  lemma NoBearerAcross(line: string, from: nat, x: nat)
    requires 0 < from <= |line| && AsciiLower(line[from - 1]) != 'r'
    requires forall i | 0 <= i < |line| && IsWhitespace(line[i]) :: from <= i
    requires forall i | from < i < |line| && IsWhitespace(line[i]) :: AsciiLower(line[i - 1]) != 'r'
    ensures !BearerAt(line, x)
  {
    if |BEARER| <= x {
      OccurrenceAt(Lower(line), BEARER, x - 7, 5);
      OccurrenceAt(Lower(line), BEARER, x - 7, 6);
    }
  }

  lemma GapIsNoBearer(u: string, g: Gap, value: string, x: nat)
    requires u != "" && AsciiLower(u[|u| - 1]) != 'r' && g.LeadsTo(value) && PlainValue(value)
    requires forall i | 0 <= i < |u| :: !IsWhitespace(u[i]) && !Redaction.IsSeparator(u[i])
    ensures !BearerAt(u + g.Text() + value, x)
  {
    LineChars(u, g, value);
    assert forall c | IsWhitespace(c) || c in {'=', ':', '\'', '"'} :: AsciiLower(c) != 'r';
    hide IsWhitespace, AsciiLower, Gap.LeadsTo, Gap.Text, PlainValue, BearerAt;
    var line := u + g.Text() + value;
    assert line[|u| - 1] == u[|u| - 1];
    NoBearerAcross(line, |u|, x);
  }

  /** The value is what redaction picks. */
  lemma AssignedIsPicked(k: string, u: string, g: Gap, value: string)
    requires k in SENSITIVE_KEYWORDS && Spells(u, k) && g.LeadsTo(value) && PlainValue(value)
    ensures SecretStart(u + g.Text() + value) == Some(|u + g.Text()|)
  {
    hide SENSITIVE_KEYWORDS, IsWhitespace, IsQuote, Redaction.IsSeparator, AssignedAt, PlainValue, SecretStart,
      BearerAt, Gap.LeadsTo, Gap.Text, AsciiLower, Spells, Lower, SkipWs, SkipQuote, Sensitive;
    KeywordLetters(k, u);
    LineChars(u, g, value);
    GapIsRead(u, g, value);
    var line, v := u + g.Text() + value, |u + g.Text()|;
    var n := |u| + |g.closing| + |g.blank|;
    LowerConcat(u + g.Text(), value);
    LowerConcat(u, g.Text());
    assert Lower(line)[0..|k|] == k;
    assert AssignedTo(line, k, 0, v);
    AssignedIsSensitive(line, k, 0, v);
    MaskedExactlyWhen(line);
    var s := SecretStart(line).value;
    assert AsciiLower(u[|u| - 1]) == Lower(u)[|u| - 1];
    GapIsNoBearer(u, g, value, s);
    var q, i := SensitiveIsAssigned(line, s);
    OnlyOneValue(line, n, i + |q|, s);
    OnlyOneValue(line, n, |k|, v);
  }

  lemma AssignedIsSensitive(line: string, k: Needle, i: nat, v: nat)
    requires k in SENSITIVE_KEYWORDS && AssignedTo(line, k, i, v)
    ensures Sensitive(line, v)
  {
    hide SENSITIVE_KEYWORDS, AssignedTo;
  }

  lemma SensitiveIsAssigned(line: string, v: nat) returns (k: Needle, i: nat)
    requires Sensitive(line, v) && !BearerAt(line, v)
    ensures AssignedTo(line, k, i, v)
  {
    hide SENSITIVE_KEYWORDS, AssignedTo, BearerAt;
    k, i :| k in SENSITIVE_KEYWORDS && AssignedTo(line, k, i, v);
  }

  lemma AssignmentIsLine(u: string, g: Gap, value: string)
    requires u != "" && ('a' <= u[0] <= 'z' || 'A' <= u[0] <= 'Z') && g.LeadsTo(value) && PlainValue(value)
    requires forall i | 0 <= i < |u| :: !IsWhitespace(u[i]) && !Redaction.IsSeparator(u[i])
    requires '\n' !in g.blank && '\n' !in g.more
    ensures var line := u + g.Text() + value; IsLine(line) && !BeginsKey(line) && SplitEnding(line) == (line, "")
  {
    var line := u + g.Text() + value;
    assert '\n' !in u by { assert IsWhitespace('\n'); }
    assert line[0] == u[0];
    hide *;
    NoFeedInGap(u, g, value);
    LineWithoutFeed(line);
    LetterIsNoMarker(line);
  }

  lemma NoFeedInGap(u: string, g: Gap, value: string)
    requires '\n' !in g.blank && '\n' !in g.more && g.LeadsTo(value) && PlainValue(value) && '\n' !in u
    ensures '\n' !in u + g.Text() + value
  {
    assert IsWhitespace('\n');
  }

  /** Each keyword in any capital or small letters, any gap, any plain value: nothing of the value is left. */
  lemma AssignedValueIsGone(k: string, u: string, g: Gap, value: string)
    requires k in SENSITIVE_KEYWORDS && Spells(u, k) && g.LeadsTo(value) && PlainValue(value)
    requires '\n' !in g.blank && '\n' !in g.more
    ensures RedactSecrets(u + g.Text() + value) == u + g.Text() + REDACTED
  {
    KeywordLetters(k, u);
    AssignmentIsLine(u, g, value);
    AssignedIsPicked(k, u, g, value);
    hide *;
    var start := u + g.Text();
    OneLine(start + value);
    Picked(start, value);
  }

  lemma Picked(start: string, value: string)
    requires SecretStart(start + value) == Some(|start|) && SplitEnding(start + value) == (start + value, "")
    ensures RedactLine(start + value) == start + REDACTED
  {
    hide SecretStart, SplitEnding, REDACTED;
    assert (start + value)[..|start|] == start && start + REDACTED + "" == start + REDACTED;
  }

  // ---------- Capital and small letters ----------

  lemma SameLettersSkip(s: string, t: string, i: nat)
    requires SameLetters(s, t) && i <= |s|
    ensures SkipWs(s, i) == SkipWs(t, i) && SkipQuote(s, i) == SkipQuote(t, i)
  {
    assert forall c, d | IsCaseOf(c, d) && c != d :: !IsWhitespace(c) && !IsWhitespace(d) && !IsQuote(c) && !IsQuote(d);
    assert forall j | 0 <= j < |s| :: IsWhitespace(s[j]) <==> IsWhitespace(t[j]);
    hide IsWhitespace, IsCaseOf;
    SkipsTo(t, i, SkipWs(s, i));
  }

  lemma SameLettersBlank(s: string, t: string, i: nat)
    requires SameLetters(s, t) && i <= |s|
    ensures Blank(s[i..]) <==> Blank(t[i..])
  {
    assert forall c, d | IsCaseOf(c, d) && c != d :: !IsWhitespace(c) && !IsWhitespace(d);
    assert forall j | 0 <= j < |s| :: IsWhitespace(s[j]) <==> IsWhitespace(t[j]);
    hide IsWhitespace, IsCaseOf;
    assert forall j | 0 <= j < |s| - i :: s[i..][j] == s[i + j] && t[i..][j] == t[i + j];
  }

  lemma SameLettersSeparator(s: string, t: string, i: nat)
    requires SameLetters(s, t) && i < |s|
    ensures Redaction.IsSeparator(s[i]) <==> Redaction.IsSeparator(t[i])
  {
  }

  lemma SameLettersAssigned(s: string, t: string, e: nat)
    requires SameLetters(s, t) && e <= |s|
    ensures AssignedAt(s, e) == AssignedAt(t, e)
  {
    hide SameLetters, SkipWs, SkipQuote, Blank, IsWhitespace, IsQuote, Redaction.IsSeparator;
    SameLength(s, t);
    SameLettersSkip(s, t, e);
    SameLettersSkip(s, t, SkipQuote(s, e));
    var sep := SeparatorAt(s, e);
    if sep < |s| {
      SameLettersSeparator(s, t, sep);
      SameLettersSkip(s, t, sep + 1);
      SameLettersSkip(s, t, SkipWs(s, sep + 1));
      SameLettersBlank(s, t, SkipQuote(s, SkipWs(s, sep + 1)));
    }
  }

  lemma {:induction false} SameLettersScan(s: string, t: string, k: Needle, from: nat)
    requires SameLetters(s, t)
    ensures ValueStartFrom(Lower(s), s, k, from) == ValueStartFrom(Lower(t), t, k, from)
    decreases |s| - from
  {
    hide AssignedAt, Lower, OccursAt, SameLetters, FindFrom;
    LowerSame(s, t);
    SameLength(s, t);
    var found := FindFrom(Lower(s), k, from);
    if found.Some? {
      OccurrenceFits(Lower(s), k, found.value);
      var e := found.value + |k|;
      SameLettersAssigned(s, t, e);
      if AssignedAt(s, e).None? { SameLettersScan(s, t, k, e); }
    }
  }

  lemma SameLength(s: string, t: string)
    requires SameLetters(s, t)
    ensures |s| == |t|
  {
  }

  lemma {:induction false} SameLettersKeywords(s: string, t: string, keywords: seq<Needle>)
    requires SameLetters(s, t)
    ensures FirstKeywordValue(Lower(s), s, keywords) == FirstKeywordValue(Lower(t), t, keywords)
  {
    hide ValueStartFrom, Lower, SameLetters;
    if keywords != [] {
      SameLettersScan(s, t, keywords[0], 0);
      SameLettersKeywords(s, t, keywords[1..]);
    }
  }

  /** What is masked does not depend on capital and small letters. */
  lemma CaseIsImmaterial(s: string, t: string)
    requires SameLetters(s, t)
    ensures SecretStart(s) == SecretStart(t)
  {
    hide Lower, FirstKeywordValue, SameLetters, OccursAt, Blank;
    LowerSame(s, t);
    SameLength(s, t);
    SameLettersKeywords(s, t, SENSITIVE_KEYWORDS);
    var found := FindFrom(Lower(s), BEARER, 0);
    if found.Some? {
      OccurrenceFits(Lower(s), BEARER, found.value);
      SameLettersBlank(s, t, found.value + |BEARER|);
    }
  }

  // ---------- Bearer tokens ----------

  lemma BearerSpelled(before: string, b: string, token: string)
    requires Spells(b, "bearer ") && !Blank(token)
    ensures BearerAt(before + b + token, |before + b|)
  {
    var line := before + b + token;
    LowerSpelled(b, "bearer ");
    LowerConcat(before + b, token);
    LowerConcat(before, b);
    assert line[|before + b|..] == token;
    assert Lower(line)[|before|..|before| + 7] == BEARER;
  }

  lemma BearerPicked(line: string, from: nat)
    requires BearerAt(line, from)
    ensures SecretStart(line).Some? && SecretStart(line).value <= from
    ensures (forall i: nat | i + 7 < from :: !OccursAt(Lower(line), BEARER, i)) ==> SecretStart(line) == Some(from)
  {
    hide Lower, Blank, OccursAt;
    BearerIsLeftmost(line, from);
    BearerFound(line, SecretStart(line).value);
  }

  /** Every token after `bearer`, in any capital or small letters and wherever it stands: the rest of the line
      is gone, from this token or an earlier one on. */
  lemma BearerTokenIsGone(before: string, b: string, token: string) returns (n: nat)
    requires Spells(b, "bearer ") && !Blank(token) && '\n' !in before + b + token && !BeginsKey(before + b + token)
    ensures n <= |before + b| && RedactSecrets(before + b + token) == (before + b + token)[..n] + REDACTED
    ensures (forall i: nat | i < |before| :: !OccursAt(Lower(before + b + token), BEARER, i)) ==> n == |before + b|
  {
    hide *;
    var line := before + b + token;
    BearerSpelled(before, b, token);
    BearerPicked(line, |before + b|);
    SpelledLength(b, "bearer ");
    n := SecretStart(line).value;
    BearerNotEmpty(line, |before + b|);
    LineWithoutFeed(line);
    OneLine(line);
    assert line[..n] + line[n..] == line;
    Picked(line[..n], line[n..]);
  }

  lemma SpelledLength(s: string, small: string)
    requires Spells(s, small)
    ensures |s| == |small| && ('\n' !in small ==> '\n' !in s)
  {
    assert forall i | 0 <= i < |s| :: IsCaseOf(s[i], small[i]) && small[i] in small;
  }

  lemma BearerNotEmpty(line: string, v: nat)
    requires BearerAt(line, v)
    ensures v < |line|
  {
  }

  lemma LineWithoutFeed(line: string)
    requires line != "" && '\n' !in line
    ensures IsLine(line) && SplitEnding(line) == (line, "")
  {
    assert line[|line| - 1..][0] == line[|line| - 1];
    assert |line| >= 2 ==> line[|line| - 2..][1] == line[|line| - 1];
  }

  /** The header that sends a token. */
  lemma AuthorizationIsGone(u: string, b: string, token: string)
    requires Spells(u, "authorization") && Spells(b, "bearer ") && !Blank(token) && '\n' !in token
    ensures RedactSecrets(u + ": " + b + token) == u + ": " + b + REDACTED
  {
    var before := u + ": ";
    var line := before + b + token;
    HeaderChars(u, b, token);
    hide Spells, BeginsKey, RedactSecrets, OccursAt, Lower, REDACTED;
    var n := BearerTokenIsGone(before, b, token);
    assert line[..|before + b|] == before + b;
  }

  lemma HeaderChars(u: string, b: string, token: string)
    requires Spells(u, "authorization") && Spells(b, "bearer ") && '\n' !in token
    ensures var line := u + ": " + b + token;
      && '\n' !in line && !BeginsKey(line)
      && forall i: nat | i < |u + ": "| :: !OccursAt(Lower(line), BEARER, i)
  {
    hide IsWhitespace, OccursAt, Lower, BeginsKey;
    var line := u + ": " + b + token;
    SpelledLength(u, "authorization");
    SpelledLength(b, "bearer ");
    assert IsCaseOf(u[0], "authorization"[0]);
    LetterIsNoMarker(line);
    HeaderLower(u, b + token);
    assert u + ": " + (b + token) == line;
    hide Spells;
    var header := "authorization: ";
    assert |header| == 15 && 'b' !in header && BEARER[0] == 'b';
    forall i: nat | i < 15 ensures !OccursAt(Lower(line), BEARER, i) {
      OccurrenceAt(Lower(line), BEARER, i, 0);
      assert Lower(line)[i] == Lower(line)[..15][i] == header[i];
    }
  }

  lemma HeaderLower(u: string, rest: string)
    requires Spells(u, "authorization")
    ensures |u| == 13 && Lower(u + ": " + rest)[..15] == "authorization: "
  {
    LowerSpelled(u, "authorization");
    assert Lower(": ") == ": ";
    hide Lower, Spells;
    LowerConcat(u + ": ", rest);
    LowerConcat(u, ": ");
    assert "authorization" + ": " == "authorization: ";
  }

  lemma LetterIsNoMarker(line: string)
    requires line != "" && ('a' <= line[0] <= 'z' || 'A' <= line[0] <= 'Z')
    ensures !BeginsKey(line)
  {
    BeginsKeyPositions(line);
    assert SkipWs(line, 0) == 0;
    OccurrenceAt(line, KEY_BEGIN, 0, 0);
  }

  // ---------- Private keys ----------

  lemma MarkerPositions(line: string, prefix: string)
    requires forall i | 0 <= i < |prefix| :: !IsWhitespace(prefix[i])
    ensures IsPemMarker(Trim(line), prefix) <==>
      OccursAt(line, prefix, SkipWs(line, 0)) && exists i: nat :: OccursAt(line, KEY_WORDS, i)
  {
    TrimKeepsPrefix(line[SkipWs(line, 0)..], prefix);
    TrimmedOccurrence(line);
  }

  function BeginLine(kind: string): string { "-----BEGIN" + " " + kind + "PRIVATE KEY-----\n" }

  function EndLine(kind: string): string { "-----END" + " " + kind + "PRIVATE KEY-----\n" }

  lemma InMiddle(a: string, k: string, c: string)
    ensures OccursAt(a + k + c, k, |a|)
  {
    assert (a + k + c)[|a|..|a| + |k|] == k;
  }

  lemma MarkerIsSeen(prefix: string, kind: string)
    requires prefix != "" && forall i | 0 <= i < |prefix| :: !IsWhitespace(prefix[i])
    ensures IsPemMarker(Trim(prefix + " " + kind + "PRIVATE KEY-----\n"), prefix)
  {
    hide *;
    var tail := "-----\n";
    var line := prefix + " " + kind + KEY_WORDS + tail;
    MarkerWords(prefix + " " + kind);
    MarkerPositions(line, prefix);
    NoIndent(line);
    InMiddle("", prefix, " " + kind + KEY_WORDS + tail);
    InMiddle(prefix + " " + kind, KEY_WORDS, tail);
    assert line == "" + prefix + (" " + kind + KEY_WORDS + tail);
  }

  lemma MarkerWords(start: string)
    ensures start + "PRIVATE KEY-----\n" == start + KEY_WORDS + "-----\n"
  {
    assert KEY_WORDS + "-----\n" == "PRIVATE KEY-----\n";
    hide KEY_WORDS;
  }

  lemma NoIndent(line: string)
    requires line != "" && !IsWhitespace(line[0])
    ensures SkipWs(line, 0) == 0
  {
  }

  /** The markers of every kind of private key are seen. */
  lemma MarkersAreSeen(kind: string)
    ensures BeginsKey(BeginLine(kind)) && EndsKey(EndLine(kind))
  {
    assert !IsWhitespace('-');
    MarkerIsSeen("-----BEGIN", kind);
    MarkerIsSeen("-----END", kind);
    hide IsPemMarker, Trim;
  }

  lemma MarkersAreLines(kind: string)
    requires '\n' !in kind
    ensures IsLine(BeginLine(kind)) && IsLine(EndLine(kind)) && Closed(BeginLine(kind)) && Closed(EndLine(kind))
  {
    FeedLast("-----BEGIN" + " " + kind + "PRIVATE KEY-----");
    FeedLast("-----END" + " " + kind + "PRIVATE KEY-----");
    assert BeginLine(kind) == "-----BEGIN" + " " + kind + "PRIVATE KEY-----" + "\n";
    assert EndLine(kind) == "-----END" + " " + kind + "PRIVATE KEY-----" + "\n";
  }

  lemma FeedLast(s: string)
    requires '\n' !in s
    ensures IsLine(s + "\n") && Closed(s + "\n")
  {
    assert forall i | 0 <= i < |s| :: (s + "\n")[i] == s[i] && s[i] in s;
  }

  /** A private key of any kind leaves one line, whatever is in it and whatever follows. */
  lemma KeyTextIsGone(kind: string, inner: seq<string>, rest: string)
    requires '\n' !in kind && LinesOf(inner) && forall l | l in inner :: Closed(l) && !EndsKey(l)
    ensures RedactSecrets(BeginLine(kind) + Join(inner) + EndLine(kind) + rest)
         == KEY_PLACEHOLDER + "\n" + RedactSecrets(rest)
  {
    hide *;
    MarkersAreSeen(kind);
    MarkersAreLines(kind);
    assert forall l | l in inner :: Closed(l);
    var begin, end, tail := BeginLine(kind), EndLine(kind), SplitLines(rest);
    var text := begin + Join(inner) + end + rest;
    KeyTextLines(begin, inner, end, rest);
    NoLinesBefore(begin, inner, end, rest);
    SecretsByLine(text);
    SecretsByLine(rest);
    ClosedPlaceholder(begin);
    PlaceholderUnchanged(begin);
    MapLinesConcat(RedactLine, [Placeholder(begin)], DropKeys(tail, false));
    MapOne(RedactLine, Placeholder(begin));
    JoinOnto(Placeholder(begin), MapLines(RedactLine, DropKeys(tail, false)));
  }

  lemma KeyTextLines(begin: string, inner: seq<string>, end: string, rest: string)
    requires IsLine(begin) && IsLine(end) && Closed(begin) && Closed(end)
    requires LinesOf(inner) && forall l | l in inner :: Closed(l)
    ensures SplitLines(begin + Join(inner) + end + rest) == [begin] + inner + [end] + SplitLines(rest)
  {
    hide *;
    SplitHead(end, rest);
    JoinClosed(inner);
    SplitConcat(Join(inner), end + rest);
    SplitJoin(inner);
    SplitHead(begin, Join(inner) + (end + rest));
    assert begin + (Join(inner) + (end + rest)) == begin + Join(inner) + end + rest;
    assert [begin] + (inner + ([end] + SplitLines(rest))) == [begin] + inner + [end] + SplitLines(rest);
  }

  lemma NoLinesBefore(begin: string, inner: seq<string>, end: string, rest: string)
    requires BeginsKey(begin) && EndsKey(end) && forall l | l in inner :: !EndsKey(l)
    ensures DropKeys([begin] + inner + [end] + SplitLines(rest), false)
         == [Placeholder(begin)] + DropKeys(SplitLines(rest), false)
  {
    hide *;
    KeyBlockIsGone([], begin, inner, end, SplitLines(rest));
    assert [] + [begin] + inner + [end] + SplitLines(rest) == [begin] + inner + [end] + SplitLines(rest);
    assert [] + [Placeholder(begin)] + DropKeys(SplitLines(rest), false)
        == [Placeholder(begin)] + DropKeys(SplitLines(rest), false);
  }

  lemma ClosedPlaceholder(begin: string)
    requires IsLine(begin) && Closed(begin)
    ensures Placeholder(begin) == KEY_PLACEHOLDER + "\n"
  {
    PlaceholderIsPlain(begin);
  }

  lemma MapOne(f: string -> string, line: string)
    ensures MapLines(f, [line]) == [f(line)]
  {
  }

  lemma JoinOnto(line: string, lines: seq<string>)
    ensures Join([line] + lines) == line + Join(lines)
  {
    assert ([line] + lines)[1..] == lines;
  }
}
