/** Text as sequences of Unicode scalar values, with the searching, trimming, line-splitting
    and replacing operations the rest of the model is written in.  An index counts characters
    where the program counts bytes. */
module Text {
  import opened Wrappers

  // ---------- Characters ----------

  /** The Unicode White_Space property. */
  predicate IsWhitespace(c: char) {
    || '\t' <= c <= '\r'
    || c == ' ' || c == '\U{85}' || c == '\U{A0}' || c == '\U{1680}'
    || '\U{2000}' <= c <= '\U{200A}'
    || c == '\U{2028}' || c == '\U{2029}' || c == '\U{202F}' || c == '\U{205F}' || c == '\U{3000}'
  }

  /** The Unicode general category Cc. */
  predicate IsControl(c: char) {
    c <= '\U{1F}' || '\U{7F}' <= c <= '\U{9F}'
  }

  predicate IsQuote(c: char) { c == '"' || c == '\'' }

  function AsciiLower(c: char): (r: char)
    ensures 'A' <= c <= 'Z' ==> 'a' <= r <= 'z' && r as int - 'a' as int == c as int - 'A' as int
    ensures !('A' <= c <= 'Z') ==> r == c
  {
    if 'A' <= c <= 'Z' then (c as int + 32) as char else c
  }

  function Lower(s: string): (r: string)
    ensures |r| == |s|
    ensures forall i | 0 <= i < |s| :: r[i] == AsciiLower(s[i])
  {
    seq(|s|, i requires 0 <= i < |s| => AsciiLower(s[i]))
  }

  /** The character itself, or the capital of a small ASCII letter. */
  predicate IsCaseOf(c: char, small: char) {
    c == small || ('a' <= small <= 'z' && 'A' <= c && c as int - 'A' as int == small as int - 'a' as int)
  }

  /** Some spelling of a text in capital and small ASCII letters. */
  predicate Spells(s: string, small: string) {
    |s| == |small| && forall i | 0 <= i < |s| :: IsCaseOf(s[i], small[i])
  }

  /** Such a spelling stands at `i`. */
  predicate SpelledAt(s: string, small: string, i: nat) {
    i + |small| <= |s| && forall j | 0 <= j < |small| :: IsCaseOf(s[i + j], small[j])
  }

  /** The same letters, capital or small. */
  predicate SameLetters(s: string, t: string) {
    |s| == |t| && forall i | 0 <= i < |s| :: IsCaseOf(s[i], t[i]) || IsCaseOf(t[i], s[i])
  }

  /** Lower-casing takes away exactly the difference between capital and small ASCII letters. */
  lemma LowerSame(s: string, t: string)
    ensures Lower(s) == Lower(t) <==> SameLetters(s, t)
  {
    if Lower(s) == Lower(t) {
      assert forall i | 0 <= i < |s| :: AsciiLower(s[i]) == Lower(s)[i] == Lower(t)[i] == AsciiLower(t[i]);
    }
  }

  lemma LowerSpelled(s: string, small: string)
    requires Spells(s, small) && forall i | 0 <= i < |small| :: !('A' <= small[i] <= 'Z')
    ensures Lower(s) == small
  {
  }

  lemma SpelledLower(s: string, small: string)
    requires forall i | 0 <= i < |small| :: !('A' <= small[i] <= 'Z')
    ensures Lower(s) == small <==> Spells(s, small)
  {
    if Lower(s) == small {
      assert forall i | 0 <= i < |s| :: AsciiLower(s[i]) == small[i];
    } else if Spells(s, small) {
      LowerSpelled(s, small);
    }
  }

  lemma LowerSlice(s: string, m: nat, n: nat)
    requires m <= n <= |s|
    ensures Lower(s)[m..n] == Lower(s[m..n])
  {
  }

  lemma LowerConcat(s: string, t: string)
    ensures Lower(s + t) == Lower(s) + Lower(t)
  {
  }

  predicate Blank(s: string) {
    forall i | 0 <= i < |s| :: IsWhitespace(s[i])
  }

  // ---------- Trimming ----------

  /** The first index at or after `from` that does not hold white space. */
  function SkipWs(s: string, from: nat): (r: nat)
    requires from <= |s|
    ensures from <= r <= |s|
    ensures forall i | from <= i < r :: IsWhitespace(s[i])
    ensures r < |s| ==> !IsWhitespace(s[r])
    decreases |s| - from
  {
    if from < |s| && IsWhitespace(s[from]) then SkipWs(s, from + 1) else from
  }

  function TrimStart(s: string): string { s[SkipWs(s, 0)..] }

  function TrimEnd(s: string): (r: string)
    ensures r <= s
    ensures forall i | |r| <= i < |s| :: IsWhitespace(s[i])
    ensures r != "" ==> !IsWhitespace(r[|r| - 1])
  {
    if s != "" && IsWhitespace(s[|s| - 1]) then TrimEnd(s[..|s| - 1]) else s
  }

  function Trim(s: string): string { TrimEnd(TrimStart(s)) }

  // ---------- Searching ----------

  predicate OccursAt(hay: string, needle: string, i: nat) {
    i + |needle| <= |hay| && hay[i..i + |needle|] == needle
  }

  predicate Contains(hay: string, needle: string) {
    exists i: nat | i <= |hay| :: OccursAt(hay, needle, i)
  }

  predicate EndsWith(s: string, suffix: string) {
    |suffix| <= |s| && s[|s| - |suffix|..] == suffix
  }

  /** The leftmost occurrence of `needle` at or after `from`. */
  function FindFrom(hay: string, needle: string, from: nat): (r: Option<nat>)
    ensures r.Some? ==> from <= r.value && OccursAt(hay, needle, r.value)
    ensures r.Some? ==> forall i: nat | from <= i < r.value :: !OccursAt(hay, needle, i)
    ensures r.None? ==> forall i: nat | from <= i :: !OccursAt(hay, needle, i)
    decreases |hay| - from
  {
    if from > |hay| then None
    else if OccursAt(hay, needle, from) then Some(from)
    else FindFrom(hay, needle, from + 1)
  }

  /** Two texts with the same occurrence at the same leftmost place. */
  lemma FindIs(hay: string, needle: string, from: nat, at: nat)
    requires from <= at && OccursAt(hay, needle, at)
    requires forall i: nat | from <= i < at :: !OccursAt(hay, needle, i)
    ensures FindFrom(hay, needle, from) == Some(at)
  {
  }

  lemma OccurrenceAt(text: string, needle: string, i: nat, k: nat)
    ensures OccursAt(text, needle, i) && k < |needle| ==> needle[k] == text[i + k]
  {
  }

  /** A word is found in text in small letters exactly where some spelling of it stands. */
  lemma OccursSpelled(line: string, word: string, i: nat)
    requires forall j | 0 <= j < |word| :: !('A' <= word[j] <= 'Z')
    ensures OccursAt(Lower(line), word, i) <==> SpelledAt(line, word, i)
  {
    hide Lower, IsCaseOf;
    if i + |word| <= |line| {
      var part := line[i..i + |word|];
      LowerSlice(line, i, i + |word|);
      SpelledLower(part, word);
      assert forall j | 0 <= j < |word| :: part[j] == line[i + j];
    }
  }

  lemma OccursAfter(head: string, tail: string, part: string, i: nat)
    requires |head| <= i
    ensures OccursAt(head + tail, part, i) <==> OccursAt(tail, part, i - |head|)
  {
    var text, k := head + tail, i - |head|;
    if i + |part| <= |text| { assert text[i..i + |part|] == tail[k..k + |part|]; }
  }

  // ---------- Replacing ----------

  /** A text to search for; never empty. */
  type Needle = s: string | |s| > 0 witness "?"

  /** Replace every occurrence, leftmost first and without overlap. */
  function ReplaceAll(s: string, pattern: Needle, mask: string): string
  {
    if s == "" then ""
    else if pattern <= s then mask + ReplaceAll(s[|pattern|..], pattern, mask)
    else [s[0]] + ReplaceAll(s[1..], pattern, mask)
  }

  lemma {:induction false} ReplaceNone(s: string, pattern: Needle, mask: string)
    requires !Contains(s, pattern)
    ensures ReplaceAll(s, pattern, mask) == s
  {
    if s != "" {
      assert pattern <= s ==> OccursAt(s, pattern, 0);
      assert forall i: nat | i <= |s[1..]| && OccursAt(s[1..], pattern, i) :: OccursAt(s, pattern, i + 1);
      ReplaceNone(s[1..], pattern, mask);
    }
  }

  /** Empty, or closed by a line feed. */
  predicate Closed(s: string) { s == "" || s[|s| - 1] == '\n' }

  lemma PrefixStops(s: string, prefix: string, k: nat)
    requires prefix <= s && k < |s| && s[k] !in prefix
    ensures |prefix| <= k
  {
    assert forall j {:trigger s[j]} | 0 <= j < |prefix| :: prefix[j] == s[j] && prefix[j] in prefix;
  }

  /** A pattern without a line feed never matches across one. */
  lemma {:induction false} ReplaceSplits(a: string, b: string, pattern: Needle, mask: string)
    requires '\n' !in pattern && Closed(a)
    ensures ReplaceAll(a + b, pattern, mask) == ReplaceAll(a, pattern, mask) + ReplaceAll(b, pattern, mask)
  {
    if a == "" {
      assert a + b == b;
    } else if pattern <= a + b {
      PrefixStops(a + b, pattern, |a| - 1);
      assert pattern <= a;
      assert (a + b)[|pattern|..] == a[|pattern|..] + b;
      ReplaceSplits(a[|pattern|..], b, pattern, mask);
    } else {
      assert !(pattern <= a);
      assert (a + b)[1..] == a[1..] + b;
      ReplaceSplits(a[1..], b, pattern, mask);
    }
  }

  lemma {:induction false} ReplaceKeepsClosed(a: string, pattern: Needle, mask: string)
    requires '\n' !in pattern && Closed(a)
    ensures Closed(ReplaceAll(a, pattern, mask))
    ensures a != "" ==> ReplaceAll(a, pattern, mask) != ""
  {
    if a != "" {
      if pattern <= a {
        PrefixStops(a, pattern, |a| - 1);
        ReplaceKeepsClosed(a[|pattern|..], pattern, mask);
      } else {
        ReplaceKeepsClosed(a[1..], pattern, mask);
      }
    }
  }

  // ---------- Order ----------

  /** Lexicographic order on text, which is also the order of its UTF-8 bytes. */
  predicate LexLess(a: string, b: string) {
    b != "" && (a == "" || a[0] < b[0] || (a[0] == b[0] && LexLess(a[1..], b[1..])))
  }

  lemma {:induction false} LexTotal(a: string, b: string)
    ensures a == b || LexLess(a, b) || LexLess(b, a)
    ensures !(LexLess(a, b) && LexLess(b, a)) && !LexLess(a, a)
  {
    if a != "" {
      LexTotal(a[1..], a[1..]);
      if b != "" {
        LexTotal(a[1..], b[1..]);
        assert a == [a[0]] + a[1..] && b == [b[0]] + b[1..];
      }
    }
  }

  lemma {:induction false} LexTransitive(a: string, b: string, c: string)
    requires LexLess(a, b) && LexLess(b, c)
    ensures LexLess(a, c)
  {
    if a != "" && a[0] == b[0] == c[0] { LexTransitive(a[1..], b[1..], c[1..]); }
  }

  // ---------- Lines ----------

  function Join(pieces: seq<string>): string {
    if pieces == [] then "" else pieces[0] + Join(pieces[1..])
  }

  lemma {:induction false} JoinConcat(a: seq<string>, b: seq<string>)
    ensures Join(a + b) == Join(a) + Join(b)
  {
    if a == [] {
      assert a + b == b;
    } else {
      assert (a + b)[1..] == a[1..] + b;
      JoinConcat(a[1..], b);
    }
  }

  function MapLines(f: string -> string, lines: seq<string>): (r: seq<string>)
    ensures |r| == |lines| && forall i | 0 <= i < |r| :: r[i] == f(lines[i])
  {
    seq(|lines|, i requires 0 <= i < |lines| => f(lines[i]))
  }

  lemma MapLinesConcat(f: string -> string, a: seq<string>, b: seq<string>)
    ensures MapLines(f, a + b) == MapLines(f, a) + MapLines(f, b)
  {
  }

  /** A non-empty piece whose only line feed, if any, is its last character. */
  predicate IsLine(s: string) {
    s != "" && forall i | 0 <= i < |s| - 1 :: s[i] != '\n'
  }

  /** The pieces of some text: every line but the last is closed. */
  predicate LinesOf(ls: seq<string>) {
    forall i | 0 <= i < |ls| :: IsLine(ls[i]) && (i < |ls| - 1 ==> Closed(ls[i]))
  }

  lemma LinesNil()
    ensures LinesOf([])
  {
  }

  lemma LinesCons(head: string, rest: seq<string>)
    requires IsLine(head) && LinesOf(rest) && (rest == [] || Closed(head))
    ensures LinesOf([head] + rest)
  {
  }

  lemma LinesUncons(lines: seq<string>)
    requires LinesOf(lines) && lines != []
    ensures IsLine(lines[0]) && LinesOf(lines[1..]) && (|lines| == 1 || Closed(lines[0]))
  {
  }

  /** Split after every line feed. */
  function SplitLines(s: string): (r: seq<string>)
    ensures LinesOf(r)
  {
    if s == "" then []
    else match FindFrom(s, "\n", 0)
      case None => FeedFree(s, |s|); [s]
      case Some(i) => FeedFree(s, i); [s[..i + 1]] + SplitLines(s[i + 1..])
  }

  lemma FeedFree(s: string, end: nat)
    requires end <= |s|
    ensures (forall i: nat | i < end :: !OccursAt(s, "\n", i)) ==> forall i | 0 <= i < end :: s[i] != '\n'
  {
    forall i: nat | i < end && s[i] == '\n' ensures OccursAt(s, "\n", i) {
      assert s[i..i + 1] == "\n";
    }
  }

  lemma {:induction false} JoinSplit(s: string)
    ensures Join(SplitLines(s)) == s
  {
    if s != "" {
      match FindFrom(s, "\n", 0)
      case None => assert SplitLines(s) == [s];
      case Some(i) => JoinSplit(s[i + 1..]);
    }
  }

  /** Splitting recovers any sequence of lines from its concatenation. */
  lemma {:induction false} SplitJoin(ls: seq<string>)
    requires LinesOf(ls)
    ensures SplitLines(Join(ls)) == ls
  {
    if ls != [] {
      var rest := Join(ls[1..]);
      SplitJoin(ls[1..]);
      SplitHead(ls[0], rest);
      if |ls| == 1 { assert rest == "" && ls[0] + rest == ls[0]; }
    }
  }

  lemma SplitHead(line: string, rest: string)
    requires IsLine(line) && (rest == "" || Closed(line))
    ensures SplitLines(line + rest) == [line] + SplitLines(rest)
  {
    var s := line + rest;
    if Closed(line) {
      assert s[|line| - 1..|line|] == "\n";
      FindIs(s, "\n", 0, |line| - 1);
      assert s[..|line|] == line && s[|line|..] == rest;
    } else {
      assert s == line && SplitLines(rest) == [];
      assert forall i | 0 <= i < |s| :: s[i] != '\n';
      forall i: nat ensures !OccursAt(s, "\n", i) { OccurrenceAt(s, "\n", i, 0); }
    }
  }

  lemma {:induction false} JoinClosed(ls: seq<string>)
    requires forall l <- ls :: Closed(l)
    ensures Closed(Join(ls))
  {
    if ls != [] {
      assert Closed(ls[0]);
      JoinClosed(ls[1..]);
    }
  }

  lemma {:induction false} SplitConcat(a: string, b: string)
    requires Closed(a)
    ensures SplitLines(a + b) == SplitLines(a) + SplitLines(b)
  {
    JoinSplit(a);
    JoinSplit(b);
    var la, lb := SplitLines(a), SplitLines(b);
    if la != [] {
      LastOfJoin(la);
      assert Closed(la[|la| - 1]);
    }
    assert LinesOf(la + lb);
    JoinConcat(la, lb);
    SplitJoin(la + lb);
  }

  lemma {:induction false} LastOfJoin(ls: seq<string>)
    requires ls != [] && ls[|ls| - 1] != ""
    ensures Join(ls) != "" && Join(ls)[|Join(ls)| - 1] == ls[|ls| - 1][|ls[|ls| - 1]| - 1]
  {
    if |ls| > 1 { LastOfJoin(ls[1..]); } else { assert Join(ls) == ls[0] + ""; }
  }
}
