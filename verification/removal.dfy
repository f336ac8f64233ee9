/** What redaction takes away. */
module Removal {
  import opened Wrappers
  import opened Text
  import opened Redaction

  // ---------- Sensitive values of a line ----------

  /** An occurrence of a keyword to which the value at `v` is assigned. */
  ghost predicate AssignedTo(content: string, k: Needle, i: nat, v: nat) {
    OccursAt(Lower(content), k, i) && i + |k| <= |content| && AssignedAt(content, i + |k|) == Some(v)
  }

  /** A token after `bearer` at `v`. */
  ghost predicate BearerAt(content: string, v: nat) {
    |BEARER| <= v < |content| && OccursAt(Lower(content), BEARER, v - |BEARER|) && !Blank(content[v..])
  }

  /** A value that is assigned to some keyword, or a bearer token, starts at `v`. */
  ghost predicate Sensitive(content: string, v: nat) {
    BearerAt(content, v) || exists k: Needle, i: nat :: k in SENSITIVE_KEYWORDS && AssignedTo(content, k, i, v)
  }

  // ---------- The scan sees every value ----------

  /** No two occurrences overlap, and three characters show it. */
  predicate StartsOnce(k: string) {
    forall d: nat | 0 < d < |k| :: ShiftDiffers(k, d)
  }

  predicate ShiftDiffers(k: string, d: nat)
    requires 0 < d < |k|
  {
    k[0] != k[d] || (d + 1 < |k| && k[1] != k[d + 1]) || (d + 2 < |k| && k[2] != k[d + 2])
  }

  lemma KeywordsStartOnce1()
    ensures StartsOnce("passphrase") && StartsOnce("password") && StartsOnce("passwd")
    ensures StartsOnce("secret_access_key")
  {
  }

  lemma KeywordsStartOnce2()
    ensures StartsOnce("secret_key") && StartsOnce("secret") && StartsOnce("access_token")
    ensures StartsOnce("refresh_token")
  {
  }

  lemma KeywordsStartOnce3()
    ensures StartsOnce("auth_token") && StartsOnce("api_key") && StartsOnce("apikey") && StartsOnce("api-key")
  {
  }

  lemma KeywordsStartOnce4()
    ensures StartsOnce("token") && StartsOnce("authorization") && StartsOnce("credential") && StartsOnce("private_key")
  {
  }

  lemma KeywordsStartOnce()
    ensures forall k | k in SENSITIVE_KEYWORDS :: StartsOnce(k)
  {
    hide StartsOnce;
    KeywordsStartOnce1();
    KeywordsStartOnce2();
    KeywordsStartOnce3();
    KeywordsStartOnce4();
  }

  lemma OccurrencesApart(hay: string, k: Needle, i: nat, j: nat)
    requires StartsOnce(k) && OccursAt(hay, k, i) && i < j
    ensures OccursAt(hay, k, j) ==> i + |k| <= j
  {
    var d := j - i;
    if d < |k| {
      assert ShiftDiffers(k, d);
      var n := if k[0] != k[d] then 0 else if d + 1 < |k| && k[1] != k[d + 1] then 1 else 2;
      OccurrenceAt(hay, k, i, d + n);
      OccurrenceAt(hay, k, j, n);
    }
  }

  lemma {:induction false} ScanFinds(content: string, k: Needle, from: nat, v: nat) returns (i: nat)
    requires ValueStartFrom(Lower(content), content, k, from) == Some(v)
    ensures AssignedTo(content, k, i, v)
    decreases |content| - from
  {
    hide Lower, AssignedAt, OccursAt, FindFrom;
    i := FindFrom(Lower(content), k, from).value;
    OccurrenceFits(Lower(content), k, i);
    if AssignedAt(content, i + |k|).None? {
      i := ScanFinds(content, k, i + |k|, v);
    }
  }

  /** No character that stands between a keyword and its value can begin a keyword. */
  lemma BetweenKeywordAndValue(content: string, e: nat, v: nat)
    requires e <= |content| && AssignedAt(content, e) == Some(v)
    ensures v < |content| && forall x | e <= x < v :: !KeywordChar(AsciiLower(content[x]))
  {
    assert forall c | IsWhitespace(c) || IsQuote(c) :: !KeywordChar(AsciiLower(c));
    var s := SeparatorAt(content, e);
    AssignmentParts(content, e, s, v);
    BetweenSeparatorAndValue(content, s, v);
    assert forall x | e <= x < s :: IsWhitespace(content[x]) || IsQuote(content[x]);
  }

  lemma NextOccurrence(content: string, k: Needle, e: nat, i: nat, v: nat)
    requires e <= |content| && AssignedAt(content, e) == Some(v) && KeywordChar(k[0])
    requires e <= i && OccursAt(Lower(content), k, i)
    ensures v <= i
  {
    hide AssignedAt, KeywordChar, AsciiLower;
    BetweenKeywordAndValue(content, e, v);
    OccurrenceAt(Lower(content), k, i, 0);
  }

  /** The scan for one keyword returns the leftmost of the values that are assigned to it. */
  lemma {:induction false} ScanFindsLeftmost(content: string, k: Needle, from: nat, i: nat, v: nat)
    requires StartsOnce(k) && KeywordChar(k[0]) && from <= i && AssignedTo(content, k, i, v)
    ensures var found := ValueStartFrom(Lower(content), content, k, from); found.Some? && found.value <= v
    decreases |content| - from
  {
    hide Lower, AssignedAt, OccursAt, StartsOnce, KeywordChar;
    var found := FindFrom(Lower(content), k, from);
    assert found.Some? && found.value <= i;
    if found.value < i {
      OccurrencesApart(Lower(content), k, found.value, i);
      OccurrenceFits(Lower(content), k, found.value);
      var e := found.value + |k|;
      match AssignedAt(content, e)
      case Some(w) => NextOccurrence(content, k, e, i, w);
      case None => ScanFindsLeftmost(content, k, e, i, v);
    }
  }

  /** The list is searched in order. */
  lemma {:induction false} FirstKeyword(content: string, keywords: seq<Needle>) returns (n: nat)
    ensures var first := FirstKeywordValue(Lower(content), content, keywords);
      && n <= |keywords| && (first.Some? <==> n < |keywords|)
      && (n < |keywords| ==> ValueStartFrom(Lower(content), content, keywords[n], 0) == first)
      && forall m | 0 <= m < n :: ValueStartFrom(Lower(content), content, keywords[m], 0).None?
  {
    hide Lower, ValueStartFrom;
    n := 0;
    if keywords != [] && ValueStartFrom(Lower(content), content, keywords[0], 0).None? {
      n := FirstKeyword(content, keywords[1..]);
      n := n + 1;
    }
  }

  lemma BearerIsLeftmost(content: string, v: nat)
    requires BearerAt(content, v)
    ensures var found := BearerValueStart(Lower(content), content); found.Some? && found.value <= v
  {
    hide Lower, Blank, OccursAt;
    var found := FindFrom(Lower(content), BEARER, 0);
    assert found.Some? && found.value + |BEARER| <= v;
    SuffixNotBlank(content, found.value + |BEARER|, v);
  }

  lemma BearerFound(content: string, s: nat)
    requires BearerValueStart(Lower(content), content) == Some(s)
    ensures BearerAt(content, s)
  {
    hide Lower, Blank, OccursAt;
  }

  /** The value at `v` is assigned to some occurrence of the keyword. */
  ghost predicate ValueOf(content: string, k: Needle, v: nat) { exists i: nat :: AssignedTo(content, k, i, v) }

  /** A value with its rank: bearer tokens have rank 0, and the values of a keyword its place in the list. */
  ghost predicate Ranked(content: string, n: nat, v: nat) {
    if n == 0 then BearerAt(content, v)
    else n <= |SENSITIVE_KEYWORDS| && ValueOf(content, SENSITIVE_KEYWORDS[n - 1], v)
  }

  lemma RankedIsSensitive(content: string, n: nat, v: nat)
    requires Ranked(content, n, v)
    ensures Sensitive(content, v)
  {
    hide SENSITIVE_KEYWORDS, AssignedTo, BearerAt;
    if n > 0 {
      var i: nat :| AssignedTo(content, SENSITIVE_KEYWORDS[n - 1], i, v);
      assert SENSITIVE_KEYWORDS[n - 1] in SENSITIVE_KEYWORDS;
    }
  }

  lemma SensitiveIsRanked(content: string, v: nat) returns (n: nat)
    requires Sensitive(content, v)
    ensures Ranked(content, n, v)
  {
    hide SENSITIVE_KEYWORDS, AssignedTo, BearerAt;
    n := 0;
    if !BearerAt(content, v) {
      var k: Needle, i: nat :| k in SENSITIVE_KEYWORDS && AssignedTo(content, k, i, v);
      var x :| 0 <= x < |SENSITIVE_KEYWORDS| && SENSITIVE_KEYWORDS[x] == k;
      n := x + 1;
    }
  }

  /** The value that is picked: of the first rank that has values, and the leftmost of that rank. */
  lemma PickedIsFirst(content: string) returns (n: nat)
    ensures SecretStart(content).Some? ==>
      && Ranked(content, n, SecretStart(content).value)
      && forall m: nat, u: nat | Ranked(content, m, u) :: n <= m && (m == n ==> SecretStart(content).value <= u)
    ensures SecretStart(content).None? ==> forall m: nat, u: nat :: !Ranked(content, m, u)
  {
    hide Lower, BearerValueStart, FirstKeywordValue, ValueStartFrom, SENSITIVE_KEYWORDS, AssignedTo, BearerAt;
    var picked := SecretStart(content);
    forall u: nat | Ranked(content, 0, u)
      ensures picked == BearerValueStart(Lower(content), content) && picked.Some? && picked.value <= u
    {
      BearerIsLeftmost(content, u);
    }
    if BearerValueStart(Lower(content), content).Some? {
      n := 0;
      BearerFound(content, picked.value);
    } else {
      var first := FirstKeyword(content, SENSITIVE_KEYWORDS);
      n := first + 1;
      if picked.Some? {
        var i := ScanFinds(content, SENSITIVE_KEYWORDS[first], 0, picked.value);
        assert ValueOf(content, SENSITIVE_KEYWORDS[n - 1], picked.value);
      }
      forall m: nat, u: nat | Ranked(content, m, u) ensures n <= m && (m == n ==> picked.Some? && picked.value <= u) {
        RankedScan(content, m, u);
      }
    }
  }

  /** What the scan returns, by rank and place alone. */
  lemma PickedExactlyWhen(content: string, v: nat)
    ensures SecretStart(content) == Some(v) <==>
      exists n: nat :: Ranked(content, n, v)
        && forall m: nat, u: nat | Ranked(content, m, u) :: n < m || (n == m && v <= u)
  {
    hide SecretStart, Ranked;
    var n := PickedIsFirst(content);
    if r: nat :|
      && Ranked(content, r, v)
      && forall m: nat, u: nat | Ranked(content, m, u) :: r < m || (r == m && v <= u)
    {
      assert SecretStart(content).Some?;
      assert n == r;
    }
  }

  lemma RankedScan(content: string, m: nat, u: nat)
    requires 0 < m && Ranked(content, m, u)
    ensures m <= |SENSITIVE_KEYWORDS|
    ensures var found := ValueStartFrom(Lower(content), content, SENSITIVE_KEYWORDS[m - 1], 0);
      found.Some? && found.value <= u
  {
    hide Lower, ValueStartFrom, SENSITIVE_KEYWORDS, AssignedTo, StartsOnce, KeywordChar;
    var k := SENSITIVE_KEYWORDS[m - 1];
    var i: nat :| AssignedTo(content, k, i, u);
    KeywordsStartOnce();
    KeywordsAreWords();
    assert k in SENSITIVE_KEYWORDS;
    ScanFindsLeftmost(content, k, 0, i, u);
  }

  /** A line is masked exactly if it has a sensitive value; and the mask starts at one. */
  lemma MaskedExactlyWhen(content: string)
    ensures SecretStart(content).Some? <==> exists v: nat :: Sensitive(content, v)
    ensures SecretStart(content).Some? ==> Sensitive(content, SecretStart(content).value)
  {
    hide SecretStart, Sensitive, Ranked;
    var n := PickedIsFirst(content);
    if SecretStart(content).Some? { RankedIsSensitive(content, n, SecretStart(content).value); }
    if v: nat :| Sensitive(content, v) { var m := SensitiveIsRanked(content, v); }
  }

  // ---------- Which values are gone ----------

  /** Everything from the mask on is taken away: what is left of a masked line is what stood before. */
  lemma ValueIsCut(content: string, ending: string, v: nat)
    requires Sensitive(content, v) && SplitEnding(content + ending) == (content, ending)
    ensures SecretStart(content).Some? && Sensitive(content, SecretStart(content).value)
    ensures RedactLine(content + ending) == Masked(content, SecretStart(content).value) + ending
  {
    hide SecretStart, Sensitive, SplitEnding;
    MaskedExactlyWhen(content);
  }

  /** An assignment before the mask reads the same with and without it. */
  lemma AssignedBeforeMask(content: string, e: nat, s: nat, v: nat)
    requires e <= v < s < |content| && !Blank(content[s..])
    ensures AssignedAt(Masked(content, s), e) == Some(v) <==> AssignedAt(content, e) == Some(v)
  {
    MaskNotBlank(content, s);
    SuffixNotBlank(content, v, s);
    SuffixNotBlank(Masked(content, s), v, s);
    var t := Masked(content, s);
    assert forall i | 0 <= i < s :: t[i] == content[i];
    assert !IsWhitespace(t[s]);
    hide IsWhitespace, IsQuote, Masked, Blank;
    SameSkips(content, t, s, e);
    SameSkips(t, content, s, e);
  }

  /** Two texts that agree up to `s`: what is assigned before `s` in one is found at the same place in the other. */
  lemma SameSkips(a: string, b: string, s: nat, e: nat)
    requires e < s < |a| && s < |b| && forall i | 0 <= i < s :: a[i] == b[i]
    ensures AssignedAt(a, e).Some? && AssignedAt(a, e).value < s && !Blank(b[AssignedAt(a, e).value..]) ==>
      AssignedAt(b, e) == AssignedAt(a, e)
  {
    hide IsWhitespace, IsQuote, IsSeparator, Blank;
  }

  /** A sensitive value before the mask is one of the unmasked line, and the other way round. */
  lemma SensitiveBeforeMask(content: string, s: nat, v: nat)
    requires v < s < |content| && !Blank(content[s..])
    ensures Sensitive(Masked(content, s), v) <==> Sensitive(content, v)
  {
    var t := Masked(content, s);
    KeywordsHaveShape();
    BearerBeforeMask(content, s, v);
    hide Masked, Lower, OccursAt, SENSITIVE_KEYWORDS, BearerAt, AssignedAt;
    forall k, i | k in SENSITIVE_KEYWORDS ensures AssignedTo(t, k, i, v) <==> AssignedTo(content, k, i, v) {
      AssignedToBeforeMask(content, s, v, k, i);
    }
  }

  lemma AssignedToBeforeMask(content: string, s: nat, v: nat, k: Needle, i: nat)
    requires v < s < |content| && !Blank(content[s..]) && KeywordShape(k)
    ensures AssignedTo(Masked(content, s), k, i, v) <==> AssignedTo(content, k, i, v)
  {
    hide Masked, Lower, OccursAt, AssignedAt, KeywordChar, MaskChar, Blank;
    var e := i + |k|;
    if e <= v {
      AssignedBeforeMask(content, e, s, v);
      if OccursAt(Lower(content), k, i) { OccursInMasked(content, s, k, i); }
      if OccursAt(Lower(Masked(content, s)), k, i) {
        assert '<' !in k by { assert !KeywordChar('<') by { NotKeywordChar(); } }
        OccursBeforeMask(content, s, k, i);
      }
    } else {
      AssignedIsLater(content, e, v);
      AssignedIsLater(Masked(content, s), e, v);
    }
  }

  lemma NotKeywordChar()
    ensures !KeywordChar('<')
  {
  }

  lemma AssignedIsLater(content: string, e: nat, v: nat)
    ensures e <= |content| && AssignedAt(content, e) == Some(v) ==> e < v
  {
  }

  lemma BearerBeforeMask(content: string, s: nat, v: nat)
    requires v < s < |content| && !Blank(content[s..])
    ensures BearerAt(Masked(content, s), v) <==> BearerAt(content, v)
  {
    MaskNotBlank(content, s);
    assert '<' !in BEARER && !MaskChar(BEARER[6]);
    hide Masked, Lower, OccursAt, MaskChar, Blank;
    SuffixNotBlank(content, v, s);
    SuffixNotBlank(Masked(content, s), v, s);
    if |BEARER| <= v {
      var i: nat := v - |BEARER|;
      if OccursAt(Lower(content), BEARER, i) { OccursInMasked(content, s, BEARER, i); }
      if OccursAt(Lower(Masked(content, s)), BEARER, i) { OccursBeforeMask(content, s, BEARER, i); }
    }
  }

  /** No sensitive value starts before `s`. */
  ghost predicate NoneBefore(content: string, s: nat) {
    forall v: nat | Sensitive(content, v) :: s <= v
  }

  /** Some value of the line is the leftmost one and of the first rank at once. */
  ghost predicate FirstIsLeftmost(content: string) {
    exists n: nat, v: nat :: Ranked(content, n, v) && forall m: nat, u: nat | Ranked(content, m, u) :: n <= m && v <= u
  }

  /** Redaction leaves no sensitive value but the mask exactly when one value of the line is both of the first
      rank and the leftmost. */
  lemma EveryValueGoneExactlyWhen(content: string)
    requires SecretStart(content).Some?
    ensures var s := SecretStart(content).value; NoneBefore(Masked(content, s), s) <==> FirstIsLeftmost(content)
  {
    var s := SecretStart(content).value;
    PickedIsNotBlank(content);
    hide SecretStart, Sensitive, Masked, Ranked;
    forall v: nat | v < s ensures Sensitive(Masked(content, s), v) <==> Sensitive(content, v) {
      SensitiveBeforeMask(content, s, v);
    }
    assert NoneBefore(Masked(content, s), s) <==> NoneBefore(content, s);
    NoneBeforePicked(content);
  }

  lemma NoneBeforePicked(content: string)
    requires SecretStart(content).Some?
    ensures NoneBefore(content, SecretStart(content).value) <==> FirstIsLeftmost(content)
  {
    hide SecretStart, Sensitive, Ranked;
    var s := SecretStart(content).value;
    var n := PickedIsFirst(content);
    if NoneBefore(content, s) {
      forall m: nat, u: nat | Ranked(content, m, u) ensures n <= m && s <= u { RankedIsSensitive(content, m, u); }
    }
    if FirstIsLeftmost(content) {
      forall v: nat | Sensitive(content, v) ensures s <= v { var m := SensitiveIsRanked(content, v); }
    }
  }

  lemma PickedIsNotBlank(content: string)
    requires SecretStart(content).Some?
    ensures SecretStart(content).value < |content| && !Blank(content[SecretStart(content).value..])
  {
    var s := SecretStart(content).value;
    MaskedExactlyWhen(content);
    hide SecretStart, Lower, OccursAt, SENSITIVE_KEYWORDS, Blank;
    if !BearerAt(content, s) {
      var k: Needle, i: nat :| k in SENSITIVE_KEYWORDS && AssignedTo(content, k, i, s);
    }
  }

  // ---------- Words and lines ----------

  lemma KeywordsAreWords()
    ensures forall k | k in SENSITIVE_KEYWORDS :: 'a' <= k[0] <= 'z' && forall i | 0 <= i < |k| :: KeywordChar(k[i])
  {
    KeywordsHaveShape();
    hide KeywordShape;
    KeywordStarts();
    forall k | k in SENSITIVE_KEYWORDS ensures forall i | 0 <= i < |k| :: KeywordChar(k[i]) {
      ShapeIsWord(k);
    }
  }

  lemma ShapeIsWord(k: string)
    requires KeywordShape(k)
    ensures forall i | 0 <= i < |k| :: KeywordChar(k[i])
  {
  }

  lemma KeywordStarts()
    ensures forall k | k in SENSITIVE_KEYWORDS :: 'a' <= k[0] <= 'z'
  {
  }

  lemma NoBlankNoBearer(line: string, v: nat)
    requires forall i | 0 <= i < |line| :: !IsWhitespace(line[i])
    ensures !BearerAt(line, v)
  {
    if |BEARER| <= v {
      OccurrenceAt(Lower(line), BEARER, v - |BEARER|, 6);
    }
  }

  lemma WordIsLine(line: string)
    requires line != "" && 'a' <= line[0] <= 'z' && forall i | 0 <= i < |line| :: !IsWhitespace(line[i])
    ensures IsLine(line) && !BeginsKey(line) && SplitEnding(line) == (line, "")
  {
    BeginsKeyPositions(line);
    assert SkipWs(line, 0) == 0;
    OccurrenceAt(line, KEY_BEGIN, 0, 0);
    assert !(line[|line| - 1] == '\n');
    assert line[|line| - 1..][0] == line[|line| - 1];
    assert |line| >= 2 ==> line[|line| - 2..][1] == line[|line| - 1];
  }

  // ---------- A value that stays ----------

  const TWO_VALUES := "token=a password=b"

  lemma TwoValuesAreLower()
    ensures Lower(TWO_VALUES) == TWO_VALUES
  {
    var text, lower := TWO_VALUES, Lower(TWO_VALUES);
    assert |text| == 18 && forall i | 0 <= i < 18 :: text[i] == ' ' || text[i] == '=' || 'a' <= text[i] <= 'z';
    hide TWO_VALUES;
    assert forall i | 0 <= i < 18 :: lower[i] == text[i];
  }

  lemma TwoValuesParts()
    ensures |TWO_VALUES| == 18
    ensures TWO_VALUES[0..5] == "token" && TWO_VALUES[5] == '=' && TWO_VALUES[6] == 'a'
    ensures TWO_VALUES[8..16] == "password" && TWO_VALUES[16] == '=' && TWO_VALUES[17] == 'b'
  {
    var token, password := "token", "password";
    assert forall i | 0 <= i < 5 :: TWO_VALUES[i] == token[i];
    assert forall i | 0 <= i < 8 :: TWO_VALUES[8 + i] == password[i];
  }

  lemma TwoValuesLetters()
    ensures |TWO_VALUES| == 18 && 'h' !in TWO_VALUES
    ensures forall i | 0 <= i < 18 :: (TWO_VALUES[i] == 'p' ==> i == 8) && (TWO_VALUES[i] == 'b' ==> i == 17)
  {
  }

  lemma AbsentCharacter(hay: string, k: string, n: nat)
    requires n < |k| && k[n] !in hay
    ensures FindFrom(hay, k, 0) == None
  {
    forall i: nat ensures !OccursAt(hay, k, i) {
      OccurrenceAt(hay, k, i, n);
    }
  }

  lemma PlainlyAssigned(content: string, e: nat)
    requires e + 1 < |content| && content[e] == '=' && 'a' <= content[e + 1] <= 'z'
    ensures AssignedAt(content, e) == Some(e + 1)
  {
    assert content[e + 1..][0] == content[e + 1];
  }

  lemma ScanHits(lower: string, content: string, k: Needle, i: nat)
    requires |lower| == |content| && FindFrom(lower, k, 0) == Some(i) && i + |k| <= |content|
    requires AssignedAt(content, i + |k|).Some?
    ensures ValueStartFrom(lower, content, k, 0) == AssignedAt(content, i + |k|)
  {
    hide FindFrom, AssignedAt, OccursAt;
  }

  lemma SecondIsPicked(content: string)
    requires FindFrom(Lower(content), BEARER, 0) == None && FindFrom(Lower(content), SENSITIVE_KEYWORDS[0], 0) == None
    requires ValueStartFrom(Lower(content), content, SENSITIVE_KEYWORDS[1], 0).Some?
    ensures SecretStart(content) == ValueStartFrom(Lower(content), content, SENSITIVE_KEYWORDS[1], 0)
  {
    assert ValueStartFrom(Lower(content), content, SENSITIVE_KEYWORDS[0], 0) == None;
    hide SENSITIVE_KEYWORDS, ValueStartFrom, Lower, FindFrom, BEARER;
    FirstIsSecond(content, SENSITIVE_KEYWORDS);
  }

  lemma FirstIsSecond(content: string, keywords: seq<Needle>)
    requires |keywords| > 1 && ValueStartFrom(Lower(content), content, keywords[0], 0).None?
    requires ValueStartFrom(Lower(content), content, keywords[1], 0).Some?
    ensures FirstKeywordValue(Lower(content), content, keywords)
         == ValueStartFrom(Lower(content), content, keywords[1], 0)
  {
    hide ValueStartFrom, Lower;
    assert keywords[1..][0] == keywords[1];
  }

  lemma PasswordIsSecond()
    ensures |SENSITIVE_KEYWORDS| == 16 && SENSITIVE_KEYWORDS[0] == "passphrase" && SENSITIVE_KEYWORDS[1] == "password"
    ensures SENSITIVE_KEYWORDS[12] == "token" && "passphrase"[5] == 'h' && BEARER[0] == 'b' && |BEARER| == 7
  {
  }

  lemma PasswordFound()
    ensures FindFrom(TWO_VALUES, "password", 0) == Some(8) && FindFrom(TWO_VALUES, BEARER, 0) == None
  {
    TwoValuesAreLower();
    TwoValuesParts();
    TwoValuesLetters();
    PasswordIsSecond();
    hide TWO_VALUES, BEARER, SENSITIVE_KEYWORDS, Lower;
    forall i: nat ensures OccursAt(TWO_VALUES, "password", i) ==> i == 8 {
      OccurrenceAt(TWO_VALUES, "password", i, 0);
    }
    assert OccursAt(TWO_VALUES, "password", 8);
    FindIs(TWO_VALUES, "password", 0, 8);
    forall i: nat ensures !OccursAt(TWO_VALUES, BEARER, i) {
      OccurrenceAt(TWO_VALUES, BEARER, i, 0);
    }
  }

  /** A real line of which a value stays: `password` goes before `token`, and the value of `token` at 6 is
      before that of `password` at 17. */
  lemma EarlierValueStays()
    ensures SecretStart(TWO_VALUES) == Some(17) && Sensitive(TWO_VALUES, 6) && !FirstIsLeftmost(TWO_VALUES)
    ensures !NoneBefore(Masked(TWO_VALUES, 17), 17)
  {
    PasswordIsPicked();
    hide *;
    NotYetAtMask(TWO_VALUES, 6, 17);
    NoneBeforePicked(TWO_VALUES);
    EveryValueGoneExactlyWhen(TWO_VALUES);
  }

  lemma NotYetAtMask(content: string, v: nat, s: nat)
    requires Sensitive(content, v) && v < s
    ensures !NoneBefore(content, s)
  {
    hide Sensitive;
  }

  lemma PasswordIsPicked()
    ensures SecretStart(TWO_VALUES) == Some(17) && Sensitive(TWO_VALUES, 6) && |TWO_VALUES| == 18
  {
    TwoValuesAreLower();
    TwoValuesParts();
    TwoValuesLetters();
    PasswordIsSecond();
    hide TWO_VALUES, BEARER, SENSITIVE_KEYWORDS, Lower, SecretStart, AssignedAt, FindFrom, BearerAt;
    PlainlyAssigned(TWO_VALUES, 5);
    assert AssignedTo(TWO_VALUES, "token", 0, 6) && SENSITIVE_KEYWORDS[12] in SENSITIVE_KEYWORDS;
    PasswordFound();
    AbsentCharacter(TWO_VALUES, "passphrase", 5);
    PlainlyAssigned(TWO_VALUES, 16);
    ScanHits(Lower(TWO_VALUES), TWO_VALUES, "password", 8);
    SecondIsPicked(TWO_VALUES);
  }

  // ---------- Key blocks ----------

  lemma {:induction false} InsideBlock(inner: seq<string>, end: string, rest: seq<string>)
    requires (forall l | l in inner :: !EndsKey(l)) && EndsKey(end)
    ensures DropKeys(inner + [end] + rest, true) == DropKeys(rest, false)
  {
    hide EndsKey, BeginsKey;
    if inner == [] {
      assert (inner + [end] + rest)[1..] == rest;
    } else {
      InsideBlock(inner[1..], end, rest);
      assert inner[0] in inner && (inner + [end] + rest)[1..] == inner[1..] + [end] + rest;
    }
  }

  /** A key block leaves its placeholder and nothing else, wherever it stands. */
  lemma {:induction false} KeyBlockIsGone(before: seq<string>, begin: string, inner: seq<string>, end: string,
                                          rest: seq<string>)
    requires (forall l | l in before :: !BeginsKey(l)) && BeginsKey(begin)
    requires (forall l | l in inner :: !EndsKey(l)) && EndsKey(end)
    ensures DropKeys(before + [begin] + inner + [end] + rest, false)
         == before + [Placeholder(begin)] + DropKeys(rest, false)
  {
    hide EndsKey, BeginsKey, Placeholder;
    var all := before + [begin] + inner + [end] + rest;
    if before == [] {
      assert all[1..] == inner + [end] + rest;
      InsideBlock(inner, end, rest);
    } else {
      KeyBlockIsGone(before[1..], begin, inner, end, rest);
      assert before[0] in before && all[1..] == before[1..] + [begin] + inner + [end] + rest;
    }
  }
}
