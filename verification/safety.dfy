/** The safety rails: which commands are held back until they are confirmed. */
module Safety {
  import opened Wrappers
  import opened Text
  import opened PathPolicy
  import opened Shell

  // ---------- Tokens without regard to quotes ----------

  /** Redirections stand alone, separators are blanks. */
  function NormalChar(c: char): string {
    if c == '>' then " > " else if IsSeparator(c) then " " else [c]
  }

  function Normal(s: string): string {
    if s == "" then "" else NormalChar(s[0]) + Normal(s[1..])
  }

  function NonEmpty(word: string): seq<string> { if word == "" then [] else [word] }

  function SplitFrom(current: string, s: string): seq<string>
    decreases |s|
  {
    if s == "" then NonEmpty(current)
    else if IsWhitespace(s[0]) then NonEmpty(current) + SplitFrom("", s[1..])
    else SplitFrom(current + [s[0]], s[1..])
  }

  function TrimLeftQuotes(s: string): string
    decreases |s|
  {
    if s != "" && IsQuote(s[0]) then TrimLeftQuotes(s[1..]) else s
  }

  function TrimRightQuotes(s: string): string
    decreases |s|
  {
    if s != "" && IsQuote(s[|s| - 1]) then TrimRightQuotes(s[..|s| - 1]) else s
  }

  function Bared(words: seq<string>): seq<string> {
    if words == [] then []
    else NonEmpty(TrimRightQuotes(TrimLeftQuotes(words[0]))) + Bared(words[1..])
  }

  function PlainTokens(command: string): seq<string> { Bared(SplitFrom("", Normal(command))) }

  method ShellishTokens(command: string) returns (tokens: seq<string>)
    ensures tokens == PlainTokens(command)
  {
    hide Normal, NormalChar, Bared, SplitFrom;
    var normalized := "";
    assert command[0..] == command && "" + Normal(command) == Normal(command);
    for i := 0 to |command|
      invariant normalized + Normal(command[i..]) == Normal(command)
    {
      NormalTaken(normalized, command, i);
      normalized := normalized + NormalChar(command[i]);
    }
    NormalNone();
    assert command[|command|..] == "" && normalized + "" == normalized;
    tokens := Bared(SplitFrom("", normalized));
  }

  lemma NormalTaken(normalized: string, command: string, i: nat)
    requires i < |command|
    ensures normalized + Normal(command[i..]) == (normalized + NormalChar(command[i])) + Normal(command[i + 1..])
  {
    NormalStep(command[i..]);
    assert command[i..][1..] == command[i + 1..];
  }

  lemma NormalStep(s: string)
    requires s != ""
    ensures Normal(s) == NormalChar(s[0]) + Normal(s[1..])
  {
  }

  lemma {:induction false} NormalAround(a: string, c: char, b: string)
    requires NormalChar(c) == " "
    ensures Normal(a + [c] + b) == Normal(a) + " " + Normal(b)
  {
    hide Normal, NormalChar;
    if a == "" {
      NormalNone();
      NormalStep([c] + b);
      assert a + [c] + b == [c] + b && ([c] + b)[1..] == b && "" + " " + Normal(b) == " " + Normal(b);
    } else {
      NormalAround(a[1..], c, b);
      NormalStep(a);
      NormalStep(a + [c] + b);
      assert (a + [c] + b)[1..] == a[1..] + [c] + b && (a + [c] + b)[0] == a[0];
      hide *;
      Regrouped(NormalChar(a[0]), Normal(a[1..]), " ", Normal(b));
    }
  }

  lemma NormalNone()
    ensures Normal("") == ""
  {
  }

  lemma Regrouped(a: string, b: string, c: string, d: string)
    ensures a + (b + c + d) == (a + b) + c + d
  {
  }

  lemma {:induction false} SplitAt(current: string, a: string, b: string)
    ensures SplitFrom(current, a + " " + b) == SplitFrom(current, a) + SplitFrom("", b)
    decreases |a|
  {
    if a == "" {
      assert (a + " " + b)[1..] == b;
    } else {
      assert (a + " " + b)[1..] == a[1..] + " " + b && (a + " " + b)[0] == a[0];
      if IsWhitespace(a[0]) { SplitAt("", a[1..], b); } else { SplitAt(current + [a[0]], a[1..], b); }
      hide IsWhitespace;
    }
  }

  lemma BaredStep(word: string, words: seq<string>)
    ensures Bared([word] + words) == NonEmpty(TrimRightQuotes(TrimLeftQuotes(word))) + Bared(words)
  {
    hide NonEmpty, TrimLeftQuotes, TrimRightQuotes;
    assert ([word] + words)[1..] == words;
  }

  lemma BaredNone(b: seq<string>)
    ensures [] + b == b && Bared([]) + Bared(b) == Bared(b)
  {
  }

  lemma WordsRegrouped(x: seq<string>, a: seq<string>, b: seq<string>)
    ensures x + (a + b) == (x + a) + b
  {
  }

  lemma {:induction false} BaredConcat(a: seq<string>, b: seq<string>)
    ensures Bared(a + b) == Bared(a) + Bared(b)
  {
    hide *;
    BaredNone(b);
    if a != [] {
      BaredConcat(a[1..], b);
      BaredStep(a[0], a[1..]);
      BaredStep(a[0], a[1..] + b);
      assert a == [a[0]] + a[1..];
      WordsRegrouped([a[0]], a[1..], b);
      WordsRegrouped(NonEmpty(TrimRightQuotes(TrimLeftQuotes(a[0]))), Bared(a[1..]), Bared(b));
    }
  }

  /** These tokens of a sequence are those of its parts, quoted or not. */
  lemma TokensOfSequence(a: string, c: char, b: string)
    requires c == ' ' || IsSeparator(c)
    ensures PlainTokens(a + [c] + b) == PlainTokens(a) + PlainTokens(b)
  {
    NormalAround(a, c, b);
    SplitAt("", Normal(a), Normal(b));
    BaredConcat(SplitFrom("", Normal(a)), SplitFrom("", Normal(b)));
  }

  // ---------- Detectors on tokens ----------

  function BaseStart(token: string, n: nat): (r: nat)
    requires n <= |token|
    ensures r <= n
    ensures forall i | r <= i < n :: token[i] != '/' && token[i] != '\\'
    ensures r > 0 ==> token[r - 1] == '/' || token[r - 1] == '\\'
  {
    if n == 0 || token[n - 1] == '/' || token[n - 1] == '\\' then n else BaseStart(token, n - 1)
  }

  predicate NameIs(token: string, name: string) { token[BaseStart(token, |token|)..] == name }

  predicate HasShortFlag(arg: string, flag: char) { "-" <= arg && !("--" <= arg) && flag in arg[1..] }

  predicate IsRecursiveFlag(arg: string) { HasShortFlag(arg, 'r') || HasShortFlag(arg, 'R') || arg == "--recursive" }

  predicate IsForceFlag(arg: string) { HasShortFlag(arg, 'f') || arg == "--force" }

  predicate IsEtcPath(arg: string) { PathWithin("/etc", arg) }

  predicate IsOutputToEtc(arg: string) { "of=" <= arg && IsEtcPath(arg[3..]) }

  /** Some token named so is followed, anywhere later, by a token of this kind. */
  predicate NamedThen(tokens: seq<string>, name: string, kind: string -> bool) {
    exists i, j | 0 <= i < j < |tokens| :: NameIs(tokens[i], name) && kind(tokens[j])
  }

  /** A token names `rm`, and both kinds of flag come anywhere after it. */
  predicate RmRecursiveForceAt(tokens: seq<string>, i: nat)
    requires i < |tokens|
  {
    && NameIs(tokens[i], "rm")
    && (exists j | i < j < |tokens| :: IsRecursiveFlag(tokens[j]))
    && (exists j | i < j < |tokens| :: IsForceFlag(tokens[j]))
  }

  predicate RmRecursiveForce(tokens: seq<string>) {
    exists i: nat | i < |tokens| :: RmRecursiveForceAt(tokens, i)
  }

  predicate Adjacent(tokens: seq<string>, first: string, second: string) {
    exists i | 0 <= i < |tokens| - 1 :: NameIs(tokens[i], first) && tokens[i + 1] == second
  }

  predicate RedirectsToEtc(tokens: seq<string>) {
    exists i | 0 <= i < |tokens| - 1 ::
      && tokens[i] == ">"
      && (IsEtcPath(tokens[i + 1]) || (tokens[i + 1] == ">" && i + 2 < |tokens| && IsEtcPath(tokens[i + 2])))
  }

  predicate WritesToEtc(tokens: seq<string>) {
    || RedirectsToEtc(tokens)
    || NamedThen(tokens, "tee", IsEtcPath)
    || NamedThen(tokens, "cp", IsEtcPath)
    || NamedThen(tokens, "mv", IsEtcPath)
    || NamedThen(tokens, "install", IsEtcPath)
    || NamedThen(tokens, "dd", IsOutputToEtc)
  }

  /** Every reason to block but sudo. */
  predicate TokensBlock(tokens: seq<string>) {
    || RmRecursiveForce(tokens)
    || NamedThen(tokens, "chmod", IsRecursiveFlag)
    || NamedThen(tokens, "chown", IsRecursiveFlag)
    || Adjacent(tokens, "pm2", "delete")
    || WritesToEtc(tokens)
  }

  method HasRmRecursiveForce(tokens: seq<string>) returns (found: bool)
    ensures found == RmRecursiveForce(tokens)
  {
    hide NameIs, HasShortFlag;
    for i := 0 to |tokens|
      invariant forall k: nat | k < i :: !RmRecursiveForceAt(tokens, k)
    {
      if NameIs(tokens[i], "rm") {
        var recursive, force := false, false;
        for j := i + 1 to |tokens|
          invariant recursive <==> exists k | i < k < j :: IsRecursiveFlag(tokens[k])
          invariant force <==> exists k | i < k < j :: IsForceFlag(tokens[k])
        {
          FlagsStartWithDash(tokens[j]);
          if "-" <= tokens[j] {
            recursive := recursive
              || HasShortFlag(tokens[j], 'r') || HasShortFlag(tokens[j], 'R') || tokens[j] == "--recursive";
            force := force || HasShortFlag(tokens[j], 'f') || tokens[j] == "--force";
          }
        }
        if recursive && force {
          assert RmRecursiveForceAt(tokens, i);
          return true;
        }
      }
    }
    return false;
  }

  lemma FlagsStartWithDash(arg: string)
    ensures IsRecursiveFlag(arg) || IsForceFlag(arg) ==> "-" <= arg
  {
  }

  lemma NamedThenGrows(a: seq<string>, b: seq<string>, name: string, kind: string -> bool)
    ensures NamedThen(a, name, kind) || NamedThen(b, name, kind) ==> NamedThen(a + b, name, kind)
  {
    hide NameIs;
    var all := a + b;
    if NamedThen(a, name, kind) {
      var i, j :| 0 <= i < j < |a| && NameIs(a[i], name) && kind(a[j]);
      assert NameIs(all[i], name) && kind(all[j]);
    } else if NamedThen(b, name, kind) {
      var i, j :| 0 <= i < j < |b| && NameIs(b[i], name) && kind(b[j]);
      assert NameIs(all[|a| + i], name) && kind(all[|a| + j]);
    }
  }

  lemma RmGrows(a: seq<string>, b: seq<string>)
    ensures RmRecursiveForce(a) || RmRecursiveForce(b) ==> RmRecursiveForce(a + b)
  {
    hide NameIs, IsRecursiveFlag, IsForceFlag;
    var all := a + b;
    if RmRecursiveForce(a) {
      var i: nat :| i < |a| && RmRecursiveForceAt(a, i);
      var j :| i < j < |a| && IsRecursiveFlag(a[j]);
      var k :| i < k < |a| && IsForceFlag(a[k]);
      assert IsRecursiveFlag(all[j]) && IsForceFlag(all[k]);
      assert RmRecursiveForceAt(all, i);
    } else if RmRecursiveForce(b) {
      var i: nat :| i < |b| && RmRecursiveForceAt(b, i);
      var j :| i < j < |b| && IsRecursiveFlag(b[j]);
      var k :| i < k < |b| && IsForceFlag(b[k]);
      assert IsRecursiveFlag(all[|a| + j]) && IsForceFlag(all[|a| + k]);
      assert RmRecursiveForceAt(all, |a| + i);
    }
  }

  lemma AdjacentGrows(a: seq<string>, b: seq<string>, first: string, second: string)
    ensures Adjacent(a, first, second) || Adjacent(b, first, second) ==> Adjacent(a + b, first, second)
  {
    hide NameIs;
    var all := a + b;
    if Adjacent(a, first, second) {
      var i :| 0 <= i < |a| - 1 && NameIs(a[i], first) && a[i + 1] == second;
      assert NameIs(all[i], first) && all[i + 1] == second;
    } else if Adjacent(b, first, second) {
      var i :| 0 <= i < |b| - 1 && NameIs(b[i], first) && b[i + 1] == second;
      assert NameIs(all[|a| + i], first) && all[|a| + i + 1] == second;
    }
  }

  lemma RedirectGrows(a: seq<string>, b: seq<string>)
    ensures RedirectsToEtc(a) || RedirectsToEtc(b) ==> RedirectsToEtc(a + b)
  {
    hide IsEtcPath;
    var all := a + b;
    if RedirectsToEtc(a) {
      var i :| 0 <= i < |a| - 1 && a[i] == ">"
        && (IsEtcPath(a[i + 1]) || (a[i + 1] == ">" && i + 2 < |a| && IsEtcPath(a[i + 2])));
      assert all[i] == ">" && all[i + 1] == a[i + 1] && (i + 2 < |a| ==> all[i + 2] == a[i + 2]);
    } else if RedirectsToEtc(b) {
      var i :| 0 <= i < |b| - 1 && b[i] == ">"
        && (IsEtcPath(b[i + 1]) || (b[i + 1] == ">" && i + 2 < |b| && IsEtcPath(b[i + 2])));
      var n := |a| + i;
      assert all[n] == ">" && all[n + 1] == b[i + 1] && (i + 2 < |b| ==> all[n + 2] == b[i + 2]);
    }
  }

  /** More tokens before or after never hide a reason to block. */
  lemma BlockingGrows(a: seq<string>, b: seq<string>)
    ensures TokensBlock(a) || TokensBlock(b) ==> TokensBlock(a + b)
  {
    hide RmRecursiveForce, NamedThen, Adjacent, RedirectsToEtc;
    RmGrows(a, b);
    NamedThenGrows(a, b, "chmod", IsRecursiveFlag);
    NamedThenGrows(a, b, "chown", IsRecursiveFlag);
    AdjacentGrows(a, b, "pm2", "delete");
    RedirectGrows(a, b);
    NamedThenGrows(a, b, "tee", IsEtcPath);
    NamedThenGrows(a, b, "cp", IsEtcPath);
    NamedThenGrows(a, b, "mv", IsEtcPath);
    NamedThenGrows(a, b, "install", IsEtcPath);
    NamedThenGrows(a, b, "dd", IsOutputToEtc);
  }

  // ---------- Words at command position ----------

  predicate IsNameStart(c: char) { c == '_' || 'a' <= c <= 'z' || 'A' <= c <= 'Z' }

  predicate IsNameChar(c: char) { IsNameStart(c) || '0' <= c <= '9' }

  predicate IsAssignment(word: string) {
    match FindFrom(word, "=", 0)
    case None => false
    case Some(n) => n > 0 && IsNameStart(word[0]) && forall i | 0 <= i < n :: IsNameChar(word[i])
  }

  predicate IsPrefixWord(word: string) { word in {"command", "env", "exec", "nohup", "time"} }

  predicate Skipped(token: Token) { token.Word? && (IsAssignment(token.text) || IsPrefixWord(token.text)) }

  /** Whether the word after this token is at command position. */
  predicate NextAt(token: Token, at: bool) { token.Separator? || (at && Skipped(token)) }

  function WordAt(token: Token, at: bool): seq<string> {
    if token.Word? && at && !Skipped(token) then [token.text] else []
  }

  predicate PositionAfter(tokens: seq<Token>, at: bool) {
    if tokens == [] then at else PositionAfter(tokens[1..], NextAt(tokens[0], at))
  }

  function PositionWords(tokens: seq<Token>, at: bool): seq<string> {
    if tokens == [] then [] else WordAt(tokens[0], at) + PositionWords(tokens[1..], NextAt(tokens[0], at))
  }

  method CommandPositionWords(command: string) returns (words: seq<string>)
    ensures words == PositionWords(Tokenize(command), true)
  {
    words := [];
    var at := true;
    var tokens := ShellishWordsAndSeparators(command);
    hide IsAssignment, IsPrefixWord, Tokenize, PositionWords;
    PositionNone(at);
    for i := 0 to |tokens|
      invariant words == PositionWords(tokens[..i], true) && at == PositionAfter(tokens[..i], true)
    {
      PositionOneMore(tokens, i);
      match tokens[i] {
        case Separator => at := true;
        case Word(word) =>
          if !at {
          } else if IsAssignment(word) || IsPrefixWord(word) {
          } else {
            words := words + [word];
            at := false;
          }
      }
    }
    assert tokens[..|tokens|] == tokens;
  }

  lemma PositionNone(at: bool)
    ensures PositionWords([], at) == [] && PositionAfter([], at) == at
  {
  }

  lemma PositionOne(token: Token, at: bool)
    ensures PositionWords([token], at) == WordAt(token, at) && PositionAfter([token], at) == NextAt(token, at)
  {
    hide Skipped;
    assert [token][1..] == [];
  }

  lemma PositionOneMore(tokens: seq<Token>, i: nat)
    requires i < |tokens|
    ensures PositionWords(tokens[..i + 1], true)
         == PositionWords(tokens[..i], true) + WordAt(tokens[i], PositionAfter(tokens[..i], true))
    ensures PositionAfter(tokens[..i + 1], true) == NextAt(tokens[i], PositionAfter(tokens[..i], true))
  {
    hide *;
    assert tokens[..i + 1] == tokens[..i] + [tokens[i]];
    PositionConcat(tokens[..i], [tokens[i]], true);
    PositionOne(tokens[i], PositionAfter(tokens[..i], true));
  }

  lemma {:induction false} PositionConcat(a: seq<Token>, b: seq<Token>, at: bool)
    ensures PositionWords(a + b, at) == PositionWords(a, at) + PositionWords(b, PositionAfter(a, at))
    ensures PositionAfter(a + b, at) == PositionAfter(b, PositionAfter(a, at))
  {
    hide NextAt, WordAt;
    if a == [] {
      assert a + b == b;
    } else {
      PositionConcat(a[1..], b, NextAt(a[0], at));
      assert (a + b)[1..] == a[1..] + b && (a + b)[0] == a[0];
    }
  }

  predicate NamesSudo(words: seq<string>) { exists i | 0 <= i < |words| :: NameIs(words[i], "sudo") }

  lemma NamesSudoConcat(a: seq<string>, b: seq<string>)
    ensures NamesSudo(a + b) <==> NamesSudo(a) || NamesSudo(b)
  {
    hide NameIs;
    var all := a + b;
    assert forall i | 0 <= i < |a| :: all[i] == a[i];
    assert forall i | 0 <= i < |b| :: all[|a| + i] == b[i];
    if NamesSudo(all) {
      var i :| 0 <= i < |all| && NameIs(all[i], "sudo");
      assert if i < |a| then NameIs(a[i], "sudo") else NameIs(b[i - |a|], "sudo");
    }
  }

  // ---------- The decision ----------

  datatype Reason = ForceDelete | UsesSudo | RecursiveChmod | RecursiveChown | Pm2Delete | EtcWrite

  datatype Decision = Allow | Block(reason: Reason)

  predicate IsReason(command: string, reason: Reason) {
    var tokens := PlainTokens(Lower(command));
    match reason
    case ForceDelete => RmRecursiveForce(tokens)
    case UsesSudo => NamesSudo(PositionWords(Tokenize(Lower(command)), true))
    case RecursiveChmod => NamedThen(tokens, "chmod", IsRecursiveFlag)
    case RecursiveChown => NamedThen(tokens, "chown", IsRecursiveFlag)
    case Pm2Delete => Adjacent(tokens, "pm2", "delete")
    case EtcWrite => WritesToEtc(tokens)
  }

  /** The order in which the reasons are looked for. */
  function Rank(reason: Reason): nat {
    match reason
    case ForceDelete => 0
    case UsesSudo => 1
    case RecursiveChmod => 2
    case RecursiveChown => 3
    case Pm2Delete => 4
    case EtcWrite => 5
  }

  /** The reason holds, and none that goes before it. */
  predicate FirstReason(command: string, reason: Reason) {
    IsReason(command, reason) && forall r: Reason | Rank(r) < Rank(reason) :: !IsReason(command, r)
  }

  method ClassifyCommand(command: string, yes: bool) returns (decision: Decision)
    ensures decision.Block? <==> !yes && Blocks(command)
    ensures decision.Block? ==> FirstReason(command, decision.reason)
  {
    hide RmRecursiveForce, NamedThen, Adjacent, WritesToEtc, NamesSudo, PlainTokens, PositionWords, Tokenize;
    if yes { return Allow; }
    var tokens := ShellishTokens(Lower(command));
    var destroys := HasRmRecursiveForce(tokens);
    if destroys { return Block(ForceDelete); }
    var words := CommandPositionWords(Lower(command));
    if NamesSudo(words) { return Block(UsesSudo); }
    if NamedThen(tokens, "chmod", IsRecursiveFlag) { return Block(RecursiveChmod); }
    if NamedThen(tokens, "chown", IsRecursiveFlag) { return Block(RecursiveChown); }
    if Adjacent(tokens, "pm2", "delete") { return Block(Pm2Delete); }
    if WritesToEtc(tokens) { return Block(EtcWrite); }
    return Allow;
  }

  /** The command is blocked unless confirmed. */
  predicate Blocks(command: string) {
    TokensBlock(PlainTokens(Lower(command))) || NamesSudo(PositionWords(Tokenize(Lower(command)), true))
  }

  // ---------- Sequences ----------

  lemma LowerOfSequence(a: string, c: char, b: string)
    requires IsSeparator(c)
    ensures Lower(a + [c] + b) == Lower(a) + [c] + Lower(b)
  {
  }

  /** Commands whose quotes are closed: nothing that is blocked in a part is let through in the sequence. */
  lemma SequencingKeepsBlocks(a: string, c: char, b: string)
    requires c in {'&', '|', ';', '(', ')'} && Balanced(a) && (Blocks(a) || Blocks(b))
    ensures Blocks(a + [c] + b)
  {
    hide TokensBlock, NamesSudo, PlainTokens, PositionWords, Tokenize, Balanced;
    var x, y := Lower(a), Lower(b);
    LowerBalanced(a);
    LowerOfSequence(a, c, b);
    TokensOfSequence(x, c, y);
    BlockingGrows(PlainTokens(x), PlainTokens(y));
    SeparatorBreaks(c);
    TokenizeAround(x, c, y);
    SequenceWords(Tokenize(x), Tokenize(y));
    NamesSudoConcat(PositionWords(Tokenize(x), true), PositionWords(Tokenize(y), true));
  }

  lemma LowerBalanced(s: string)
    ensures Balanced(Lower(s)) <==> Balanced(s)
  {
    SameQuotesLowered(START, START, s);
  }

  lemma {:induction false} SameQuotesLowered(x: Scan, y: Scan, s: string)
    requires x.quote == y.quote && (x.quote.Some? ==> IsQuote(x.quote.value))
    ensures FeedAll(x, Lower(s)).quote == FeedAll(y, s).quote
    decreases |s|
  {
    if s != "" {
      assert Lower(s)[1..] == Lower(s[1..]);
      QuoteStep(x, y, s[0]);
      hide Feed;
      SameQuotesLowered(Feed(x, AsciiLower(s[0])), Feed(y, s[0]), s[1..]);
    }
  }

  lemma QuoteStep(x: Scan, y: Scan, c: char)
    requires x.quote == y.quote && (x.quote.Some? ==> IsQuote(x.quote.value))
    ensures Feed(x, AsciiLower(c)).quote == Feed(y, c).quote
    ensures Feed(y, c).quote.Some? ==> IsQuote(Feed(y, c).quote.value)
  {
    hide IsWhitespace;
  }

  lemma SeparatorBreaks(c: char)
    requires IsSeparator(c)
    ensures IsBreak(c)
  {
  }

  lemma SequenceWords(a: seq<Token>, b: seq<Token>)
    ensures PositionWords(a + [Separator] + b, true) == PositionWords(a, true) + PositionWords(b, true)
  {
    PositionConcat(a + [Separator], b, true);
    PositionConcat(a, [Separator], true);
    PositionOne(Separator, PositionAfter(a, true));
    hide PositionWords, PositionAfter;
  }

  // ---------- Commands with an open quotation ----------

  /** Blocked for something that an open quotation at the end has no part in: tokens found without regard
      to quotes, or a sudo whose word is finished. */
  predicate StablyBlocked(command: string) {
    || TokensBlock(PlainTokens(Lower(command)))
    || NamesSudo(PositionWords(FeedAll(START, Lower(command)).tokens, true))
  }

  /** What is found already stays found. */
  lemma TokensStay(scan: Scan, s: string) returns (rest: seq<Token>)
    ensures Finish(FeedAll(scan, s)) == scan.tokens + rest
  {
    var bare := scan.(tokens := []);
    FeedAfter(scan.tokens, bare, s);
    assert bare.(tokens := scan.tokens + bare.tokens) == scan by { assert scan.tokens + [] == scan.tokens; }
    hide FeedAll;
    rest := FeedAll(bare, s).tokens + OneWord(FeedAll(bare, s).current);
  }

  lemma StableSequence(a: string, c: char, b: string)
    requires IsSeparator(c) && StablyBlocked(a)
    ensures Blocks(a + [c] + b)
  {
    hide TokensBlock, NamesSudo, PlainTokens, PositionWords, FeedAll, PositionAfter, Finish;
    var x, y := Lower(a), Lower(b);
    LowerOfSequence(a, c, b);
    TokensOfSequence(x, c, y);
    BlockingGrows(PlainTokens(x), PlainTokens(y));
    FeedConcat(START, x, [c] + y);
    assert x + ([c] + y) == x + [c] + y;
    var found := FeedAll(START, x).tokens;
    var rest := TokensStay(FeedAll(START, x), [c] + y);
    PositionConcat(found, rest, true);
    NamesSudoConcat(PositionWords(found, true), PositionWords(rest, PositionAfter(found, true)));
  }

  lemma {:induction false} FeedInside(scan: Scan, s: string)
    requires scan.quote.Some? && scan.quote.value !in s
    ensures FeedAll(scan, s) == scan.(current := scan.current + s)
    decreases |s|
  {
    if s == "" {
      assert scan.current + s == scan.current;
    } else {
      assert s[0] in s && forall c | c in s[1..] :: c in s;
      FeedInside(scan.(current := scan.current + [s[0]]), s[1..]);
      assert scan.current + [s[0]] + s[1..] == scan.current + s;
    }
  }

  lemma {:induction false} OpenQuote(scan: Scan, s: string)
    requires scan.quote.Some? ==> IsQuote(scan.quote.value)
    ensures FeedAll(scan, s).quote.Some? ==> IsQuote(FeedAll(scan, s).quote.value)
    decreases |s|
  {
    if s != "" { OpenQuote(Feed(scan, s[0]), s[1..]); }
  }

  /** The word `sudo` alone is blocked. */
  lemma SudoBlocked()
    ensures Blocks("sudo") && Lower("sudo") == "sudo"
    ensures PlainTokens("sudo") == ["sudo"]
  {
    assert Lower("sudo") == "sudo";
    PlainIsOneWord("sudo");
    SudoIsSudo();
    SudoToken();
    hide NameIs, Tokenize, PlainTokens, TokensBlock, IsAssignment, Skipped;
    NotSkipped();
    PositionOne(Word("sudo"), true);
    assert NameIs(["sudo"][0], "sudo");
  }

  lemma NotSkipped()
    ensures !Skipped(Word("sudo"))
  {
    assert forall i: nat | i < 4 :: "sudo"[i..i + 1][0] == "sudo"[i];
  }

  lemma SudoIsSudo()
    ensures NameIs("sudo", "sudo")
  {
    assert "sudo"[0..] == "sudo";
  }

  lemma {:induction false} NormalOfPlain(s: string)
    requires forall i | 0 <= i < |s| :: s[i] != '>' && !IsSeparator(s[i])
    ensures Normal(s) == s
  {
    if s != "" {
      NormalOfPlain(s[1..]);
      assert s == [s[0]] + s[1..];
    }
  }

  lemma {:induction false} SplitOfWord(current: string, s: string)
    requires forall i | 0 <= i < |s| :: !IsWhitespace(s[i])
    ensures SplitFrom(current, s) == NonEmpty(current + s)
    decreases |s|
  {
    if s == "" {
      assert current + s == current;
    } else {
      assert !IsWhitespace(s[0]);
      hide IsWhitespace;
      SplitOfWord(current + [s[0]], s[1..]);
      assert current + [s[0]] + s[1..] == current + s;
    }
  }

  lemma BaredWord(word: string)
    requires word != "" && !IsQuote(word[0]) && !IsQuote(word[|word| - 1])
    ensures Bared([word]) == [word]
  {
    var none: seq<string> := [];
    assert [word][1..] == none;
  }

  lemma SudoToken()
    ensures PlainTokens("sudo") == ["sudo"]
  {
    hide Normal, SplitFrom, Bared;
    NormalOfPlain("sudo");
    SplitOfWord("", "sudo");
    assert "" + "sudo" == "sudo";
    BaredWord("sudo");
  }

  lemma NamedThenInert(tokens: seq<string>, name: string, kind: string -> bool)
    requires NamedThen(tokens + ["sudo"], name, kind) && !kind("sudo")
    ensures NamedThen(tokens, name, kind)
  {
    hide NameIs;
    var all := tokens + ["sudo"];
    var i, j :| 0 <= i < j < |all| && NameIs(all[i], name) && kind(all[j]);
    assert NameIs(tokens[i], name) && kind(tokens[j]);
  }

  lemma SudoIsHarmless()
    ensures !IsRecursiveFlag("sudo") && !IsForceFlag("sudo") && !IsEtcPath("sudo") && !IsOutputToEtc("sudo")
  {
    assert "sudo"[0] == 's' && "/etc"[0] == '/' && "of="[0] == 'o' && "-"[0] == '-';
  }

  lemma RmInert(tokens: seq<string>)
    requires RmRecursiveForce(tokens + ["sudo"])
    ensures RmRecursiveForce(tokens)
  {
    SudoIsHarmless();
    hide NameIs, IsRecursiveFlag, IsForceFlag;
    var all := tokens + ["sudo"];
    var i: nat :| i < |all| && RmRecursiveForceAt(all, i);
    var j :| i < j < |all| && IsRecursiveFlag(all[j]);
    var k :| i < k < |all| && IsForceFlag(all[k]);
    assert IsRecursiveFlag(tokens[j]) && IsForceFlag(tokens[k]);
    assert RmRecursiveForceAt(tokens, i);
  }

  lemma AdjacentInert(tokens: seq<string>)
    requires Adjacent(tokens + ["sudo"], "pm2", "delete")
    ensures Adjacent(tokens, "pm2", "delete")
  {
    hide NameIs;
    var all := tokens + ["sudo"];
    var i :| 0 <= i < |all| - 1 && NameIs(all[i], "pm2") && all[i + 1] == "delete";
    assert "sudo" != "delete";
    assert NameIs(tokens[i], "pm2") && tokens[i + 1] == "delete";
  }

  lemma RedirectInert(tokens: seq<string>)
    requires RedirectsToEtc(tokens + ["sudo"])
    ensures RedirectsToEtc(tokens)
  {
    SudoIsHarmless();
    hide IsEtcPath;
    var all := tokens + ["sudo"];
    var i :| 0 <= i < |all| - 1 && all[i] == ">"
      && (IsEtcPath(all[i + 1]) || (all[i + 1] == ">" && i + 2 < |all| && IsEtcPath(all[i + 2])));
    assert "sudo" != ">";
    assert tokens[i] == ">" && tokens[i + 1] == all[i + 1];
  }

  /** As the last of more tokens, `sudo` is no further reason to block. */
  lemma SudoTokenInert(tokens: seq<string>)
    ensures TokensBlock(tokens + ["sudo"]) ==> TokensBlock(tokens)
  {
    SudoIsHarmless();
    var all := tokens + ["sudo"];
    hide RmRecursiveForce, NamedThen, Adjacent, RedirectsToEtc, IsRecursiveFlag, IsForceFlag, IsEtcPath, IsOutputToEtc;
    if RmRecursiveForce(all) { RmInert(tokens); }
    if NamedThen(all, "chmod", IsRecursiveFlag) { NamedThenInert(tokens, "chmod", IsRecursiveFlag); }
    if NamedThen(all, "chown", IsRecursiveFlag) { NamedThenInert(tokens, "chown", IsRecursiveFlag); }
    if Adjacent(all, "pm2", "delete") { AdjacentInert(tokens); }
    if RedirectsToEtc(all) { RedirectInert(tokens); }
    if NamedThen(all, "tee", IsEtcPath) { NamedThenInert(tokens, "tee", IsEtcPath); }
    if NamedThen(all, "cp", IsEtcPath) { NamedThenInert(tokens, "cp", IsEtcPath); }
    if NamedThen(all, "mv", IsEtcPath) { NamedThenInert(tokens, "mv", IsEtcPath); }
    if NamedThen(all, "install", IsEtcPath) { NamedThenInert(tokens, "install", IsEtcPath); }
    if NamedThen(all, "dd", IsOutputToEtc) { NamedThenInert(tokens, "dd", IsOutputToEtc); }
  }

  /** A word that ends in `;sudo` names something else. */
  lemma SwallowedSudo(current: string)
    ensures !NameIs(current + ";sudo", "sudo")
  {
    var word := current + ";sudo";
    assert forall i | 0 <= i < 5 :: word[|current| + i] == ";sudo"[i];
    assert word[|current|] == ';';
    assert forall i | |current| <= i < |word| :: word[i] == ";sudo"[i - |current|];
    assert forall i | |current| <= i < |word| :: word[i] != '/' && word[i] != '\\';
    assert BaseStart(word, |word|) <= |current|;
  }

  /** An open quotation swallows a `sudo` that follows it. */
  lemma OpenSwallows(a: string)
    requires !Balanced(a) && !StablyBlocked(a)
    ensures !Blocks(a + ";sudo")
  {
    hide TokensBlock, NamesSudo, PlainTokens, PositionWords, FeedAll, PositionAfter, Finish;
    var x := Lower(a);
    LowerBalanced(a);
    LowerOfSequence(a, ';', "sudo");
    SudoBlocked();
    assert a + ";sudo" == a + [';'] + "sudo" && x + [';'] + "sudo" == x + ";sudo";
    TokensOfSequence(x, ';', "sudo");
    SudoTokenInert(PlainTokens(x));
    SwallowedWords(x);
  }

  lemma SwallowedWords(x: string)
    requires !Balanced(x) && !NamesSudo(PositionWords(FeedAll(START, x).tokens, true))
    ensures !NamesSudo(PositionWords(Tokenize(x + ";sudo"), true))
  {
    hide NamesSudo, PositionWords, FeedAll, PositionAfter;
    var scan := FeedAll(START, x);
    OpenQuote(START, x);
    FeedConcat(START, x, ";sudo");
    FeedInside(scan, ";sudo");
    var word := scan.current + ";sudo";
    SwallowedSudo(scan.current);
    hide NameIs, Skipped;
    assert Tokenize(x + ";sudo") == scan.tokens + [Word(word)];
    PositionConcat(scan.tokens, [Word(word)], true);
    PositionOne(Word(word), PositionAfter(scan.tokens, true));
    var last := WordAt(Word(word), PositionAfter(scan.tokens, true));
    NamesSudoConcat(PositionWords(scan.tokens, true), last);
    NamesSudoOne(word);
  }

  lemma NamesSudoOne(word: string)
    ensures NamesSudo([word]) <==> NameIs(word, "sudo")
    ensures !NamesSudo([])
  {
    hide NameIs;
    assert [word][0] == word;
  }

  /** Sequencing keeps every block behind a first command exactly when that command closes its quotes, or
      is blocked itself for something that an open quotation has no part in. */
  lemma SequencingKeepsBlocksExactly(a: string)
    ensures (forall b :: Blocks(a) || Blocks(b) ==> Blocks(a + ";" + b)) <==> Balanced(a) || StablyBlocked(a)
  {
    hide Blocks, Balanced, StablyBlocked;
    SudoBlocked();
    if Balanced(a) || StablyBlocked(a) {
      forall b | Blocks(a) || Blocks(b) ensures Blocks(a + ";" + b) {
        assert a + ";" + b == a + [';'] + b;
        if Balanced(a) { SequencingKeepsBlocks(a, ';', b); } else { StableSequence(a, ';', b); }
      }
    } else {
      OpenSwallows(a);
      assert a + ";" + "sudo" == a + ";sudo";
    }
  }

  /** A real pair of commands: a lone quotation mark, which is not blocked, hides the `sudo` after it. */
  lemma QuoteHidesSudo()
    ensures !Balanced("'") && !StablyBlocked("'") && Blocks("sudo") && !Blocks("'" + ";sudo")
  {
    var quote := "'";
    assert Lower(quote) == quote && quote[1..] == "";
    QuoteHasNoTokens();
    assert FeedAll(START, quote) == Scan([], "", Some('\''));
    assert !StablyBlocked(quote);
    SudoBlocked();
    OpenSwallows(quote);
  }

  lemma QuoteHasNoTokens()
    ensures !TokensBlock(PlainTokens("'"))
  {
    QuoteIsNoToken();
    hide PlainTokens;
  }

  lemma QuoteIsNoToken()
    ensures PlainTokens("'") == []
  {
    hide Normal, SplitFrom, Bared;
    NormalOfPlain("'");
    SplitOfWord("", "'");
    assert "" + "'" == "'";
    BaredQuote();
  }

  lemma BaredQuote()
    ensures Bared(["'"]) == []
  {
    var none: seq<string> := [];
    assert ["'"][1..] == none && "'"[1..] == "";
    assert TrimLeftQuotes("'") == "";
  }
}
