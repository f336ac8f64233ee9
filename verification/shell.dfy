/** Words and separators of a shell command, the quoting that survives them, and the wrappers that run a
    command as another user. */
module Shell {
  import opened Wrappers
  import opened Text
  import opened SuFraming

  // ---------- The tokenizer ----------

  datatype Token = Word(text: string) | Separator

  /** The tokenizer's state between two characters. */
  datatype Scan = Scan(tokens: seq<Token>, current: string, quote: Option<char>)

  const START := Scan([], "", None)

  predicate IsSeparator(c: char) { c in {'&', '|', ';', '(', ')'} }

  predicate IsBreak(c: char) { IsSeparator(c) || (IsWhitespace(c) && !IsQuote(c)) }

  function OneWord(text: string): seq<Token> { if text == "" then [] else [Word(text)] }

  function Feed(scan: Scan, c: char): Scan {
    if scan.quote.Some? then
      if c == scan.quote.value then scan.(quote := None) else scan.(current := scan.current + [c])
    else if IsQuote(c) then scan.(quote := Some(c))
    else if IsSeparator(c) then Scan(scan.tokens + OneWord(scan.current) + [Separator], "", None)
    else if IsWhitespace(c) then Scan(scan.tokens + OneWord(scan.current), "", None)
    else scan.(current := scan.current + [c])
  }

  function FeedAll(scan: Scan, s: string): Scan
    decreases |s|
  {
    if s == "" then scan else FeedAll(Feed(scan, s[0]), s[1..])
  }

  function Finish(scan: Scan): seq<Token> { scan.tokens + OneWord(scan.current) }

  function Tokenize(s: string): seq<Token> { Finish(FeedAll(START, s)) }

  method ShellishWordsAndSeparators(command: string) returns (tokens: seq<Token>)
    ensures tokens == Tokenize(command)
  {
    tokens := [];
    var current, quote: Option<char> := "", None;
    assert command[..0] == "" && command[..|command|] == command;
    for i := 0 to |command|
      invariant Scan(tokens, current, quote) == FeedAll(START, command[..i])
    {
      var c := command[i];
      assert command[..i + 1] == command[..i] + [c];
      FeedConcat(START, command[..i], [c]);
      if quote.Some? {
        if c == quote.value { quote := None; } else { current := current + [c]; }
      } else if c == '\'' || c == '"' {
        quote := Some(c);
      } else if IsSeparator(c) {
        tokens := tokens + OneWord(current) + [Separator];
        current := "";
      } else if IsWhitespace(c) {
        tokens := tokens + OneWord(current);
        current := "";
      } else {
        current := current + [c];
      }
    }
    tokens := tokens + OneWord(current);
  }

  lemma {:induction false} FeedConcat(scan: Scan, a: string, b: string)
    ensures FeedAll(scan, a + b) == FeedAll(FeedAll(scan, a), b)
    decreases |a|
  {
    hide Feed;
    if a == "" {
      assert a + b == b;
    } else {
      FeedConcat(Feed(scan, a[0]), a[1..], b);
      assert (a + b)[1..] == a[1..] + b;
    }
  }

  /** Tokens found earlier have no influence on what follows. */
  lemma {:induction false} FeedAfter(earlier: seq<Token>, scan: Scan, s: string)
    ensures FeedAll(scan.(tokens := earlier + scan.tokens), s)
         == FeedAll(scan, s).(tokens := earlier + FeedAll(scan, s).tokens)
    decreases |s|
  {
    if s != "" {
      var next := Feed(scan, s[0]);
      FeedOne(earlier, scan, s[0]);
      FeedAfter(earlier, next, s[1..]);
    }
  }

  lemma FeedOne(earlier: seq<Token>, scan: Scan, c: char)
    ensures Feed(scan.(tokens := earlier + scan.tokens), c) == Feed(scan, c).(tokens := earlier + Feed(scan, c).tokens)
  {
    hide IsWhitespace;
  }

  predicate Balanced(s: string) { FeedAll(START, s).quote == None }

  /** Between two words, outside quotes. */
  predicate AtBoundary(s: string) { Balanced(s) && FeedAll(START, s).current == "" }

  /** A separator or white space outside quotes cuts a command in two. */
  lemma TokenizeAround(a: string, c: char, b: string)
    requires Balanced(a) && IsBreak(c)
    ensures Tokenize(a + [c] + b) == Tokenize(a) + (if IsSeparator(c) then [Separator] else []) + Tokenize(b)
    ensures Balanced(a + [c] + b) <==> Balanced(b)
    ensures AtBoundary(a + [c] + b) <==> AtBoundary(b)
  {
    var before := FeedAll(START, a);
    var cut := Feed(before, c);
    assert cut == Scan(Finish(before) + (if IsSeparator(c) then [Separator] else []), "", None);
    assert FeedAll(before, [c]) == cut;
    FeedConcat(START, a, [c]);
    FeedConcat(START, a + [c], b);
    FeedAfter(cut.tokens, START, b);
    hide *;
    assert START.(tokens := cut.tokens + []) == cut;
  }

  // ---------- Quoting ----------

  function ShellQuote(value: string): string { "'" + ReplaceAll(value, "'", "'\"'\"'") + "'" }

  lemma {:induction false} FeedQuoted(scan: Scan, value: string)
    requires scan.quote == Some('\'')
    ensures FeedAll(scan, ReplaceAll(value, "'", "'\"'\"'")) == scan.(current := scan.current + value)
    decreases |value|
  {
    if value == "" {
      assert scan.current + value == scan.current;
    } else {
      var rest := ReplaceAll(value[1..], "'", "'\"'\"'");
      var next := scan.(current := scan.current + [value[0]]);
      var head := if value[0] == '\'' then "'\"'\"'" else [value[0]];
      assert "'" <= value <==> value[0] == '\'';
      assert ReplaceAll(value, "'", "'\"'\"'") == head + rest;
      FeedEscaped(scan, value[0]);
      hide Feed;
      FeedConcat(scan, head, rest);
      FeedQuoted(next, value[1..]);
      assert scan.current + [value[0]] + value[1..] == scan.current + value;
    }
  }

  lemma FeedEscaped(scan: Scan, c: char)
    requires scan.quote == Some('\'')
    ensures FeedAll(scan, if c == '\'' then "'\"'\"'" else [c]) == scan.(current := scan.current + [c])
  {
    if c == '\'' {
      var s := "'\"'\"'";
      var open := scan.(quote := None);
      assert s[1..] == "\"'\"'" && s[1..][1..] == "'\"'" && s[1..][1..][1..] == "\"'" && s[1..][1..][1..][1..] == "'";
      assert FeedAll(scan, s) == FeedAll(open, s[1..]);
      assert FeedAll(open, s[1..]) == FeedAll(open.(quote := Some('"')), s[1..][1..]);
      var in_ := open.(quote := Some('"'), current := scan.current + [c]);
      assert FeedAll(open.(quote := Some('"')), s[1..][1..]) == FeedAll(in_, s[1..][1..][1..]);
      assert FeedAll(in_, s[1..][1..][1..]) == FeedAll(in_.(quote := None), s[1..][1..][1..][1..]);
    }
  }

  /** Outside quotes, a quoted value is added to the current word as it is. */
  lemma FeedShellQuote(scan: Scan, value: string)
    requires scan.quote == None
    ensures FeedAll(scan, ShellQuote(value)) == scan.(current := scan.current + value)
  {
    var body := ReplaceAll(value, "'", "'\"'\"'");
    var open := scan.(quote := Some('\''));
    assert ShellQuote(value) == "'" + (body + "'");
    assert FeedAll(scan, "'") == open;
    FeedConcat(scan, "'", body + "'");
    FeedConcat(open, body, "'");
    FeedQuoted(open, value);
  }

  /** Quoting is undone by the tokenizer: one word for one value, and nothing for the empty one. */
  lemma QuotedIsOneWord(value: string)
    ensures Tokenize(ShellQuote(value)) == OneWord(value)
  {
    FeedShellQuote(START, value);
    assert "" + value == value;
  }

  /** Quote removal on a word made of quoted parts only, after sections 2.2.2 and 2.2.3 of the POSIX shell
      language: single quotes keep everything; double quotes keep everything but `$`, backquote and backslash. */
  function PosixUnquote(s: string, quote: Option<char>): Option<string> {
    if s == "" then
      if quote == None then Some("") else None
    else if quote == None then
      if IsQuote(s[0]) then PosixUnquote(s[1..], Some(s[0])) else None
    else if s[0] == quote.value then PosixUnquote(s[1..], None)
    else if quote.value == '"' && s[0] in {'$', '`', '\\'} then None
    else
      match PosixUnquote(s[1..], quote)
      case Some(rest) => Some([s[0]] + rest)
      case None => None
  }

  lemma {:induction false} PosixQuoted(value: string)
    ensures PosixUnquote(ReplaceAll(value, "'", "'\"'\"'") + "'", Some('\'')) == Some(value)
  {
    var body := ReplaceAll(value, "'", "'\"'\"'") + "'";
    if value == "" {
      assert body == "'" && body[1..] == "";
    } else {
      PosixQuoted(value[1..]);
      var rest := ReplaceAll(value[1..], "'", "'\"'\"'") + "'";
      assert "'" <= value <==> value[0] == '\'';
      assert value == [value[0]] + value[1..];
      if value[0] == '\'' {
        assert body == "'\"'\"'" + rest;
        PosixEscape(rest);
      } else {
        assert body[1..] == rest;
      }
    }
  }

  lemma PosixEscape(rest: string)
    requires PosixUnquote(rest, Some('\'')).Some?
    ensures PosixUnquote("'\"'\"'" + rest, Some('\'')) == Some("'" + PosixUnquote(rest, Some('\'')).value)
  {
    var s := "'\"'\"'" + rest;
    assert s[1..][1..][1..][1..][1..] == rest;
    assert PosixUnquote(s[1..][1..][1..][1..], None) == PosixUnquote(rest, Some('\''));
    assert PosixUnquote(s[1..][1..][1..], Some('"')) == PosixUnquote(rest, Some('\''));
    assert PosixUnquote(s[1..][1..], Some('"')) == Some("'" + PosixUnquote(rest, Some('\'')).value);
  }

  /** A POSIX shell reads a quoted value as that value, whatever is in it. */
  lemma QuotedIsLiteral(value: string)
    ensures PosixUnquote(ShellQuote(value), None) == Some(value)
  {
    PosixQuoted(value);
    var body := ReplaceAll(value, "'", "'\"'\"'") + "'";
    assert ShellQuote(value)[1..] == body;
  }

  // ---------- The wrappers ----------

  /** A quoted value between two pieces of a command line. */
  lemma QuotedBetween(a: string, value: string, c: char, b: string)
    requires AtBoundary(a) && IsBreak(c)
    ensures Tokenize(a + ShellQuote(value) + [c] + b)
         == Tokenize(a) + OneWord(value) + (if IsSeparator(c) then [Separator] else []) + Tokenize(b)
    ensures AtBoundary(a + ShellQuote(value) + [c] + b) <==> AtBoundary(b)
  {
    QuotedAtEnd(a, value);
    TokenizeAround(a + ShellQuote(value), c, b);
  }

  lemma QuotedAtEnd(a: string, value: string)
    requires AtBoundary(a)
    ensures Tokenize(a + ShellQuote(value)) == Tokenize(a) + OneWord(value)
    ensures Balanced(a + ShellQuote(value))
  {
    FeedConcat(START, a, ShellQuote(value));
    FeedShellQuote(FeedAll(START, a), value);
    assert "" + value == value;
  }

  // ---------- Fixed pieces of the wrappers ----------

  predicate IsPlain(word: string) {
    word != "" && forall i | 0 <= i < |word| :: !IsQuote(word[i]) && !IsBreak(word[i])
  }

  /** Words, each followed by a space. */
  function Spaced(words: seq<string>): string {
    if words == [] then "" else words[0] + " " + Spaced(words[1..])
  }

  function AsWords(words: seq<string>): seq<Token> {
    seq(|words|, i requires 0 <= i < |words| => Word(words[i]))
  }

  lemma {:induction false} FeedPlain(word: string, done: string)
    requires forall i | 0 <= i < |word| :: !IsQuote(word[i]) && !IsBreak(word[i])
    ensures FeedAll(Scan([], done, None), word) == Scan([], done + word, None)
    decreases |word|
  {
    if word == "" {
      assert done + word == done;
    } else {
      assert Feed(Scan([], done, None), word[0]) == Scan([], done + [word[0]], None);
      hide IsQuote, IsBreak, Feed;
      FeedPlain(word[1..], done + [word[0]]);
      assert done + [word[0]] + word[1..] == done + word;
    }
  }

  lemma PlainIsOneWord(word: string)
    requires IsPlain(word)
    ensures Tokenize(word) == [Word(word)] && Balanced(word)
  {
    FeedPlain(word, "");
    hide IsPlain, FeedAll;
    assert "" + word == word;
  }

  lemma SpacedStep(words: seq<string>)
    requires words != []
    ensures Spaced(words) == words[0] + [' '] + Spaced(words[1..])
    ensures AsWords(words) == [Word(words[0])] + AsWords(words[1..])
  {
  }

  lemma {:induction false} SpacedWords(words: seq<string>)
    requires forall w | w in words :: IsPlain(w)
    ensures Tokenize(Spaced(words)) == AsWords(words) && AtBoundary(Spaced(words))
  {
    hide IsPlain, IsBreak, Feed;
    if words != [] {
      hide *;
      assert forall w | w in words[1..] :: w in words;
      SpacedWords(words[1..]);
      PlainIsOneWord(words[0]);
      SpaceBreaks();
      SpacedStep(words);
      TokenizeAround(words[0], ' ', Spaced(words[1..]));
    }
  }

  lemma SpaceBreaks()
    ensures IsBreak(' ') && !IsSeparator(' ') && IsBreak(';') && IsSeparator(';')
  {
  }

  /** Pieces that are balanced on their own are balanced together. */
  lemma BalancedTogether(a: string, b: string)
    requires Balanced(a) && Balanced(b)
    ensures Balanced(a + b)
  {
    FeedConcat(START, a, b);
    SameQuotes(FeedAll(START, a), START, b);
  }

  lemma {:induction false} SameQuotes(x: Scan, y: Scan, s: string)
    requires x.quote == y.quote
    ensures FeedAll(x, s).quote == FeedAll(y, s).quote
    decreases |s|
  {
    if s != "" { SameQuotes(Feed(x, s[0]), Feed(y, s[0]), s[1..]); }
  }

  /** The character neither opens nor closes a quotation. */
  predicate Inert(quote: Option<char>, c: char) {
    if quote == None then !IsQuote(c) else c != quote.value
  }

  lemma {:induction false} QuoteFree(scan: Scan, s: string)
    requires forall i | 0 <= i < |s| :: Inert(scan.quote, s[i])
    ensures FeedAll(scan, s).quote == scan.quote
    decreases |s|
  {
    if s != "" {
      assert Inert(scan.quote, s[0]);
      QuoteFree(Feed(scan, s[0]), s[1..]);
    }
  }

  lemma BareBalanced(s: string)
    requires forall i | 0 <= i < |s| :: !IsQuote(s[i])
    ensures Balanced(s)
  {
    QuoteFree(START, s);
  }

  lemma WrappedBalanced(q: char, s: string)
    requires IsQuote(q) && q !in s
    ensures Balanced([q] + s + [q])
  {
    var open := START.(quote := Some(q));
    assert FeedAll(START, [q]) == open;
    FeedConcat(START, [q], s);
    FeedConcat(START, [q] + s, [q]);
    QuoteFree(open, s);
    assert FeedAll(FeedAll(open, s), [q]) == Feed(FeedAll(open, s), q);
  }

  lemma {:induction false} JoinBalanced(pieces: seq<string>)
    requires forall p | p in pieces :: Balanced(p)
    ensures Balanced(Join(pieces))
  {
    if pieces != [] {
      assert Balanced(pieces[0]);
      hide Balanced;
      assert forall p | p in pieces[1..] :: p in pieces;
      JoinBalanced(pieces[1..]);
      BalancedTogether(pieces[0], Join(pieces[1..]));
    }
  }

  lemma EndsAtBoundary(s: string, c: char)
    requires Balanced(s) && IsBreak(c)
    ensures AtBoundary(s + [c])
  {
    TokenizeAround(s, c, "");
    assert s + [c] + "" == s + [c];
  }

  // ---------- The wrappers ----------

  const NO_INPUT := "< /dev/null"

  /** Password-less sudo. */
  function SudoNCommand(command: string, user: string): string {
    Spaced(["sudo", "-n", "-u"]) + ShellQuote(user) + [' '] + Spaced(["--", "sh", "-c"]) + ShellQuote(command)
      + [' '] + NO_INPUT
  }

  /** Whatever they contain, the user and the command come back as one word each, at their places. */
  lemma SudoNWords(command: string, user: string)
    ensures Tokenize(SudoNCommand(command, user))
         == AsWords(["sudo", "-n", "-u"]) + OneWord(user) + AsWords(["--", "sh", "-c"]) + OneWord(command)
          + Tokenize(NO_INPUT)
  {
    SpacedWords(["sudo", "-n", "-u"]);
    SpacedWords(["--", "sh", "-c"]);
    hide Tokenize, AtBoundary, IsPlain, IsWhitespace, NO_INPUT, ShellQuote, Spaced, AsWords;
    TwoQuoted(Spaced(["sudo", "-n", "-u"]), user, Spaced(["--", "sh", "-c"]), command, NO_INPUT);
  }

  /** Two quoted values in a command line. */
  lemma TwoQuoted(a: string, x: string, b: string, y: string, c: string)
    requires AtBoundary(a) && AtBoundary(b)
    ensures Tokenize(a + ShellQuote(x) + [' '] + b + ShellQuote(y) + [' '] + c)
         == Tokenize(a) + OneWord(x) + Tokenize(b) + OneWord(y) + Tokenize(c)
  {
    hide *;
    SpaceBreaks();
    QuotedBetween(a, x, ' ', b);
    QuotedBetween(a + ShellQuote(x) + [' '] + b, y, ' ', c);
  }

  function Single(s: string): string { ['\''] + s + ['\''] }

  function Double(s: string): string { ['"'] + s + ['"'] }

  /** The script that sudo with a password runs through, up to its first user and between the two. */
  function SudoStart(): seq<string> {
    ["IFS= read -r ", "sshw_sudo_password ", "|| exit 1; printf ", Single("%s\\n"), " ", Double("$sshw_sudo_password"),
     " | sudo -S -p ", Single(""), " -u"]
  }

  function SudoMiddle(): seq<string> {
    ["-v; ", "sshw_sudo_status=$?", "; unset ", "sshw_sudo_password", "; [ ", Double("$sshw_sudo_status"),
     " -eq 0 ] || exit ", Double("$sshw_sudo_status"), "; sudo -n -p ", Single(""), " -u"]
  }

  function SudoScript(command: string, user: string): string {
    Join(SudoStart()) + [' '] + ShellQuote(user) + [' '] + (Join(SudoMiddle()) + [' ']) + ShellQuote(user) + [' ']
      + Spaced(["--", "sh", "-lc"]) + ShellQuote(command) + [' '] + NO_INPUT
  }

  function SudoCommand(command: string, user: string): string {
    Spaced(["sh", "-c"]) + ShellQuote(SudoScript(command, user))
  }

  lemma SudoPieces()
    ensures forall p | p in SudoStart() :: Balanced(p)
    ensures forall p | p in SudoMiddle() :: Balanced(p)
  {
    hide Balanced, FeedAll;
    BareBalanced("IFS= read -r ");
    BareBalanced("sshw_sudo_password ");
    BareBalanced("|| exit 1; printf ");
    BareBalanced(" ");
    BareBalanced(" | sudo -S -p ");
    BareBalanced(" -u");
    BareBalanced("-v; ");
    BareBalanced("sshw_sudo_status=$?");
    BareBalanced("; unset ");
    BareBalanced("sshw_sudo_password");
    BareBalanced("; [ ");
    BareBalanced(" -eq 0 ] || exit ");
    BareBalanced("; sudo -n -p ");
    WrappedBalanced('\'', "%s\\n");
    WrappedBalanced('\'', "");
    WrappedBalanced('"', "$sshw_sudo_password");
    WrappedBalanced('"', "$sshw_sudo_status");
  }

  /** The command that is sent has the whole script as one word. */
  lemma SudoWords(command: string, user: string)
    ensures Tokenize(SudoCommand(command, user)) == AsWords(["sh", "-c"]) + OneWord(SudoScript(command, user))
  {
    SpacedWords(["sh", "-c"]);
    hide Tokenize, AtBoundary, IsPlain, ShellQuote, Spaced, AsWords, SudoScript;
    QuotedAtEnd(Spaced(["sh", "-c"]), SudoScript(command, user));
  }

  /** In the script, the user and the command are one word each, at places that depend on neither. */
  lemma SudoScriptWords(command: string, user: string)
    ensures Tokenize(SudoScript(command, user))
         == Tokenize(Join(SudoStart()) + [' ']) + OneWord(user) + Tokenize(Join(SudoMiddle()) + [' ']) + OneWord(user)
          + AsWords(["--", "sh", "-lc"]) + OneWord(command) + Tokenize(NO_INPUT)
  {
    SpacedWords(["--", "sh", "-lc"]);
    SudoBoundaries();
    hide Tokenize, AtBoundary, IsPlain, NO_INPUT, ShellQuote, Spaced, AsWords, Join, SudoStart, SudoMiddle;
    ThreeQuoted(Join(SudoStart()) + [' '], user, Join(SudoMiddle()) + [' '], user, Spaced(["--", "sh", "-lc"]),
                command, NO_INPUT);
  }

  lemma SudoBoundaries()
    ensures AtBoundary(Join(SudoStart()) + [' ']) && AtBoundary(Join(SudoMiddle()) + [' '])
  {
    hide *;
    SudoPieces();
    SpaceBreaks();
    JoinBalanced(SudoStart());
    JoinBalanced(SudoMiddle());
    EndsAtBoundary(Join(SudoStart()), ' ');
    EndsAtBoundary(Join(SudoMiddle()), ' ');
  }

  lemma ThreeQuoted(a: string, x: string, b: string, y: string, c: string, z: string, d: string)
    requires AtBoundary(a) && AtBoundary(b) && AtBoundary(c)
    ensures Tokenize(a + ShellQuote(x) + [' '] + b + ShellQuote(y) + [' '] + c + ShellQuote(z) + [' '] + d)
         == Tokenize(a) + OneWord(x) + Tokenize(b) + OneWord(y) + Tokenize(c) + OneWord(z) + Tokenize(d)
  {
    hide *;
    SpaceBreaks();
    QuotedBetween(a, x, ' ', b);
    TwoQuoted(a + ShellQuote(x) + [' '] + b, y, c, z, d);
  }

  /** What su runs before the command: the first framing marker. */
  function SuStart(nonce: string): string {
    Spaced(["printf"]) + Single(BeginMarker(nonce) + "\\n") + "; sh -c" + [' ']
  }

  /** The command that su runs: the framing markers around it. */
  function SuInner(command: string, nonce: string): string {
    SuStart(nonce) + ShellQuote(command) + [';'] + SuTail(nonce)
  }

  function SuTail(nonce: string): string {
    " __sshw_ec=$?; printf " + Single(EndPrefix(nonce) + "%d__\\n") + [' '] + Double("$__sshw_ec")
  }

  function SuCommand(command: string, user: string, nonce: string): string {
    Spaced(["LC_ALL=C", "su", "-"]) + ShellQuote(user) + [' '] + Spaced(["-c"]) + ShellQuote(SuInner(command, nonce))
  }

  lemma MarkerHasNoQuote(nonce: string)
    requires IsNonce(nonce)
    ensures '\'' !in BeginMarker(nonce) + "\\n"
  {
  }

  lemma PrintfBalanced(nonce: string)
    requires IsNonce(nonce)
    ensures Balanced(Spaced(["printf"])) && Balanced(Single(BeginMarker(nonce) + "\\n")) && Balanced("; sh -c")
  {
    MarkerHasNoQuote(nonce);
    SpacedWords(["printf"]);
    hide Balanced, FeedAll, BeginMarker, Spaced, IsNonce;
    BareBalanced("; sh -c");
    WrappedBalanced('\'', BeginMarker(nonce) + "\\n");
  }

  lemma SuStartAtBoundary(nonce: string)
    requires IsNonce(nonce)
    ensures AtBoundary(SuStart(nonce))
  {
    hide Balanced, FeedAll, BeginMarker, Spaced, Single, AtBoundary, IsNonce, IsBreak;
    PrintfBalanced(nonce);
    SpaceBreaks();
    var s := Spaced(["printf"]) + Single(BeginMarker(nonce) + "\\n");
    BalancedTogether(Spaced(["printf"]), Single(BeginMarker(nonce) + "\\n"));
    BalancedTogether(s, "; sh -c");
    EndsAtBoundary(s + "; sh -c", ' ');
  }

  lemma TwoQuotedAtEnd(a: string, x: string, b: string, y: string)
    requires AtBoundary(a) && AtBoundary(b)
    ensures Tokenize(a + ShellQuote(x) + [' '] + b + ShellQuote(y))
         == Tokenize(a) + OneWord(x) + Tokenize(b) + OneWord(y)
  {
    hide *;
    SpaceBreaks();
    QuotedBetween(a, x, ' ', b);
    QuotedAtEnd(a + ShellQuote(x) + [' '] + b, y);
  }

  lemma SuFixedWords()
    ensures var a, b := ["LC_ALL=C", "su", "-"], ["-c"];
      && Tokenize(Spaced(a)) == AsWords(a) && AtBoundary(Spaced(a))
      && Tokenize(Spaced(b)) == AsWords(b) && AtBoundary(Spaced(b))
  {
    SpacedWords(["LC_ALL=C", "su", "-"]);
    SpacedWords(["-c"]);
  }

  /** The same for su: the script is one word of what is sent, and the command one word of the script. */
  lemma SuWords(command: string, user: string, nonce: string)
    ensures Tokenize(SuCommand(command, user, nonce))
         == AsWords(["LC_ALL=C", "su", "-"]) + OneWord(user) + AsWords(["-c"]) + OneWord(SuInner(command, nonce))
  {
    hide Tokenize, AtBoundary, ShellQuote, Spaced, AsWords, SuInner, OneWord;
    SuFixedWords();
    TwoQuotedAtEnd(Spaced(["LC_ALL=C", "su", "-"]), user, Spaced(["-c"]), SuInner(command, nonce));
  }

  lemma SuInnerWords(command: string, nonce: string)
    requires IsNonce(nonce)
    ensures Tokenize(SuInner(command, nonce))
         == Tokenize(SuStart(nonce)) + OneWord(command) + [Separator] + Tokenize(SuTail(nonce))
  {
    SuStartAtBoundary(nonce);
    SpaceBreaks();
    hide Tokenize, AtBoundary, IsWhitespace, IsBreak, ShellQuote, IsNonce, BeginMarker, SuStart, SuTail;
    QuotedBetween(SuStart(nonce), command, ';', SuTail(nonce));
  }
}
