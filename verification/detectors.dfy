/** What each detector finds, stated on the command as it is written. */
module Detectors {
  import opened Wrappers
  import opened Text
  import opened PathPolicy
  import opened Shell
  import opened Safety

  // ---------- Plainly written commands ----------

  /** A word without white space, quotes, separators and redirections. */
  predicate PlainArg(word: string) {
    word != "" && forall i | 0 <= i < |word| ::
      !IsWhitespace(word[i]) && word[i] !in {'\'', '"', '&', '|', ';', '(', ')', '>'}
  }

  /** Words with a space between them. */
  function CommandLine(words: seq<string>): string
    requires words != []
  {
    if |words| == 1 then words[0] else words[0] + " " + CommandLine(words[1..])
  }

  function Lowered(words: seq<string>): seq<string> {
    seq(|words|, i requires 0 <= i < |words| => Lower(words[i]))
  }

  lemma LowerPlain(word: string)
    requires PlainArg(word)
    ensures PlainArg(Lower(word)) && IsPlain(Lower(word))
  {
    assert forall c | 'A' <= c <= 'Z' :: !IsWhitespace(AsciiLower(c));
    hide IsWhitespace;
  }

  lemma {:induction false} LowerLine(words: seq<string>)
    requires words != []
    ensures Lower(CommandLine(words)) == CommandLine(Lowered(words))
  {
    if |words| > 1 {
      LowerLine(words[1..]);
      assert Lowered(words)[1..] == Lowered(words[1..]);
      assert Lower(" ") == " ";
      hide Lower;
      LowerConcat(words[0] + " ", CommandLine(words[1..]));
      LowerConcat(words[0], " ");
    }
  }

  lemma OneToken(word: string)
    requires PlainArg(word)
    ensures PlainTokens(word) == [word]
  {
    hide Normal, SplitFrom, Bared, IsWhitespace;
    NormalOfPlain(word);
    SplitOfWord("", word);
    assert "" + word == word;
    BaredWord(word);
  }

  lemma {:induction false} LineTokens(words: seq<string>)
    requires words != [] && forall i | 0 <= i < |words| :: PlainArg(words[i]) && IsPlain(words[i])
    ensures PlainTokens(CommandLine(words)) == words && Tokenize(CommandLine(words)) == AsWords(words)
  {
    hide PlainArg, IsPlain, PlainTokens, Tokenize, Balanced;
    OneToken(words[0]);
    PlainIsOneWord(words[0]);
    if |words| == 1 {
      assert words == [words[0]] && AsWords(words) == [Word(words[0])];
    } else {
      LineTokens(words[1..]);
      TokensOfSequence(words[0], ' ', CommandLine(words[1..]));
      SpaceBreaks();
      TokenizeAround(words[0], ' ', CommandLine(words[1..]));
      assert words == [words[0]] + words[1..];
      assert AsWords(words) == [Word(words[0])] + AsWords(words[1..]);
      assert words[0] + " " + CommandLine(words[1..]) == words[0] + [' '] + CommandLine(words[1..]);
    }
  }

  /** A plainly written command is judged by its words. */
  lemma PlainCommand(words: seq<string>)
    requires words != [] && forall i | 0 <= i < |words| :: PlainArg(words[i])
    ensures Blocks(CommandLine(words)) <==>
      TokensBlock(Lowered(words)) || NamesSudo(PositionWords(AsWords(Lowered(words)), true))
  {
    hide PlainArg, IsPlain, TokensBlock, NamesSudo, PositionWords, PlainTokens, Tokenize;
    forall i | 0 <= i < |words| ensures PlainArg(Lowered(words)[i]) && IsPlain(Lowered(words)[i]) {
      LowerPlain(words[i]);
    }
    LowerLine(words);
    LineTokens(Lowered(words));
  }

  // ---------- Names and flags ----------

  /** The word calls the program of this name, in any capital or small letters and under any directory. */
  predicate Calls(word: string, name: string) {
    exists n | 0 <= n <= |word| :: CallsAt(word, name, n)
  }

  predicate CallsAt(word: string, name: string, n: nat)
    requires n <= |word|
  {
    Spells(word[n..], name) && (n == 0 || word[n - 1] in {'/', '\\'})
  }

  /** A name of small letters. */
  predicate SmallName(name: string) {
    forall i | 0 <= i < |name| :: 'a' <= name[i] <= 'z' || '0' <= name[i] <= '9'
  }

  lemma NameExactly(word: string, name: string)
    requires SmallName(name)
    ensures NameIs(Lower(word), name) <==> Calls(word, name)
  {
    var lower := Lower(word);
    var start := BaseStart(lower, |lower|);
    assert forall i | 0 <= i < |word| :: lower[i] in {'/', '\\'} <==> word[i] in {'/', '\\'};
    forall n | 0 <= n <= |word| ensures Lower(word)[n..] == name <==> Spells(word[n..], name) {
      LowerSlice(word, n, |word|);
      assert word[n..|word|] == word[n..] && Lower(word)[n..|word|] == Lower(word)[n..];
      SpelledLower(word[n..], name);
    }
    if NameIs(lower, name) { assert CallsAt(word, name, start); }
    if n :| 0 <= n <= |word| && CallsAt(word, name, n) {
      assert lower[n..] == name;
      assert forall i | n <= i < |word| :: lower[i] == lower[n..][i - n];
      assert start == n;
    }
  }

  /** A short flag is found wherever it stands among others. */
  lemma ShortFlagExactly(flags: string, flag: char)
    requires flags != "" && flags[0] != '-'
    ensures HasShortFlag("-" + flags, flag) <==> flag in flags
  {
    var arg := "-" + flags;
    assert arg[1..] == flags && arg[1] == flags[0];
    assert "--"[1] == '-';
  }

  /** Words of letters behind one dash. */
  predicate FlagLetters(flags: string) {
    flags != "" && forall i | 0 <= i < |flags| :: 'a' <= flags[i] <= 'z' || 'A' <= flags[i] <= 'Z'
  }

  function Dashed(flags: seq<string>): seq<string> {
    seq(|flags|, i requires 0 <= i < |flags| => "-" + flags[i])
  }

  predicate HasLetter(flags: seq<string>, small: char) {
    exists i, j | 0 <= i < |flags| && 0 <= j < |flags[i]| :: IsCaseOf(flags[i][j], small)
  }

  lemma FlagsOfWord(flags: string)
    requires FlagLetters(flags)
    ensures var arg := Lower("-" + flags);
      && (IsRecursiveFlag(arg) <==> exists j | 0 <= j < |flags| :: IsCaseOf(flags[j], 'r'))
      && (IsForceFlag(arg) <==> exists j | 0 <= j < |flags| :: IsCaseOf(flags[j], 'f'))
      && !IsEtcPath(arg) && !IsOutputToEtc(arg) && arg != ">" && arg != "delete"
      && forall i | 0 <= i < |arg| :: arg[i] !in {'/', '\\'}
  {
    var lower := Lower(flags);
    assert forall j | 0 <= j < |flags| :: IsCaseOf(flags[j], lower[j]) && 'a' <= lower[j] <= 'z';
    assert Lower("-" + flags) == "-" + lower by {
      LowerConcat("-", flags);
      assert Lower("-") == "-";
    }
    ShortFlagExactly(lower, 'r');
    ShortFlagExactly(lower, 'R');
    ShortFlagExactly(lower, 'f');
    var arg := "-" + lower;
    assert arg[1] == lower[0] && arg[1] != '-';
    assert "--recursive"[1] == '-' && "--force"[1] == '-' && arg != "--recursive" && arg != "--force";
    assert 'R' !in lower;
    LetterFound(flags, 'r');
    LetterFound(flags, 'f');
    assert "/etc"[0] == '/' && "of="[0] == 'o' && arg[0] == '-' && ">"[0] == '>' && "delete"[0] == 'd';
  }

  lemma LetterFound(flags: string, small: char)
    requires 'a' <= small <= 'z'
    ensures small in Lower(flags) <==> exists j | 0 <= j < |flags| :: IsCaseOf(flags[j], small)
  {
    if small in Lower(flags) {
      var j :| 0 <= j < |flags| && Lower(flags)[j] == small;
      assert IsCaseOf(flags[j], small);
    }
    if j :| 0 <= j < |flags| && IsCaseOf(flags[j], small) { assert Lower(flags)[j] == small; }
  }

  // ---------- Commands of one program ----------

  const PROGRAMS := ["rm", "chmod", "chown", "pm2", "tee", "cp", "mv", "install", "dd"]

  lemma ProgramNames(name: string)
    requires name in PROGRAMS
    ensures SmallName(name) && name != "" && name != "sudo" && name != ">" && !IsPrefixWord(name)
  {
  }

  /** A word that begins with a dash and has no directory: it calls nothing. */
  predicate IsDashed(word: string) { word != "" && word[0] == '-' && '/' !in word && '\\' !in word }

  lemma DashedCallsNothing(word: string, name: string)
    requires IsDashed(word) && SmallName(name) && name != ""
    ensures !NameIs(Lower(word), name) && Lower(word) != ">"
  {
    var lower := Lower(word);
    var start := BaseStart(lower, |lower|);
    assert lower[0] == '-';
    assert forall i | 0 <= i < |word| :: word[i] in word && lower[i] == AsciiLower(word[i]) && lower[i] !in {'/', '\\'};
    assert start == 0;
    assert lower[0..] == lower;
  }

  /** Why a command of this program is blocked, by its arguments in small letters. */
  ghost predicate ArgumentsBlock(name: string, args: seq<string>) {
    if name == "rm" then
      (exists j | 0 <= j < |args| :: IsRecursiveFlag(args[j])) && (exists j | 0 <= j < |args| :: IsForceFlag(args[j]))
    else if name in {"chmod", "chown"} then exists j | 0 <= j < |args| :: IsRecursiveFlag(args[j])
    else if name == "pm2" then args != [] && args[0] == "delete"
    else if name == "dd" then exists j | 0 <= j < |args| :: IsOutputToEtc(args[j])
    else exists j | 0 <= j < |args| :: IsEtcPath(args[j])
  }

  /** The first token is the only one that calls something and has tokens behind it. */
  predicate OnlyCalls(tokens: seq<string>, name: string) {
    && tokens != [] && NameIs(tokens[0], name)
    && (forall i, p | 0 < i < |tokens| - 1 && p in PROGRAMS :: !NameIs(tokens[i], p))
    && (forall i | 0 <= i < |tokens| - 1 :: tokens[i] != ">")
  }

  lemma OnlyNamedThen(tokens: seq<string>, name: string, program: string, kind: string -> bool)
    requires OnlyCalls(tokens, name) && program in PROGRAMS
    ensures NamedThen(tokens, program, kind)
       <==> name == program && exists j | 0 <= j < |tokens[1..]| :: kind(tokens[1..][j])
  {
    hide NameIs, PROGRAMS;
    NamesOne(tokens[0], name, program);
    if NamedThen(tokens, program, kind) {
      var i, j :| 0 <= i < j < |tokens| && NameIs(tokens[i], program) && kind(tokens[j]);
      assert i == 0 && tokens[1..][j - 1] == tokens[j];
    }
    if j :| 0 <= j < |tokens[1..]| && kind(tokens[1..][j]) && name == program {
      assert kind(tokens[j + 1]) && NameIs(tokens[0], program);
    }
  }

  lemma NamesOne(token: string, a: string, b: string)
    requires NameIs(token, a)
    ensures NameIs(token, b) <==> a == b
  {
  }

  lemma OnlyRm(tokens: seq<string>, name: string)
    requires OnlyCalls(tokens, name)
    ensures RmRecursiveForce(tokens) <==> name == "rm" && ArgumentsBlock("rm", tokens[1..])
  {
    assert "rm" in PROGRAMS;
    hide NameIs, PROGRAMS, IsRecursiveFlag, IsForceFlag;
    NamesOne(tokens[0], name, "rm");
    var args := tokens[1..];
    if RmRecursiveForce(tokens) {
      var i: nat :| i < |tokens| && RmRecursiveForceAt(tokens, i);
      var j :| i < j < |tokens| && IsRecursiveFlag(tokens[j]);
      var k :| i < k < |tokens| && IsForceFlag(tokens[k]);
      assert i == 0 && args[j - 1] == tokens[j] && args[k - 1] == tokens[k];
    }
    if name == "rm" && ArgumentsBlock("rm", args) {
      var j :| 0 <= j < |args| && IsRecursiveFlag(args[j]);
      var k :| 0 <= k < |args| && IsForceFlag(args[k]);
      assert IsRecursiveFlag(tokens[j + 1]) && IsForceFlag(tokens[k + 1]);
      assert RmRecursiveForceAt(tokens, 0);
    }
  }

  lemma OnlyPm2(tokens: seq<string>, name: string)
    requires OnlyCalls(tokens, name)
    ensures Adjacent(tokens, "pm2", "delete") <==> name == "pm2" && ArgumentsBlock("pm2", tokens[1..])
    ensures !RedirectsToEtc(tokens)
  {
    assert "pm2" in PROGRAMS;
    hide NameIs, PROGRAMS;
    NamesOne(tokens[0], name, "pm2");
    if name == "pm2" && ArgumentsBlock("pm2", tokens[1..]) { assert NameIs(tokens[0], "pm2"); }
  }

  /** Which tokens of one program are a reason to block. */
  lemma ProgramTokens(tokens: seq<string>, name: string)
    requires name in PROGRAMS && OnlyCalls(tokens, name)
    ensures TokensBlock(tokens) <==> ArgumentsBlock(name, tokens[1..])
  {
    ProgramsListed(name);
    hide PROGRAMS, OnlyCalls, RmRecursiveForce, NamedThen, Adjacent, RedirectsToEtc, IsRecursiveFlag, IsForceFlag,
      IsEtcPath, IsOutputToEtc;
    OnlyRm(tokens, name);
    OnlyPm2(tokens, name);
    OnlyNamedThen(tokens, name, "chmod", IsRecursiveFlag);
    OnlyNamedThen(tokens, name, "chown", IsRecursiveFlag);
    OnlyNamedThen(tokens, name, "tee", IsEtcPath);
    OnlyNamedThen(tokens, name, "cp", IsEtcPath);
    OnlyNamedThen(tokens, name, "mv", IsEtcPath);
    OnlyNamedThen(tokens, name, "install", IsEtcPath);
    OnlyNamedThen(tokens, name, "dd", IsOutputToEtc);
  }

  lemma ProgramsListed(name: string)
    ensures forall p | p in ["chmod", "chown", "tee", "cp", "mv", "install", "dd"] :: p in PROGRAMS
    ensures name in PROGRAMS <==> name in {"rm", "chmod", "chown", "pm2", "tee", "cp", "mv", "install", "dd"}
  {
  }

  // ---------- Command position ----------

  lemma {:induction false} NoneAtPosition(words: seq<string>)
    ensures PositionWords(AsWords(words), false) == []
  {
    if words != [] {
      NoneAtPosition(words[1..]);
      assert AsWords(words)[1..] == AsWords(words[1..]);
    }
  }

  lemma FirstAtPosition(words: seq<string>)
    requires words != [] && !Skipped(Word(words[0]))
    ensures PositionWords(AsWords(words), true) == [words[0]]
  {
    hide Skipped;
    NoneAtPosition(words[1..]);
    assert AsWords(words)[1..] == AsWords(words[1..]);
  }

  lemma NameIsNotSkipped(word: string, name: string)
    requires '=' !in word && NameIs(word, name) && !IsPrefixWord(name)
    ensures !Skipped(Word(word))
  {
    NoAssignment(word);
    hide IsAssignment, IsPrefixWord, NameIs;
    if IsPrefixWord(word) { PrefixWordIsItsName(word, name); }
  }

  lemma PrefixWordIsItsName(word: string, name: string)
    requires IsPrefixWord(word)
    ensures NameIs(word, name) ==> name == word
  {
    assert forall i | 0 <= i < |word| :: word[i] !in {'/', '\\'};
    assert word[0..] == word;
  }

  lemma NoAssignment(word: string)
    requires '=' !in word
    ensures !IsAssignment(word)
  {
    forall i: nat ensures !OccursAt(word, "=", i) { OccurrenceAt(word, "=", i, 0); }
  }

  // ---------- Exactly which plain commands are blocked ----------

  /** A command of one program, called under any directory, with flags in any number before its last argument. */
  lemma ProgramBlocks(word: string, name: string, args: seq<string>)
    requires name in PROGRAMS && PlainArg(word) && '=' !in word && Calls(word, name)
    requires forall i | 0 <= i < |args| :: PlainArg(args[i]) && (i < |args| - 1 ==> IsDashed(args[i]))
    ensures Blocks(CommandLine([word] + args)) <==> ArgumentsBlock(name, Lowered(args))
  {
    hide *;
    var words := [word] + args;
    var tokens := Lowered(words);
    ProgramNames(name);
    NameExactly(word, name);
    NoEqualsLowered(word);
    LoweredTail(word, args);
    LineOnlyCalls(word, name, args);
    PlainCommand(words);
    ProgramTokens(tokens, name);
    NameIsNotSkipped(tokens[0], name);
    FirstAtPosition(tokens);
    NamesOne(tokens[0], name, "sudo");
    NamesSudoOne(tokens[0]);
  }

  lemma LoweredTail(word: string, args: seq<string>)
    ensures |Lowered([word] + args)| == |args| + 1 && |Lowered(args)| == |args|
    ensures Lowered([word] + args)[0] == Lower(word) && Lowered([word] + args)[1..] == Lowered(args)
    ensures forall i | 0 <= i < |args| :: Lowered(args)[i] == Lower(args[i])
  {
    hide Lower;
  }

  lemma LineOnlyCalls(word: string, name: string, args: seq<string>)
    requires name in PROGRAMS && NameIs(Lower(word), name)
    requires forall i | 0 <= i < |args| - 1 :: IsDashed(args[i])
    ensures OnlyCalls(Lowered([word] + args), name)
  {
    hide PROGRAMS, Lower, Lowered, NameIs, IsDashed;
    LoweredTail(word, args);
    var tokens := Lowered([word] + args);
    ProgramNames(name);
    FirstIsNoRedirect(Lower(word), name);
    forall i, p | 0 < i < |tokens| - 1 && p in PROGRAMS ensures !NameIs(tokens[i], p) {
      ProgramNames(p);
      assert tokens[i] == tokens[1..][i - 1];
      DashedCallsNothing(args[i - 1], p);
    }
    forall i | 0 < i < |tokens| - 1 ensures tokens[i] != ">" {
      assert tokens[i] == tokens[1..][i - 1];
      DashedCallsNothing(args[i - 1], name);
    }
  }

  lemma NoEqualsLowered(word: string)
    requires '=' !in word
    ensures '=' !in Lower(word)
  {
    assert forall i | 0 <= i < |word| :: word[i] in word && Lower(word)[i] == AsciiLower(word[i]);
  }

  lemma FirstIsNoRedirect(token: string, name: string)
    requires NameIs(token, name) && name != ">"
    ensures token != ">"
  {
    assert ">"[0..] == ">";
  }

  lemma FlagsAreDashed(flags: seq<string>, i: nat)
    requires i < |flags| && FlagLetters(flags[i])
    ensures PlainArg("-" + flags[i]) && IsDashed("-" + flags[i])
  {
    var arg := "-" + flags[i];
    assert forall j | 0 < j < |arg| :: arg[j] == flags[i][j - 1];
  }

  /** A last argument that is no flag. */
  lemma NotDashed(last: string)
    requires last != "" && last[0] != '-'
    ensures !IsRecursiveFlag(Lower(last)) && !IsForceFlag(Lower(last))
  {
    assert Lower(last)[0] != '-' && "-"[0] == '-' && "--recursive"[0] == '-' && "--force"[0] == '-';
  }

  /** The arguments of a command with flags before its last one. */
  lemma FlagArguments(flags: seq<string>, last: string)
    requires (forall i | 0 <= i < |flags| :: FlagLetters(flags[i])) && PlainArg(last) && last[0] != '-'
    ensures var args := Dashed(flags) + [last];
      && (forall i | 0 <= i < |args| :: PlainArg(args[i]) && (i < |args| - 1 ==> IsDashed(args[i])))
      && ((exists j | 0 <= j < |args| :: IsRecursiveFlag(Lowered(args)[j])) <==> HasLetter(flags, 'r'))
      && ((exists j | 0 <= j < |args| :: IsForceFlag(Lowered(args)[j])) <==> HasLetter(flags, 'f'))
  {
    var args := Dashed(flags) + [last];
    var lowered := Lowered(args);
    NotDashed(last);
    hide FlagLetters, PlainArg, IsDashed, IsRecursiveFlag, IsForceFlag, Lower;
    forall i | 0 <= i < |flags|
      ensures PlainArg(args[i]) && IsDashed(args[i])
      ensures IsRecursiveFlag(lowered[i]) <==> exists j | 0 <= j < |flags[i]| :: IsCaseOf(flags[i][j], 'r')
      ensures IsForceFlag(lowered[i]) <==> exists j | 0 <= j < |flags[i]| :: IsCaseOf(flags[i][j], 'f')
    {
      FlagsAreDashed(flags, i);
      FlagsOfWord(flags[i]);
    }
    LetterAmong(flags, lowered, 'r', IsRecursiveFlag);
    LetterAmong(flags, lowered, 'f', IsForceFlag);
  }

  lemma LetterAmong(flags: seq<string>, lowered: seq<string>, small: char, kind: string -> bool)
    requires |lowered| == |flags| + 1 && !kind(lowered[|flags|])
    requires forall i | 0 <= i < |flags| :: kind(lowered[i]) <==>
      exists j | 0 <= j < |flags[i]| :: IsCaseOf(flags[i][j], small)
    ensures (exists i | 0 <= i < |lowered| :: kind(lowered[i])) <==> HasLetter(flags, small)
  {
    hide IsCaseOf;
    if i :| 0 <= i < |lowered| && kind(lowered[i]) {
      var j :| 0 <= j < |flags[i]| && IsCaseOf(flags[i][j], small);
    }
    if HasLetter(flags, small) {
      var i, j :| 0 <= i < |flags| && 0 <= j < |flags[i]| && IsCaseOf(flags[i][j], small);
      assert kind(lowered[i]);
    }
  }

  /** `rm` with any flags before its last argument is blocked exactly if an `r` and an `f` are among their letters,
      wherever they stand, in one word or in several, capital or small. */
  lemma RmExactly(word: string, flags: seq<string>, last: string)
    requires PlainArg(word) && '=' !in word && Calls(word, "rm")
    requires (forall i | 0 <= i < |flags| :: FlagLetters(flags[i])) && PlainArg(last) && last[0] != '-'
    ensures Blocks(CommandLine([word] + (Dashed(flags) + [last]))) <==> HasLetter(flags, 'r') && HasLetter(flags, 'f')
  {
    ProgramsListed("rm");
    hide PlainArg, PROGRAMS, Calls, Blocks, FlagLetters, HasLetter, IsDashed, IsRecursiveFlag, IsForceFlag;
    FlagArguments(flags, last);
    ProgramBlocks(word, "rm", Dashed(flags) + [last]);
  }

  /** `chmod` and `chown` exactly if an `r` is among the letters. */
  lemma RecursiveChangeExactly(word: string, name: string, flags: seq<string>, last: string)
    requires name in {"chmod", "chown"} && PlainArg(word) && '=' !in word && Calls(word, name)
    requires (forall i | 0 <= i < |flags| :: FlagLetters(flags[i])) && PlainArg(last) && last[0] != '-'
    ensures Blocks(CommandLine([word] + (Dashed(flags) + [last]))) <==> HasLetter(flags, 'r')
  {
    ProgramsListed(name);
    ChangeIsNoRm(name);
    hide PlainArg, PROGRAMS, Calls, Blocks, FlagLetters, HasLetter, IsDashed, IsRecursiveFlag, IsForceFlag;
    FlagArguments(flags, last);
    ProgramBlocks(word, name, Dashed(flags) + [last]);
  }

  lemma ChangeIsNoRm(name: string)
    ensures name in {"chmod", "chown"} ==> name != "rm"
  {
  }

  lemma OneArgument(word: string, name: string, arg: string)
    requires name in PROGRAMS && PlainArg(word) && '=' !in word && Calls(word, name) && PlainArg(arg)
    ensures Blocks(word + " " + arg) <==> ArgumentsBlock(name, [Lower(arg)])
  {
    hide PlainArg, PROGRAMS, Calls, Blocks, ArgumentsBlock, Lower;
    ProgramBlocks(word, name, [arg]);
    assert [word] + [arg] == [word, arg] && [word, arg][1..] == [arg];
    assert CommandLine([word, arg]) == word + " " + CommandLine([arg]);
    assert Lowered([arg]) == [Lower(arg)];
  }

  /** `pm2` exactly with `delete` behind it. */
  lemma Pm2Exactly(word: string, arg: string)
    requires PlainArg(word) && '=' !in word && Calls(word, "pm2") && PlainArg(arg)
    ensures Blocks(word + " " + arg) <==> Spells(arg, "delete")
  {
    ProgramsListed("pm2");
    SpelledLower(arg, "delete");
    Pm2IsNoOther();
    hide PlainArg, PROGRAMS, Calls, Blocks, Lower, Spells;
    OneArgument(word, "pm2", arg);
    assert [Lower(arg)][0] == Lower(arg);
  }

  lemma Pm2IsNoOther()
    ensures "pm2" != "rm" && "pm2" !in {"chmod", "chown"}
  {
  }

  /** The path is `/etc` or leads into it, in any capital or small letters. */
  predicate InEtc(path: string) { SpelledAt(path, "/etc", 0) && (|path| == 4 || path[4] == '/') }

  lemma EtcExactly(path: string)
    ensures IsEtcPath(Lower(path)) <==> InEtc(path)
  {
    var lower := Lower(path);
    if |path| >= 4 {
      SpelledLower(path[..4], "/etc");
      assert lower[..4] == Lower(path[..4]);
      assert forall j | 0 <= j < 4 :: path[..4][j] == path[0 + j];
    }
  }

  lemma AnyOfOne(arg: string, kind: string -> bool)
    ensures (exists j | 0 <= j < |[arg]| :: kind([arg][j])) <==> kind(arg)
  {
    assert [arg][0] == arg;
  }

  /** The programs that write to a path given to them exactly if it is in `/etc`. */
  lemma WriterExactly(word: string, name: string, path: string)
    requires name in {"tee", "cp", "mv", "install"} && PlainArg(word) && '=' !in word && Calls(word, name)
    requires PlainArg(path)
    ensures Blocks(word + " " + path) <==> InEtc(path)
  {
    ProgramsListed(name);
    WriterIsNoOther(name);
    hide PlainArg, PROGRAMS, Calls, Blocks, Lower, InEtc, IsEtcPath;
    OneArgument(word, name, path);
    EtcExactly(path);
    AnyOfOne(Lower(path), IsEtcPath);
  }

  lemma WriterIsNoOther(name: string)
    requires name in {"tee", "cp", "mv", "install"}
    ensures name !in {"rm", "chmod", "chown", "pm2", "dd"}
  {
  }

  /** `dd` exactly if its output path is. */
  lemma DdExactly(word: string, of: string, path: string)
    requires PlainArg(word) && '=' !in word && Calls(word, "dd") && Spells(of, "of=") && PlainArg(of + path)
    ensures Blocks(word + " " + (of + path)) <==> InEtc(path)
  {
    ProgramsListed("dd");
    DdIsNoOther();
    OutputExactly(of, path);
    hide PlainArg, PROGRAMS, Calls, Blocks, Lower, InEtc, IsOutputToEtc;
    OneArgument(word, "dd", of + path);
    AnyOfOne(Lower(of + path), IsOutputToEtc);
  }

  lemma DdIsNoOther()
    ensures "dd" !in {"rm", "chmod", "chown", "pm2"}
  {
  }

  lemma OutputExactly(of: string, path: string)
    requires Spells(of, "of=")
    ensures IsOutputToEtc(Lower(of + path)) <==> InEtc(path)
  {
    LowerSpelled(of, "of=");
    LowerConcat(of, path);
    EtcExactly(path);
    assert ("of=" + Lower(path))[3..] == Lower(path);
  }

  // ---------- Redirections without blanks ----------

  lemma {:induction false} NormalConcat(a: string, b: string)
    ensures Normal(a + b) == Normal(a) + Normal(b)
  {
    if a == "" {
      assert a + b == b;
    } else {
      NormalConcat(a[1..], b);
      assert (a + b)[1..] == a[1..] + b && (a + b)[0] == a[0];
      hide NormalChar;
    }
  }

  lemma ArrowTokens()
    ensures SplitFrom("", ">") == [">"] && Bared([">"]) == [">"]
  {
    SplitOfWord("", ">");
    assert "" + ">" == ">";
    BaredWord(">");
  }

  /** A redirection stands alone among the tokens, whatever it is written onto. */
  lemma RedirectedTokens(a: string, b: string)
    ensures PlainTokens(a + ">" + b) == PlainTokens(a) + [">"] + PlainTokens(b)
  {
    hide Normal, SplitFrom, Bared;
    RedirectedNormal(a, b);
    ArrowTokens();
    SplitAt("", Normal(a), ">" + " " + Normal(b));
    SplitAt("", ">", Normal(b));
    BaredConcat(SplitFrom("", Normal(a)), [">"] + SplitFrom("", Normal(b)));
    BaredConcat([">"], SplitFrom("", Normal(b)));
  }

  lemma RedirectedNormal(a: string, b: string)
    ensures Normal(a + ">" + b) == Normal(a) + " " + (">" + " " + Normal(b))
  {
    assert Normal(">") == " > " by { assert ">"[1..] == ""; }
    hide Normal;
    NormalConcat(a + ">", b);
    NormalConcat(a, ">");
  }

  lemma NothingBetween()
    ensures PlainTokens("") == []
  {
  }

  lemma ArrowIsNothing(name: string)
    requires SmallName(name) && name != ""
    ensures !NameIs(">", name) && !IsRecursiveFlag(">") && !IsForceFlag(">") && !IsEtcPath(">") && !IsOutputToEtc(">")
    ensures ">" != "delete"
  {
    assert ">"[0..] == ">" && ">"[0] == '>' && "-"[0] == '-' && "/etc"[0] == '/' && "of="[0] == 'o';
    assert "delete"[0] == 'd' && "--recursive"[0] == '-' && "--force"[0] == '-';
    assert name[0] != '>';
  }

  lemma RootedIsNoFlag(path: string)
    requires path != "" && path[0] == '/'
    ensures var lower := Lower(path);
      !IsRecursiveFlag(lower) && !IsForceFlag(lower) && !IsOutputToEtc(lower) && lower != ">" && lower != "delete"
  {
    var lower := Lower(path);
    assert lower[0] == '/' && "-"[0] == '-' && "of="[0] == 'o' && ">"[0] == '>' && "delete"[0] == 'd';
    assert "--recursive"[0] == '-' && "--force"[0] == '-';
  }

  /** Tokens of a redirection: what is written onto, one or two arrows, and a path. */
  ghost predicate RedirectedTo(tokens: seq<string>, path: string) {
    && |tokens| in {3, 4} && tokens[1] == ">" && (|tokens| == 4 ==> tokens[2] == ">") && tokens[|tokens| - 1] == path
  }

  lemma RedirectedKinds(tokens: seq<string>, path: string, kind: string -> bool)
    requires RedirectedTo(tokens, path) && !kind(">")
    ensures forall j | 0 < j < |tokens| :: kind(tokens[j]) ==> kind(path)
  {
  }

  lemma NamedKind(tokens: seq<string>, name: string, kind: string -> bool)
    requires NamedThen(tokens, name, kind)
    ensures exists j | 0 < j < |tokens| :: kind(tokens[j])
  {
    hide NameIs;
  }

  lemma RedirectedNamedThen(tokens: seq<string>, path: string, name: string, kind: string -> bool)
    requires RedirectedTo(tokens, path) && !kind(">")
    ensures NamedThen(tokens, name, kind) ==> kind(path)
  {
    RedirectedKinds(tokens, path, kind);
    hide NamedThen, RedirectedTo;
    if NamedThen(tokens, name, kind) { NamedKind(tokens, name, kind); }
  }

  lemma RedirectedBlocks(tokens: seq<string>, path: string)
    requires RedirectedTo(tokens, path) && tokens[0] != ">" && path != ">" && path != "delete"
    requires !IsRecursiveFlag(path) && !IsForceFlag(path) && !IsOutputToEtc(path)
    ensures TokensBlock(tokens) <==> IsEtcPath(path)
  {
    ArrowIsNothing("rm");
    hide NameIs, IsRecursiveFlag, IsForceFlag, IsEtcPath, IsOutputToEtc, NamedThen, RmRecursiveForce, Adjacent,
      RedirectsToEtc, RedirectedTo;
    RedirectedNamedThen(tokens, path, "chmod", IsRecursiveFlag);
    RedirectedNamedThen(tokens, path, "chown", IsRecursiveFlag);
    RedirectedNamedThen(tokens, path, "tee", IsEtcPath);
    RedirectedNamedThen(tokens, path, "cp", IsEtcPath);
    RedirectedNamedThen(tokens, path, "mv", IsEtcPath);
    RedirectedNamedThen(tokens, path, "install", IsEtcPath);
    RedirectedNamedThen(tokens, path, "dd", IsOutputToEtc);
    RedirectedKinds(tokens, path, IsRecursiveFlag);
    NoFlagNoRm(tokens);
    NoDeleteRedirected(tokens, path);
    RedirectionSeen(tokens, path);
  }

  lemma RedirectionSeen(tokens: seq<string>, path: string)
    requires RedirectedTo(tokens, path) && tokens[0] != ">" && path != ">" && !IsEtcPath(">")
    ensures RedirectsToEtc(tokens) <==> IsEtcPath(path)
  {
    hide IsEtcPath;
    var n := |tokens| - 2;
    assert tokens[n] == ">" && tokens[n + 1] == path;
  }

  lemma NoFlagNoRm(tokens: seq<string>)
    requires forall j | 0 < j < |tokens| :: !IsRecursiveFlag(tokens[j])
    ensures !RmRecursiveForce(tokens)
  {
    hide NameIs, IsRecursiveFlag, IsForceFlag;
  }

  lemma NoDeleteRedirected(tokens: seq<string>, path: string)
    requires RedirectedTo(tokens, path) && path != "delete"
    ensures !Adjacent(tokens, "pm2", "delete")
  {
    ArrowIsNothing("pm2");
    hide NameIs;
  }

  /** A redirection to an absolute path, simple or appending and written without blanks, is blocked exactly if the
      path is in `/etc`. */
  lemma RedirectExactly(word: string, append: bool, path: string)
    requires PlainArg(word) && PlainArg(path) && path[0] == '/' && !Calls(path, "sudo")
    ensures Blocks(word + (if append then ">>" else ">") + path) <==> InEtc(path)
  {
    var arrow := if append then ">>" else ">";
    RootedIsNoFlag(path);
    hide *;
    var x, y := Lower(word), Lower(path);
    RedirectLowered(word, arrow, path);
    LowerPlain(word);
    LowerPlain(path);
    PlainIsNoArrow(x);
    EtcExactly(path);
    ArrowedTokens(x, append, y);
    var tokens := if append then [x, ">", ">", y] else [x, ">", y];
    IsRedirected(x, append, y);
    RedirectedBlocks(tokens, y);
    RedirectIsNoSudo(x, arrow, path);
    BlocksAs(word + arrow + path, tokens);
  }

  lemma BlocksAs(command: string, tokens: seq<string>)
    requires PlainTokens(Lower(command)) == tokens && !NamesSudo(PositionWords(Tokenize(Lower(command)), true))
    ensures Blocks(command) <==> TokensBlock(tokens)
  {
  }

  lemma IsRedirected(x: string, append: bool, y: string)
    ensures var tokens := if append then [x, ">", ">", y] else [x, ">", y]; RedirectedTo(tokens, y) && tokens[0] == x
  {
  }

  lemma ArrowedTokens(x: string, append: bool, y: string)
    requires PlainArg(x) && PlainArg(y)
    ensures PlainTokens(x + (if append then ">>" else ">") + y) == if append then [x, ">", ">", y] else [x, ">", y]
  {
    hide PlainTokens, PlainArg;
    OneToken(x);
    OneToken(y);
    NothingBetween();
    RedirectedTokens(x, y);
    RedirectedTokens(x, ">" + y);
    RedirectedTokens("", y);
    assert "" + ">" + y == ">" + y && x + ">" + (">" + y) == x + ">>" + y;
  }

  lemma RedirectLowered(word: string, arrow: string, path: string)
    requires arrow in {">", ">>"}
    ensures Lower(word + arrow + path) == Lower(word) + arrow + Lower(path)
  {
    LowerConcat(word + arrow, path);
    LowerConcat(word, arrow);
    assert Lower(">") == ">" && Lower(">>") == ">>";
  }

  lemma PlainIsNoArrow(word: string)
    requires PlainArg(word)
    ensures word != ">"
  {
    assert ">"[0] == '>';
  }

  lemma RedirectIsNoSudo(x: string, arrow: string, path: string)
    requires PlainArg(x) && PlainArg(Lower(path)) && arrow in {">", ">>"} && path != "" && path[0] == '/'
    requires !Calls(path, "sudo")
    ensures !NamesSudo(PositionWords(Tokenize(x + arrow + Lower(path)), true))
  {
    var y := Lower(path);
    var whole := x + arrow + y;
    assert IsPlain(whole);
    PlainIsOneWord(whole);
    NameExactly(path, "sudo");
    NameBehind(x + arrow, y, "sudo");
    hide NameIs, Skipped, PlainArg, Tokenize, NamesSudo, IsPlain;
    PositionOne(Word(whole), true);
    NamesSudoOne(whole);
  }

  /** What stands before the last slash has no part in the name. */
  lemma NameBehind(a: string, b: string, name: string)
    requires b != "" && b[0] == '/'
    ensures NameIs(a + b, name) <==> NameIs(b, name)
  {
    var whole := a + b;
    var n := BaseStart(b, |b|);
    var m := BaseStart(whole, |whole|);
    assert n > 0;
    assert forall i | 0 <= i < |b| :: whole[|a| + i] == b[i];
    assert whole[|a| + n - 1] == b[n - 1];
    assert forall i | |a| + n <= i < |whole| :: whole[i] == b[i - |a|];
    assert m == |a| + n;
    assert whole[m..] == b[n..];
  }

  // ---------- sudo at command position ----------

  /** Words that leave the next one at command position: one of the prefix programs, or an assignment. */
  predicate LeavesPosition(word: string) {
    || (exists p | p in {"command", "env", "exec", "nohup", "time"} :: Spells(word, p))
    || (exists n | 0 < n < |word| :: Assigned(word, n))
  }

  predicate Assigned(word: string, n: nat)
    requires 0 < n < |word|
  {
    && word[n] == '=' && !('0' <= word[0] <= '9')
    && forall i | 0 <= i < n ::
         word[i] == '_' || 'a' <= word[i] <= 'z' || 'A' <= word[i] <= 'Z' || '0' <= word[i] <= '9'
  }

  lemma LeavingIsSkipped(word: string)
    requires LeavesPosition(word)
    ensures Skipped(Word(Lower(word)))
  {
    var lower := Lower(word);
    if p :| p in {"command", "env", "exec", "nohup", "time"} && Spells(word, p) {
      PrefixIsSmall(p);
      LowerSpelled(word, p);
    } else {
      var n :| 0 < n < |word| && Assigned(word, n);
      assert lower[n] == '=' && lower[n..n + 1] == [lower[n]];
      forall i: nat | i < n ensures !OccursAt(lower, "=", i) { OccurrenceAt(lower, "=", i, 0); }
      FindIs(lower, "=", 0, n);
      assert IsNameStart(lower[0]) && forall i | 0 <= i < n :: IsNameChar(lower[i]);
    }
  }

  lemma PrefixIsSmall(p: string)
    requires p in {"command", "env", "exec", "nohup", "time"}
    ensures IsPrefixWord(p) && forall i | 0 <= i < |p| :: !('A' <= p[i] <= 'Z')
  {
  }

  lemma {:induction false} PositionBehind(before: seq<string>, word: string, rest: seq<string>)
    requires (forall i | 0 <= i < |before| :: Skipped(Word(before[i]))) && !Skipped(Word(word))
    ensures word in PositionWords(AsWords(before + [word] + rest), true)
  {
    hide Skipped;
    var words := before + [word] + rest;
    if before == [] {
      assert words == [word] + rest;
      FirstAtPosition(words);
    } else {
      PositionBehind(before[1..], word, rest);
      assert words[1..] == before[1..] + [word] + rest;
      assert AsWords(words)[1..] == AsWords(words[1..]) && AsWords(words)[0] == Word(before[0]);
    }
  }

  /** `sudo`, called under any directory and in any letters, is blocked behind any assignments and prefix programs,
      whatever its arguments are. */
  lemma SudoIsFound(before: seq<string>, word: string, rest: seq<string>)
    requires forall i | 0 <= i < |before| :: PlainArg(before[i]) && LeavesPosition(before[i])
    requires PlainArg(word) && '=' !in word && Calls(word, "sudo") && forall i | 0 <= i < |rest| :: PlainArg(rest[i])
    ensures Blocks(CommandLine(before + [word] + rest))
  {
    hide *;
    var words := before + [word] + rest;
    forall i | 0 <= i < |words| ensures PlainArg(words[i]) {
      assert words[i] == if i < |before| then before[i] else if i == |before| then word else rest[i - |before| - 1];
    }
    LeavingAreSkipped(before);
    SudoName();
    NameExactly(word, "sudo");
    NoEqualsLowered(word);
    NameIsNotSkipped(Lower(word), "sudo");
    PositionBehind(Lowered(before), Lower(word), Lowered(rest));
    LoweredParts(before, word, rest);
    NamesSudoAmong(PositionWords(AsWords(Lowered(words)), true), Lower(word));
    PlainCommand(words);
  }

  lemma LeavingAreSkipped(before: seq<string>)
    requires forall i | 0 <= i < |before| :: LeavesPosition(before[i])
    ensures |Lowered(before)| == |before| && forall i | 0 <= i < |before| :: Skipped(Word(Lowered(before)[i]))
  {
    hide LeavesPosition, Skipped;
    forall i | 0 <= i < |before| ensures Skipped(Word(Lowered(before)[i])) { LeavingIsSkipped(before[i]); }
  }

  lemma LoweredParts(before: seq<string>, word: string, rest: seq<string>)
    ensures Lowered(before + [word] + rest) == Lowered(before) + [Lower(word)] + Lowered(rest)
  {
    hide Lower;
  }

  lemma NamesSudoAmong(words: seq<string>, word: string)
    requires word in words && NameIs(word, "sudo")
    ensures NamesSudo(words)
  {
    hide NameIs;
  }

  lemma SudoName()
    ensures SmallName("sudo") && !IsPrefixWord("sudo")
  {
  }

  /** One word alone is blocked exactly if it calls `sudo`. */
  lemma OneWordExactly(word: string)
    requires PlainArg(word) && '=' !in word
    ensures Blocks(word) <==> Calls(word, "sudo")
  {
    hide PlainArg, Blocks, Calls, Lower, NameIs, Skipped, IsPrefixWord, TokensBlock, NamesSudo, PositionWords;
    assert Lowered([word]) == [Lower(word)] && CommandLine([word]) == word;
    PlainCommand([word]);
    OneTokenIsHarmless(Lower(word));
    SudoName();
    NameExactly(word, "sudo");
    NoEqualsLowered(word);
    NamesSudoOne(Lower(word));
    assert AsWords([Lower(word)]) == [Word(Lower(word))];
    PositionOne(Word(Lower(word)), true);
    if Calls(word, "sudo") { NameIsNotSkipped(Lower(word), "sudo"); }
  }

  lemma OneTokenIsHarmless(token: string)
    ensures !TokensBlock([token])
  {
    hide NameIs, IsEtcPath, IsRecursiveFlag, IsForceFlag, IsOutputToEtc;
  }
}
