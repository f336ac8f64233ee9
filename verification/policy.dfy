/** Transfer allowlists: a raw string comparison that has to mean containment of paths. */
module PathPolicy {
  import opened Wrappers
  import opened Text
  import opened Paths

  function FoldChar(c: char): char { if c == '\\' then '/' else c }

  /** Windows separators read as slashes. */
  function Fold(s: string): (r: string)
    ensures |r| == |s|
    ensures forall i | 0 <= i < |s| :: r[i] == FoldChar(s[i])
  {
    seq(|s|, i requires 0 <= i < |s| => FoldChar(s[i]))
  }

  predicate IsAsciiLetter(c: char) { 'a' <= c <= 'z' || 'A' <= c <= 'Z' }

  /** Drive-absolute, or starting like a UNC path. */
  predicate IsWindowsAbsolute(s: string) {
    || "\\\\" <= s
    || (|s| >= 3 && IsAsciiLetter(s[0]) && s[1] == ':' && (s[2] == '/' || s[2] == '\\'))
  }

  predicate HasTraversal(s: string) { ".." in Split(Fold(s)) }

  predicate PathWithin(allowed: string, path: string) {
    path == allowed || (allowed <= path && |path| > |allowed| && path[|allowed|] == '/')
  }

  function RuleText(rule: string): string { TrimSlashes(Trim(rule)) }

  predicate Grants(rule: string, path: string) {
    var allowed := RuleText(rule);
    && allowed != ""
    && if IsWindowsAbsolute(Trim(rule))
       then var folded := TrimSlashes(Fold(allowed));
         folded != "" && IsWindowsAbsolute(path) && PathWithin(folded, Fold(path))
       else PathWithin(allowed, path)
  }

  /** The first rule that grants the path. */
  function FirstMatch(allowlist: seq<string>, path: string): Option<string> {
    if allowlist == [] then None
    else if Grants(allowlist[0], path) then Some(RuleText(allowlist[0]))
    else FirstMatch(allowlist[1..], path)
  }

  function PathMatch(allowlist: seq<string>, path: string): Option<string> {
    if HasTraversal(path) then None else FirstMatch(allowlist, path)
  }

  // ---------- What acceptance means ----------

  lemma FoldConcat(a: string, b: string)
    ensures Fold(a + b) == Fold(a) + Fold(b)
  {
  }

  /** Reading backslashes as slashes only cuts segments further: a `..` stays a `..`. */
  lemma {:induction false} FoldKeepsTraversal(s: string)
    ensures '\\' !in Split(s)[0] ==> Split(Fold(s))[0] == Split(s)[0]
    ensures ".." in Split(s)[1..] ==> ".." in Split(Fold(s))[1..]
    ensures ".." in Split(s) ==> ".." in Split(Fold(s))
  {
    if s != "" {
      FoldKeepsTraversal(s[1..]);
      assert Fold(s)[1..] == Fold(s[1..]);
      var q, f := Split(s[1..]), Split(Fold(s[1..]));
      assert forall c | c in q[0] :: c in [s[0]] + q[0];
      assert s[0] in [s[0]] + q[0];
      assert q == [q[0]] + q[1..] && f == [f[0]] + f[1..];
      assert Split(s)[1..] == if s[0] == '/' then q else q[1..];
      assert Split(Fold(s))[1..] == if FoldChar(s[0]) == '/' then f else f[1..];
    }
    HeadOrTail(Split(s));
    HeadOrTail(Split(Fold(s)));
  }

  lemma HeadOrTail(r: seq<string>)
    requires r != []
    ensures ".." in r <==> r[0] == ".." || ".." in r[1..]
  {
    assert r == [r[0]] + r[1..];
  }

  /** Containment of strings is containment of places, provided that nothing goes up. */
  lemma WithinIsUnder(allowed: string, path: string)
    requires allowed != "" && PathWithin(allowed, path) && ".." !in Split(path)
    ensures Under(Resolve(path), Resolve(allowed)) && ".." !in Split(allowed)
  {
    if path != allowed {
      var rest := path[|allowed| + 1..];
      assert path == allowed + "/" + rest;
      SplitAround(allowed, rest);
      WalkOn(IsAbsolute(path), [], Split(allowed), Split(rest));
      WalkDown(IsAbsolute(path), Resolve(allowed).names, Split(rest));
    }
  }

  lemma FoldedWithin(allowed: string, path: string)
    requires PathWithin(allowed, path)
    ensures PathWithin(Fold(allowed), Fold(path))
  {
    FoldConcat(allowed, path[|allowed|..]);
    assert path == allowed + path[|allowed|..];
  }

  /** A rule that grants a path contains it, for either reading of backslashes if the rule is not a
      Windows one, and for the Windows reading if it is; and it does not go up itself. */
  lemma GrantedIsContained(rule: string, path: string)
    requires Grants(rule, path) && !HasTraversal(path)
    ensures Under(Resolve(Fold(path)), Resolve(Fold(RuleText(rule))))
    ensures !IsWindowsAbsolute(Trim(rule)) ==> Under(Resolve(path), Resolve(RuleText(rule)))
    ensures !HasTraversal(RuleText(rule))
  {
    hide Trim, Walk, Split, IsWindowsAbsolute;
    var allowed := RuleText(rule);
    if IsWindowsAbsolute(Trim(rule)) {
      var folded := TrimSlashes(Fold(allowed));
      WithinIsUnder(folded, Fold(path));
      ResolveTrimmed(Fold(allowed));
      TrimmedTraversal(Fold(allowed));
    } else {
      FoldKeepsTraversal(path);
      WithinIsUnder(allowed, path);
      FoldedWithin(allowed, path);
      WithinIsUnder(Fold(allowed), Fold(path));
    }
  }

  lemma {:induction false} TrimmedTraversal(s: string)
    ensures ".." in Split(s) <==> ".." in Split(TrimSlashes(s))
  {
    if s != "" && s[|s| - 1] == '/' {
      var t := s[..|s| - 1];
      TrimmedTraversal(t);
      assert s == t + "/" + "";
      SplitAround(t, "");
    }
  }

  /** An accepted path stays, after `.`, empty and `..` segments are resolved, under one of the rules. */
  lemma {:induction false} AcceptedStaysInside(allowlist: seq<string>, path: string)
    ensures PathMatch(allowlist, path).Some? ==> exists i | 0 <= i < |allowlist| ::
      && PathMatch(allowlist, path) == Some(RuleText(allowlist[i]))
      && Under(Resolve(Fold(path)), Resolve(Fold(RuleText(allowlist[i]))))
      && (!IsWindowsAbsolute(Trim(allowlist[i])) ==> Under(Resolve(path), Resolve(RuleText(allowlist[i]))))
  {
    hide Grants, Resolve, HasTraversal, RuleText, Under, IsWindowsAbsolute, Trim, Fold;
    if allowlist != [] && !HasTraversal(path) {
      if Grants(allowlist[0], path) {
        GrantedIsContained(allowlist[0], path);
      } else {
        AcceptedStaysInside(allowlist[1..], path);
        if PathMatch(allowlist, path).Some? {
          var i :| 0 <= i < |allowlist[1..]|
            && PathMatch(allowlist[1..], path) == Some(RuleText(allowlist[1..][i]))
            && Under(Resolve(Fold(path)), Resolve(Fold(RuleText(allowlist[1..][i]))))
            && (!IsWindowsAbsolute(Trim(allowlist[1..][i])) ==>
                 Under(Resolve(path), Resolve(RuleText(allowlist[1..][i]))));
          assert allowlist[1..][i] == allowlist[i + 1];
        }
      }
    }
  }

  /** A rule that goes up grants nothing. */
  lemma TraversalGrantsNothing(rule: string, path: string)
    requires HasTraversal(RuleText(rule))
    ensures PathMatch([rule], path) == None
  {
    hide Grants, HasTraversal, RuleText;
    assert [rule][1..] == [] && FirstMatch([rule][1..], path) == None;
    if !HasTraversal(path) && Grants(rule, path) {
      GrantedIsContained(rule, path);
    }
  }

  // ---------- Exactness on plainly written paths ----------

  predicate PlainName(name: string) {
    name !in {"", ".", ".."} && '/' !in name && '\\' !in name && !IsWhitespace(name[|name| - 1])
  }

  function Render(names: seq<string>): string {
    if names == [] then "" else "/" + names[0] + Render(names[1..])
  }

  lemma {:induction false} RenderConcat(a: seq<string>, b: seq<string>)
    ensures Render(a + b) == Render(a) + Render(b)
    decreases |a|
  {
    if a == [] {
      assert a + b == b;
    } else {
      RenderConcat(a[1..], b);
      assert (a + b)[1..] == a[1..] + b;
    }
  }

  lemma RenderStep(names: seq<string>)
    requires names != [] && PlainName(names[0])
    ensures Render(names) == ['/'] + (names[0] + Render(names[1..])) && '/' !in names[0]
    ensures Render([]) == ""
  {
    assert "/" + names[0] + Render(names[1..]) == "/" + (names[0] + Render(names[1..]));
  }

  lemma {:induction false} RenderSplits(names: seq<string>)
    requires names != [] && forall n | n in names :: PlainName(n)
    ensures Render(names) != "" && Split(Render(names)) == [""] + names
  {
    hide *;
    var first, rest := names[0], names[1..];
    assert first in names && forall n | n in rest :: n in names;
    assert names == [first] + rest;
    RenderStep(names);
    SplitName(first);
    SplitStep('/', first + Render(rest));
    if rest == [] {
      RenderStep(names);
      assert first + Render(rest) == first;
    } else {
      RenderSplits(rest);
      RenderStep(rest);
      var tail := rest[0] + Render(rest[1..]);
      SplitStep('/', tail);
      OneLess(Split(tail), rest);
      SplitAround(first, tail);
      assert first + (['/'] + tail) == first + "/" + tail;
    }
  }

  lemma OneLess(a: seq<string>, b: seq<string>)
    requires [""] + a == [""] + b
    ensures a == b
  {
    assert ([""] + a)[1..] == a && ([""] + b)[1..] == b;
  }

  lemma {:induction false} RenderChars(names: seq<string>)
    requires names != [] && forall n | n in names :: PlainName(n)
    ensures Render(names) != "" && Render(names)[0] == '/' && '\\' !in Render(names)
    ensures !IsWhitespace(Render(names)[|Render(names)| - 1]) && Render(names)[|Render(names)| - 1] != '/'
  {
    assert names[0] in names;
    if names[1..] != [] { RenderChars(names[1..]); }
    hide IsWhitespace;
    assert names[0][|names[0]| - 1] in names[0];
  }

  lemma RuleAsWritten(s: string)
    requires s != "" && s[0] == '/' && s[|s| - 1] != '/' && !IsWhitespace(s[|s| - 1])
    ensures Trim(s) == RuleText(s) == s && !IsWindowsAbsolute(s)
  {
    assert s[SkipWs(s, 0)..] == s;
  }

  lemma RenderExtends(a: seq<string>, b: seq<string>)
    requires a <= b && a != [] && forall n | n in b :: PlainName(n)
    ensures PathWithin(Render(a), Render(b))
  {
    hide PlainName;
    var rest := b[|a|..];
    RenderConcat(a, rest);
    assert b == a + rest;
    if rest != [] { assert Render(rest)[0] == '/'; }
  }

  lemma WithinExtends(a: seq<string>, b: seq<string>)
    requires a != [] && b != [] && (forall n | n in a :: PlainName(n)) && (forall n | n in b :: PlainName(n))
    requires PathWithin(Render(a), Render(b))
    ensures a <= b
  {
    hide PlainName, Split;
    RenderSplits(a);
    RenderSplits(b);
    hide Render;
    assert ([""] + a)[1..] == a && ([""] + b)[1..] == b;
    if Render(a) != Render(b) {
      var rest := Render(b)[|Render(a)| + 1..];
      assert Render(b) == Render(a) + "/" + rest;
      SplitAround(Render(a), rest);
      assert b == ([""] + a + Split(rest))[1..] == a + Split(rest);
    }
  }

  lemma PlainGrant(a: seq<string>, b: seq<string>)
    requires a != [] && b != [] && (forall n | n in a :: PlainName(n)) && (forall n | n in b :: PlainName(n))
    ensures Grants(Render(a), Render(b)) <==> a <= b
  {
    hide PlainName, IsWhitespace, Trim, IsWindowsAbsolute, PathWithin;
    RenderChars(a);
    RuleAsWritten(Render(a));
    if a <= b { RenderExtends(a, b); }
    if PathWithin(Render(a), Render(b)) { WithinExtends(a, b); }
  }

  lemma PlainHasNoTraversal(b: seq<string>)
    requires b != [] && forall n | n in b :: PlainName(n)
    ensures !HasTraversal(Render(b))
  {
    RenderSplits(b);
    RenderChars(b);
    hide IsWhitespace;
    assert Fold(Render(b)) == Render(b);
  }

  /** On plainly written absolute paths the allowlist accepts exactly what is under one of its rules. */
  lemma {:induction false} PlainlyExact(rules: seq<seq<string>>, names: seq<string>)
    requires names != [] && forall n | n in names :: PlainName(n)
    requires forall r | r in rules :: r != [] && forall n | n in r :: PlainName(n)
    ensures PathMatch(seq(|rules|, i requires 0 <= i < |rules| => Render(rules[i])), Render(names)).Some?
       <==> exists i | 0 <= i < |rules| :: rules[i] <= names
  {
    var allowlist := seq(|rules|, i requires 0 <= i < |rules| => Render(rules[i]));
    PlainHasNoTraversal(names);
    if rules != [] {
      var rest := rules[1..];
      assert forall r | r in rest :: r in rules;
      PlainlyExact(rest, names);
      assert rules[0] in rules;
      PlainGrant(rules[0], names);
      hide PlainName, HasTraversal, Grants, Render;
      assert allowlist[1..] == seq(|rest|, i requires 0 <= i < |rest| => Render(rest[i]));
      assert forall i | 0 <= i < |rest| :: rest[i] == rules[i + 1];
      assert forall i | 0 < i < |rules| :: rules[i] == rest[i - 1];
    }
  }

  // ---------- Rules as they are written ----------

  lemma TrimsAround(w: string, s: string, v: string)
    requires Blank(w) && Blank(v) && s != "" && !IsWhitespace(s[0]) && !IsWhitespace(s[|s| - 1])
    ensures Trim(w + s + v) == s
  {
    hide IsWhitespace;
    var text := w + s + v;
    var n := SkipWs(text, 0);
    assert forall i | 0 <= i < |w| :: text[i] == w[i];
    assert text[|w|] == s[0];
    assert n == |w|;
    var t := TrimEnd(text[n..]);
    assert text[n..] == s + v;
    assert (s + v)[|s| - 1] == s[|s| - 1];
    assert forall i | |s| <= i < |s + v| :: (s + v)[i] == v[i - |s|];
    assert |t| == |s|;
    assert t == (s + v)[..|s|] == s;
  }

  lemma TrimsTrailing(s: string, slashes: string)
    requires s != "" && s[|s| - 1] != '/' && forall i | 0 <= i < |slashes| :: slashes[i] == '/'
    ensures TrimSlashes(s + slashes) == s
  {
    var t := TrimSlashes(s + slashes);
    assert (s + slashes)[|s| - 1] == s[|s| - 1];
    assert forall i | |s| <= i < |s + slashes| :: (s + slashes)[i] == slashes[i - |s|];
    assert |t| == |s|;
    assert t == (s + slashes)[..|s|] == s;
  }

  /** White space around a rule and slashes at its end make no difference. */
  lemma PaddedRule(w: string, names: seq<string>, slashes: string, v: string, path: string)
    requires Blank(w) && Blank(v) && (forall i | 0 <= i < |slashes| :: slashes[i] == '/')
    requires names != [] && forall n | n in names :: PlainName(n)
    ensures Grants(w + (Render(names) + slashes) + v, path) <==> PathWithin(Render(names), path)
  {
    var rule := Render(names);
    RenderChars(names);
    PaddedAbsolute(rule, slashes);
    assert !IsWhitespace('/');
    hide Trim, Render, PlainName, IsWhitespace, PathWithin, Blank;
    TrimsAround(w, rule + slashes, v);
    TrimsTrailing(rule, slashes);
  }

  lemma PaddedAbsolute(rule: string, slashes: string)
    requires rule != "" && rule[0] == '/' && '\\' !in rule && forall i | 0 <= i < |slashes| :: slashes[i] == '/'
    ensures !IsWindowsAbsolute(rule + slashes) && (rule + slashes)[0] == '/'
    ensures (rule + slashes)[|rule + slashes| - 1] == if slashes == "" then rule[|rule| - 1] else '/'
  {
  }

  lemma BehindDrive(drive: string, x: string, y: string)
    ensures PathWithin(drive + x, drive + y) <==> PathWithin(x, y)
  {
    assert (drive + y)[|drive|..] == y && (drive + x)[|drive|..] == x;
    if PathWithin(x, y) && x != y {
      assert (drive + y)[..|drive + x|] == drive + y[..|x|] && y[..|x|] == x;
    }
    if PathWithin(drive + x, drive + y) && drive + x != drive + y {
      assert y[..|x|] == (drive + y)[|drive|..|drive + x|] == (drive + x)[|drive|..];
    }
  }

  lemma FoldedChars(s: string, folded: string)
    requires Fold(s) == folded
    ensures |s| == |folded| && forall i | 0 <= i < |s| ::
      (folded[i] != '/' ==> s[i] == folded[i]) && (folded[i] == '/' ==> s[i] in {'/', '\\'})
  {
    assert forall i | 0 <= i < |s| :: folded[i] == FoldChar(s[i]);
  }

  lemma DriveAbsolute(s: string, drive: string, names: seq<string>)
    requires |drive| == 2 && IsAsciiLetter(drive[0]) && drive[1] == ':' && Fold(s) == drive + Render(names)
    requires names != [] && forall n | n in names :: PlainName(n)
    ensures IsWindowsAbsolute(s) && Trim(s) == RuleText(s) == s && TrimSlashes(Fold(s)) == Fold(s)
  {
    var folded := drive + Render(names);
    RenderChars(names);
    LetterIsNoBlank(drive[0]);
    hide *;
    FoldedChars(s, folded);
    assert folded[0] == drive[0] && folded[1] == drive[1] && folded[2] == Render(names)[0];
    assert folded[|folded| - 1] == Render(names)[|Render(names)| - 1];
    assert s[|s| - 1] == folded[|folded| - 1] && s[0] == drive[0] && s[1] == ':' && s[2] in {'/', '\\'};
    DriveIsAbsolute(s);
    NothingToTrim(s);
    NothingToTrim(folded);
  }

  lemma LetterIsNoBlank(c: char)
    requires IsAsciiLetter(c)
    ensures !IsWhitespace(c) && c !in {'/', '\\'}
  {
  }

  lemma DriveIsAbsolute(s: string)
    requires |s| >= 3 && IsAsciiLetter(s[0]) && s[1] == ':' && s[2] in {'/', '\\'}
    ensures IsWindowsAbsolute(s)
  {
  }

  lemma NothingToTrim(s: string)
    requires s != "" && !IsWhitespace(s[0]) && !IsWhitespace(s[|s| - 1]) && s[|s| - 1] != '/'
    ensures Trim(s) == s && TrimSlashes(s) == s && RuleText(s) == s
  {
    hide IsWhitespace, Trim, TrimSlashes;
    TrimsAround("", s, "");
    TrimsTrailing(s, "");
    assert "" + s + "" == s && s + "" == s;
  }

  lemma ShareAbsolute(s: string, names: seq<string>)
    requires "\\\\" <= s && Fold(s) == "/" + Render(names)
    requires names != [] && forall n | n in names :: PlainName(n)
    ensures IsWindowsAbsolute(s) && Trim(s) == RuleText(s) == s && TrimSlashes(Fold(s)) == Fold(s)
  {
    var folded := "/" + Render(names);
    RenderChars(names);
    assert s[0] == '\\' && !IsWhitespace('\\') && !IsWhitespace('/');
    assert IsWindowsAbsolute(s);
    hide *;
    FoldedChars(s, folded);
    assert folded[|folded| - 1] == Render(names)[|Render(names)| - 1] && folded[0] == '/';
    assert s[|s| - 1] == folded[|folded| - 1];
    NothingToTrim(s);
    NothingToTrim(folded);
  }

  /** A rule on a network share grants exactly what is under it there, likewise. */
  lemma ShareExactly(rule: string, path: string, a: seq<string>, b: seq<string>)
    requires "\\\\" <= rule && "\\\\" <= path
    requires a != [] && b != [] && (forall n | n in a :: PlainName(n)) && (forall n | n in b :: PlainName(n))
    requires Fold(rule) == "/" + Render(a) && Fold(path) == "/" + Render(b)
    ensures Grants(rule, path) <==> a <= b
  {
    hide Render, PlainName, Fold, IsWindowsAbsolute, Trim, IsWhitespace, PathWithin;
    ShareAbsolute(rule, a);
    ShareAbsolute(path, b);
    BehindDrive("/", Render(a), Render(b));
    RenderChars(a);
    RuleAsWritten(Render(a));
    PlainGrant(a, b);
  }

  /** A rule on a Windows drive, its separators written either way, grants exactly what is under it on that drive,
      however the separators of the path are written. */
  lemma WindowsExactly(rule: string, path: string, drive: string, a: seq<string>, b: seq<string>)
    requires |drive| == 2 && IsAsciiLetter(drive[0]) && drive[1] == ':'
    requires a != [] && b != [] && (forall n | n in a :: PlainName(n)) && (forall n | n in b :: PlainName(n))
    requires Fold(rule) == drive + Render(a) && Fold(path) == drive + Render(b)
    ensures Grants(rule, path) <==> a <= b
  {
    hide Render, PlainName, Fold, IsWindowsAbsolute, Trim, IsWhitespace, PathWithin;
    DriveAbsolute(rule, drive, a);
    DriveAbsolute(path, drive, b);
    BehindDrive(drive, Render(a), Render(b));
    RenderChars(a);
    RuleAsWritten(Render(a));
    PlainGrant(a, b);
  }
}
