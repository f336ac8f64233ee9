/** Slash-separated paths and what they mean lexically. */
module Paths {

  /** Index just past the last slash, or 0. */
  function NameStart(path: string, n: nat): (r: nat)
    requires n <= |path|
    ensures r <= n
    ensures forall i | r <= i < n :: path[i] != '/'
    ensures r > 0 ==> path[r - 1] == '/'
  {
    if n == 0 || path[n - 1] == '/' then n else NameStart(path, n - 1)
  }

  function TrimSlashes(s: string): (r: string)
    ensures r <= s
    ensures forall i | |r| <= i < |s| :: s[i] == '/'
    ensures r != "" ==> r[|r| - 1] != '/'
  {
    if s != "" && s[|s| - 1] == '/' then TrimSlashes(s[..|s| - 1]) else s
  }

  function Split(s: string): (r: seq<string>)
    ensures |r| > 0
  {
    if s == "" then [""]
    else if s[0] == '/' then [""] + Split(s[1..])
    else
      var rest := Split(s[1..]);
      [[s[0]] + rest[0]] + rest[1..]
  }

  lemma SplitEmpty()
    ensures Split("") == [""]
  {
  }

  lemma SplitStep(c: char, s: string)
    ensures Split([c] + s) == if c == '/' then [""] + Split(s) else [[c] + Split(s)[0]] + Split(s)[1..]
  {
    assert ([c] + s)[1..] == s;
  }

  lemma HeadOfConcat<T>(head: seq<T>, a: seq<T>, b: seq<T>)
    ensures head + (a + b) == (head + a) + b
    ensures a != [] ==> (a + b)[0] == a[0] && (a + b)[1..] == a[1..] + b
  {
  }

  lemma {:induction false} SplitAround(a: string, b: string)
    ensures Split(a + "/" + b) == Split(a) + Split(b)
  {
    hide *;
    if a == "" {
      SplitEmpty();
      SplitStep('/', b);
      assert a + "/" + b == ['/'] + b;
    } else {
      SplitAround(a[1..], b);
      SplitStep(a[0], a[1..]);
      SplitStep(a[0], a[1..] + "/" + b);
      assert a == [a[0]] + a[1..];
      assert a + "/" + b == [a[0]] + (a[1..] + "/" + b);
      var rest := Split(a[1..]);
      HeadOfConcat([""], rest, Split(b));
      HeadOfConcat([[a[0]] + rest[0]], rest[1..], Split(b));
    }
  }

  lemma {:induction false} SplitName(s: string)
    requires '/' !in s
    ensures Split(s) == [s]
  {
    if s != "" {
      SplitName(s[1..]);
      assert [s[0]] + s[1..] == s;
    }
  }

  predicate IsAbsolute(s: string) { s != "" && s[0] == '/' }

  /** One step from a place: an empty segment or `.` stays, `..` goes up, anything else goes down. */
  function Go(absolute: bool, at: seq<string>, segment: string): seq<string> {
    if segment == "" || segment == "." then at
    else if segment != ".." then at + [segment]
    else if at != [] && at[|at| - 1] != ".." then at[..|at| - 1]
    else if absolute then at
    else at + [".."]
  }

  function Walk(absolute: bool, at: seq<string>, segments: seq<string>): seq<string>
    decreases |segments|
  {
    if segments == [] then at else Walk(absolute, Go(absolute, at, segments[0]), segments[1..])
  }

  lemma {:induction false} WalkOn(absolute: bool, at: seq<string>, a: seq<string>, b: seq<string>)
    ensures Walk(absolute, at, a + b) == Walk(absolute, Walk(absolute, at, a), b)
    decreases |a|
  {
    if a == [] {
      assert a + b == b;
    } else {
      WalkOn(absolute, Go(absolute, at, a[0]), a[1..], b);
      assert (a + b)[1..] == a[1..] + b;
    }
  }

  /** Where a path leads: from the root or from the current directory, down these names. */
  datatype Place = Place(absolute: bool, names: seq<string>)

  function Resolve(s: string): Place {
    Place(IsAbsolute(s), Walk(IsAbsolute(s), [], Split(s)))
  }

  predicate Under(place: Place, top: Place) {
    place.absolute == top.absolute && top.names <= place.names
  }

  /** Without `..` a walk only goes down. */
  lemma {:induction false} WalkDown(absolute: bool, at: seq<string>, segments: seq<string>)
    requires ".." !in segments
    ensures at <= Walk(absolute, at, segments)
    decreases |segments|
  {
    if segments != [] {
      WalkDown(absolute, Go(absolute, at, segments[0]), segments[1..]);
    }
  }

  /** Trailing slashes lead nowhere. */
  lemma {:induction false} ResolveTrimmed(s: string)
    requires TrimSlashes(s) != ""
    ensures Resolve(TrimSlashes(s)) == Resolve(s)
  {
    if s[|s| - 1] == '/' {
      var t := s[..|s| - 1];
      ResolveTrimmed(t);
      assert s == t + "/" + "";
      SplitAround(t, "");
      WalkOn(IsAbsolute(s), [], Split(t), [""]);
      assert Walk(IsAbsolute(s), Walk(IsAbsolute(s), [], Split(t)), [""]) == Walk(IsAbsolute(s), [], Split(t));
    }
  }

  /** A slash and a name after a path lead to that name in the place of the path. */
  lemma ResolveChild(s: string, name: string)
    requires s != "" && '/' !in name && name !in {"", ".", ".."}
    ensures Resolve(s + "/" + name) == Place(IsAbsolute(s), Resolve(s).names + [name])
  {
    SplitAround(s, name);
    SplitName(name);
    WalkOn(IsAbsolute(s), [], Split(s), [name]);
    assert Walk(IsAbsolute(s), Resolve(s).names, [name]) == Resolve(s).names + [name];
  }
}
