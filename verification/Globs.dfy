/** Ignore rules: gitignore-like globs translated to regular expressions over relative
    paths, and what the translation means. */
module Globs {
  import opened Basics
  import opened Text
  import opened Paths

  // ---- regular expressions ----------------------------------------------------------

  /** The expressions the translation produces. Dot does not match a newline. */
  datatype Re =
    | Empty
    | Char(c: char)
    | NotSlash
    | Dot
    | Star(r: Re)
    | Maybe(r: Re)
    | Cat(first: Re, second: Re)

  /** The whole of `s` matches. */
  predicate Matches(re: Re, s: string)
    decreases re, |s|
  {
    match re
    case Empty => s == ""
    case Char(c) => s == [c]
    case NotSlash => |s| == 1 && s[0] != '/'
    case Dot => |s| == 1 && s[0] != '\n'
    case Star(r) => s == "" || exists k :: 0 < k <= |s| && Matches(r, s[..k]) && Matches(re, s[k..])
    case Maybe(r) => s == "" || Matches(r, s)
    case Cat(a, b) => exists k :: 0 <= k <= |s| && Matches(a, s[..k]) && Matches(b, s[k..])
  }

  // ---- the translation ---------------------------------------------------------------

  /** (?:.*slash)? */
  const DIRS := Maybe(Cat(Star(Dot), Char('/')))
  /** (?:slash.*)? */
  const BELOW := Maybe(Cat(Char('/'), Star(Dot)))

  /** The pieces from position `i` on. */
  function Pieces(pat: string, i: nat): seq<Re>
    requires i <= |pat|
    decreases |pat| - i
  {
    if i == |pat| then []
    else if pat[i] == '*' then
      if i + 1 < |pat| && pat[i + 1] == '*' then
        if i + 2 < |pat| && pat[i + 2] == '/' then [DIRS] + Pieces(pat, i + 3)
        else [Star(Dot)] + Pieces(pat, i + 2)
      else [Star(NotSlash)] + Pieces(pat, i + 1)
    else if pat[i] == '?' then [NotSlash] + Pieces(pat, i + 1)
    else [Char(pat[i])] + Pieces(pat, i + 1)
  }

  /** The pieces one after the other. */
  function Concat(res: seq<Re>): Re {
    if res == [] then Empty else Cat(res[0], Concat(res[1..]))
  }

  predicate Anchored(pattern: string) {
    pattern != "" && pattern[0] == '/'
  }

  function CompileSpec(pattern: string): Re {
    var body := Concat(Pieces(StripLeadingSlashes(pattern), 0));
    if Anchored(pattern) then Cat(body, BELOW) else Cat(DIRS, Cat(body, BELOW))
  }

  lemma AppendOne<T>(done: seq<T>, x: T, rest: seq<T>)
    ensures done + ([x] + rest) == done + [x] + rest
  {
  }

  /** The index-driven translation. */
  method Compile(pattern: string) returns (re: Re)
    ensures re == CompileSpec(pattern)
  {
    hide Concat, StripLeadingSlashes;
    var anchored := Anchored(pattern);
    var pat := StripLeadingSlashes(pattern);
    var i, n := 0, |pat|;
    var out: seq<Re> := [];
    while i < n
      invariant i <= n && out + Pieces(pat, i) == Pieces(pat, 0)
    {
      var c := pat[i];
      var piece, step := Char(c), 1;
      if c == '*' {
        if i + 1 < n && pat[i + 1] == '*' {
          if i + 2 < n && pat[i + 2] == '/' {
            piece, step := DIRS, 3;
          } else {
            piece, step := Star(Dot), 2;
          }
        } else {
          piece := Star(NotSlash);
        }
      } else if c == '?' {
        piece := NotSlash;
      }
      ghost var rest := Pieces(pat, i + step);
      assert Pieces(pat, i) == [piece] + rest;
      AppendOne(out, piece, rest);
      out := out + [piece];
      i := i + step;
    }
    assert Pieces(pat, n) == [] && out + [] == out;
    var body := Concat(out);
    re := if anchored then Cat(body, BELOW) else Cat(DIRS, Cat(body, BELOW));
  }

  // ---- what a glob means --------------------------------------------------------------

  /** Directly: a star stays within one component, two stars cross components, two stars and a
      slash stand for any number of leading directories, a question mark for one character of a
      component, anything else for itself. */
  predicate Means(pat: string, s: string)
    decreases |pat|, |s|
  {
    if pat == "" then s == ""
    else if pat[0] == '*' then
      if |pat| > 1 && pat[1] == '*' then
        if |pat| > 2 && pat[2] == '/' then
          exists k :: 0 <= k <= |s| && WholeDirs(s, k) && Means(pat[3..], s[k..])
        else
          exists k :: 0 <= k <= |s| && Means(pat[2..], s[k..])
      else
        exists k :: 0 <= k <= |s| && '/' !in s[..k] && Means(pat[1..], s[k..])
    else if pat[0] == '?' then s != "" && s[0] != '/' && Means(pat[1..], s[1..])
    else s != "" && s[0] == pat[0] && Means(pat[1..], s[1..])
  }

  /** The first `k` characters are complete directories. */
  predicate WholeDirs(s: string, k: nat) {
    k == 0 || (k <= |s| && s[k - 1] == '/')
  }

  /** ... and here a component ends. */
  predicate EndsComponent(s: string, k: nat) {
    k == |s| || (k < |s| && s[k] == '/')
  }

  /** The glob matches a stretch of whole components: from the start if anchored, else from the
      start of any component, up to the end of some component. */
  ghost predicate Selects(pattern: string, path: string) {
    exists i, j :: 0 <= i <= j <= |path| && SelectsAt(pattern, path, i, j)
  }

  ghost predicate SelectsAt(pattern: string, path: string, i: nat, j: nat)
    requires i <= j <= |path|
  {
    && (if Anchored(pattern) then i == 0 else WholeDirs(path, i))
    && EndsComponent(path, j)
    && Means(StripLeadingSlashes(pattern), path[i..j])
  }

  // ---- the translation preserves the meaning --------------------------------------------

  predicate OneLine(s: string) {
    '\n' !in s
  }

  lemma {:induction false} AnyRun(s: string)
    requires OneLine(s)
    ensures Matches(Star(Dot), s)
    decreases |s|
  {
    if s != "" {
      AnyRun(s[1..]);
      assert s[0] in s;
      assert Matches(Dot, s[..1]) && Matches(Star(Dot), s[1..]);
    }
  }

  lemma {:induction false} ComponentRun(s: string)
    ensures Matches(Star(NotSlash), s) <==> '/' !in s
    decreases |s|
  {
    if s != "" {
      ComponentRun(s[1..]);
      assert s == [s[0]] + s[1..];
      if Matches(Star(NotSlash), s) {
        var k :| 0 < k <= |s| && Matches(NotSlash, s[..k]) && Matches(Star(NotSlash), s[k..]);
        assert k == 1;
      }
      if '/' !in s {
        assert s[0] in s;
        assert Matches(NotSlash, s[..1]) && Matches(Star(NotSlash), s[1..]);
      }
    }
  }

  lemma DirsMeans(s: string)
    requires OneLine(s)
    ensures Matches(DIRS, s) <==> WholeDirs(s, |s|)
  {
    var inner := Cat(Star(Dot), Char('/'));
    if s != "" {
      var n := |s| - 1;
      assert s[n..] == [s[n]];
      if s[n] == '/' {
        AnyRun(s[..n]);
        assert Matches(Star(Dot), s[..n]) && Matches(Char('/'), s[n..]);
      }
      assert Matches(inner, s) ==> s[n] == '/' by {
        if Matches(inner, s) {
          var k :| 0 <= k <= |s| && Matches(Star(Dot), s[..k]) && Matches(Char('/'), s[k..]);
          assert |s[k..]| == 1 && s[k..][0] == '/';
        }
      }
    }
  }

  lemma BelowMeans(s: string)
    requires OneLine(s)
    ensures Matches(BELOW, s) <==> s == "" || s[0] == '/'
  {
    if s != "" {
      if exists k :: 0 <= k <= |s| && Matches(Char('/'), s[..k]) && Matches(Star(Dot), s[k..]) {
        var k :| 0 <= k <= |s| && Matches(Char('/'), s[..k]) && Matches(Star(Dot), s[k..]);
        assert s[..k] == "/" && s[0] == s[..k][0];
      }
      if s[0] == '/' {
        AnyRun(s[1..]);
        assert s[..1] == "/";
        assert Matches(Char('/'), s[..1]) && Matches(Star(Dot), s[1..]);
      }
    }
  }

  /** The pieces match exactly what the glob means. */
  lemma {:induction false} BodyMeans(pat: string, i: nat, s: string)
    requires i <= |pat| && OneLine(s)
    ensures Matches(Concat(Pieces(pat, i)), s) <==> Means(pat[i..], s)
    decreases |pat| - i
  {
    if i < |pat| {
      if pat[i] == '*' {
        if i + 1 < |pat| && pat[i + 1] == '*' {
          if i + 2 < |pat| && pat[i + 2] == '/' {
            BodyDirs(pat, i, s);
          } else {
            BodyAny(pat, i, s);
          }
        } else {
          BodyComponent(pat, i, s);
        }
      } else {
        BodyOne(pat, i, s);
      }
    }
  }

  lemma BodySplit(first: Re, rest: seq<Re>, s: string)
    ensures Matches(Concat([first] + rest), s) <==>
        exists k :: 0 <= k <= |s| && Matches(first, s[..k]) && Matches(Concat(rest), s[k..])
  {
  }

  lemma BodyDirs(pat: string, i: nat, s: string)
    requires i + 2 < |pat| && pat[i] == '*' && pat[i + 1] == '*' && pat[i + 2] == '/' && OneLine(s)
    ensures Matches(Concat(Pieces(pat, i)), s) <==> Means(pat[i..], s)
    decreases |pat| - i, 0
  {
    hide Matches, Concat;
    BodySplit(DIRS, Pieces(pat, i + 3), s);
    assert pat[i..][3..] == pat[i + 3..];
    forall k | 0 <= k <= |s|
      ensures Matches(DIRS, s[..k]) && Matches(Concat(Pieces(pat, i + 3)), s[k..]) <==>
          WholeDirs(s, k) && Means(pat[i + 3..], s[k..])
    {
      DirsMeans(s[..k]);
      BodyMeans(pat, i + 3, s[k..]);
    }
  }

  lemma BodyAny(pat: string, i: nat, s: string)
    requires i + 1 < |pat| && pat[i] == '*' && pat[i + 1] == '*' && !(i + 2 < |pat| && pat[i + 2] == '/') && OneLine(s)
    ensures Matches(Concat(Pieces(pat, i)), s) <==> Means(pat[i..], s)
    decreases |pat| - i, 0
  {
    hide Matches, Concat;
    BodySplit(Star(Dot), Pieces(pat, i + 2), s);
    assert pat[i..][2..] == pat[i + 2..];
    forall k | 0 <= k <= |s|
      ensures Matches(Star(Dot), s[..k]) && Matches(Concat(Pieces(pat, i + 2)), s[k..]) <==> Means(pat[i + 2..], s[k..])
    {
      AnyRun(s[..k]);
      BodyMeans(pat, i + 2, s[k..]);
    }
  }

  lemma BodyComponent(pat: string, i: nat, s: string)
    requires i < |pat| && pat[i] == '*' && !(i + 1 < |pat| && pat[i + 1] == '*') && OneLine(s)
    ensures Matches(Concat(Pieces(pat, i)), s) <==> Means(pat[i..], s)
    decreases |pat| - i, 0
  {
    hide Matches, Concat;
    BodySplit(Star(NotSlash), Pieces(pat, i + 1), s);
    assert pat[i..][1..] == pat[i + 1..];
    forall k | 0 <= k <= |s|
      ensures Matches(Star(NotSlash), s[..k]) && Matches(Concat(Pieces(pat, i + 1)), s[k..]) <==>
          '/' !in s[..k] && Means(pat[i + 1..], s[k..])
    {
      ComponentRun(s[..k]);
      BodyMeans(pat, i + 1, s[k..]);
    }
  }

  lemma BodyOne(pat: string, i: nat, s: string)
    requires i < |pat| && pat[i] != '*' && OneLine(s)
    ensures Matches(Concat(Pieces(pat, i)), s) <==> Means(pat[i..], s)
    decreases |pat| - i, 0
  {
    var first := if pat[i] == '?' then NotSlash else Char(pat[i]);
    var rest := Pieces(pat, i + 1);
    BodySplit(first, rest, s);
    assert pat[i..][1..] == pat[i + 1..];
    hide Concat;
    forall k | 0 <= k <= |s| && Matches(first, s[..k]) && Matches(Concat(rest), s[k..])
      ensures k == 1 && s[..1] == [s[0]]
    {
      assert |s[..k]| == 1;
    }
    if s != "" {
      assert s[..1] == [s[0]];
      BodyMeans(pat, i + 1, s[1..]);
      assert Matches(first, s[..1]) && Matches(Concat(rest), s[1..]) <==>
          Matches(first, [s[0]]) && Means(pat[i + 1..], s[1..]);
    }
  }

  lemma BodyThenBelow(pattern: string, s: string)
    requires OneLine(s)
    ensures
      var pat := StripLeadingSlashes(pattern);
      Matches(Cat(Concat(Pieces(pat, 0)), BELOW), s) <==>
      exists j :: 0 <= j <= |s| && EndsComponent(s, j) && Means(pat, s[..j])
  {
    var pat := StripLeadingSlashes(pattern);
    var body := Concat(Pieces(pat, 0));
    assert pat[0..] == pat;
    forall j | 0 <= j <= |s|
      ensures Matches(body, s[..j]) && Matches(BELOW, s[j..]) <==> EndsComponent(s, j) && Means(pat, s[..j])
    {
      BodyMeans(pat, 0, s[..j]);
      BelowMeans(s[j..]);
    }
  }

  /** The compiled expression accepts exactly the paths that the glob selects. */
  lemma CompiledMeans(pattern: string, path: string)
    requires OneLine(path)
    ensures Matches(CompileSpec(pattern), path) <==> Selects(pattern, path)
  {
    if Anchored(pattern) {
      AnchoredMeans(pattern, path);
    } else {
      UnanchoredMeans(pattern, path);
    }
  }

  lemma AnchoredMeans(pattern: string, path: string)
    requires OneLine(path) && Anchored(pattern)
    ensures Matches(CompileSpec(pattern), path) <==> Selects(pattern, path)
  {
    hide Matches, Means;
    BodyThenBelow(pattern, path);
    forall j | 0 <= j <= |path|
      ensures SelectsAt(pattern, path, 0, j) <==>
          EndsComponent(path, j) && Means(StripLeadingSlashes(pattern), path[..j])
    {
      assert path[0..j] == path[..j];
    }
  }

  lemma UnanchoredMeans(pattern: string, path: string)
    requires OneLine(path) && !Anchored(pattern)
    ensures Matches(CompileSpec(pattern), path) <==> Selects(pattern, path)
  {
    var tail := Cat(Concat(Pieces(StripLeadingSlashes(pattern), 0)), BELOW);
    assert CompileSpec(pattern) == Cat(DIRS, tail);
    if Matches(CompileSpec(pattern), path) {
      var i :| 0 <= i <= |path| && Matches(DIRS, path[..i]) && Matches(tail, path[i..]);
      TailMeans(pattern, path, i);
    }
    if Selects(pattern, path) {
      var i, j :| 0 <= i <= j <= |path| && SelectsAt(pattern, path, i, j);
      TailMeans(pattern, path, i);
      assert Matches(DIRS, path[..i]) && Matches(tail, path[i..]);
    }
  }

  /** From position `i` on: the leading directories end there, and a component ends where the
      glob does. */
  lemma TailMeans(pattern: string, path: string, i: nat)
    requires OneLine(path) && !Anchored(pattern) && i <= |path|
    ensures
      var tail := Cat(Concat(Pieces(StripLeadingSlashes(pattern), 0)), BELOW);
      Matches(DIRS, path[..i]) && Matches(tail, path[i..]) <==>
          exists j :: i <= j <= |path| && SelectsAt(pattern, path, i, j)
  {
    hide Matches, Means;
    var pat := StripLeadingSlashes(pattern);
    DirsMeans(path[..i]);
    assert WholeDirs(path[..i], i) <==> WholeDirs(path, i);
    BodyThenBelow(pattern, path[i..]);
    forall j | i <= j <= |path|
      ensures EndsComponent(path[i..], j - i) && Means(pat, path[i..][..j - i]) <==>
          EndsComponent(path, j) && Means(pat, path[i..j])
    {
      assert path[i..][..j - i] == path[i..j];
    }
    if exists j :: 0 <= j <= |path[i..]| && EndsComponent(path[i..], j) && Means(pat, path[i..][..j]) {
      var j :| 0 <= j <= |path[i..]| && EndsComponent(path[i..], j) && Means(pat, path[i..][..j]);
      assert EndsComponent(path, i + j) && Means(pat, path[i..i + j]);
      assert WholeDirs(path, i) ==> SelectsAt(pattern, path, i, i + j);
    }
  }

  // ---- what this says about plain patterns ----------------------------------------------------

  predicate Wildless(pat: string) {
    '*' !in pat && '?' !in pat
  }

  lemma {:induction false} WildlessMeansItself(pat: string, s: string)
    requires Wildless(pat)
    ensures Means(pat, s) <==> s == pat
    decreases |pat|
  {
    if pat != "" {
      assert pat[0] in pat;
      WildlessMeansItself(pat[1..], s[if s == "" then 0 else 1..]);
      assert pat == [pat[0]] + pat[1..];
      if s != "" {
        assert s == [s[0]] + s[1..];
      }
    }
  }

  /** A pattern without wildcards and without a slash selects exactly the paths that have
      it as a component. */
  lemma BareNameSelectsComponent(name: string, path: string)
    requires name != "" && Wildless(name) && '/' !in name
    ensures Selects(name, path) <==> name in Split(path)
  {
    assert name[0] in name;
    if Selects(name, path) {
      var i, j :| 0 <= i <= j <= |path| && SelectsAt(name, path, i, j);
      WildlessMeansItself(name, path[i..j]);
      ComponentIsListed(path, i, j);
    }
    if name in Split(path) {
      var i, j := ListedIsComponent(path, name);
      WildlessMeansItself(name, path[i..j]);
      assert SelectsAt(name, path, i, j);
    }
  }

  lemma ShiftBehindSlash(path: string, n: nat, i: nat, j: nat)
    requires n < |path| && path[n] == '/' && i <= j <= |path| - n - 1
    ensures WholeDirs(path[n + 1..], i) <==> WholeDirs(path, n + 1 + i)
    ensures EndsComponent(path[n + 1..], j) <==> EndsComponent(path, n + 1 + j)
    ensures path[n + 1..][i..j] == path[n + 1 + i..n + 1 + j]
  {
  }

  lemma FirstComponentIsListed(path: string, j: nat)
    requires j <= |path| && EndsComponent(path, j) && '/' !in path[..j]
    ensures path[..j] in Split(path)
  {
    assert forall k :: 0 <= k < j ==> path[k] == path[..j][k];
    FirstIndexIs(path, '/', j);
    assert Split(path)[0] == path[..j];
  }

  /** A stretch between component borders that holds no slash is a component. */
  lemma {:induction false} ComponentIsListed(path: string, i: nat, j: nat)
    requires i <= j <= |path| && WholeDirs(path, i) && EndsComponent(path, j) && '/' !in path[i..j]
    ensures path[i..j] in Split(path)
    decreases |path|
  {
    hide Split, FirstIndex;
    var n := FirstIndex(path, '/');
    if i == 0 {
      assert path[0..j] == path[..j];
      FirstComponentIsListed(path, j);
    } else {
      assert path[i - 1] == '/' && n <= i - 1;
      SplitCases(path, path[i..j]);
      ShiftBehindSlash(path, n, i - n - 1, j - n - 1);
      ComponentIsListed(path[n + 1..], i - n - 1, j - n - 1);
    }
  }

  lemma {:induction false} ListedIsComponent(path: string, name: string) returns (i: nat, j: nat)
    requires name in Split(path)
    ensures i <= j <= |path| && WholeDirs(path, i) && EndsComponent(path, j) && path[i..j] == name
    decreases |path|
  {
    hide Split, FirstIndex;
    var n := FirstIndex(path, '/');
    SplitCases(path, name);
    if name == path[..n] {
      i, j := 0, n;
    } else {
      i, j := ListedIsComponent(path[n + 1..], name);
      ShiftBehindSlash(path, n, i, j);
      i, j := n + 1 + i, n + 1 + j;
    }
  }

  // ---- rule lists ---------------------------------------------------------------------------

  datatype Rule = Rule(regex: Re, negate: bool, dirOnly: bool)

  const DOT_DIR := ".jp"

  function ParseLine(raw: string): Option<Rule> {
    var line := StripRight(raw);
    var visible := StripLeft(line);
    if line == "" || (visible != "" && visible[0] == '#') then None
    else
      var negate := line[0] == '!';
      var body := if negate then line[1..] else line;
      var dirOnly := body != "" && body[|body| - 1] == '/';
      var glob := if dirOnly then body[..|body| - 1] else body;
      if glob == "" then None else Some(Rule(CompileSpec(glob), negate, dirOnly))
  }

  /** The form under which a path is matched. */
  function MatchForm(rel: string): string {
    StripTrailingSlashes(StripLeadingSlashes(Unbackslash(rel)))
  }

  predicate IsMetadata(norm: string) {
    norm == DOT_DIR || BeginsWith(norm, DOT_DIR + "/")
  }

  predicate Applies(rule: Rule, norm: string, isDir: bool) {
    (isDir || !rule.dirOnly) && Matches(rule.regex, norm)
  }

  function DefaultRules(): seq<Rule> {
    [Rule(CompileSpec(DOT_DIR + "/**"), false, false), Rule(CompileSpec(DOT_DIR), false, true),
     Rule(CompileSpec("__temp__.*"), false, false)]
  }

  /** The rules of the given lines, in order; lines that are no rules are left out. */
  function ParseAll(patterns: seq<string>): seq<Rule> {
    if patterns == [] then []
    else
      ParseAll(patterns[..|patterns| - 1]) +
      match ParseLine(patterns[|patterns| - 1])
      case Some(r) => [r]
      case None => []
  }

  /** What the last applicable matching rule says. */
  function Verdict(rules: seq<Rule>, norm: string, isDir: bool): Option<bool> {
    if rules == [] then None
    else if Applies(rules[|rules| - 1], norm, isDir) then Some(!rules[|rules| - 1].negate)
    else Verdict(rules[..|rules| - 1], norm, isDir)
  }

  class IgnoreSet {
    var rules: seq<Rule>

    /** The metadata directory, the temporary files of a run, then the given lines. */
    constructor (patterns: seq<string>)
      ensures rules == DefaultRules() + ParseAll(patterns)
    {
      new;
      rules := DefaultRules();
      assert patterns[..0] == [];
      for i := 0 to |patterns|
        invariant rules == DefaultRules() + ParseAll(patterns[..i])
      {
        var rule := ParseLine(patterns[i]);
        if rule.Some? {
          rules := rules + [rule.value];
        }
        assert patterns[..i + 1][..i] == patterns[..i];
      }
      assert patterns[..|patterns|] == patterns;
    }

    /** Later matching rules win; the metadata directory is ignored whatever the rules say. */
    method IsIgnored(rel: string, isDir: bool) returns (ignored: bool)
      ensures ignored == (IsMetadata(MatchForm(rel)) || Verdict(rules, MatchForm(rel), isDir) == Some(true))
    {
      var norm := MatchForm(rel);
      if IsMetadata(norm) {
        return true;
      }
      ignored := false;
      for n := 0 to |rules|
        invariant ignored == (Verdict(rules[..n], norm, isDir) == Some(true))
      {
        assert rules[..n + 1][..n] == rules[..n];
        var rule := rules[n];
        if rule.dirOnly && !isDir {
          continue;
        }
        if Matches(rule.regex, norm) {
          ignored := !rule.negate;
        }
      }
      assert rules[..|rules|] == rules;
    }
  }

  /** The verdict is that of the last rule that applies, none if no rule does. */
  lemma {:induction false} VerdictIsOfTheLast(rules: seq<Rule>, norm: string, isDir: bool)
    ensures Verdict(rules, norm, isDir) == None <==> forall i :: 0 <= i < |rules| ==> !Applies(rules[i], norm, isDir)
    ensures forall i :: 0 <= i < |rules| && Applies(rules[i], norm, isDir) && NoneAfter(rules, i, norm, isDir) ==>
              Verdict(rules, norm, isDir) == Some(!rules[i].negate)
  {
    if rules != [] {
      var init := rules[..|rules| - 1];
      VerdictIsOfTheLast(init, norm, isDir);
      forall i | 0 <= i < |rules| && Applies(rules[i], norm, isDir) && NoneAfter(rules, i, norm, isDir)
        ensures Verdict(rules, norm, isDir) == Some(!rules[i].negate)
      {
        if i < |init| {
          assert init[i] == rules[i] && NoneAfter(init, i, norm, isDir);
        }
      }
      assert forall i :: 0 <= i < |init| ==> init[i] == rules[i];
    }
  }

  predicate NoneAfter(rules: seq<Rule>, i: nat, norm: string, isDir: bool) {
    forall k :: i < k < |rules| ==> !Applies(rules[k], norm, isDir)
  }

  /** The text of a line: "!" to re-include, a glob, "/" to select directories only. */
  function LineOf(glob: string, negate: bool, dirOnly: bool): string {
    (if negate then "!" else "") + glob + if dirOnly then "/" else ""
  }

  /** A glob that can stand in a line as it is: it ends neither in a blank nor, unless for directories only, in a
      slash, and at the beginning of a line it is neither taken for a comment nor for a re-inclusion. */
  predicate Writable(glob: string, negate: bool, dirOnly: bool) {
    && glob != ""
    && (!dirOnly ==> !IsSpace(glob[|glob| - 1]) && glob[|glob| - 1] != '/')
    && (!negate ==> glob[0] != '!' && (StripLeft(glob) != "" ==> StripLeft(glob)[0] != '#'))
  }

  lemma {:induction false} FirstVisible(s: string, tail: string)
    requires tail == "" || tail == "/"
    requires StripLeft(s) != "" ==> StripLeft(s)[0] != '#'
    ensures StripLeft(s + tail) != "" ==> StripLeft(s + tail)[0] != '#'
  {
    if s == "" {
      assert s + tail == tail;
    } else if IsSpace(s[0]) {
      assert (s + tail)[1..] == s[1..] + tail;
      FirstVisible(s[1..], tail);
    }
  }

  lemma ParseOfLine(glob: string, negate: bool, dirOnly: bool)
    requires Writable(glob, negate, dirOnly)
    ensures ParseLine(LineOf(glob, negate, dirOnly)) == Some(Rule(CompileSpec(glob), negate, dirOnly))
  {
    hide CompileSpec;
    var line := LineOf(glob, negate, dirOnly);
    var body := glob + if dirOnly then "/" else "";
    assert line[|line| - 1] == if dirOnly then '/' else glob[|glob| - 1];
    assert line[0] == if negate then '!' else glob[0];
    assert StripRight(line) == line;
    if negate {
      assert StripLeft(line) == line;
    } else {
      FirstVisible(glob, if dirOnly then "/" else "");
      assert line == body;
    }
    assert (if negate then line[1..] else line) == body;
    assert (if dirOnly then body[..|body| - 1] else body) == glob;
  }

  /** Exactly these lines hold no rule: blank ones, comments, and marks without a glob. */
  lemma NoRule(raw: string)
    ensures
      var text := StripRight(raw);
      ParseLine(raw) == None <==>
        || StripLeft(text) == "" || StripLeft(text)[0] == '#'
        || text == "!" || text == "/" || text == "!/"
  {
    hide CompileSpec;
    var text := StripRight(raw);
    StripLeftOfVisible(text);
    StripRightEnds(raw);
    if text != "" {
      var negate := text[0] == '!';
      var body := if negate then text[1..] else text;
      assert negate && body == "" <==> text == "!";
      assert negate && body == "/" <==> text == "!/";
    }
  }

  lemma {:induction false} StripRightEnds(s: string)
    ensures StripRight(s) != "" ==> !IsSpace(StripRight(s)[|StripRight(s)| - 1])
  {
    if s != "" && IsSpace(s[|s| - 1]) {
      StripRightEnds(s[..|s| - 1]);
    }
  }

  lemma {:induction false} StripLeftOfVisible(s: string)
    ensures s != "" && !IsSpace(s[|s| - 1]) ==> StripLeft(s) != ""
  {
    if s != "" && IsSpace(s[0]) {
      StripLeftOfVisible(s[1..]);
    }
  }

  /** Blanks at the end of a line do not matter. */
  lemma {:induction false} BlanksAtEnd(raw: string, blanks: string)
    requires forall i :: 0 <= i < |blanks| ==> IsSpace(blanks[i])
    ensures ParseLine(raw + blanks) == ParseLine(raw)
  {
    hide CompileSpec;
    if blanks == "" {
      assert raw + blanks == raw;
    } else {
      var shorter := blanks[..|blanks| - 1];
      BlanksAtEnd(raw, shorter);
      assert (raw + blanks)[..|raw + blanks| - 1] == raw + shorter;
    }
  }

  // ---- the form under which a path is matched ----------------------------------------------------

  lemma {:induction false} LeadingKeeps(s: string)
    ensures NonEmpty(Split(StripLeadingSlashes(s))) == NonEmpty(Split(s))
    ensures StripLeadingSlashes(s) != "" ==> StripLeadingSlashes(s)[0] != '/'
    decreases |s|
  {
    hide Split, NonEmpty;
    if s != "" && s[0] == '/' {
      LeadingKeeps(s[1..]);
      SplitFirst("", s[1..]);
      assert "" + "/" + s[1..] == s;
      NonEmptyAppend([""], Split(s[1..]));
      NothingIsEmpty();
    }
  }

  lemma NothingIsEmpty()
    ensures NonEmpty([""]) == []
  {
    assert [""][1..] == [];
  }

  lemma {:induction false} TrailingKeeps(s: string)
    ensures NonEmpty(Split(StripTrailingSlashes(s))) == NonEmpty(Split(s))
    ensures StripTrailingSlashes(s) != "" ==> StripTrailingSlashes(s)[|StripTrailingSlashes(s)| - 1] != '/'
    decreases |s|
  {
    hide Split, NonEmpty;
    if s != "" && s[|s| - 1] == '/' {
      var front := s[..|s| - 1];
      TrailingKeeps(front);
      SplitBetween(front, "");
      SplitLast("");
      assert front + "/" + "" == s;
      NonEmptyAppend(Split(front), [""]);
      NothingIsEmpty();
    }
  }

  /** A path is matched with slashes for backslashes and none at either end, its components being kept. */
  lemma MatchFormMeans(rel: string)
    ensures
      var norm := MatchForm(rel);
      && '\\' !in norm && (norm != "" ==> norm[0] != '/' && norm[|norm| - 1] != '/')
      && NonEmpty(Split(norm)) == NonEmpty(Split(Unbackslash(rel)))
  {
    hide Split, NonEmpty, StripLeadingSlashes, StripTrailingSlashes;
    var s := Unbackslash(rel);
    LeadingKeeps(s);
    TrailingKeeps(StripLeadingSlashes(s));
    LeadingIsPart(s);
    assert forall i :: 0 <= i < |s| ==> s[i] != '\\';
  }

  lemma {:induction false} LeadingIsPart(s: string)
    ensures var r := StripLeadingSlashes(s); |r| <= |s| && r == s[|s| - |r|..]
  {
    if s != "" && s[0] == '/' {
      LeadingIsPart(s[1..]);
    }
  }

  // ---- the built-in rules -----------------------------------------------------------------------

  /** The metadata directory is known by the first component. */
  lemma MetadataIsFirst(norm: string)
    ensures IsMetadata(norm) <==> Split(norm)[0] == ".jp"
  {
    hide Split, FirstIndex;
    var n := FirstIndex(norm, '/');
    SplitUnfolds(norm);
    assert Split(norm)[0] == norm[..n];
    assert n == |norm| ==> norm[..n] == norm;
    if IsMetadata(norm) {
      assert norm[..3] == ".jp" && forall k :: 0 <= k < 3 ==> norm[k] == ".jp"[k];
      assert |norm| > 3 ==> norm[3] == norm[..4][3];
    }
    assert |norm| >= 4 ==> norm[..4] == norm[..3] + [norm[3]];
  }

  lemma VerdictSnoc(rules: seq<Rule>, rule: Rule, norm: string, isDir: bool)
    ensures Verdict(rules + [rule], norm, isDir)
         == if Applies(rule, norm, isDir) then Some(!rule.negate) else Verdict(rules, norm, isDir)
  {
    assert (rules + [rule])[..|rules|] == rules;
  }

  /** Without any lines a path is ignored exactly if it lies in a metadata directory at any depth, is one itself,
      or has a component that begins like a temporary file of a run. */
  lemma DefaultsMean(norm: string, isDir: bool)
    requires OneLine(norm)
    ensures Verdict(DefaultRules(), norm, isDir) == Some(true) <==>
              Selects(".jp/**", norm) || (isDir && ".jp" in Split(norm)) || Selects("__temp__.*", norm)
  {
    hide Selects, Matches, CompileSpec, Verdict, Split;
    var a, b, c := Rule(CompileSpec(".jp/**"), false, false), Rule(CompileSpec(".jp"), false, true),
        Rule(CompileSpec("__temp__.*"), false, false);
    CompiledMeans(".jp/**", norm);
    CompiledMeans(".jp", norm);
    CompiledMeans("__temp__.*", norm);
    WildlessJp();
    BareNameSelectsComponent(".jp", norm);
    assert DOT_DIR + "/**" == ".jp/**";
    assert DefaultRules() == [] + [a] + [b] + [c];
    VerdictSnoc([] + [a] + [b], c, norm, isDir);
    VerdictSnoc([] + [a], b, norm, isDir);
    VerdictSnoc([], a, norm, isDir);
    NoVerdict(norm, isDir);
  }

  lemma NoVerdict(norm: string, isDir: bool)
    ensures Verdict([], norm, isDir) == None
  {
  }

  lemma WildlessJp()
    ensures Wildless(".jp") && '/' !in ".jp"
  {
  }

  /** With one more line at the end that selects the path, the path is ignored or re-included by that line's
      polarity, whatever came before; a line for directories only does so for a directory. */
  lemma LastLineDecides(
    patterns: seq<string>, glob: string, negate: bool, dirOnly: bool, rel: string, isDir: bool)
    requires Writable(glob, negate, dirOnly) && (dirOnly ==> isDir)
    requires OneLine(MatchForm(rel)) && Selects(glob, MatchForm(rel))
    ensures Verdict(DefaultRules() + ParseAll(patterns + [LineOf(glob, negate, dirOnly)]), MatchForm(rel), isDir)
         == Some(!negate)
  {
    hide ParseLine, CompileSpec, Selects, Matches, MatchForm, DefaultRules, LineOf;
    var line := LineOf(glob, negate, dirOnly);
    ParseOfLine(glob, negate, dirOnly);
    CompiledMeans(glob, MatchForm(rel));
    assert (patterns + [line])[..|patterns|] == patterns;
    var rules := DefaultRules() + ParseAll(patterns + [line]);
    assert rules[|rules| - 1] == Rule(CompileSpec(glob), negate, dirOnly);
  }
}
