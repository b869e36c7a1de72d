/**
 Slash-separated relative paths, and the `.dockerignore` rules that are matched against them
 (`glob_match` and `is_ignored` in crates/clustershell-bootstrap/src/build.rs).
 */
module RelativePaths {
  import opened Text

  /** `path.split('/')` */
  function Split(path: string): (components: seq<string>)
    ensures components != []
  {
    SplitOn(path, '/')
  }

  function Join(components: seq<string>): string
    requires components != []
  {
    if |components| == 1 then components[0] else components[0] + "/" + Join(components[1..])
  }

  ghost predicate IsName(name: string) {
    '/' !in name
  }

  ghost predicate AreNames(components: seq<string>) {
    forall i | 0 <= i < |components| :: IsName(components[i])
  }

  /** Splitting a joined path gives the components back. */
  lemma {:induction false} SplitJoin(components: seq<string>)
    requires components != [] && AreNames(components)
    ensures Split(Join(components)) == components
  {
    var head, tail := components[0], components[1..];
    if tail == [] {
      SplitRun(head, "", '/');
      assert Join(components) == head + "";
    } else {
      SplitJoin(tail);
      var rest := "/" + Join(tail);
      assert rest[1..] == Join(tail);
      assert Split(rest) == [""] + tail;
      assert head + "" == head;
      SplitRun(head, rest, '/');
      assert Join(components) == head + rest;
    }
  }

  /** Joining what a path is split into gives the path back. */
  lemma {:induction false} JoinSplit(path: string)
    ensures Join(Split(path)) == path
  {
    if path == "" {
    } else {
      JoinSplit(path[1..]);
      var rest := Split(path[1..]);
      if path[0] == '/' {
        assert ([""] + rest)[1..] == rest;
      } else {
        var all := [[path[0]] + rest[0]] + rest[1..];
        assert all[1..] == rest[1..];
        assert Join(all) == [path[0]] + Join(rest);
      }
    }
  }

  lemma JoinInjective(a: seq<string>, b: seq<string>)
    requires a != [] && b != [] && AreNames(a) && AreNames(b)
    requires Join(a) == Join(b)
    ensures a == b
  {
    SplitJoin(a);
    SplitJoin(b);
  }

  /** What follows the slash at `idx` is split into a proper tail of the path's components. */
  lemma {:induction false} SuffixIsTail(path: string, idx: nat) returns (k: nat)
    requires idx < |path| && path[idx] == '/'
    ensures 1 <= k < |Split(path)|
    ensures Split(path[idx + 1..]) == Split(path)[k..]
  {
    if idx == 0 {
      k := 1;
    } else {
      var j := SuffixIsTail(path[1..], idx - 1);
      assert path[1..][idx..] == path[idx + 1..];
      k := if path[0] == '/' then j + 1 else j;
    }
  }

  /** Every proper tail of the components is what follows some slash. */
  lemma {:induction false} TailIsSuffix(path: string, k: nat) returns (idx: nat)
    requires 1 <= k < |Split(path)|
    ensures idx < |path| && path[idx] == '/'
    ensures Split(path[idx + 1..]) == Split(path)[k..]
  {
    if path[0] == '/' && k == 1 {
      idx := 0;
    } else {
      var i := TailIsSuffix(path[1..], if path[0] == '/' then k - 1 else k);
      idx := i + 1;
      assert path[1..][i + 1..] == path[idx + 1..];
    }
  }
}

module DockerIgnore {
  import opened RelativePaths
  import opened Text
  import opened Wildcard

  datatype IgnorePattern = IgnorePattern(pattern: string, negated: bool)

  const DOUBLE_STAR := "**/"

  /** The part of `glob_match` after leading double stars: a name, or a pattern with slashes. */
  predicate PlainMatch(pattern: string, path: string, isDir: bool) {
    if '/' !in pattern then
      var components := Split(path);
      SimpleMatch(pattern, components[|components| - 1]) || SimpleMatch(pattern, components[0])
    else
      SimpleMatch(pattern, path) || (isDir && TrimEndMatches(pattern, '/') <= path)
  }

  predicate GlobMatch(pattern: string, path: string, isDir: bool)
    decreases |pattern|
  {
    if DOUBLE_STAR <= pattern then
      var rest := pattern[3..];
      || GlobMatch(rest, path, isDir)
      || exists idx | 0 <= idx < |path| :: path[idx] == '/' && GlobMatch(rest, path[idx + 1..], isDir)
    else
      PlainMatch(pattern, path, isDir)
  }

  // ------------------------------------------------------------- double stars

  ghost function DoubleStars(n: nat): string {
    if n == 0 then "" else DOUBLE_STAR + DoubleStars(n - 1)
  }

  /** `from` is the path itself or what follows one of its slashes. */
  ghost predicate StartsAfterSlash(path: string, from: nat) {
    from == 0 || (from <= |path| && path[from - 1] == '/')
  }

  /** What holds of the path or of what follows one of its slashes. */
  lemma AfterSomeSlash(path: string, holds: string -> bool)
    ensures (holds(path) || exists idx | 0 <= idx < |path| :: path[idx] == '/' && holds(path[idx + 1..])) <==>
            exists from: nat :: StartsAfterSlash(path, from) && holds(path[from..])
  {
    assert path[0..] == path && StartsAfterSlash(path, 0);
    if idx: nat :| idx < |path| && path[idx] == '/' && holds(path[idx + 1..]) {
      assert StartsAfterSlash(path, idx + 1);
    }
    if from: nat :| from > 0 && StartsAfterSlash(path, from) && holds(path[from..]) {
      var idx := from - 1;
      assert path[idx] == '/' && holds(path[idx + 1..]);
    }
  }

  /** One leading double star: the rest matches at the start or after some slash. */
  lemma OneDoubleStar(rest: string, path: string, isDir: bool)
    ensures GlobMatch(DOUBLE_STAR + rest, path, isDir) <==>
            exists from: nat :: StartsAfterSlash(path, from) && GlobMatch(rest, path[from..], isDir)
  {
    var pattern := DOUBLE_STAR + rest;
    assert DOUBLE_STAR <= pattern && pattern[3..] == rest;
    var holds := (p: string) => GlobMatch(rest, p, isDir);
    AfterSomeSlash(path, holds);
    assert forall p :: holds(p) == GlobMatch(rest, p, isDir);
  }

  /** A repeated double star adds nothing, whatever follows. */
  lemma {:induction false} DoubleStarCollapses(rest: string, path: string, isDir: bool)
    ensures GlobMatch(DOUBLE_STAR + (DOUBLE_STAR + rest), path, isDir) ==
            GlobMatch(DOUBLE_STAR + rest, path, isDir)
  {
    var once := DOUBLE_STAR + rest;
    OneDoubleStar(once, path, isDir);
    OneDoubleStar(rest, path, isDir);
    if GlobMatch(once, path, isDir) {
      assert StartsAfterSlash(path, 0) && path[0..] == path;
    }
    if from: nat :| StartsAfterSlash(path, from) && GlobMatch(once, path[from..], isDir) {
      var tail := path[from..];
      OneDoubleStar(rest, tail, isDir);
      var more: nat :| StartsAfterSlash(tail, more) && GlobMatch(rest, tail[more..], isDir);
      assert tail[more..] == path[from + more..] && StartsAfterSlash(path, from + more);
    }
  }

  /** Any number of leading double stars means: the rest matches at the start or after some slash. */
  lemma {:induction false} DoubleStarMeaning(n: nat, rest: string, path: string, isDir: bool)
    requires n >= 1 && !(DOUBLE_STAR <= rest)
    ensures GlobMatch(DoubleStars(n) + rest, path, isDir) <==>
            exists from: nat :: StartsAfterSlash(path, from) && GlobMatch(rest, path[from..], isDir)
  {
    var inner := DoubleStars(n - 1) + rest;
    assert DoubleStars(n) + rest == DOUBLE_STAR + inner;
    if n == 1 {
      assert inner == rest;
      OneDoubleStar(rest, path, isDir);
    } else {
      var last := DoubleStars(n - 2) + rest;
      assert inner == DOUBLE_STAR + last;
      DoubleStarCollapses(last, path, isDir);
      DoubleStarMeaning(n - 1, rest, path, isDir);
    }
  }

  /** Behind double stars a plain name is looked for in every component of the path. */
  lemma {:induction false} DoubleStarName(n: nat, name: string, path: string, isDir: bool)
    requires n >= 1 && IsName(name)
    ensures GlobMatch(DoubleStars(n) + name, path, isDir) <==>
            exists k | 0 <= k < |Split(path)| :: SimpleMatch(name, Split(path)[k])
  {
    assert !(DOUBLE_STAR <= name) by {
      assert DOUBLE_STAR[2] == '/';
    }
    DoubleStarMeaning(n, name, path, isDir);
    if from: nat :| StartsAfterSlash(path, from) && GlobMatch(name, path[from..], isDir) {
      var first := ComponentsFrom(path, from);
      var tail := Split(path)[first..];
      assert tail[0] == Split(path)[first] && tail[|tail| - 1] == Split(path)[|Split(path)| - 1];
    }
    if k: nat :| k < |Split(path)| && SimpleMatch(name, Split(path)[k]) {
      var from := ComponentStart(path, k);
      assert GlobMatch(name, path[from..], isDir);
    }
  }

  lemma ComponentsFrom(path: string, from: nat) returns (first: nat)
    requires StartsAfterSlash(path, from)
    ensures first < |Split(path)| && Split(path[from..]) == Split(path)[first..]
  {
    if from == 0 {
      first := 0;
      assert path[0..] == path;
    } else {
      first := SuffixIsTail(path, from - 1);
    }
  }

  lemma ComponentStart(path: string, k: nat) returns (from: nat)
    requires k < |Split(path)|
    ensures StartsAfterSlash(path, from) && Split(path[from..]) == Split(path)[k..]
  {
    if k == 0 {
      from := 0;
      assert path[0..] == path;
    } else {
      var idx := TailIsSuffix(path, k);
      from := idx + 1;
    }
  }

  /** For a path without stars the same holds of the wildcard language itself. */
  lemma DoubleStarNameLanguage(n: nat, name: string, path: string, isDir: bool)
    requires n >= 1 && IsName(name) && '*' !in path
    ensures GlobMatch(DoubleStars(n) + name, path, isDir) <==>
            exists k | 0 <= k < |Split(path)| :: Matches(name, Split(path)[k])
  {
    DoubleStarName(n, name, path, isDir);
    forall k | 0 <= k < |Split(path)|
      ensures SimpleMatch(name, Split(path)[k]) <==> Matches(name, Split(path)[k])
    {
      SplitKeepsCharacters(path, '/');
      SimpleMatchDecides(name, Split(path)[k]);
    }
  }

  // ---------------------------------------------------------- patterns without double stars

  /** A pattern without slashes is tried on the first and on the last name of a path, and on no other. */
  lemma NamePattern(pattern: string, names: seq<string>, isDir: bool)
    requires IsName(pattern) && names != [] && AreNames(names)
    ensures GlobMatch(pattern, Join(names), isDir) <==>
            SimpleMatch(pattern, names[0]) || SimpleMatch(pattern, names[|names| - 1])
  {
    assert !(DOUBLE_STAR <= pattern) by {
      assert DOUBLE_STAR[2] == '/';
    }
    SplitJoin(names);
  }

  /** For names without stars, that is membership in the wildcard language. */
  lemma NamePatternLanguage(pattern: string, names: seq<string>, isDir: bool)
    requires IsName(pattern) && names != [] && AreNames(names)
    requires '*' !in names[0] && '*' !in names[|names| - 1]
    ensures GlobMatch(pattern, Join(names), isDir) <==>
            Matches(pattern, names[0]) || Matches(pattern, names[|names| - 1])
  {
    NamePattern(pattern, names, isDir);
    SimpleMatchDecides(pattern, names[0]);
    SimpleMatchDecides(pattern, names[|names| - 1]);
  }

  /** `pattern[..n]` is the pattern without the slashes at its end. */
  ghost predicate IsStem(pattern: string, n: nat) {
    n <= |pattern| && (forall i | n <= i < |pattern| :: pattern[i] == '/') && (n > 0 ==> pattern[n - 1] != '/')
  }

  /**
   A pattern with a slash is matched against the whole path; a directory is matched as well when
   its path begins with the pattern, slashes at the end aside.
   */
  lemma PathPatternLanguage(pattern: string, n: nat, path: string)
    requires '/' in pattern && !(DOUBLE_STAR <= pattern) && IsStem(pattern, n) && '*' !in path
    ensures GlobMatch(pattern, path, false) <==> Matches(pattern, path)
    ensures GlobMatch(pattern, path, true) <==> Matches(pattern, path) || pattern[..n] <= path
  {
    SimpleMatchDecides(pattern, path);
    TrimEndMatchesMeaning(pattern, '/', n);
  }

  // ---------------------------------------------------------- patterns without wildcards

  ghost predicate IsLiteral(pattern: string) {
    '*' !in pattern && '?' !in pattern
  }

  lemma {:induction false} LiteralMatchesItself(p: string, t: string)
    requires IsLiteral(p)
    ensures Matches(p, t) <==> p == t
  {
    if p == "" {
    } else {
      assert p[0] in p;
      if t != "" {
        LiteralMatchesItself(p[1..], t[1..]);
        assert p == [p[0]] + p[1..] && t == [t[0]] + t[1..];
      }
    }
  }

  /**
   A literal pattern with a slash matches exactly the file of that path, but every directory whose
   path merely begins with the same characters.
   */
  lemma LiteralPattern(pattern: string, path: string)
    requires IsLiteral(pattern) && '/' in pattern
    ensures GlobMatch(pattern, path, false) <==> pattern == path
    ensures forall n: nat | IsStem(pattern, n) ::
              GlobMatch(pattern, path, true) <==> pattern == path || pattern[..n] <= path
  {
    assert !(DOUBLE_STAR <= pattern) by {
      assert DOUBLE_STAR[0] == '*';
    }
    SimpleMatchDecides(pattern, path);
    LiteralMatchesItself(pattern, path);
    forall n: nat | IsStem(pattern, n)
      ensures TrimEndMatches(pattern, '/') == pattern[..n]
    {
      TrimEndMatchesMeaning(pattern, '/', n);
    }
  }

  lemma DirectoryPrefixIsNotAComponentPrefix()
    ensures GlobMatch("a/b", "a/bc", true)
  {
    var pattern := "a/b";
    assert pattern[1] == '/' && IsLiteral(pattern);
    LiteralPattern(pattern, "a/bc");
    assert IsStem(pattern, 3);
  }

  // -------------------------------------------------------------- ignore lists

  predicate RuleMatches(rule: IgnorePattern, path: string, isDir: bool) {
    GlobMatch(TrimStartMatches(rule.pattern, '/'), path, isDir)
  }

  /** Slashes at the start of a rule do not matter. */
  lemma LeadingSlashesDropped(rule: IgnorePattern, n: nat, path: string, isDir: bool)
    requires n <= |rule.pattern| && forall i | 0 <= i < n :: rule.pattern[i] == '/'
    requires n < |rule.pattern| ==> rule.pattern[n] != '/'
    ensures RuleMatches(rule, path, isDir) <==> GlobMatch(rule.pattern[n..], path, isDir)
  {
    TrimStartMatchesMeaning(rule.pattern, '/', n);
  }

  /** `k` is the last rule of the list that matches the path. */
  ghost predicate IsLastMatch(rules: seq<IgnorePattern>, path: string, isDir: bool, k: nat) {
    && k < |rules|
    && RuleMatches(rules[k], path, isDir)
    && forall j | k < j < |rules| :: !RuleMatches(rules[j], path, isDir)
  }

  /** The last matching rule decides; with no matching rule the path is kept. */
  ghost predicate Ignored(path: string, isDir: bool, rules: seq<IgnorePattern>) {
    exists k: nat :: IsLastMatch(rules, path, isDir, k) && !rules[k].negated
  }

  lemma LastMatchUnique(rules: seq<IgnorePattern>, path: string, isDir: bool, a: nat, b: nat)
    requires IsLastMatch(rules, path, isDir, a) && IsLastMatch(rules, path, isDir, b)
    ensures a == b
  {}

  method IsIgnored(path: string, isDir: bool, rules: seq<IgnorePattern>) returns (ignored: bool)
    ensures ignored <==> Ignored(path, isDir, rules)
    ensures forall k: nat :: IsLastMatch(rules, path, isDir, k) ==> ignored == !rules[k].negated
  {
    ignored := false;
    ghost var last: Option<nat> := None;
    for i := 0 to |rules|
      invariant last.None? ==> !ignored && forall j | 0 <= j < i :: !RuleMatches(rules[j], path, isDir)
      invariant last.Some? ==> IsLastMatch(rules[..i], path, isDir, last.value)
      invariant last.Some? ==> ignored == !rules[last.value].negated
    {
      var pattern := TrimStartMatches(rules[i].pattern, '/');
      if GlobMatch(pattern, path, isDir) {
        ignored := !rules[i].negated;
        last := Some(i);
      }
    }
    assert rules[..|rules|] == rules;
    forall k: nat | IsLastMatch(rules, path, isDir, k)
      ensures ignored == !rules[k].negated
    {
      if last.Some? {
        LastMatchUnique(rules, path, isDir, k, last.value);
      }
    }
  }
}
