/** The pieces of Rust's standard library that several components lean on. */
module Text {

  datatype Option<+T> = None | Some(value: T)

  /** `char::is_whitespace`: the Unicode White_Space property. */
  predicate IsWhitespace(c: char) {
    || '\t' <= c <= '\r'
    || c == ' '
    || c == '\U{0085}'
    || c == '\U{00A0}'
    || c == '\U{1680}'
    || '\U{2000}' <= c <= '\U{200A}'
    || c == '\U{2028}'
    || c == '\U{2029}'
    || c == '\U{202F}'
    || c == '\U{205F}'
    || c == '\U{3000}'
  }

  function TrimStart(s: string): string {
    if s != "" && IsWhitespace(s[0]) then TrimStart(s[1..]) else s
  }

  function TrimEnd(s: string): string {
    if s != "" && IsWhitespace(s[|s| - 1]) then TrimEnd(s[..|s| - 1]) else s
  }

  /** `str::trim` */
  function Trim(s: string): string {
    TrimEnd(TrimStart(s))
  }

  /** White space on both sides of `s[a..b]`, which neither starts nor ends with it. */
  ghost predicate IsTrimmedTo(s: string, a: nat, b: nat) {
    && a <= b <= |s|
    && (forall i | 0 <= i < a || b <= i < |s| :: IsWhitespace(s[i]))
    && (a < b ==> !IsWhitespace(s[a]) && !IsWhitespace(s[b - 1]))
  }

  /** What trimming gives: all of the text but the white space around it. */
  lemma {:induction false} TrimMeaning(s: string, a: nat, b: nat)
    requires IsTrimmedTo(s, a, b)
    ensures Trim(s) == s[a..b]
  {
    if a < b {
      TrimStartTo(s, a);
      TrimEndTo(s[a..], b - a);
      assert s[a..][..b - a] == s[a..b];
    } else {
      TrimStartTo(s, |s|);
    }
  }

  lemma {:induction false} TrimStartTo(s: string, a: nat)
    requires a <= |s| && (forall i | 0 <= i < a :: IsWhitespace(s[i])) && (a < |s| ==> !IsWhitespace(s[a]))
    ensures TrimStart(s) == s[a..]
  {
    if a == 0 {
    } else {
      TrimStartTo(s[1..], a - 1);
      assert s[1..][a - 1..] == s[a..];
    }
  }

  lemma {:induction false} TrimEndTo(s: string, b: nat)
    requires b <= |s| && (forall i | b <= i < |s| :: IsWhitespace(s[i])) && (b > 0 ==> !IsWhitespace(s[b - 1]))
    ensures TrimEnd(s) == s[..b]
  {
    if b == |s| {
      assert s[..b] == s;
    } else {
      TrimEndTo(s[..|s| - 1], b);
    }
  }

  lemma {:induction false} TrimExists(s: string) returns (a: nat, b: nat)
    ensures IsTrimmedTo(s, a, b)
  {
    a := 0;
    while a < |s| && IsWhitespace(s[a])
      invariant a <= |s| && forall i | 0 <= i < a :: IsWhitespace(s[i])
    {
      a := a + 1;
    }
    b := |s|;
    while a < b && IsWhitespace(s[b - 1])
      invariant a <= b <= |s| && forall i | b <= i < |s| :: IsWhitespace(s[i])
      invariant a < |s| ==> !IsWhitespace(s[a])
    {
      b := b - 1;
    }
  }

  /** Trimming leaves nothing to trim. */
  lemma TrimTwice(s: string)
    ensures Trim(Trim(s)) == Trim(s)
  {
    var a, b := TrimExists(s);
    TrimMeaning(s, a, b);
    var t := s[a..b];
    TrimMeaning(t, 0, |t|);
  }

  /** `str::trim_end_matches(c)` */
  function TrimEndMatches(s: string, c: char): string {
    if s != "" && s[|s| - 1] == c then TrimEndMatches(s[..|s| - 1], c) else s
  }

  /** `str::trim_start_matches(c)` */
  function TrimStartMatches(s: string, c: char): string {
    if s != "" && s[0] == c then TrimStartMatches(s[1..], c) else s
  }

  /** What stripping one character from the end gives, in terms of where the last other character is. */
  lemma {:induction false} TrimEndMatchesMeaning(s: string, c: char, n: nat)
    requires n <= |s| && (forall i | n <= i < |s| :: s[i] == c) && (n > 0 ==> s[n - 1] != c)
    ensures TrimEndMatches(s, c) == s[..n]
  {
    if n == |s| {
      assert s[..n] == s;
    } else {
      TrimEndMatchesMeaning(s[..|s| - 1], c, n);
    }
  }

  /** The same at the start. */
  lemma {:induction false} TrimStartMatchesMeaning(s: string, c: char, n: nat)
    requires n <= |s| && (forall i | 0 <= i < n :: s[i] == c) && (n < |s| ==> s[n] != c)
    ensures TrimStartMatches(s, c) == s[n..]
  {
    if n == 0 {
    } else {
      TrimStartMatchesMeaning(s[1..], c, n - 1);
      assert s[1..][n - 1..] == s[n..];
    }
  }

  /** `str::contains(part)` */
  predicate Contains(s: string, part: string) {
    exists i | 0 <= i <= |s| :: part <= s[i..]
  }

  /** `part` stands somewhere in `s`. */
  ghost predicate HasText(s: string, part: string) {
    exists before, after :: s == before + part + after
  }

  lemma ContainsMeaning(s: string, part: string)
    ensures Contains(s, part) <==> HasText(s, part)
  {
    if i :| 0 <= i <= |s| && part <= s[i..] {
      assert s == s[..i] + part + s[i + |part|..];
    }
    if before, after :| s == before + part + after {
      assert s[|before|..] == part + after;
    }
  }

  /** `str::split(separator)`: always at least one part. */
  function SplitOn(s: string, separator: char): (parts: seq<string>)
    ensures parts != []
  {
    if s == "" then
      [""]
    else
      var rest := SplitOn(s[1..], separator);
      if s[0] == separator then [""] + rest else [[s[0]] + rest[0]] + rest[1..]
  }

  /** A leading run without separators only lengthens the first part. */
  lemma {:induction false} SplitRun(run: string, rest: string, separator: char)
    requires separator !in run
    ensures SplitOn(run + rest, separator) == [run + SplitOn(rest, separator)[0]] + SplitOn(rest, separator)[1..]
  {
    var parts := SplitOn(rest, separator);
    if run == "" {
      assert run + rest == rest && run + parts[0] == parts[0];
    } else {
      SplitRun(run[1..], rest, separator);
      assert (run + rest)[1..] == run[1..] + rest;
      assert run[0] in run;
      assert [run[0]] + (run[1..] + parts[0]) == run + parts[0];
    }
  }

  /** The parts have no separators, and no characters that the whole does not have. */
  lemma {:induction false} SplitKeepsCharacters(s: string, separator: char)
    ensures forall i | 0 <= i < |SplitOn(s, separator)| :: separator !in SplitOn(s, separator)[i]
    ensures forall i, c | 0 <= i < |SplitOn(s, separator)| && c in SplitOn(s, separator)[i] :: c in s
  {
    if s == "" {
    } else {
      SplitKeepsCharacters(s[1..], separator);
      assert s == [s[0]] + s[1..];
    }
  }

  function LowerChar(c: char): char {
    if 'A' <= c <= 'Z' then c - 'A' + 'a' else c
  }

  /** `str::to_ascii_lowercase` */
  function Lower(s: string): string {
    seq(|s|, i requires 0 <= i < |s| => LowerChar(s[i]))
  }

  /** Two characters are the same up to the case of ASCII letters. */
  ghost predicate SameLetter(a: char, b: char) {
    || a == b
    || ('A' <= a <= 'Z' && b as int == a as int + 32)
    || ('A' <= b <= 'Z' && a as int == b as int + 32)
  }

  lemma LowerMeaning(a: string, b: string)
    ensures Lower(a) == Lower(b) <==> |a| == |b| && forall i | 0 <= i < |a| :: SameLetter(a[i], b[i])
  {
    if Lower(a) == Lower(b) {
      assert |a| == |Lower(a)| == |Lower(b)| == |b|;
      forall i | 0 <= i < |a|
        ensures SameLetter(a[i], b[i])
      {
        assert Lower(a)[i] == Lower(b)[i];
      }
    }
  }
}
