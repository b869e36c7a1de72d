/**
 The single-segment wildcard matcher of the build-context filter
 (`simple_glob_match` in crates/clustershell-bootstrap/src/build.rs).

 `Matches` is the wildcard language, written without reference to the algorithm.
 `Scan` is the greedy algorithm on suffixes: it remembers only the latest star.
 `SimpleGlobMatch` is the loop over indices that the repository runs.
 */
module Wildcard {
  import opened Text

  /** Whether the pattern character `p`, read as `?` or as a literal, accepts `c`. */
  predicate Fits(p: char, c: char) {
    p == '?' || p == c
  }

  predicate AllStars(p: string) {
    forall i | 0 <= i < |p| :: p[i] == '*'
  }

  /** The wildcard language: `?` is one character, `*` is any run of characters. */
  ghost predicate Matches(p: string, t: string)
    decreases |p| + |t|
  {
    if p == "" then
      t == ""
    else if p[0] == '*' then
      Matches(p[1..], t) || (t != "" && Matches(p, t[1..]))
    else
      t != "" && Fits(p[0], t[0]) && Matches(p[1..], t[1..])
  }

  /** The latest star met: the pattern after it, and the text it currently starts at. */
  datatype Mark = NoMark | Mark(pattern: string, text: string)

  /** The greedy matcher. Only the latest star is ever retried. */
  predicate Scan(p: string, t: string, mark: Mark)
    requires mark.Mark? ==> |t| <= |mark.text|
    decreases if mark.NoMark? then |t| + 1 else |mark.text|, |p|
  {
    if t == "" then
      AllStars(p)
    else if p != "" && Fits(p[0], t[0]) then
      Scan(p[1..], t[1..], mark)
    else if p != "" && p[0] == '*' then
      Scan(p[1..], t, Mark(p[1..], t))
    else
      match mark
      case NoMark => false
      case Mark(mp, mt) => Scan(mp, mt[1..], Mark(mp, mt[1..]))
  }

  predicate SimpleMatch(pattern: string, text: string) {
    Scan(pattern, text, NoMark)
  }

  // ---------------------------------------------------------------- soundness

  lemma {:induction false} AllStarsMatchAnything(p: string, t: string)
    requires AllStars(p)
    requires p == "" ==> t == ""
    ensures Matches(p, t)
    decreases |p| + |t|
  {
    if p == "" {
    } else if t == "" {
      AllStarsMatchAnything(p[1..], t);
    } else {
      AllStarsMatchAnything(p, t[1..]);
    }
  }

  /** Everything the greedy matcher accepts is in the language, or is reached by retrying the star. */
  lemma {:induction false} ScanSound(p: string, t: string, mark: Mark)
    requires mark.Mark? ==> |t| <= |mark.text|
    requires Scan(p, t, mark)
    ensures Matches(p, t) || (mark.Mark? && Matches("*" + mark.pattern, mark.text))
    decreases if mark.NoMark? then |t| + 1 else |mark.text|, |p|
  {
    if t == "" {
      AllStarsMatchAnything(p, t);
    } else if p != "" && Fits(p[0], t[0]) {
      ScanSound(p[1..], t[1..], mark);
      if p[0] == '*' && Matches(p[1..], t[1..]) {
        StarAbsorbs(p[1..], t[1..], t);
        assert p == "*" + p[1..];
      }
    } else if p != "" && p[0] == '*' {
      ScanSound(p[1..], t, Mark(p[1..], t));
      assert p == "*" + p[1..];
    } else {
      var mp, mt := mark.pattern, mark.text;
      ScanSound(mp, mt[1..], Mark(mp, mt[1..]));
      var star := "*" + mp;
      assert star[1..] == mp;
      assert Matches(star, mt[1..]);
    }
  }

  /** A star in front absorbs any extra text before what the rest of the pattern matches. */
  lemma {:induction false} StarAbsorbs(q: string, t: string, longer: string)
    requires Matches(q, t) || Matches("*" + q, t)
    requires |t| <= |longer| && longer[|longer| - |t|..] == t
    ensures Matches("*" + q, longer)
    decreases |longer|
  {
    var star := "*" + q;
    assert star[1..] == q;
    if |t| < |longer| {
      assert longer[1..][|longer| - 1 - |t|..] == t;
      StarAbsorbs(q, t, longer[1..]);
    } else {
      assert longer == t;
    }
  }

  // ------------------------------------------------------------- completeness

  /** `seg` is star-free and accepts `mid` character by character. */
  ghost predicate SegmentFits(seg: string, mid: string) {
    && |seg| == |mid|
    && '*' !in seg
    && forall i | 0 <= i < |seg| :: Fits(seg[i], mid[i])
  }

  /**
   A star-free segment in front of `q` consumes exactly its own length, so once the segment has been
   placed at the front of the text a match that starts further right survives as a match of `*q`.
   */
  lemma {:induction false} SegmentThenStar(sp: string, k: nat, st: string)
    requires k < |sp| && sp[k] == '*' && '*' !in sp[..k]
    requires k <= |st|
    requires Matches("*" + sp, st)
    ensures Matches(sp[k..], st[k..])
    decreases |st|
  {
    var star := "*" + sp;
    assert star[1..] == sp;
    if Matches(sp, st) {
      DropSegment(sp, k, st);
    } else {
      assert Matches(star, st[1..]);
      if |st| > k {
        SegmentThenStar(sp, k, st[1..]);
        assert st[1..][k..] == st[k..][1..];
      } else {
        MatchNeedsLength(sp, k, st[1..]);
      }
    }
  }

  lemma {:induction false} DropSegment(p: string, k: nat, t: string)
    requires k <= |p| && '*' !in p[..k]
    requires Matches(p, t)
    ensures k <= |t| && Matches(p[k..], t[k..])
    ensures forall i | 0 <= i < k :: Fits(p[i], t[i])
  {
    if k > 0 {
      assert p[0] == p[..k][0];
      assert p[..k][1..] == p[1..][..k - 1];
      DropSegment(p[1..], k - 1, t[1..]);
      assert p[1..][k - 1..] == p[k..] && t[1..][k - 1..] == t[k..];
      forall i | 0 <= i < k
        ensures Fits(p[i], t[i])
      {
        if i > 0 {
          assert p[1..][i - 1] == p[i] && t[1..][i - 1] == t[i];
        }
      }
    } else {
      assert p[0..] == p && t[0..] == t;
    }
  }

  /** Behind a star, a pattern that starts with `k` plain characters still needs `k` characters of text. */
  lemma {:induction false} MatchNeedsLength(sp: string, k: nat, t: string)
    requires k <= |sp| && '*' !in sp[..k]
    requires Matches("*" + sp, t)
    ensures k <= |t|
    decreases |t|
  {
    var star := "*" + sp;
    assert star[1..] == sp;
    if Matches(sp, t) {
      DropSegment(sp, k, t);
    } else {
      MatchNeedsLength(sp, k, t[1..]);
    }
  }

  /**
   Why the latest star is enough: with the star's text position at `mark.text` and the segment behind it
   already fitting the first `k` characters, any match of `*sp` on `mark.text` is found by going on.
   */
  lemma {:induction false} ScanComplete(sp: string, st: string, k: nat)
    requires k <= |sp| && k <= |st|
    requires SegmentFits(sp[..k], st[..k])
    requires '*' !in st
    requires Matches("*" + sp, st)
    ensures Scan(sp[k..], st[k..], Mark(sp, st))
    decreases |st|, |sp| - k
  {
    var p, t, star := sp[k..], st[k..], "*" + sp;
    assert star[1..] == sp;
    if t == "" {
      EndOfText(sp, st, k);
    } else if p != "" && Fits(p[0], t[0]) {
      assert st[k] in st;
      assert sp[..k + 1] == sp[..k] + [sp[k]] && st[..k + 1] == st[..k] + [st[k]];
      ScanComplete(sp, st, k + 1);
      assert p[1..] == sp[k + 1..] && t[1..] == st[k + 1..];
    } else if p != "" && p[0] == '*' {
      SegmentThenStar(sp, k, st);
      assert p == "*" + p[1..];
      assert p[1..][..0] == t[..0] == "";
      ScanComplete(p[1..], t, 0);
      assert p[1..][0..] == p[1..] && t[0..] == t;
    } else {
      if Matches(sp, st) {
        DropSegment(sp, k, st);
        assert false;
      }
      ScanComplete(sp, st[1..], 0);
      assert sp[0..] == sp && st[1..][0..] == st[1..];
    }
  }

  /** When the text is used up by the segment, a match leaves only stars in the pattern. */
  lemma {:induction false} EndOfText(sp: string, st: string, k: nat)
    requires k <= |sp| && k == |st| && '*' !in sp[..k]
    requires Matches("*" + sp, st)
    ensures AllStars(sp[k..])
  {
    var star := "*" + sp;
    assert star[1..] == sp;
    if Matches(sp, st) {
      DropSegment(sp, k, st);
      EmptyTextNeedsStars(sp[k..]);
    } else {
      MatchNeedsLength(sp, k, st[1..]);
    }
  }

  lemma {:induction false} EmptyTextNeedsStars(p: string)
    requires Matches(p, "")
    ensures AllStars(p)
  {
    if p == "" {
    } else {
      EmptyTextNeedsStars(p[1..]);
    }
  }

  /** Before any star has been met the matcher just follows the language. */
  lemma {:induction false} PrefixComplete(p: string, t: string)
    requires '*' !in p || '*' !in t
    requires Matches(p, t)
    ensures Scan(p, t, NoMark)
    decreases |p|
  {
    if t == "" {
      EmptyTextNeedsStars(p);
    } else if p[0] == '*' && !Fits(p[0], t[0]) {
      assert p == "*" + p[1..];
      assert p[1..][..0] == t[..0] == "";
      ScanComplete(p[1..], t, 0);
      assert p[1..][0..] == p[1..] && t[0..] == t;
    } else {
      assert t[0] in t && p[0] in p;
      PrefixComplete(p[1..], t[1..]);
    }
  }

  // ------------------------------------------------------------ main theorems

  lemma SimpleMatchSound(p: string, t: string)
    requires SimpleMatch(p, t)
    ensures Matches(p, t)
  {
    ScanSound(p, t, NoMark);
  }

  /** The greedy matcher decides the language whenever the text, or the pattern, has no star in it. */
  lemma SimpleMatchDecides(p: string, t: string)
    requires '*' !in p || '*' !in t
    ensures SimpleMatch(p, t) <==> Matches(p, t)
  {
    if SimpleMatch(p, t) {
      SimpleMatchSound(p, t);
    }
    if Matches(p, t) {
      PrefixComplete(p, t);
    }
  }

  /** A literal star in the text is consumed as a literal, and then the star is not retried. */
  lemma StarInTextIsMissed()
    ensures Matches("*a", "*ba")
    ensures !SimpleMatch("*a", "*ba")
  {
    var p, t := "*a", "*ba";
    assert t[1..] == "ba" && t[1..][1..] == "a" && p[1..] == "a";
    assert Matches("a", "a");
    assert Matches(p, "a");
    assert Matches(p, t[1..]);
  }

  /** For one text: the matcher is right for every pattern exactly when the text has no star. */
  lemma {:induction false} TextAgreement(t: string)
    ensures (forall p: string :: SimpleMatch(p, t) <==> Matches(p, t)) <==> '*' !in t
  {
    if '*' !in t {
      forall p: string
        ensures SimpleMatch(p, t) <==> Matches(p, t)
      {
        SimpleMatchDecides(p, t);
      }
    } else {
      var p := MissedPattern(t);
      assert !(SimpleMatch(p, t) <==> Matches(p, t));
    }
  }

  /** For one pattern: the matcher is right for every text exactly when the pattern has no star. */
  lemma {:induction false} PatternAgreement(p: string)
    ensures (forall t: string :: SimpleMatch(p, t) <==> Matches(p, t)) <==> '*' !in p
  {
    if '*' !in p {
      forall t: string
        ensures SimpleMatch(p, t) <==> Matches(p, t)
      {
        SimpleMatchDecides(p, t);
      }
    } else {
      var t := MissedText(p);
      assert !(SimpleMatch(p, t) <==> Matches(p, t));
    }
  }

  /** Every text with a star has a pattern of the language that the matcher rejects. */
  lemma {:induction false} MissedPattern(t: string) returns (p: string)
    requires '*' in t
    ensures Matches(p, t) && !SimpleMatch(p, t)
  {
    if t[0] == '*' {
      var marks := Wild(|t|);
      p := "*" + marks;
      assert p[1..] == marks;
      WildMatches(t);
      WildTooLong(|t|, t[1..]);
    } else {
      var q := MissedPattern(t[1..]);
      p := [t[0]] + q;
      assert p[1..] == q;
    }
  }

  ghost function Wild(n: nat): string {
    if n == 0 then "" else "?" + Wild(n - 1)
  }

  lemma {:induction false} WildMatches(t: string)
    ensures Matches(Wild(|t|), t)
  {
    if t == "" {
    } else {
      WildMatches(t[1..]);
      assert Wild(|t|)[1..] == Wild(|t| - 1);
    }
  }

  lemma {:induction false} WildTooLong(n: nat, t: string)
    requires n > |t|
    ensures !Scan(Wild(n), t, NoMark)
  {
    var w := Wild(n);
    assert w[1..] == Wild(n - 1);
    if t == "" {
      assert w[0] == '?';
    } else {
      WildTooLong(n - 1, t[1..]);
    }
  }

  /** Every pattern with a star has a text of its language that the matcher rejects. */
  lemma {:induction false} MissedText(p: string) returns (t: string)
    requires '*' in p
    ensures Matches(p, t) && !SimpleMatch(p, t)
  {
    var q := p[1..];
    if '*' in q {
      var u := MissedText(q);
      t := [p[0]] + u;
      assert t[1..] == u;
      if p[0] == '*' {
        StarAbsorbs(q, u, t);
        assert p == "*" + q;
      }
    } else {
      // The last star: one extra character after the literal star cannot be skipped any more.
      assert p[0] == '*';
      t := "*a" + q;
      assert t[1..] == "a" + q;
      SelfMatch(q);
      StarAbsorbs(q, q, t);
      assert p == "*" + q;
      PlainTooShort(q, "a" + q);
    }
  }

  lemma {:induction false} SelfMatch(q: string)
    requires '*' !in q
    ensures Matches(q, q)
  {
    if q == "" {
    } else {
      assert q[0] in q;
      SelfMatch(q[1..]);
    }
  }

  lemma {:induction false} PlainTooShort(q: string, t: string)
    requires '*' !in q && |q| < |t|
    ensures !Scan(q, t, NoMark)
  {
    if q == "" {
    } else {
      assert q[0] in q;
      PlainTooShort(q[1..], t[1..]);
    }
  }

  // ------------------------------------------------------------- the real loop

  /** The rest of the loop's run from a state of its four variables. */
  ghost predicate RunFrom(p: string, t: string, pi: nat, ti: nat, pStar: Option<nat>, tStar: nat)
    requires pi <= |p| && tStar <= ti <= |t|
    requires pStar.Some? ==> pStar.value < pi
    decreases |t| - tStar, if pStar.None? then 1 else 0, |p| - pi
  {
    if ti == |t| then AllStars(p[pi..])
    else if pi < |p| && Fits(p[pi], t[ti]) then RunFrom(p, t, pi + 1, ti + 1, pStar, tStar)
    else if pi < |p| && p[pi] == '*' then RunFrom(p, t, pi + 1, ti, Some(pi), ti)
    else pStar.Some? && RunFrom(p, t, pStar.value + 1, tStar + 1, pStar, tStar + 1)
  }

  ghost function MarkOf(p: string, t: string, pStar: Option<nat>, tStar: nat): Mark
    requires tStar <= |t| && (pStar.Some? ==> pStar.value < |p|)
  {
    if pStar.None? then NoMark else Mark(p[pStar.value + 1..], t[tStar..])
  }

  lemma {:induction false} RunIsScan(p: string, t: string, pi: nat, ti: nat, pStar: Option<nat>, tStar: nat)
    requires pi <= |p| && tStar <= ti <= |t|
    requires pStar.Some? ==> pStar.value < pi
    ensures RunFrom(p, t, pi, ti, pStar, tStar) == Scan(p[pi..], t[ti..], MarkOf(p, t, pStar, tStar))
    decreases |t| - tStar, if pStar.None? then 1 else 0, |p| - pi
  {
    var p', t', mark := p[pi..], t[ti..], MarkOf(p, t, pStar, tStar);
    if ti == |t| {
    } else if pi < |p| && Fits(p[pi], t[ti]) {
      assert p'[1..] == p[pi + 1..] && t'[1..] == t[ti + 1..];
      assert Scan(p', t', mark) == Scan(p'[1..], t'[1..], mark);
      assert RunFrom(p, t, pi, ti, pStar, tStar) == RunFrom(p, t, pi + 1, ti + 1, pStar, tStar);
      RunIsScan(p, t, pi + 1, ti + 1, pStar, tStar);
    } else if pi < |p| && p[pi] == '*' {
      assert p'[1..] == p[pi + 1..];
      assert Scan(p', t', mark) == Scan(p'[1..], t', Mark(p'[1..], t'));
      assert RunFrom(p, t, pi, ti, pStar, tStar) == RunFrom(p, t, pi + 1, ti, Some(pi), ti);
      RunIsScan(p, t, pi + 1, ti, Some(pi), ti);
    } else if pStar.Some? {
      assert mark.text[1..] == t[tStar + 1..];
      assert Scan(p', t', mark) == Scan(mark.pattern, mark.text[1..], Mark(mark.pattern, mark.text[1..]));
      assert RunFrom(p, t, pi, ti, pStar, tStar) == RunFrom(p, t, pStar.value + 1, tStar + 1, pStar, tStar + 1);
      RunIsScan(p, t, pStar.value + 1, tStar + 1, pStar, tStar + 1);
    }
  }

  /** Iterations paid for by `retries` backtracks: each one buys at most `width` further iterations. */
  ghost function Budget(retries: nat, width: nat): nat {
    if retries == 0 then 0 else Budget(retries - 1, width) + width
  }

  lemma {:induction false} BudgetIsProduct(retries: nat, width: nat)
    ensures Budget(retries, width) == retries * width
  {
    if retries == 0 {
    } else {
      BudgetIsProduct(retries - 1, width);
    }
  }

  /**
   The loop over indices. `steps` counts iterations of the main loop; `t_star`, which is only
   read when `p_star` is set, is kept as a plain index.
   */
  method SimpleGlobMatch(p: string, t: string) returns (matched: bool, ghost steps: nat)
    ensures matched == SimpleMatch(p, t)
    ensures matched ==> Matches(p, t)
    ensures '*' !in p || '*' !in t ==> (matched <==> Matches(p, t))
    ensures steps <= (|t| + 1) * (|p| + 1)
  {
    var pStar: Option<nat> := None;
    var tStar: nat := 0;
    var pi: nat, ti: nat := 0, 0;
    steps := 0;
    ghost var retries: nat := 0;
    ghost var answer := RunFrom(p, t, 0, 0, None, 0);
    while ti < |t|
      invariant pi <= |p| && tStar <= ti <= |t|
      invariant pStar.Some? ==> pStar.value < pi
      invariant RunFrom(p, t, pi, ti, pStar, tStar) == answer
      invariant retries <= tStar
      invariant steps <= Budget(retries, |p| + 1) + pi
      decreases |t| - tStar, if pStar.None? then 1 else 0, |p| - pi
    {
      steps := steps + 1;
      if pi < |p| && Fits(p[pi], t[ti]) {
        pi, ti := pi + 1, ti + 1;
      } else if pi < |p| && p[pi] == '*' {
        pStar, tStar := Some(pi), ti;
        pi := pi + 1;
      } else if pStar.Some? {
        pi := pStar.value + 1;
        tStar := tStar + 1;
        ti := tStar;
        retries := retries + 1;
      } else {
        matched := false;
        Finish(p, t, steps, retries, pi);
        return;
      }
    }
    ghost var rest := pi;
    while pi < |p| && p[pi] == '*'
      invariant rest <= pi <= |p|
      invariant forall i | rest <= i < pi :: p[i] == '*'
    {
      pi := pi + 1;
    }
    matched := pi == |p|;
    assert pi < |p| ==> p[rest..][pi - rest] != '*';
    Finish(p, t, steps, retries, rest);
  }

  lemma Finish(p: string, t: string, steps: nat, retries: nat, pi: nat)
    requires steps <= Budget(retries, |p| + 1) + pi + 1 && retries <= |t| && pi <= |p|
    ensures steps <= (|t| + 1) * (|p| + 1)
    ensures RunFrom(p, t, 0, 0, None, 0) == SimpleMatch(p, t)
    ensures SimpleMatch(p, t) ==> Matches(p, t)
    ensures '*' !in p || '*' !in t ==> (SimpleMatch(p, t) <==> Matches(p, t))
  {
    RunIsScan(p, t, 0, 0, None, 0);
    assert p[0..] == p && t[0..] == t;
    BudgetIsProduct(retries, |p| + 1);
    assert retries * (|p| + 1) <= |t| * (|p| + 1);
    assert (|t| + 1) * (|p| + 1) == |t| * (|p| + 1) + |p| + 1;
    if SimpleMatch(p, t) {
      SimpleMatchSound(p, t);
    }
    if '*' !in p || '*' !in t {
      SimpleMatchDecides(p, t);
    }
  }
}
