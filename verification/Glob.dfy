/**
  Shell-style patterns: `*` matches any run of characters, `?` any single one.
  The PAC matcher is greedy with one backtrack point, the filter's matcher is
  recursive; both are measured against the relation `Glob`.
 */
module Glob {
  /** `p` matches all of `s`. */
  predicate Glob(p: string, s: string)
    decreases |p|
  {
    if p == "" then s == ""
    else if p[0] == '*' then exists i :: 0 <= i <= |s| && Glob(p[1..], s[i..])
    else s != "" && (p[0] == '?' || p[0] == s[0]) && Glob(p[1..], s[1..])
  }

  // ---- The greedy matcher

  predicate AllStars(p: string) { forall k :: 0 <= k < |p| ==> p[k] == '*' }

  /** The loop state of the greedy matcher; `star` is -1 before the first `*`. */
  datatype Scan = Scan(sIdx: nat, pIdx: nat, star: int, mark: nat) {
    predicate Ok(s: string, p: string) {
      sIdx <= |s| && pIdx <= |p| && -1 <= star < pIdx + 1 && (star >= 0 ==> star < pIdx) && mark <= sIdx
    }
  }

  /** What the loop and the final skip of stars return from state `c`. */
  predicate Greedy(s: string, p: string, c: Scan)
    requires c.Ok(s, p)
    decreases |p| - c.star, |s| - c.mark, |s| - c.sIdx
  {
    if c.sIdx == |s| then AllStars(p[c.pIdx..])
    else if c.pIdx < |p| && (p[c.pIdx] == '?' || p[c.pIdx] == s[c.sIdx]) then
      Greedy(s, p, c.(sIdx := c.sIdx + 1, pIdx := c.pIdx + 1))
    else if c.pIdx < |p| && p[c.pIdx] == '*' then
      Greedy(s, p, Scan(c.sIdx, c.pIdx + 1, c.pIdx, c.sIdx))
    else if c.star != -1 then
      Greedy(s, p, Scan(c.mark + 1, c.star + 1, c.star, c.mark + 1))
    else false
  }

  predicate WildcardMatches(s: string, p: string) { Greedy(s, p, Scan(0, 0, -1, 0)) }

  method WildcardMatch(s: string, p: string) returns (r: bool)
    ensures r == WildcardMatches(s, p)
    ensures r ==> Glob(p, s)
    ensures '*' !in s ==> r == Glob(p, s)
  {
    GreedyExact(s);
    hide Glob;
    var sIdx, pIdx, matchIdx, starIdx := 0, 0, 0, -1;
    while sIdx < |s|
      invariant Scan(sIdx, pIdx, starIdx, matchIdx).Ok(s, p)
      invariant Greedy(s, p, Scan(sIdx, pIdx, starIdx, matchIdx)) == WildcardMatches(s, p)
      decreases |p| - starIdx, |s| - matchIdx, |s| - sIdx
    {
      if pIdx < |p| && (p[pIdx] == '?' || p[pIdx] == s[sIdx]) {
        sIdx, pIdx := sIdx + 1, pIdx + 1;
      } else if pIdx < |p| && p[pIdx] == '*' {
        starIdx, matchIdx, pIdx := pIdx, sIdx, pIdx + 1;
      } else if starIdx != -1 {
        pIdx, matchIdx := starIdx + 1, matchIdx + 1;
        sIdx := matchIdx;
      } else {
        return false;
      }
    }
    ghost var rest := p[pIdx..];
    ghost var k := 0;
    while pIdx < |p| && p[pIdx] == '*'
      invariant pIdx <= |p| && 0 <= k <= |rest| && p[pIdx..] == rest[k..] && AllStars(rest[..k])
    {
      assert rest[k] == '*';
      pIdx, k := pIdx + 1, k + 1;
    }
    assert pIdx < |p| ==> rest[k] != '*';
    r := pIdx == |p|;
  }

  // ---- Facts about the relation

  lemma {:induction false} StarsMatchNothing(p: string)
    ensures Glob(p, "") <==> AllStars(p)
  {
    if p != "" {
      StarsMatchNothing(p[1..]);
      if AllStars(p) {
        assert ""[0..] == "";
      }
      if p[0] == '*' && AllStars(p[1..]) {
        assert forall k :: 0 < k < |p| ==> p[k] == p[1..][k - 1];
      }
    }
  }

  /** Character by character, without stars. */
  ghost predicate Literal(a: string, t: string)
  {
    |a| == |t| && forall k :: 0 <= k < |a| ==> a[k] != '*' && (a[k] == '?' || a[k] == t[k])
  }

  /** A star-free start of a pattern decides a start of the same length. */
  lemma {:induction false} LiteralPrefix(a: string, q: string, t: string)
    requires '*' !in a
    ensures Glob(a + q, t) <==> |a| <= |t| && Literal(a, t[..|a|]) && Glob(q, t[|a|..])
  {
    if a == "" {
      assert a + q == q && t[0..] == t;
    } else {
      assert (a + q)[1..] == a[1..] + q;
      if t != "" {
        LiteralPrefix(a[1..], q, t[1..]);
        if |a| <= |t| {
          assert t[1..][..|a| - 1] == t[..|a|][1..] && t[1..][|a| - 1..] == t[|a|..];
          LiteralStep(a, t[..|a|]);
        }
      }
    }
  }

  lemma LiteralStep(a: string, t: string)
    requires a != "" && |t| == |a| && a[0] != '*'
    ensures Literal(a, t) <==> (a[0] == '?' || a[0] == t[0]) && Literal(a[1..], t[1..])
  {
    assert forall k :: 0 < k < |a| ==> a[k] == a[1..][k - 1] && t[k] == t[1..][k - 1];
  }

  /** Some later restart of the pattern after the last star succeeds. */
  ghost predicate LaterRestart(s: string, p: string, c: Scan)
    requires c.Ok(s, p)
  {
    c.star >= 0 && exists j :: c.mark < j <= |s| && Glob(p[c.star + 1..], s[j..])
  }

  /** The subject can still be matched from state `c`. */
  ghost predicate Hope(s: string, p: string, c: Scan)
    requires c.Ok(s, p)
  {
    Glob(p[c.pIdx..], s[c.sIdx..]) || LaterRestart(s, p, c)
  }

  lemma StarStep(p: string, s: string, i: nat)
    requires p != "" && p[0] == '*' && i <= |s|
    ensures Glob(p[1..], s[i..]) ==> Glob(p, s)
  {
  }

  // ---- Soundness, on every subject

  lemma {:induction false} GreedySound(s: string, p: string, c: Scan)
    requires c.Ok(s, p) && Greedy(s, p, c)
    ensures Hope(s, p, c)
    decreases |p| - c.star, |s| - c.mark, |s| - c.sIdx
  {
    hide Glob;
    var q, t := p[c.pIdx..], s[c.sIdx..];
    if c.sIdx == |s| {
      StarsMatchNothing(q);
    } else if c.pIdx < |p| && (p[c.pIdx] == '?' || p[c.pIdx] == s[c.sIdx]) {
      var c' := c.(sIdx := c.sIdx + 1, pIdx := c.pIdx + 1);
      GreedySound(s, p, c');
      assert q[1..] == p[c'.pIdx..] && t[1..] == s[c'.sIdx..];
      HeadMatch(q, t);
    } else if c.pIdx < |p| && p[c.pIdx] == '*' {
      var c' := Scan(c.sIdx, c.pIdx + 1, c.pIdx, c.sIdx);
      GreedySound(s, p, c');
      SoundAtStar(s, p, c);
    } else {
      var c' := Scan(c.mark + 1, c.star + 1, c.star, c.mark + 1);
      GreedySound(s, p, c');
    }
  }

  /** One character is consumed; a star in the pattern may stand for it too. */
  lemma HeadMatch(q: string, t: string)
    requires q != "" && t != "" && (q[0] == '?' || q[0] == t[0])
    ensures Glob(q[1..], t[1..]) ==> Glob(q, t)
  {
    if q[0] == '*' { StarStep(q, t, 1); }
  }

  lemma SoundAtStar(s: string, p: string, c: Scan)
    requires c.Ok(s, p) && c.pIdx < |p| && p[c.pIdx] == '*'
    requires Hope(s, p, Scan(c.sIdx, c.pIdx + 1, c.pIdx, c.sIdx))
    ensures Glob(p[c.pIdx..], s[c.sIdx..])
  {
    hide Glob;
    var q, t := p[c.pIdx..], s[c.sIdx..];
    assert q[1..] == p[c.pIdx + 1..];
    if Glob(q[1..], t) {
      assert t[0..] == t;
      StarStep(q, t, 0);
    } else {
      var j :| c.sIdx < j <= |s| && Glob(p[c.pIdx + 1..], s[j..]);
      assert t[j - c.sIdx..] == s[j..];
      StarStep(q, t, j - c.sIdx);
    }
  }

  // ---- Completeness, on subjects without a literal star

  ghost predicate Aligned(s: string, p: string, c: Scan)
    requires c.Ok(s, p)
  {
    c.star >= 0 ==> p[c.star] == '*' && Literal(p[c.star + 1..c.pIdx], s[c.mark..c.sIdx])
  }

  /** At a new star, an earlier restart can be exchanged for one after this star. */
  lemma StarTakesOver(s: string, p: string, c: Scan)
    requires c.Ok(s, p) && Aligned(s, p, c) && c.pIdx < |p| && p[c.pIdx] == '*'
    requires LaterRestart(s, p, c)
    ensures exists i :: c.sIdx < i <= |s| && Glob(p[c.pIdx + 1..], s[i..])
  {
    var j :| c.mark < j <= |s| && Glob(p[c.star + 1..], s[j..]);
    var a, q, t := p[c.star + 1..c.pIdx], p[c.pIdx..], s[j..];
    assert p[c.star + 1..] == a + q;
    LiteralPrefix(a, q, t);
    var u := t[|a|..];
    assert u == s[j + |a|..] && q[1..] == p[c.pIdx + 1..];
    var i :| 0 <= i <= |u| && Glob(q[1..], u[i..]);
    assert u[i..] == s[j + |a| + i..];
  }

  lemma NoRestartAtEnd(s: string, p: string, c: Scan)
    requires c.Ok(s, p) && Aligned(s, p, c) && c.sIdx == |s|
    ensures !LaterRestart(s, p, c)
  {
    if LaterRestart(s, p, c) {
      var j :| c.mark < j <= |s| && Glob(p[c.star + 1..], s[j..]);
      var a := p[c.star + 1..c.pIdx];
      assert p[c.star + 1..] == a + p[c.pIdx..];
      LiteralPrefix(a, p[c.pIdx..], s[j..]);
    }
  }

  lemma AlignedStep(s: string, p: string, c: Scan)
    requires c.Ok(s, p) && Aligned(s, p, c) && '*' !in s && c.sIdx < |s| && c.pIdx < |p|
    requires p[c.pIdx] == '?' || p[c.pIdx] == s[c.sIdx]
    ensures Aligned(s, p, c.(sIdx := c.sIdx + 1, pIdx := c.pIdx + 1))
  {
    if c.star >= 0 {
      assert p[c.star + 1..c.pIdx + 1] == p[c.star + 1..c.pIdx] + [p[c.pIdx]];
      assert s[c.mark..c.sIdx + 1] == s[c.mark..c.sIdx] + [s[c.sIdx]];
    }
  }

  /** A restart from just after the last star is trivially aligned. */
  lemma AlignedRestart(s: string, p: string, star: nat, mark: nat)
    requires star < |p| && p[star] == '*' && mark <= |s|
    ensures Aligned(s, p, Scan(mark, star + 1, star, mark))
  {
  }

  lemma HopeAfterMatch(s: string, p: string, c: Scan)
    requires c.Ok(s, p) && Hope(s, p, c) && '*' !in s && c.sIdx < |s| && c.pIdx < |p|
    requires p[c.pIdx] == '?' || p[c.pIdx] == s[c.sIdx]
    ensures Hope(s, p, c.(sIdx := c.sIdx + 1, pIdx := c.pIdx + 1))
  {
    var q, t := p[c.pIdx..], s[c.sIdx..];
    assert q[1..] == p[c.pIdx + 1..] && t[1..] == s[c.sIdx + 1..];
  }

  lemma HopeAfterStar(s: string, p: string, c: Scan)
    requires c.Ok(s, p) && Aligned(s, p, c) && Hope(s, p, c) && c.pIdx < |p| && p[c.pIdx] == '*'
    ensures Hope(s, p, Scan(c.sIdx, c.pIdx + 1, c.pIdx, c.sIdx))
  {
    if LaterRestart(s, p, c) {
      StarTakesOver(s, p, c);
    } else {
      var q, t := p[c.pIdx..], s[c.sIdx..];
      assert q[1..] == p[c.pIdx + 1..];
      var i :| 0 <= i <= |t| && Glob(q[1..], t[i..]);
      assert t[i..] == s[c.sIdx + i..];
    }
  }

  lemma HopeAfterMismatch(s: string, p: string, c: Scan)
    requires c.Ok(s, p) && Hope(s, p, c) && c.sIdx < |s|
    requires c.pIdx < |p| ==> p[c.pIdx] != '?' && p[c.pIdx] != s[c.sIdx] && p[c.pIdx] != '*'
    ensures c.star >= 0 && Hope(s, p, Scan(c.mark + 1, c.star + 1, c.star, c.mark + 1))
  {
    hide Glob;
    HeadMismatch(p[c.pIdx..], s[c.sIdx..]);
    RestartMoves(s, p, c);
  }

  lemma RestartMoves(s: string, p: string, c: Scan)
    requires c.Ok(s, p) && c.sIdx < |s| && LaterRestart(s, p, c)
    ensures Hope(s, p, Scan(c.mark + 1, c.star + 1, c.star, c.mark + 1))
  {
    hide Glob;
    var q := p[c.star + 1..];
    var j :| c.mark < j <= |s| && Glob(q, s[j..]);
    if j == c.mark + 1 {
      assert Glob(q, s[c.mark + 1..]);
    } else {
      assert c.mark + 1 < j <= |s| && Glob(q, s[j..]);
    }
  }

  lemma HeadMismatch(q: string, t: string)
    requires t != "" && (q != "" ==> q[0] != '?' && q[0] != t[0] && q[0] != '*')
    ensures !Glob(q, t)
  {
  }

  lemma HopeAtEnd(s: string, p: string, c: Scan)
    requires c.Ok(s, p) && Aligned(s, p, c) && Hope(s, p, c) && c.sIdx == |s|
    ensures AllStars(p[c.pIdx..])
  {
    NoRestartAtEnd(s, p, c);
    StarsMatchNothing(p[c.pIdx..]);
  }

  lemma {:induction false} GreedyComplete(s: string, p: string, c: Scan)
    requires c.Ok(s, p) && Aligned(s, p, c) && '*' !in s && Hope(s, p, c)
    ensures Greedy(s, p, c)
    decreases |p| - c.star, |s| - c.mark, |s| - c.sIdx
  {
    hide Literal, Hope, AllStars;
    if c.sIdx == |s| {
      HopeAtEnd(s, p, c);
    } else if c.pIdx < |p| && (p[c.pIdx] == '?' || p[c.pIdx] == s[c.sIdx]) {
      AlignedStep(s, p, c);
      HopeAfterMatch(s, p, c);
      GreedyComplete(s, p, c.(sIdx := c.sIdx + 1, pIdx := c.pIdx + 1));
    } else if c.pIdx < |p| && p[c.pIdx] == '*' {
      AlignedRestart(s, p, c.pIdx, c.sIdx);
      HopeAfterStar(s, p, c);
      GreedyComplete(s, p, Scan(c.sIdx, c.pIdx + 1, c.pIdx, c.sIdx));
    } else {
      HopeAfterMismatch(s, p, c);
      AlignedRestart(s, p, c.star, c.mark + 1);
      GreedyComplete(s, p, Scan(c.mark + 1, c.star + 1, c.star, c.mark + 1));
    }
  }

  // ---- Exactly when the greedy matcher is right

  /** A pattern that a subject with a star at `i` defeats: the star is taken literally. */
  function Trap(s: string, i: nat): string
    requires i < |s|
  {
    s[..i] + "*" + seq(|s| - i, _ => '?')
  }

  lemma {:induction false} OneTooMany(s: string, p: string, k: nat)
    requires k <= |s| && |p| == |s| + 1 && p[|s|] != '*'
    requires forall j :: 0 <= j < |s| ==> p[j] == '?' || p[j] == s[j]
    ensures !Greedy(s, p, Scan(k, k, -1, 0))
    decreases |s| - k
  {
    if k == |s| {
      assert p[k..][0] != '*';
    } else {
      OneTooMany(s, p, k + 1);
    }
  }

  lemma {:induction false} QuestionsMatch(t: string)
    ensures Glob(seq(|t|, _ => '?'), t)
  {
    if t != "" {
      assert seq(|t|, _ => '?')[1..] == seq(|t[1..]|, _ => '?');
      QuestionsMatch(t[1..]);
    }
  }

  lemma StarThenQuestions(t: string)
    ensures Glob("*" + seq(|t|, _ => '?'), t)
  {
    QuestionsMatch(t);
    var rest := "*" + seq(|t|, _ => '?');
    assert rest[1..] == seq(|t|, _ => '?') && t[0..] == t;
    StarStep(rest, t, 0);
  }

  lemma TrapMatches(s: string, i: nat)
    requires i < |s| && s[i] == '*' && '*' !in s[..i]
    ensures Glob(Trap(s, i), s)
  {
    hide Glob;
    var rest := "*" + seq(|s| - i, _ => '?');
    StarThenQuestions(s[i..]);
    LiteralPrefix(s[..i], rest, s);
    assert Literal(s[..i], s[..|s[..i]|]);
    assert Trap(s, i) == s[..i] + rest;
  }

  lemma TrapMissed(s: string, i: nat)
    requires i < |s| && s[i] == '*'
    ensures !WildcardMatches(s, Trap(s, i))
  {
    OneTooMany(s, Trap(s, i), 0);
  }

  lemma {:induction false} FirstStar(s: string) returns (i: nat)
    requires '*' in s
    ensures i < |s| && s[i] == '*' && '*' !in s[..i]
  {
    if s[0] == '*' {
      i := 0;
    } else {
      assert s == [s[0]] + s[1..];
      i := FirstStar(s[1..]);
      i := i + 1;
      assert s[..i] == [s[0]] + s[1..][..i - 1];
    }
  }

  /**
    Main result: the greedy matcher decides the glob relation for every pattern if
    and only if the subject has no literal `*`; on any subject it never accepts wrongly.
   */
  lemma GreedyExact(s: string)
    ensures forall p :: WildcardMatches(s, p) ==> Glob(p, s)
    ensures (forall p :: WildcardMatches(s, p) <==> Glob(p, s)) <==> '*' !in s
  {
    forall p
      ensures WildcardMatches(s, p) ==> Glob(p, s)
      ensures '*' !in s ==> (WildcardMatches(s, p) <==> Glob(p, s))
    {
      var c := Scan(0, 0, -1, 0);
      assert p[0..] == p && s[0..] == s;
      if WildcardMatches(s, p) { GreedySound(s, p, c); }
      if '*' !in s && Glob(p, s) { GreedyComplete(s, p, c); }
    }
    if '*' in s {
      var i := FirstStar(s);
      TrapMatches(s, i);
      TrapMissed(s, i);
    }
  }

  // ---- The recursive matcher of the filter

  /** One unfolding of the relation. */
  lemma GlobUnfold(p: string, s: string)
    ensures p == "" ==> (Glob(p, s) <==> s == "")
    ensures p != "" && p[0] == '*' ==>
              (Glob(p, s) <==> exists i :: 0 <= i <= |s| && Glob(p[1..], s[i..]))
    ensures p == "*" ==> Glob(p, s)
    ensures p != "" && p[0] != '*' ==>
              (Glob(p, s) <==> s != "" && (p[0] == '?' || p[0] == s[0]) && Glob(p[1..], s[1..]))
  {
    if p == "*" {
      assert p[1..] == "" && s[|s|..] == "";
      assert Glob(p[1..], s[|s|..]);
    }
  }

  method MatchWildcard(pattern: string, subject: string) returns (r: bool)
    ensures r == Glob(pattern, subject)
    decreases |pattern|
  {
    hide Glob;
    GlobUnfold(pattern, subject);
    if pattern == "" {
      return subject == "";
    }
    var p, s := pattern, subject;
    while |p| > 0
      invariant |p| <= |pattern| && Glob(p, s) == Glob(pattern, subject)
    {
      GlobUnfold(p, s);
      if p[0] == '*' {
        while |p| > 1 && p[1] == '*'
          invariant 1 <= |p| <= |pattern| && p[0] == '*' && Glob(p, s) == Glob(pattern, subject)
        {
          DoubleStar(p, s);
          p := p[1..];
        }
        GlobUnfold(p, s);
        if |p| == 1 {
          assert p == "*";
          return true;
        }
        var i := 0;
        while i <= |s|
          invariant 0 <= i <= |s| + 1
          invariant forall k :: 0 <= k < i ==> !Glob(p[1..], s[k..])
        {
          var m := MatchWildcard(p[1..], s[i..]);
          if m {
            return true;
          }
          i := i + 1;
        }
        return false;
      } else if p[0] == '?' {
        if |s| == 0 {
          return false;
        }
        s, p := s[1..], p[1..];
      } else {
        if |s| == 0 || p[0] != s[0] {
          return false;
        }
        s, p := s[1..], p[1..];
      }
    }
    GlobUnfold(p, s);
    r := |s| == 0;
  }

  lemma DoubleStar(p: string, s: string)
    requires |p| > 1 && p[0] == '*' && p[1] == '*'
    ensures Glob(p, s) == Glob(p[1..], s)
  {
    var q := p[1..];
    if Glob(p, s) {
      var i :| 0 <= i <= |s| && Glob(q, s[i..]);
      var j :| 0 <= j <= |s[i..]| && Glob(q[1..], s[i..][j..]);
      assert s[i..][j..] == s[i + j..];
      StarStep(q, s, i + j);
    }
    if Glob(q, s) {
      assert s[0..] == s;
      StarStep(p, s, 0);
    }
  }

  // ---- Patterns as text

  predicate IsWild(c: char) { c == '*' || c == '?' }

  predicate WildFree(s: string) { '*' !in s && '?' !in s }

  /** A pattern without wildcards matches itself and nothing else. */
  lemma PlainMatchesItself(p: string, s: string)
    requires WildFree(p)
    ensures Glob(p, s) <==> s == p
  {
    assert p + "" == p;
    LiteralPrefix(p, "", s);
    if |s| == |p| {
      assert s[..|p|] == s && s[|p|..] == "";
    }
  }

  /** The pattern with an `a` in place of each wildcard. */
  function Filled(p: string): (r: string)
    ensures |r| == |p|
    ensures forall k :: 0 <= k < |p| ==> r[k] == if IsWild(p[k]) then 'a' else p[k]
  {
    seq(|p|, i requires 0 <= i < |p| => if IsWild(p[i]) then 'a' else p[i])
  }

  lemma {:induction false} FilledMatches(p: string)
    ensures Glob(p, Filled(p)) && WildFree(Filled(p))
  {
    if p != "" {
      FilledMatches(p[1..]);
      assert Filled(p)[1..] == Filled(p[1..]);
      GlobUnfold(p, Filled(p));
    }
  }
}
