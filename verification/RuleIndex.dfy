/**
  The compiled domain rules: two hash sets and a pattern list, proved to decide
  exactly what a linear scan of the raw rule list decides.
 */
module RuleIndex {
  import G = Glob

  // ---- Text, on ASCII

  function LowerChar(c: char): char { if 'A' <= c <= 'Z' then c - 'A' + 'a' else c }

  function Lower(s: string): (r: string)
    ensures |r| == |s|
  {
    seq(|s|, i requires 0 <= i < |s| => LowerChar(s[i]))
  }

  predicate IsSpace(c: char) { c == ' ' || '\t' <= c <= '\r' }

  function TrimSpace(s: string): string
  {
    if s == "" then ""
    else if IsSpace(s[0]) then TrimSpace(s[1..])
    else if IsSpace(s[|s| - 1]) then TrimSpace(s[..|s| - 1])
    else s
  }

  function Canonical(rule: string): string { Lower(TrimSpace(rule)) }

  predicate HasStarDot(d: string) { |d| >= 2 && d[0] == '*' && d[1] == '.' }

  // ---- The meaning of the raw rules

  /** `root` follows some dot of `domain`: it is a parent domain. */
  predicate DotSuffix(domain: string, root: string)
  {
    exists i :: 0 <= i < |domain| && domain[i] == '.' && domain[i + 1..] == root
  }

  predicate InTree(domain: string, root: string) { domain == root || DotSuffix(domain, root) }

  /**
    What a rule is meant to say of a lower-case host name: the name is the rule's text
    or below it, or below what follows `*.`, or the rule matches it as a pattern.
   */
  predicate Means(rule: string, domain: string)
  {
    var d := Canonical(rule);
    d != "" && (InTree(domain, d) || (HasStarDot(d) && InTree(domain, d[2..])) || G.Glob(d, domain))
  }

  predicate SomeRuleMeans(rules: seq<string>, domain: string)
  {
    exists i :: 0 <= i < |rules| && Means(rules[i], domain)
  }

  /** How the engine reads a rule: only one of the three readings is tried. */
  predicate RuleMatches(rule: string, domain: string)
  {
    var d := Canonical(rule);
    if d == "" then false
    else if HasStarDot(d) then InTree(domain, d[2..])
    else if '*' in d then G.Glob(d, domain)
    else InTree(domain, d)
  }

  predicate SomeRuleMatches(rules: seq<string>, domain: string)
  {
    exists i :: 0 <= i < |rules| && RuleMatches(rules[i], domain)
  }

  // ---- The compiled form

  datatype Index = Index(exact: set<string>, roots: set<string>, patterns: seq<string>)

  const Empty := Index({}, {}, [])

  function Add(x: Index, rule: string): Index
  {
    var d := Canonical(rule);
    if d == "" then x
    else if HasStarDot(d) then Index(x.exact + {d[2..]}, x.roots + {d[2..]}, x.patterns)
    else if '*' in d then x.(patterns := x.patterns + [d])
    else Index(x.exact + {d}, x.roots + {d}, x.patterns)
  }

  function Compile(rules: seq<string>): Index
  {
    if rules == [] then Empty else Add(Compile(rules[..|rules| - 1]), rules[|rules| - 1])
  }

  predicate RootHit(x: Index, domain: string)
  {
    exists i :: 0 <= i < |domain| && domain[i] == '.' && domain[i + 1..] in x.roots
  }

  predicate PatternHit(x: Index, domain: string)
  {
    exists i :: 0 <= i < |x.patterns| && G.Glob(x.patterns[i], domain)
  }

  predicate Hits(x: Index, domain: string)
  {
    domain in x.exact || RootHit(x, domain) || PatternHit(x, domain)
  }

  // ---- Agreement

  lemma AddRoot(x: Index, root: string, domain: string)
    ensures Hits(Index(x.exact + {root}, x.roots + {root}, x.patterns), domain)
            <==> Hits(x, domain) || InTree(domain, root)
  {
    var y := Index(x.exact + {root}, x.roots + {root}, x.patterns);
    if RootHit(x, domain) {
      var i :| 0 <= i < |domain| && domain[i] == '.' && domain[i + 1..] in x.roots;
      assert domain[i + 1..] in y.roots;
    }
    if DotSuffix(domain, root) {
      var i :| 0 <= i < |domain| && domain[i] == '.' && domain[i + 1..] == root;
      assert domain[i + 1..] in y.roots;
    }
    assert PatternHit(x, domain) == PatternHit(y, domain);
  }

  lemma AddPattern(x: Index, d: string, domain: string)
    ensures Hits(x.(patterns := x.patterns + [d]), domain) <==> Hits(x, domain) || G.Glob(d, domain)
  {
    hide G.Glob;
    var y := x.(patterns := x.patterns + [d]);
    assert y.patterns[|x.patterns|] == d;
    if PatternHit(x, domain) {
      var i :| 0 <= i < |x.patterns| && G.Glob(x.patterns[i], domain);
      assert y.patterns[i] == x.patterns[i];
    }
    assert RootHit(x, domain) == RootHit(y, domain);
  }

  lemma AddAgrees(x: Index, rule: string, domain: string)
    ensures Hits(Add(x, rule), domain) <==> Hits(x, domain) || RuleMatches(rule, domain)
  {
    hide G.Glob, Hits, InTree, Canonical;
    var d := Canonical(rule);
    if HasStarDot(d) {
      AddRoot(x, d[2..], domain);
    } else {
      AddRoot(x, d, domain);
      AddPattern(x, d, domain);
    }
  }

  /** The index hits exactly when a scan of the raw rules would match, for every list and host. */
  lemma {:induction false} IndexAgrees(rules: seq<string>, domain: string)
    ensures Hits(Compile(rules), domain) <==> SomeRuleMatches(rules, domain)
  {
    hide RuleMatches, Add;
    if rules != [] {
      var n := |rules| - 1;
      IndexAgrees(rules[..n], domain);
      AddAgrees(Compile(rules[..n]), rules[n], domain);
      hide Hits;
      if SomeRuleMatches(rules[..n], domain) {
        var i :| 0 <= i < n && RuleMatches(rules[..n][i], domain);
        assert RuleMatches(rules[i], domain);
      }
      if i :| 0 <= i < n && RuleMatches(rules[i], domain) {
        assert RuleMatches(rules[..n][i], domain);
      }
    }
  }

  // ---- The reading and the meaning

  /** After `*.` there is no further wildcard, and elsewhere no `?` without a `*`. */
  predicate Plain(rule: string)
  {
    var d := Canonical(rule);
    if HasStarDot(d) then G.WildFree(d[2..]) else '?' in d ==> '*' in d
  }

  /** A text with a wildcard is not part of a name without. */
  lemma WildNotInTree(domain: string, root: string)
    requires G.WildFree(domain) && !G.WildFree(root)
    ensures !InTree(domain, root)
  {
    var k :| 0 <= k < |root| && G.IsWild(root[k]);
    forall i | 0 <= i < |domain| && domain[i] == '.'
      ensures domain[i + 1..] != root
    {
      if |domain| - (i + 1) == |root| { assert domain[i + 1..][k] == domain[i + 1 + k]; }
    }
  }

  /** Whatever the engine matches is meant, on every host. */
  lemma ReadingIsMeant(rule: string, domain: string)
    ensures RuleMatches(rule, domain) ==> Means(rule, domain)
  {
    hide G.Glob, InTree, Canonical;
  }

  /** `*.root` as a pattern matches only names below the root. */
  lemma StarDotGlob(root: string, domain: string)
    requires G.WildFree(root) && G.Glob("*." + root, domain)
    ensures InTree(domain, root)
  {
    var p := "*." + root;
    G.GlobUnfold(p, domain);
    assert p[1..] == "." + root;
    hide G.Glob;
    var i :| 0 <= i <= |domain| && G.Glob(p[1..], domain[i..]);
    G.PlainMatchesItself(p[1..], domain[i..]);
    assert domain[i] == domain[i..][0] == '.';
    assert domain[i + 1..] == domain[i..][1..] == root;
  }

  lemma PlainIsRead(rule: string, domain: string)
    requires Plain(rule) && G.WildFree(domain) && Means(rule, domain)
    ensures RuleMatches(rule, domain)
  {
    var d := Canonical(rule);
    hide Canonical, G.Glob, InTree;
    if !G.WildFree(d) { WildNotInTree(domain, d); }
    if HasStarDot(d) {
      assert d == "*." + d[2..];
      if G.Glob(d, domain) { StarDotGlob(d[2..], domain); }
    } else if G.WildFree(d) {
      G.PlainMatchesItself(d, domain);
      SelfInTree(d);
    }
  }

  lemma SelfInTree(d: string)
    ensures InTree(d, d)
  {
  }

  /** The rule's text with its wildcards filled in is meant by it, and missed if the rule is not plain. */
  lemma FilledIsMissed(rule: string)
    requires !Plain(rule)
    ensures var host := G.Filled(Canonical(rule));
            G.WildFree(host) && Means(rule, host) && !RuleMatches(rule, host)
  {
    var d := Canonical(rule);
    G.FilledMatches(d);
    hide Canonical, G.Glob, InTree;
    WildNotInTree(G.Filled(d), if HasStarDot(d) then d[2..] else d);
  }

  /** A rule is read as it is meant on every host without wildcards if and only if it is plain. */
  lemma ReadingExact(rule: string)
    ensures (forall domain :: G.WildFree(domain) ==> (RuleMatches(rule, domain) <==> Means(rule, domain))) <==> Plain(rule)
  {
    hide RuleMatches, Means, Plain;
    if Plain(rule) {
      forall domain | G.WildFree(domain)
        ensures RuleMatches(rule, domain) <==> Means(rule, domain)
      {
        ReadingIsMeant(rule, domain);
        if Means(rule, domain) { PlainIsRead(rule, domain); }
      }
    } else {
      FilledIsMissed(rule);
    }
  }

  ghost predicate AllPlain(rules: seq<string>) { forall i :: 0 <= i < |rules| ==> Plain(rules[i]) }

  /** The index of `rules` hits exactly the hosts without wildcards that some rule means. */
  ghost predicate Exact(rules: seq<string>)
  {
    forall domain :: G.WildFree(domain) ==> (Hits(Compile(rules), domain) <==> SomeRuleMeans(rules, domain))
  }

  ghost predicate DrawnFrom(list: seq<string>, rules: seq<string>) { forall i :: 0 <= i < |list| ==> list[i] in rules }

  /**
    Main result: an index hit is always meant by some raw rule, for every list and
    host; and every list drawn from given rules is exact on hosts without wildcards if
    and only if all of the rules are plain.
   */
  lemma IndexMeans(rules: seq<string>)
    ensures forall domain :: Hits(Compile(rules), domain) ==> SomeRuleMeans(rules, domain)
    ensures (forall list :: DrawnFrom(list, rules) ==> Exact(list)) <==> AllPlain(rules)
  {
    hide RuleMatches, Means, Plain, Hits, Compile;
    forall domain
      ensures Hits(Compile(rules), domain) ==> SomeRuleMeans(rules, domain)
    {
      ListMeans(rules, domain);
    }
    if AllPlain(rules) {
      forall list | DrawnFrom(list, rules)
        ensures Exact(list)
      {
        PlainListExact(list);
      }
    } else {
      var i :| 0 <= i < |rules| && !Plain(rules[i]);
      MissedAlone(rules[i]);
      assert DrawnFrom([rules[i]], rules) && !Exact([rules[i]]);
    }
  }

  lemma PlainListExact(rules: seq<string>)
    requires AllPlain(rules)
    ensures Exact(rules)
  {
    hide SomeRuleMeans, Plain, Hits, Compile;
    forall domain | G.WildFree(domain)
      ensures Hits(Compile(rules), domain) <==> SomeRuleMeans(rules, domain)
    {
      ListMeans(rules, domain);
    }
  }

  lemma ListMeans(rules: seq<string>, domain: string)
    ensures Hits(Compile(rules), domain) ==> SomeRuleMeans(rules, domain)
    ensures AllPlain(rules) && G.WildFree(domain) && SomeRuleMeans(rules, domain) ==> Hits(Compile(rules), domain)
  {
    IndexAgrees(rules, domain);
    hide RuleMatches, Means, Plain, Hits;
    if i :| 0 <= i < |rules| && RuleMatches(rules[i], domain) { ReadingIsMeant(rules[i], domain); }
    if AllPlain(rules) && G.WildFree(domain) && SomeRuleMeans(rules, domain) {
      var i :| 0 <= i < |rules| && Means(rules[i], domain);
      PlainIsRead(rules[i], domain);
    }
  }

  /** A rule that is not plain, alone, misses the host that its filled-in text names. */
  lemma MissedAlone(rule: string)
    requires !Plain(rule)
    ensures var host := G.Filled(Canonical(rule));
            G.WildFree(host) && SomeRuleMeans([rule], host) && !Hits(Compile([rule]), host)
  {
    FilledIsMissed(rule);
    hide RuleMatches, Means, Hits, Canonical, Plain;
    var host := G.Filled(Canonical(rule));
    IndexAgrees([rule], host);
    assert Means([rule][0], host);
  }

  lemma StarAfterDotGlob()
    ensures G.Glob("*.a*.com", "x.ab.com")
  {
    hide G.Glob;
    assert "*.com"[1..] == ".com" && "b.com"[1..] == ".com";
    GlobAt("*.com", "b.com", 1);
    G.LiteralPrefix(".a", "*.com", ".ab.com");
    assert ".a" + "*.com" == ".a*.com" && ".ab.com"[..2] == ".a" && ".ab.com"[2..] == "b.com";
    assert "*.a*.com"[1..] == ".a*.com" && "x.ab.com"[1..] == ".ab.com";
    GlobAt("*.a*.com", "x.ab.com", 1);
  }

  /** The text after `*.` is taken literally ... */
  lemma StarAfterDotMissed()
    ensures SomeRuleMeans(["*.a*.com"], "x.ab.com") && !Hits(Compile(["*.a*.com"]), "x.ab.com")
  {
    CanonicalText("*.a*.com");
    hide G.Glob, Canonical, SomeRuleMeans, Hits, Compile;
    assert "*.a*.com"[2..][1] == '*';
    MissesWhenMeant("*.a*.com", "x.ab.com");
    StarAfterDotGlob();
  }

  /** ... and so is a rule with `?` but no `*`. */
  lemma QuestionMarkMissed()
    ensures SomeRuleMeans(["a?.com"], "ab.com") && !Hits(Compile(["a?.com"]), "ab.com")
  {
    var rule, host := "a?.com", "ab.com";
    CanonicalText(rule);
    MissesWhenMeant(rule, host);
    assert rule + "" == rule && host[..6] == host && host[6..] == "";
    G.LiteralPrefix(rule, "", host);
  }

  /** A lower-case text without spaces is its own canonical form. */
  lemma CanonicalText(d: string)
    requires d != "" && forall k :: 0 <= k < |d| ==> !IsSpace(d[k]) && !('A' <= d[k] <= 'Z')
    ensures Canonical(d) == d
  {
    assert TrimSpace(d) == d;
    assert Lower(d) == d;
  }

  /** A rule that is not plain hits no host without wildcards, whatever it matches as a pattern. */
  lemma MissesWhenMeant(rule: string, host: string)
    requires !Plain(rule) && G.WildFree(host)
    ensures G.Glob(Canonical(rule), host) ==> SomeRuleMeans([rule], host) && !Hits(Compile([rule]), host)
  {
    var d := Canonical(rule);
    hide Canonical, G.Glob, Hits, InTree;
    WildNotInTree(host, if HasStarDot(d) then d[2..] else d);
    IndexAgrees([rule], host);
    if G.Glob(d, host) { assert Means([rule][0], host); }
  }

  /** A star takes the first `i` characters. */
  lemma GlobAt(p: string, s: string, i: nat)
    requires p != "" && p[0] == '*' && i <= |s|
    ensures (G.WildFree(p[1..]) && s[i..] == p[1..]) || G.Glob(p[1..], s[i..]) ==> G.Glob(p, s)
  {
    if G.WildFree(p[1..]) { G.PlainMatchesItself(p[1..], s[i..]); }
    G.StarStep(p, s, i);
  }

  // ---- Decisions

  /** What `match` makes of its argument: an address, judged by the IP rules, or a host name. */
  datatype Destination = Address(matched: bool) | Host(name: string)

  function TrimDot(s: string): string
  {
    if s != "" && s[|s| - 1] == '.' then s[..|s| - 1] else s
  }

  predicate Matched(rules: seq<string>, dest: Destination)
  {
    match dest
    case Address(m) => m
    case Host(name) => SomeRuleMatches(rules, Lower(TrimDot(name)))
  }

  predicate PassThrough(mode: string) { mode in {"none", "off", "disabled", "all", "passthrough"} }

  /** The policy on the engine's reading of the raw rules. */
  predicate Blocked(mode: string, rules: seq<string>, empty: bool, dest: Destination)
  {
    if empty then true
    else if PassThrough(Lower(mode)) then false
    else if Lower(mode) == "blacklist" then Matched(rules, dest)
    else !Matched(rules, dest)
  }

  /** The same policy on what the rules mean. */
  predicate BlockedAsMeant(mode: string, rules: seq<string>, empty: bool, dest: Destination)
  {
    if empty then true
    else if PassThrough(Lower(mode)) then false
    else
      var m := match dest case Address(m) => m case Host(name) => SomeRuleMeans(rules, Lower(TrimDot(name)));
      if Lower(mode) == "blacklist" then m else !m
  }

  /**
    Main result: the verdict on the engine's reading of the rules is the one meant when
    all rules are plain and the host has no wildcards; in any case a blacklist blocks
    nothing that is not meant, and a whitelist lets nothing through that is not.
   */
  lemma VerdictMeans(mode: string, rules: seq<string>, empty: bool, dest: Destination)
    ensures AllPlain(rules) && (dest.Host? ==> G.WildFree(Lower(TrimDot(dest.name)))) ==>
              Blocked(mode, rules, empty, dest) == BlockedAsMeant(mode, rules, empty, dest)
    ensures Lower(mode) == "blacklist" && Blocked(mode, rules, empty, dest) ==> BlockedAsMeant(mode, rules, empty, dest)
    ensures Lower(mode) != "blacklist" && !Blocked(mode, rules, empty, dest) ==> !BlockedAsMeant(mode, rules, empty, dest)
  {
    hide RuleMatches, Means, Plain, Hits, Compile;
    if dest.Host? {
      ListMeans(rules, Lower(TrimDot(dest.name)));
      IndexAgrees(rules, Lower(TrimDot(dest.name)));
    }
  }

  // ---- The text functions and the modes, spelled out

  /** Lower-casing moves exactly the letters A to Z, by 32. */
  lemma LowerSpelled(s: string, i: nat)
    requires i < |s|
    ensures Lower(s)[i] as int == if 65 <= s[i] as int <= 90 then s[i] as int + 32 else s[i] as int
  {
  }

  predicate AllSpace(s: string) { forall i :: 0 <= i < |s| ==> s[i] == ' ' || 9 <= s[i] as int <= 13 }

  lemma SpaceCons(c: char, a: string, mid: string, b: string)
    requires IsSpace(c) && AllSpace(a) && AllSpace(b)
    ensures AllSpace([c] + a) && AllSpace(b + [c])
    ensures [c] + (a + mid + b) == ([c] + a) + mid + b && (a + mid + b) + [c] == a + mid + (b + [c])
  {
  }

  /** No space at either end. */
  predicate Trimmed(s: string)
  {
    s == "" || (!AllSpace([s[0]]) && !AllSpace([s[|s| - 1]]))
  }

  lemma SpaceAlone(c: char)
    ensures AllSpace([c]) <==> IsSpace(c)
  {
    assert [c][0] == c;
  }

  /** Trimming takes spaces off both ends, and all of them. */
  lemma {:induction false} TrimSpelled(s: string) returns (a: string, b: string)
    ensures s == a + TrimSpace(s) + b && AllSpace(a) && AllSpace(b) && Trimmed(TrimSpace(s))
  {
    a, b := "", "";
    if s != "" {
      var n := |s| - 1;
      SpaceAlone(s[0]);
      SpaceAlone(s[n]);
      hide AllSpace, IsSpace;
      if IsSpace(s[0]) {
        a, b := TrimSpelled(s[1..]);
        SpaceCons(s[0], a, TrimSpace(s), b);
        assert s == [s[0]] + s[1..];
        a := [s[0]] + a;
      } else if IsSpace(s[n]) {
        a, b := TrimSpelled(s[..n]);
        SpaceCons(s[n], a, TrimSpace(s), b);
        assert s == s[..n] + [s[n]];
        b := b + [s[n]];
      } else {
        NoSpace();
        assert s == "" + s + "";
      }
    }
  }

  lemma NoSpace()
    ensures AllSpace("")
  {
  }

  /** One final dot is taken off, and nothing else. */
  lemma TrimDotSpelled(s: string)
    ensures TrimDot(s + ".") == s
    ensures s == "" || s[|s| - 1] != '.' ==> TrimDot(s) == s
  {
    assert (s + ".")[..|s|] == s;
  }

  /** The modes, in any case: five let everything through, blacklist blocks what matches, all others what does not. */
  lemma ModesSpelled(mode: string, rules: seq<string>, dest: Destination)
    ensures Lower(mode) in ["none", "off", "disabled", "all", "passthrough"] ==> !Blocked(mode, rules, false, dest)
    ensures Lower(mode) == "blacklist" ==>
              (Blocked(mode, rules, false, dest)
               <==> if dest.Address? then dest.matched else SomeRuleMatches(rules, Lower(TrimDot(dest.name))))
    ensures Lower(mode) !in ["none", "off", "disabled", "all", "passthrough", "blacklist"] ==>
              (Blocked(mode, rules, false, dest)
               <==> if dest.Address? then !dest.matched else !SomeRuleMatches(rules, Lower(TrimDot(dest.name))))
    ensures Blocked(mode, rules, true, dest)
  {
    hide Lower, TrimDot, SomeRuleMatches;
  }

  class Engine {
    var mode: string
    var index: Index
    var loaded: bool

    constructor (mode: string, rules: seq<string>)
      ensures Holds(mode, rules)
    {
      loaded := false;
      index := Empty;
      this.mode := "";
      new;
      UpdateRules(mode, rules);
    }

    /** The engine answers for this configuration. */
    ghost predicate Holds(mode: string, rules: seq<string>)
      reads this
    {
      && loaded && index == Compile(rules)
      && this.mode == Lower(if mode == "" then "whitelist" else mode)
    }

    method UpdateRules(mode: string, rules: seq<string>)
      modifies this
      ensures Holds(mode, rules)
    {
      var built := Empty;
      var i := 0;
      while i < |rules|
        invariant 0 <= i <= |rules| && built == Compile(rules[..i])
      {
        assert rules[..i + 1][..i] == rules[..i];
        var d := Canonical(rules[i]);
        if d != "" {
          if HasStarDot(d) {
            var root := d[2..];
            built := Index(built.exact + {root}, built.roots + {root}, built.patterns);
          } else if '*' in d {
            built := built.(patterns := built.patterns + [d]);
          } else {
            built := Index(built.exact + {d}, built.roots + {d}, built.patterns);
          }
        }
        i := i + 1;
      }
      assert rules[..|rules|] == rules;
      this.mode := Lower(if mode == "" then "whitelist" else mode);
      index := built;
      loaded := true;
    }

    method MatchHost(name: string) returns (r: bool)
      ensures r == Hits(index, Lower(TrimDot(name)))
    {
      hide G.Glob;
      var domain := Lower(TrimDot(name));
      if domain in index.exact {
        return true;
      }
      var i := 0;
      while i < |domain|
        invariant 0 <= i <= |domain|
        invariant forall k :: 0 <= k < i && domain[k] == '.' ==> domain[k + 1..] !in index.roots
      {
        if domain[i] == '.' {
          var sub := domain[i + 1..];
          if sub in index.roots {
            return true;
          }
        }
        i := i + 1;
      }
      i := 0;
      while i < |index.patterns|
        invariant 0 <= i <= |index.patterns|
        invariant forall k :: 0 <= k < i ==> !G.Glob(index.patterns[k], domain)
      {
        var m := G.MatchWildcard(index.patterns[i], domain);
        if m {
          return true;
        }
        i := i + 1;
      }
      r := false;
    }

    /** The engine's verdict is the policy on its reading of the raw rule list, and on their meaning if all are plain. */
    method ShouldBlock(empty: bool, dest: Destination, ghost mode0: string, ghost rules0: seq<string>)
      returns (r: bool)
      requires Holds(mode0, rules0)
      ensures r == Blocked(mode0, rules0, empty, dest)
      ensures AllPlain(rules0) && (dest.Host? ==> G.WildFree(Lower(TrimDot(dest.name)))) ==>
                r == BlockedAsMeant(mode0, rules0, empty, dest)
    {
      VerdictMeans(mode0, rules0, empty, dest);
      hide BlockedAsMeant;
      if empty {
        return true;
      }
      if !loaded {
        return false;
      }
      if PassThrough(mode) {
        LowerEmpty();
        return false;
      }
      var m;
      match dest {
        case Address(matched) => m := matched;
        case Host(name) =>
          m := MatchHost(name);
          IndexAgrees(rules0, Lower(TrimDot(name)));
      }
      LowerEmpty();
      if mode == "blacklist" {
        return m;
      }
      r := !m;
    }
  }

  lemma LowerEmpty()
    ensures Lower("") == "" && Lower("whitelist") == "whitelist"
  {
  }
}
