/**
  The UDP flow table: which packet of a flow is reported as new. Time is in
  seconds; packets read a coarse clock and cleanups the real one, so no theorem
  here asks for more of the readings than it needs.
 */
module UdpFlow {
  import opened Bytes
  import opened Common

  datatype UDPFlowKey = UDPFlowKey(src: seq<byte>, dst: seq<byte>, srcPort: uint16, dstPort: uint16, isV6: bool)

  datatype Event = Check(now: int, key: UDPFlowKey) | Clean(now: int)

  type Flows = map<UDPFlowKey, int>

  predicate IsNew(ttl: int, s: Flows, k: UDPFlowKey, now: int) { k !in s || now - s[k] > ttl }

  /** Active flows are written back only every five seconds. */
  function AfterCheck(ttl: int, s: Flows, k: UDPFlowKey, now: int): Flows
  {
    if IsNew(ttl, s, k, now) || now - s[k] >= 5 then s[k := now] else s
  }

  function AfterClean(ttl: int, s: Flows, now: int): Flows
  {
    map k | k in s && now - s[k] <= ttl :: s[k]
  }

  function Step(ttl: int, s: Flows, e: Event): Flows
  {
    match e
    case Check(now, k) => AfterCheck(ttl, s, k, now)
    case Clean(now) => AfterClean(ttl, s, now)
  }

  function Run(ttl: int, h: seq<Event>): Flows
  {
    if h == [] then map[] else Step(ttl, Run(ttl, h[..|h| - 1]), h[|h| - 1])
  }

  /** The answers given along a run, one for each check. */
  function Answers(ttl: int, h: seq<Event>): seq<bool>
  {
    if h == [] then []
    else
      var g, e := h[..|h| - 1], h[|h| - 1];
      if e.Check? then Answers(ttl, g) + [IsNew(ttl, Run(ttl, g), e.key, e.now)] else Answers(ttl, g)
  }

  function WithoutCleanups(h: seq<Event>): (r: seq<Event>)
    ensures forall i :: 0 <= i < |r| ==> r[i].Check?
  {
    if h == [] then []
    else
      var g, e := h[..|h| - 1], h[|h| - 1];
      if e.Check? then WithoutCleanups(g) + [e] else WithoutCleanups(g)
  }

  // ---- What cleanups can change

  predicate ChecksKey(e: Event, k: UDPFlowKey) { e.Check? && e.key == k }

  /** The check whose time a table that is never cleaned up holds for `k`. */
  function Stamp(ttl: int, h: seq<Event>, k: UDPFlowKey): (r: Option<nat>)
    ensures r.Some? ==> r.value < |h| && ChecksKey(h[r.value], k)
  {
    if h == [] then None
    else
      var n := |h| - 1;
      var m := Stamp(ttl, h[..n], k);
      if ChecksKey(h[n], k) && (m.None? || h[n].now - h[m.value].now > ttl || h[n].now - h[m.value].now >= 5)
      then Some(n) else m
  }

  /** Event `i` is a cleanup after check `m` that found it too old. */
  predicate Sweeps(ttl: int, h: seq<Event>, m: nat, i: int)
  {
    m < i < |h| && h[i].Clean? && h[i].now - h[m].now > ttl
  }

  ghost predicate SweptAway(ttl: int, h: seq<Event>, k: UDPFlowKey)
  {
    Stamp(ttl, h, k).Some? && exists i :: Sweeps(ttl, h, Stamp(ttl, h, k).value, i)
  }

  /** Check `j` reads a time at which the flow is still known, though an earlier cleanup took it for expired. */
  ghost predicate Betrays(ttl: int, h: seq<Event>, j: nat)
    requires j < |h|
  {
    && h[j].Check?
    && var m := Stamp(ttl, h[..j], h[j].key);
    m.Some? && h[j].now - h[m.value].now <= ttl && SweptAway(ttl, h[..j], h[j].key)
  }

  ghost predicate Discreet(ttl: int, h: seq<Event>) { forall j :: 0 <= j < |h| ==> !Betrays(ttl, h, j) }

  lemma BetraysPrefix(ttl: int, h: seq<Event>, n: nat, j: nat)
    requires j < n <= |h|
    ensures Betrays(ttl, h[..n], j) <==> Betrays(ttl, h, j)
  {
    hide Stamp, SweptAway;
    assert h[..n][..j] == h[..j];
  }

  lemma DiscreetPrefix(ttl: int, h: seq<Event>, n: nat)
    requires n <= |h|
    ensures Discreet(ttl, h) ==> Discreet(ttl, h[..n])
    ensures n < |h| && Discreet(ttl, h[..n]) && !Betrays(ttl, h, n) ==> Discreet(ttl, h[..n + 1])
  {
    hide Betrays;
    forall j | 0 <= j < n
      ensures Betrays(ttl, h[..n], j) <==> Betrays(ttl, h, j)
    {
      BetraysPrefix(ttl, h, n, j);
    }
    if n < |h| && Discreet(ttl, h[..n]) && !Betrays(ttl, h, n) {
      var next := h[..n + 1];
      forall j | 0 <= j < |next|
        ensures !Betrays(ttl, next, j)
      {
        BetraysPrefix(ttl, h, n + 1, j);
        if j < n { assert !Betrays(ttl, h[..n], j); }
      }
    }
  }

  /** The table that is never cleaned up holds the stamps. */
  lemma {:induction false} FullTable(ttl: int, h: seq<Event>, k: UDPFlowKey)
    ensures var full, m := Run(ttl, WithoutCleanups(h)), Stamp(ttl, h, k);
            && (k in full <==> m.Some?)
            && (m.Some? ==> full[k] == h[m.value].now)
  {
    if h != [] {
      var n := |h| - 1;
      FullTable(ttl, h[..n], k);
      if h[n].Check? { Extend(ttl, WithoutCleanups(h[..n]), h[n]); }
      hide Run;
    }
  }

  lemma SweptStep(ttl: int, h: seq<Event>, k: UDPFlowKey)
    requires |h| > 0 && Stamp(ttl, h, k) == Stamp(ttl, h[..|h| - 1], k)
    ensures SweptAway(ttl, h, k) <==>
            || SweptAway(ttl, h[..|h| - 1], k)
            || (Stamp(ttl, h, k).Some? && h[|h| - 1].Clean? && h[|h| - 1].now - h[Stamp(ttl, h, k).value].now > ttl)
  {
    var n, m := |h| - 1, Stamp(ttl, h, k);
    var g := h[..n];
    hide Stamp;
    if m.Some? {
      forall i
        ensures Sweeps(ttl, h, m.value, i) <==> Sweeps(ttl, g, m.value, i) || (i == n && Sweeps(ttl, h, m.value, n))
      {
      }
      assert Sweeps(ttl, h, m.value, n) <==> h[n].Clean? && h[n].now - h[m.value].now > ttl;
      hide Sweeps;
      assert SweptAway(ttl, g, k) <==> exists i :: Sweeps(ttl, g, m.value, i);
      assert SweptAway(ttl, h, k) <==> exists i :: Sweeps(ttl, h, m.value, i);
    }
  }

  /** The table that is cleaned up holds the stamps that were not swept away, as long as no check betrays it. */
  ghost predicate TableAt(ttl: int, h: seq<Event>, s: Flows, k: UDPFlowKey)
  {
    var m := Stamp(ttl, h, k);
    && (k in s <==> m.Some? && !SweptAway(ttl, h, k))
    && (k in s ==> m.Some? && s[k] == h[m.value].now)
  }

  lemma OtherKeyStep(ttl: int, h: seq<Event>, s: Flows, k: UDPFlowKey)
    requires |h| > 0 && TableAt(ttl, h[..|h| - 1], s, k) && !ChecksKey(h[|h| - 1], k)
    ensures TableAt(ttl, h, Step(ttl, s, h[|h| - 1]), k)
  {
    assert Stamp(ttl, h, k) == Stamp(ttl, h[..|h| - 1], k);
    SweptStep(ttl, h, k);
    hide Stamp, SweptAway;
  }

  lemma SameKeyStep(ttl: int, h: seq<Event>, s: Flows, k: UDPFlowKey)
    requires |h| > 0 && TableAt(ttl, h[..|h| - 1], s, k) && ChecksKey(h[|h| - 1], k) && !Betrays(ttl, h, |h| - 1)
    ensures TableAt(ttl, h, Step(ttl, s, h[|h| - 1]), k)
  {
    var n := |h| - 1;
    if Stamp(ttl, h, k) == Some(n) {
      assert !SweptAway(ttl, h, k);
    } else {
      SweptStep(ttl, h, k);
    }
    hide SweptAway;
  }

  lemma {:induction false} CleanedTable(ttl: int, h: seq<Event>, k: UDPFlowKey)
    requires Discreet(ttl, h)
    ensures TableAt(ttl, h, Run(ttl, h), k)
  {
    hide Betrays;
    if h != [] {
      var n := |h| - 1;
      DiscreetPrefix(ttl, h, n);
      CleanedTable(ttl, h[..n], k);
      hide TableAt;
      if ChecksKey(h[n], k) {
        SameKeyStep(ttl, h, Run(ttl, h[..n]), k);
      } else {
        OtherKeyStep(ttl, h, Run(ttl, h[..n]), k);
      }
    }
  }

  /** After an undisturbed history a check is answered alike, unless it betrays a cleanup: then it is not. */
  lemma AnswerAt(ttl: int, h: seq<Event>, n: nat)
    requires n < |h| && h[n].Check? && Discreet(ttl, h[..n])
    ensures var k, now := h[n].key, h[n].now;
            IsNew(ttl, Run(ttl, h[..n]), k, now) == IsNew(ttl, Run(ttl, WithoutCleanups(h[..n])), k, now)
            <==> !Betrays(ttl, h, n)
  {
    CleanedTable(ttl, h[..n], h[n].key);
    FullTable(ttl, h[..n], h[n].key);
    hide Run, WithoutCleanups, Stamp, SweptAway, Discreet;
  }

  lemma {:induction false} DiscreetAnswers(ttl: int, h: seq<Event>)
    requires Discreet(ttl, h)
    ensures Answers(ttl, h) == Answers(ttl, WithoutCleanups(h))
  {
    if h != [] {
      var n := |h| - 1;
      DiscreetPrefix(ttl, h, n);
      DiscreetAnswers(ttl, h[..n]);
      hide Betrays, IsNew;
      assert h == h[..n] + [h[n]];
      Extend(ttl, h[..n], h[n]);
      if h[n].Check? {
        AnswerAt(ttl, h, n);
        Extend(ttl, WithoutCleanups(h[..n]), h[n]);
      }
    }
  }

  lemma {:induction false} AnswersPrefix(ttl: int, h: seq<Event>, n: nat)
    requires n <= |h|
    ensures Answers(ttl, h[..n]) <= Answers(ttl, h)
    ensures Answers(ttl, WithoutCleanups(h[..n])) <= Answers(ttl, WithoutCleanups(h))
    ensures |Answers(ttl, h)| == |Answers(ttl, WithoutCleanups(h))|
  {
    if n == |h| {
      assert h[..n] == h;
    }
    if h != [] {
      var l := |h| - 1;
      assert h == h[..l] + [h[l]];
      if n <= l { assert h[..n] == h[..l][..n]; }
      AnswersPrefix(ttl, h[..l], Min(n, l));
      hide IsNew, Run;
      Extend(ttl, h[..l], h[l]);
      if h[l].Check? { Extend(ttl, WithoutCleanups(h[..l]), h[l]); }
      hide Answers, WithoutCleanups;
    }
  }

  lemma {:induction false} FirstBetrayal(ttl: int, h: seq<Event>) returns (j: nat)
    requires !Discreet(ttl, h)
    ensures j < |h| && Betrays(ttl, h, j) && Discreet(ttl, h[..j])
  {
    hide Betrays;
    var n := |h| - 1;
    if Discreet(ttl, h[..n]) {
      DiscreetPrefix(ttl, h, n);
      assert h[..n + 1] == h;
      j := n;
    } else {
      j := FirstBetrayal(ttl, h[..n]);
      BetraysPrefix(ttl, h, n, j);
      assert h[..n][..j] == h[..j];
    }
  }

  /**
    Main result: a run gives the same answers with and without its cleanups if and
    only if no check reads a time at which the flow is still known after some
    cleanup, since the flow's stamp, read a time at which it is not.
   */
  lemma CleanupExact(ttl: int, h: seq<Event>)
    ensures Answers(ttl, h) == Answers(ttl, WithoutCleanups(h)) <==> Discreet(ttl, h)
  {
    if Discreet(ttl, h) {
      DiscreetAnswers(ttl, h);
    } else {
      var j := FirstBetrayal(ttl, h);
      BetrayalShows(ttl, h, j);
    }
  }

  lemma BetrayalShows(ttl: int, h: seq<Event>, j: nat)
    requires j < |h| && Betrays(ttl, h, j) && Discreet(ttl, h[..j])
    ensures Answers(ttl, h) != Answers(ttl, WithoutCleanups(h))
  {
    var g := h[..j];
    AnswerAt(ttl, h, j);
    DiscreetAnswers(ttl, g);
    assert h[..j + 1] == g + [h[j]];
    Extend(ttl, g, h[j]);
    Extend(ttl, WithoutCleanups(g), h[j]);
    AnswersPrefix(ttl, h, j + 1);
    hide Answers, WithoutCleanups, Run, IsNew, Betrays, Discreet;
    assert Answers(ttl, h[..j + 1])[|Answers(ttl, g)|] != Answers(ttl, WithoutCleanups(h[..j + 1]))[|Answers(ttl, g)|];
  }

  /** No check reads a time before that of an earlier cleanup. */
  ghost predicate Tidy(h: seq<Event>)
  {
    forall i, j :: 0 <= i < j < |h| && h[i].Clean? && h[j].Check? ==> h[i].now <= h[j].now
  }

  lemma TidyIsDiscreet(ttl: int, h: seq<Event>)
    requires Tidy(h)
    ensures Discreet(ttl, h)
  {
    forall j | 0 <= j < |h| && h[j].Check? && SweptAway(ttl, h[..j], h[j].key)
      ensures h[j].now - h[Stamp(ttl, h[..j], h[j].key).value].now > ttl
    {
      var i :| Sweeps(ttl, h[..j], Stamp(ttl, h[..j], h[j].key).value, i);
      assert h[i].now <= h[j].now;
    }
  }

  /** In particular, cleanups are unobservable, for any TTL, as long as no check reads a time before one. */
  lemma CleanupUnobservable(ttl: int, h: seq<Event>)
    requires Tidy(h)
    ensures Answers(ttl, h) == Answers(ttl, WithoutCleanups(h))
  {
    TidyIsDiscreet(ttl, h);
    DiscreetAnswers(ttl, h);
  }

  /** A check that reads one second less than an earlier cleanup can tell. */
  lemma SkewObservable(ttl: int, k: UDPFlowKey)
    requires ttl >= 0
    ensures var h := [Check(0, k)] + [Clean(ttl + 1)] + [Check(ttl, k)];
            Answers(ttl, h) == [true, true] && Answers(ttl, WithoutCleanups(h)) == [true, false]
  {
    var a, b, c := Check(0, k), Clean(ttl + 1), Check(ttl, k);
    First(ttl, a);
    hide Run, Answers, WithoutCleanups;
    Extend(ttl, [a], b);
    Extend(ttl, [a] + [b], c);
    Extend(ttl, [a], c);
  }

  lemma First(ttl: int, e: Event)
    requires e.Check?
    ensures Run(ttl, [e]) == map[e.key := e.now] && Answers(ttl, [e]) == [true] && WithoutCleanups([e]) == [e]
  {
    assert [e][..0] == [];
  }

  // ---- Silence

  /** The time of the latest check of `k`. */
  function LatestCheck(h: seq<Event>, k: UDPFlowKey): Option<int>
  {
    if h == [] then None
    else if h[|h| - 1].Check? && h[|h| - 1].key == k then Some(h[|h| - 1].now)
    else LatestCheck(h[..|h| - 1], k)
  }

  /** A stamp lags the latest check by less than five seconds and is itself the time of some check. */
  lemma {:induction false} StampLag(ttl: int, h: seq<Event>, k: UDPFlowKey)
    requires k in Run(ttl, h)
    ensures LatestCheck(h, k).Some? && Run(ttl, h)[k] >= LatestCheck(h, k).value - 4
    ensures exists i :: 0 <= i < |h| && h[i] == Check(Run(ttl, h)[k], k)
  {
    var n := |h| - 1;
    var g, e := h[..n], h[n];
    if e.Check? && e.key == k && Run(ttl, h)[k] == e.now {
      assert h[n] == Check(Run(ttl, h)[k], k);
    } else {
      StampLag(ttl, g, k);
      var i :| 0 <= i < |g| && g[i] == Check(Run(ttl, g)[k], k);
      assert h[i] == g[i];
    }
  }

  /** A flow that was checked has a stamp, less than five seconds behind its latest check. */
  lemma {:induction false} StampKept(ttl: int, h: seq<Event>, k: UDPFlowKey)
    requires LatestCheck(h, k).Some?
    ensures Stamp(ttl, h, k).Some? && h[Stamp(ttl, h, k).value].now >= LatestCheck(h, k).value - 4
  {
    var n := |h| - 1;
    if !ChecksKey(h[n], k) {
      StampKept(ttl, h[..n], k);
    }
  }

  /** Main result: a flow seen before is reported new again only after more than `ttl - 4` seconds of silence. */
  lemma NewMeansSilence(ttl: int, h: seq<Event>, k: UDPFlowKey, now: int)
    requires Discreet(ttl, h + [Check(now, k)]) && LatestCheck(h, k).Some? && IsNew(ttl, Run(ttl, h), k, now)
    ensures now - LatestCheck(h, k).value > ttl - 4
  {
    var h' := h + [Check(now, k)];
    assert h'[..|h|] == h;
    DiscreetPrefix(ttl, h', |h|);
    CleanedTable(ttl, h, k);
    StampKept(ttl, h, k);
    assert !Betrays(ttl, h', |h|);
    hide Run, Stamp, SweptAway, Discreet, LatestCheck;
  }

  /** The bound is exact: some flow is reported new again after `ttl - 3` seconds. */
  lemma SilenceBoundTight(ttl: int, k: UDPFlowKey)
    requires ttl >= 4
    ensures var h := [Check(0, k)] + [Check(4, k)];
            && Answers(ttl, h + [Check(ttl + 1, k)]) == [true, false, true]
            && LatestCheck(h, k) == Some(4)
  {
    var a, b, c := Check(0, k), Check(4, k), Check(ttl + 1, k);
    First(ttl, a);
    hide Run, Answers, WithoutCleanups;
    Extend(ttl, [a], b);
    Extend(ttl, [a] + [b], c);
  }

  /** Main result: after more than `ttl` seconds without a check, whatever was cleaned, the flow is new. */
  lemma {:induction false} SilenceMeansNew(ttl: int, h: seq<Event>, k: UDPFlowKey, now: int)
    requires forall i :: 0 <= i < |h| && h[i].Check? && h[i].key == k ==> now - h[i].now > ttl
    ensures IsNew(ttl, Run(ttl, h), k, now)
  {
    if k in Run(ttl, h) {
      StampLag(ttl, h, k);
    }
  }

  lemma Extend(ttl: int, h: seq<Event>, e: Event)
    ensures Run(ttl, h + [e]) == Step(ttl, Run(ttl, h), e)
    ensures Answers(ttl, h + [e])
            == Answers(ttl, h) + if e.Check? then [IsNew(ttl, Run(ttl, h), e.key, e.now)] else []
    ensures WithoutCleanups(h + [e]) == WithoutCleanups(h) + if e.Check? then [e] else []
  {
    assert (h + [e])[..|h|] == h;
  }

  // ---- The table object

  class UDPFlowTable {
    var flows: Flows
    const ttl: int
    ghost var history: seq<Event>

    ghost predicate Valid()
      reads this
    {
      ttl > 0 && flows == Run(ttl, history)
    }

    constructor (ttlSec: int)
      ensures Valid() && history == [] && ttl == if ttlSec <= 0 then 60 else ttlSec
    {
      ttl := if ttlSec <= 0 then 60 else ttlSec;
      flows, history := map[], [];
    }

    /** The answer is the next one of the run. */
    method CheckAndRecord(key: UDPFlowKey, nowSec: int) returns (isNewFlow: bool)
      requires Valid()
      modifies this
      ensures Valid() && history == old(history) + [Check(nowSec, key)]
      ensures Answers(ttl, history) == old(Answers(ttl, history)) + [isNewFlow]
    {
      hide Run, Answers;
      Extend(ttl, history, Check(nowSec, key));
      if key !in flows {
        flows := flows[key := nowSec];
        isNewFlow := true;
      } else {
        var lastSeen := flows[key];
        if nowSec - lastSeen > ttl {
          flows := flows[key := nowSec];
          isNewFlow := true;
        } else {
          if nowSec - lastSeen >= 5 {
            flows := flows[key := nowSec];
          }
          isNewFlow := false;
        }
      }
      history := history + [Check(nowSec, key)];
    }

    method Cleanup(nowSec: int) returns (cleaned: int)
      requires Valid()
      modifies this
      ensures Valid() && history == old(history) + [Clean(nowSec)]
      ensures cleaned == |old(flows)| - |flows|
    {
      hide Run;
      ghost var before := flows;
      cleaned := 0;
      var keys := flows.Keys;
      while keys != {}
        invariant keys <= flows.Keys <= before.Keys
        invariant forall k :: k in before ==> (k in flows <==> k in keys || nowSec - before[k] <= ttl)
        invariant forall k :: k in flows ==> flows[k] == before[k]
        invariant cleaned == |before| - |flows|
        invariant history == old(history)
        decreases |keys|
      {
        var k :| k in keys;
        keys := keys - {k};
        if nowSec - flows[k] > ttl {
          RemoveOne(flows, k);
          flows := flows - {k};
          cleaned := cleaned + 1;
        }
      }
      assert flows == AfterClean(ttl, before, nowSec);
      Extend(ttl, history, Clean(nowSec));
      history := history + [Clean(nowSec)];
    }
  }
}
