/**
  The PAC resolver's decision cache. Evaluations of the script overlap with each
  other and with configuration updates: a lookup, a store, an update's purge and a
  cleanup are one step each.
 */
module PacCache {
  import opened Bytes
  import opened Common

  const MINUTE := 60 * SECOND
  const CACHE_TTL := 10 * MINUTE
  const ERROR_TTL := 1 * MINUTE
  const MAX_ENTRIES := 2000

  datatype Decision = Direct | Proxy(url: string)

  /** What the script gave; after an error the resolver's own fallback stands in. */
  datatype Eval = Evaluated(decision: Decision) | Broken(decision: Decision)

  function Ttl(e: Eval): int { if e.Evaluated? then CACHE_TTL else ERROR_TTL }

  datatype Entry = Entry(decision: Decision, expiresAt: int)

  /** `size` is the separately kept `cacheSize`. */
  datatype Cache = Cache(entries: map<string, Entry>, size: int)

  function Stored(c: Cache, url: string, e: Entry): Cache
  {
    if url in c.entries then c.(entries := c.entries[url := e])
    else if c.size + 1 > MAX_ENTRIES then Cache(map[url := e], 1)
    else Cache(c.entries[url := e], c.size + 1)
  }

  function Fresh(entries: map<string, Entry>, now: int): map<string, Entry>
  {
    map u | u in entries && now <= entries[u].expiresAt :: entries[u]
  }

  /** Every expired entry is deleted and taken off the size. */
  function Swept(c: Cache, now: int): Cache
  {
    Cache(Fresh(c.entries, now), c.size - (|c.entries| - |Fresh(c.entries, now)|))
  }

  function Hit(c: Cache, url: string, now: int): Option<Decision>
  {
    if url in c.entries && now < c.entries[url].expiresAt then Some(c.entries[url].decision) else None
  }

  /** Main result: a store puts its entry in and keeps all others, unless it is new and 2000 are there: then it is alone. */
  lemma StoredKeeps(c: Cache, url: string, e: Entry)
    requires c.size == |c.entries|
    ensures url in c.entries || |c.entries| < 2000 ==> Stored(c, url, e).entries == c.entries[url := e]
    ensures url !in c.entries && |c.entries| >= 2000 ==> Stored(c, url, e).entries == map[url := e]
    ensures forall now :: Hit(Stored(c, url, e), url, now) == if now < e.expiresAt then Some(e.decision) else None
  {
  }

  /** Main result: a cleanup takes the entries that are past their time, and no other. */
  lemma SweptSpelled(c: Cache, now: int, u: string)
    ensures u in Swept(c, now).entries <==> u in c.entries && now <= c.entries[u].expiresAt
    ensures u in Swept(c, now).entries ==> Swept(c, now).entries[u] == c.entries[u]
  {
  }

  // ---- The cache object

  class Resolver {
    var cache: map<string, Entry>
    var cacheSize: int

    function Value(): Cache
      reads this
    {
      Cache(cache, cacheSize)
    }

    constructor ()
      ensures Value() == Cache(map[], 0)
    {
      cache, cacheSize := map[], 0;
    }

    method StoreCache(url: string, e: Entry)
      modifies this
      ensures Value() == Stored(old(Value()), url, e)
    {
      if url !in cache {
        cache := cache[url := e];
        cacheSize := cacheSize + 1;
        if cacheSize > MAX_ENTRIES {
          Clear();
          cache := cache[url := e];
          cacheSize := cacheSize + 1;
        }
      } else {
        cache := cache[url := e];
      }
    }

    method Clear()
      modifies this
      ensures Value() == Cache(map[], 0)
    {
      var keys := cache.Keys;
      while keys != {}
        invariant cache.Keys <= keys
        decreases |keys|
      {
        var u :| u in keys;
        keys := keys - {u};
        cache := cache - {u};
      }
      cacheSize := 0;
    }

    method Cleanup(now: int)
      modifies this
      ensures Value() == Swept(old(Value()), now)
    {
      ghost var before := cache;
      var keys := cache.Keys;
      while keys != {}
        invariant keys <= cache.Keys <= before.Keys
        invariant forall u :: u in before ==> (u in cache <==> u in keys || now <= before[u].expiresAt)
        invariant forall u :: u in cache ==> cache[u] == before[u]
        invariant old(cacheSize) - cacheSize == |before| - |cache|
        decreases |keys|
      {
        var u :| u in keys;
        keys := keys - {u};
        if now > cache[u].expiresAt {
          RemoveOne(cache, u);
          cache := cache - {u};
          cacheSize := cacheSize - 1;
        }
      }
      assert cache == Fresh(before, now);
    }

    method Lookup(url: string, now: int) returns (r: Option<Decision>)
      ensures r == Hit(Value(), url, now)
    {
      if url in cache {
        var e := cache[url];
        if now < e.expiresAt {
          return Some(e.decision);
        }
      }
      r := None;
    }
  }

  lemma SubMapSize(m: map<string, Entry>, now: int)
    ensures |Fresh(m, now)| <= |m|
  {
    Subset(Fresh(m, now).Keys, m.Keys);
  }

  lemma {:induction false} Subset(a: set<string>, b: set<string>)
    requires a <= b
    ensures |a| <= |b|
  {
    if a != {} {
      var x :| x in a;
      Subset(a - {x}, b - {x});
    }
  }

  // ---- Every run

  type Tid = nat

  /**
    A resolution under way: it read the configuration in step `begun`, as `version`
    updates had left it, and then looked into the cache at time `now`.
   */
  datatype Thread =
    | Configured(url: string, begun: nat, version: nat)
    | Evaluating(url: string, begun: nat, version: nat, now: int)

  /** One evaluation that was stored, with the steps in which it began and ended. */
  datatype Said = Said(t: Tid, url: string, begun: nat, stored: nat, version: nat, now: int, eval: Eval)

  /** `version` counts the updates, `writer` says which evaluation wrote an entry, `clock` counts the steps. */
  datatype State = State(cache: Cache, writer: map<string, Said>, version: nat, threads: map<Tid, Thread>, clock: nat)

  const Init := State(Cache(map[], 0), map[], 0, map[], 0)

  datatype Event =
    | Begin(t: Tid, url: string)
    | Lookup(t: Tid, now: int)
    | Store(t: Tid, eval: Eval)
    | Update
    | Cleanup(now: int)

  function EntryOf(x: Said): Entry { Entry(x.eval.decision, x.now + Ttl(x.eval)) }

  function Effect(s: State, e: Event): State
  {
    match e
    case Begin(t, url) =>
      if t in s.threads then s else s.(threads := s.threads[t := Configured(url, s.clock, s.version)])
    case Lookup(t, now) =>
      if t !in s.threads || !s.threads[t].Configured? then s
      else
        var p := s.threads[t];
        if Hit(s.cache, p.url, now).Some? then s.(threads := s.threads - {t})
        else s.(threads := s.threads[t := Evaluating(p.url, p.begun, p.version, now)])
    case Store(t, eval) =>
      if t !in s.threads || !s.threads[t].Evaluating? then s
      else
        var p := s.threads[t];
        var x := Said(t, p.url, p.begun, s.clock, p.version, p.now, eval);
        s.(cache := Stored(s.cache, x.url, EntryOf(x)), writer := s.writer[x.url := x], threads := s.threads - {t})
    case Update => s.(cache := Cache(map[], 0), version := s.version + 1)
    case Cleanup(now) => s.(cache := Swept(s.cache, now))
  }

  /** An event that cannot happen only takes time, so every list of events is a run. */
  function Step(s: State, e: Event): State { Effect(s, e).(clock := s.clock + 1) }

  function Run(h: seq<Event>): State
  {
    if h == [] then Init else Step(Run(h[..|h| - 1]), h[|h| - 1])
  }

  predicate SizeOk(c: Cache) { 0 <= c.size == |c.entries| <= MAX_ENTRIES }

  lemma StoredSize(c: Cache, url: string, e: Entry)
    requires SizeOk(c)
    ensures SizeOk(Stored(c, url, e))
  {
    PutOne(c.entries, url, e);
  }

  lemma SweptSize(c: Cache, now: int)
    requires SizeOk(c)
    ensures SizeOk(Swept(c, now))
  {
    SubMapSize(c.entries, now);
  }

  lemma StepSize(s: State, e: Event)
    requires SizeOk(s.cache)
    ensures SizeOk(Step(s, e).cache)
  {
    hide Stored, Swept;
    forall url, x: Entry
      ensures SizeOk(Stored(s.cache, url, x))
    {
      StoredSize(s.cache, url, x);
    }
    if e.Cleanup? { SweptSize(s.cache, e.now); }
  }

  /** Main result: in every state of every run the size is the number of entries, at most 2000. */
  lemma {:induction false} SizeIsExact(h: seq<Event>)
    ensures Run(h).cache.size == |Run(h).cache.entries| <= MAX_ENTRIES
    ensures SizeOk(Run(h).cache)
  {
    if h != [] {
      SizeIsExact(h[..|h| - 1]);
      StepSize(Run(h[..|h| - 1]), h[|h| - 1]);
    }
  }

  // ---- Where a cached decision comes from

  /** No update from step `i` on. */
  predicate NoUpdate(h: seq<Event>, i: nat) { forall k :: i <= k < |h| ==> !h[k].Update? }

  function Updates(h: seq<Event>): nat
  {
    if h == [] then 0 else Updates(h[..|h| - 1]) + if h[|h| - 1].Update? then 1 else 0
  }

  /** The configuration is that of an earlier step exactly when no update came since. */
  lemma {:induction false} UpdatesSince(h: seq<Event>, i: nat)
    requires i <= |h|
    ensures Updates(h[..i]) <= Updates(h)
    ensures Updates(h[..i]) == Updates(h) <==> NoUpdate(h, i)
  {
    if i == |h| {
      assert h[..i] == h;
    } else {
      var n := |h| - 1;
      assert h[..n][..i] == h[..i];
      UpdatesSince(h[..n], i);
      assert NoUpdate(h, i) <==> NoUpdate(h[..n], i) && !h[n].Update?;
    }
  }

  lemma {:induction false} Counts(h: seq<Event>)
    ensures Run(h).clock == |h| && Run(h).version == Updates(h)
  {
    if h != [] { Counts(h[..|h| - 1]); }
  }

  /** Thread `t` is busy with the resolution of `url` that began in step `begun`. */
  predicate Busy(s: State, t: Tid, url: string, begun: nat)
  {
    t in s.threads && s.threads[t].url == url && s.threads[t].begun == begun
  }

  /** ... in every state up to that after step `upto`. */
  ghost predicate Underway(h: seq<Event>, t: Tid, url: string, begun: nat, upto: nat)
  {
    upto <= |h| && forall m :: begun < m <= upto ==> Busy(Run(h[..m]), t, url, begun)
  }

  ghost predicate Began(h: seq<Event>, t: Tid, url: string, begun: nat, version: nat)
  {
    begun < |h| && h[begun] == Begin(t, url) && version == Updates(h[..begun])
  }

  ghost predicate ThreadOk(h: seq<Event>, t: Tid, p: Thread)
  {
    Began(h, t, p.url, p.begun, p.version) && Underway(h, t, p.url, p.begun, |h|)
  }

  /** What the history says about the evaluation `x` that wrote the entry of `u`. */
  ghost predicate Wrote(h: seq<Event>, u: string, x: Said)
  {
    && x.url == u && Began(h, x.t, u, x.begun, x.version)
    && x.begun < x.stored < |h| && h[x.stored] == Store(x.t, x.eval)
    && Underway(h, x.t, u, x.begun, x.stored) && NoUpdate(h, x.stored)
  }

  lemma BeganLater(h: seq<Event>, t: Tid, url: string, begun: nat, version: nat)
    requires |h| > 0 && Began(h[..|h| - 1], t, url, begun, version)
    ensures Began(h, t, url, begun, version)
  {
    assert h[..|h| - 1][..begun] == h[..begun];
  }

  lemma UnderwayLater(h: seq<Event>, t: Tid, url: string, begun: nat, upto: nat)
    requires |h| > 0 && Underway(h[..|h| - 1], t, url, begun, upto)
    ensures Underway(h, t, url, begun, upto)
  {
    hide Busy, Run;
    var g := h[..|h| - 1];
    forall m | begun < m <= upto
      ensures Busy(Run(h[..m]), t, url, begun)
    {
      assert g[..m] == h[..m];
      assert Busy(Run(g[..m]), t, url, begun);
    }
  }

  /** A thread after a step was there before, on the same resolution, or has just begun. */
  lemma StepThread(s: State, e: Event, t: Tid)
    requires t in Step(s, e).threads
    ensures var p := Step(s, e).threads[t];
            || (Busy(s, t, p.url, p.begun) && s.threads[t].version == p.version)
            || (e == Begin(t, p.url) && p.begun == s.clock && p.version == s.version)
  {
  }

  lemma {:induction false} ThreadsOk(h: seq<Event>, t: Tid)
    requires t in Run(h).threads
    ensures ThreadOk(h, t, Run(h).threads[t])
  {
    var n := |h| - 1;
    var g, s := h[..n], Run(h[..n]);
    var p := Run(h).threads[t];
    Counts(g);
    StepThread(s, h[n], t);
    assert h[..n + 1] == h;
    hide Step;
    if Busy(s, t, p.url, p.begun) && s.threads[t].version == p.version {
      ThreadsOk(g, t);
      BeganLater(h, t, p.url, p.begun, p.version);
      UnderwayLater(h, t, p.url, p.begun, n);
    }
    hide Run;
  }

  /** An entry after a step is one from before it, with the same writer, or the one just stored. */
  lemma StepEntry(s: State, e: Event, u: string)
    requires u in Step(s, e).cache.entries
    ensures !e.Update?
    ensures var t := Step(s, e);
            || (u in s.cache.entries && t.cache.entries[u] == s.cache.entries[u] && (u in s.writer ==> u in t.writer && t.writer[u] == s.writer[u]))
            || (e.Store? && e.t in s.threads && s.threads[e.t].Evaluating? && s.threads[e.t].url == u
                && var p := s.threads[e.t]; var x := Said(e.t, u, p.begun, s.clock, p.version, p.now, e.eval);
                u in t.writer && t.writer[u] == x && t.cache.entries[u] == EntryOf(x))
  {
  }

  lemma {:induction false} EntriesOk(h: seq<Event>, u: string)
    requires u in Run(h).cache.entries
    ensures u in Run(h).writer && Wrote(h, u, Run(h).writer[u]) && Run(h).cache.entries[u] == EntryOf(Run(h).writer[u])
  {
    var n := |h| - 1;
    var g, s, e := h[..n], Run(h[..n]), h[n];
    Counts(g);
    StepEntry(s, e, u);
    hide Step;
    if u in s.cache.entries { EntriesOk(g, u); }
    if e.Store? && e.t in s.threads { ThreadsOk(g, e.t); }
    assert Run(h) == Step(s, e);
    hide Run;
    var x := Run(h).writer[u];
    BeganLater(h, x.t, u, x.begun, x.version);
    if x.stored == n {
      UnderwayLater(h, x.t, u, x.begun, n);
    } else {
      UnderwayLater(h, x.t, u, x.begun, x.stored);
    }
  }

  /**
    Main result, for every interleaving: an answer from the cache is what the script
    gave for that very URL less than ten minutes before (one minute for the fallback
    after an error), and it is of the present configuration if and only if no update
    came since the resolution that stored it began.
   */
  lemma HitsAreRecent(h: seq<Event>, url: string, now: int)
    requires Hit(Run(h).cache, url, now).Some?
    ensures url in Run(h).writer
    ensures var x := Run(h).writer[url];
            && Wrote(h, url, x) && x.eval.decision == Hit(Run(h).cache, url, now).value
            && now < x.now + (if x.eval.Evaluated? then 600_000_000_000 else 60_000_000_000)
            && (x.version == Run(h).version <==> NoUpdate(h, x.begun))
  {
    EntriesOk(h, url);
    Counts(h);
    UpdatesSince(h, Run(h).writer[url].begun);
    hide Run;
  }

  /** Only resolutions of the URL that were under way at the last update can leave an old decision behind. */
  lemma StaleWasUnderway(h: seq<Event>, url: string, now: int, last: nat)
    requires Hit(Run(h).cache, url, now).Some? && url in Run(h).writer && Run(h).writer[url].version != Run(h).version
    requires last < |h| && h[last].Update? && NoUpdate(h, last + 1)
    ensures var x := Run(h).writer[url]; x.begun < last < x.stored && Busy(Run(h[..last]), x.t, url, x.begun)
  {
    hide Run, Busy, Wrote, NoUpdate, Hit;
    HitsAreRecent(h, url, now);
    OvertakenAt(h, url, Run(h).writer[url], last);
  }

  lemma OvertakenAt(h: seq<Event>, u: string, x: Said, last: nat)
    requires Wrote(h, u, x) && !NoUpdate(h, x.begun)
    requires last < |h| && h[last].Update? && NoUpdate(h, last + 1)
    ensures x.begun < last < x.stored && Busy(Run(h[..last]), x.t, u, x.begun)
  {
    hide Run, Busy, Updates;
    var k :| x.begun <= k < |h| && h[k].Update?;
    assert k <= last && h[x.begun].Begin?;
    assert last < x.stored;
  }

  /** Such an update can fall after the cache lookup ... */
  lemma StaleAfterUpdate(url: string, d: Decision)
    ensures var s := Run([Begin(0, url)] + [Lookup(0, 0)] + [Event.Update] + [Store(0, Evaluated(d))]);
            Hit(s.cache, url, 1) == Some(d) && s.version == 1 && url in s.writer && s.writer[url].version == 0
  {
    var a, b, c := Begin(0, url), Lookup(0, 0), Event.Update;
    Extend([], a);
    assert [] + [a] == [a];
    Extend([a], b);
    Extend([a] + [b], c);
    Extend([a] + [b] + [c], Store(0, Evaluated(d)));
  }

  /** ... or between the reading of the configuration and the lookup. */
  lemma StaleBeforeLookup(url: string, d: Decision)
    ensures var s := Run([Begin(0, url)] + [Event.Update] + [Lookup(0, 0)] + [Store(0, Evaluated(d))]);
            Hit(s.cache, url, 1) == Some(d) && s.version == 1 && url in s.writer && s.writer[url].version == 0
  {
    var a, b, c := Begin(0, url), Event.Update, Lookup(0, 0);
    Extend([], a);
    assert [] + [a] == [a];
    Extend([a], b);
    Extend([a] + [b], c);
    Extend([a] + [b] + [c], Store(0, Evaluated(d)));
  }

  lemma Extend(h: seq<Event>, e: Event)
    ensures Run(h + [e]) == Step(Run(h), e)
  {
    assert (h + [e])[..|h|] == h;
  }

  // ---- The size under interleaving

  /** `ups` and `downs` threads have changed the map and have yet to change the size. */
  datatype Tally = Tally(keys: set<string>, size: int, ups: nat, downs: nat)

  const NoTally := Tally({}, 0, 0, 0)

  /** The single operations on the map and the size that stores, updates and cleanups are made of. */
  datatype Op =
    | Insert(url: string)    // a store's LoadOrStore that finds nothing; an Add(1) follows
    | Overwrite(url: string) // a store's Store after LoadOrStore found an entry
    | Restore(url: string)   // the Store after a full cache was cleared; an Add(1) follows
    | CountUp
    | Drop(url: string)      // one Delete of a clearing range
    | Reset                  // the Store(0) that ends it
    | Expire(url: string)    // a cleanup's Delete, whatever it finds; an Add(-1) follows
    | CountDown

  predicate Can(c: Tally, op: Op)
  {
    match op
    case Insert(u) => u !in c.keys
    case CountUp => c.ups > 0
    case CountDown => c.downs > 0
    case _ => true
  }

  function Do(c: Tally, op: Op): Tally
    requires Can(c, op)
  {
    match op
    case Insert(u) => c.(keys := c.keys + {u}, ups := c.ups + 1)
    case Overwrite(u) => c.(keys := c.keys + {u})
    case Restore(u) => c.(keys := c.keys + {u}, ups := c.ups + 1)
    case CountUp => c.(size := c.size + 1, ups := c.ups - 1)
    case Drop(u) => c.(keys := c.keys - {u})
    case Reset => c.(size := 0)
    case Expire(u) => c.(keys := c.keys - {u}, downs := c.downs + 1)
    case CountDown => c.(size := c.size - 1, downs := c.downs - 1)
  }

  /** What the size should be, given the adjustments still to come. */
  function Due(c: Tally): int { |c.keys| - c.ups + c.downs }

  ghost predicate Legal(ops: seq<Op>)
    decreases |ops|, 0
  {
    ops == [] || (Legal(ops[..|ops| - 1]) && Can(Final(ops[..|ops| - 1]), ops[|ops| - 1]))
  }

  ghost function Final(ops: seq<Op>): Tally
    requires Legal(ops)
    decreases |ops|, 1
  {
    if ops == [] then NoTally else Do(Final(ops[..|ops| - 1]), ops[|ops| - 1])
  }

  /** How far one operation moves the size from where it should be: by what it did not find or found too much. */
  function Slip(c: Tally, op: Op): int
  {
    match op
    case Overwrite(u) => if u in c.keys then 0 else -1
    case Restore(u) => if u in c.keys then 1 else 0
    case Drop(u) => if u in c.keys then 1 else 0
    case Expire(u) => if u in c.keys then 0 else -1
    case _ => 0
  }

  /** The slips since the last reset. */
  ghost function Slips(ops: seq<Op>): int
    requires Legal(ops)
  {
    if ops == [] || ops[|ops| - 1].Reset? then 0
    else Slips(ops[..|ops| - 1]) + Slip(Final(ops[..|ops| - 1]), ops[|ops| - 1])
  }

  /** What the size should have been at the last reset. */
  ghost function Forgotten(ops: seq<Op>): int
    requires Legal(ops)
  {
    if ops == [] then 0
    else if ops[|ops| - 1].Reset? then Due(Final(ops[..|ops| - 1]))
    else Forgotten(ops[..|ops| - 1])
  }

  lemma OpError(c: Tally, op: Op)
    requires Can(c, op)
    ensures var c' := Do(c, op);
            c'.size - Due(c') == if op.Reset? then -Due(c) else c.size - Due(c) + Slip(c, op)
  {
    match op
    case Overwrite(u) => SetPut(c.keys, u);
    case Restore(u) => SetPut(c.keys, u);
    case Insert(u) => SetPut(c.keys, u);
    case _ =>
  }

  lemma SetPut(keys: set<string>, u: string)
    ensures |keys + {u}| == if u in keys then |keys| else |keys| + 1
  {
    if u in keys { assert keys + {u} == keys; }
  }

  /**
    Main result, for every interleaving of the single operations of stores, updates and
    cleanups: the size is off by the slips since the last reset, less what that reset
    forgot; so it is exact, up to pending steps, if and only if these are equal.
   */
  lemma {:induction false} SizeError(ops: seq<Op>)
    requires Legal(ops)
    ensures Final(ops).size - Due(Final(ops)) == Slips(ops) - Forgotten(ops)
    ensures Final(ops).size == Due(Final(ops)) <==> Slips(ops) == Forgotten(ops)
  {
    if ops != [] {
      SizeError(ops[..|ops| - 1]);
      OpError(Final(ops[..|ops| - 1]), ops[|ops| - 1]);
      hide Do, Can, Slip;
    }
  }

  /** A cleanup that meets an entry just before an update clears it: the size of the empty cache is -1. */
  lemma CleanupOvertaken(u: string)
    ensures var ops := [Insert(u)] + [CountUp] + [Drop(u)] + [Reset] + [Expire(u)] + [CountDown];
            Legal(ops) && Final(ops) == Tally({}, -1, 0, 0)
  {
    var h := [Insert(u)];
    assert [] + h == h;
    Continue([], Insert(u), NoTally);
    Continue(h, CountUp, Tally({u}, 0, 1, 0));
    Continue(h + [CountUp], Drop(u), Tally({u}, 1, 0, 0));
    Continue(h + [CountUp] + [Drop(u)], Reset, Tally({}, 1, 0, 0));
    Continue(h + [CountUp] + [Drop(u)] + [Reset], Expire(u), Tally({}, 0, 0, 0));
    Continue(h + [CountUp] + [Drop(u)] + [Reset] + [Expire(u)], CountDown, Tally({}, 0, 0, 1));
  }

  lemma Continue(ops: seq<Op>, op: Op, c: Tally)
    requires Legal(ops) && Final(ops) == c && Can(c, op)
    ensures Legal(ops + [op]) && Final(ops + [op]) == Do(c, op)
  {
    assert (ops + [op])[..|ops|] == ops;
  }
}
