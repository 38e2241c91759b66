/** The DNS answer cache: TTL clamping, lookup, eviction, and the entry count under interleaving. */
module DnsCache {
  import opened Bytes
  import opened Common
  import DnsMessage

  // ---- Keys

  /** An address after `To4`: 4 bytes, or 16 bytes that are not an IPv4-mapped address. */
  datatype Address = V4(b: seq<byte>) | V6(b: seq<byte>) {
    ghost predicate Valid() { if V4? then |b| == 4 else |b| == 16 }
  }

  datatype CacheKey = CacheKey(ip: seq<byte>, qtype: uint16, qname: seq<byte>)

  function MakeCacheKey(a: Address, qname: seq<byte>, qtype: uint16): CacheKey
  {
    CacheKey(if a.V4? then a.b + ZERO12 else a.b, qtype, qname)
  }

  /** The IPv6 address whose first four bytes are an IPv4 address and whose rest is zero. */
  ghost predicate Twins(a: Address, c: Address) { a.V4? && c.V6? && c.b == a.b + ZERO12 }

  /**
    Exactly which questions share a cache entry: equal ones, and those put to an
    IPv4 server and to its zero-padded IPv6 twin, since the key has no family flag.
   */
  lemma CacheKeyExact(a: Address, n: seq<byte>, t: uint16, a': Address, n': seq<byte>, t': uint16)
    requires a.Valid() && a'.Valid()
    ensures MakeCacheKey(a, n, t) == MakeCacheKey(a', n', t')
            <==> n == n' && t == t' && (a == a' || Twins(a, a') || Twins(a', a))
  {
    if a.V4? && a'.V4? {
      assert (a.b + ZERO12)[..4] == a.b && (a'.b + ZERO12)[..4] == a'.b;
    }
  }

  // ---- The cache

  const MIN_TTL := 5 * SECOND
  const MAX_ENTRIES := 10000
  const DEFAULT_TTL := 300 * SECOND

  datatype Entry = Entry(response: seq<byte>, expireAt: int)

  function Max(a: int, b: int): int { if a >= b then a else b }

  /** The entries that are not past their time at `now`. */
  function Live(entries: map<CacheKey, Entry>, now: int): map<CacheKey, Entry>
  {
    map k | k in entries && now <= entries[k].expireAt :: entries[k]
  }

  /** A response with its transaction ID replaced. */
  function WithId(resp: seq<byte>, id: uint16): seq<byte>
    requires |resp| >= 2
  {
    Put16(resp, 0, id)
  }

  /** No answer record outlives its own TTL by being cached, apart from the five-second floor. */
  ghost predicate HonoursTtls(resp: seq<byte>, lifetime: int)
  {
    forall k :: 0 <= k < |DnsMessage.TtlsOf(resp)| && DnsMessage.TtlsOf(resp)[k] > 0 ==>
      lifetime <= Max(MIN_TTL, DnsMessage.TtlsOf(resp)[k] * SECOND)
  }

  lemma TtlLimit(resp: seq<byte>, default: uint32, seconds: uint32)
    requires DnsMessage.IsMinTtl(DnsMessage.TtlsOf(resp), default, seconds)
    ensures forall lifetime :: lifetime <= Max(MIN_TTL, seconds * SECOND) ==> HonoursTtls(resp, lifetime)
  {
    var ttls := DnsMessage.TtlsOf(resp);
    hide DnsMessage.TtlsOf;
    forall k: nat | k < |ttls| && ttls[k] > 0
      ensures seconds <= ttls[k]
    {
      DnsMessage.MinTtlBounds(ttls, default, seconds, k);
    }
  }

  /** The answer's least TTL, or else the cache's own limit, clamped to that limit and to five seconds. */
  ghost predicate IsLifetime(resp: seq<byte>, maxTTL: int, lifetime: int)
  {
    exists seconds: uint32 ::
      && DnsMessage.IsMinTtl(DnsMessage.TtlsOf(resp), (maxTTL / SECOND) % 0x1_0000_0000, seconds)
      && lifetime == Max(MIN_TTL, Min(seconds * SECOND, maxTTL))
  }

  class Cache {
    var entries: map<CacheKey, Entry>
    var count: int
    var maxTTL: int

    ghost predicate Valid()
      reads this
    {
      && count == |entries| && maxTTL > 0
      && forall k :: k in entries ==> |entries[k].response| >= 12
    }

    constructor (ttl: int)
      ensures Valid() && entries == map[] && maxTTL == if ttl <= 0 then 300_000_000_000 else ttl
    {
      entries, count := map[], 0;
      maxTTL := if ttl <= 0 then DEFAULT_TTL else ttl;
    }

    method SetMaxTTL(ttl: int)
      requires Valid()
      modifies this
      ensures Valid() && entries == old(entries) && maxTTL == if ttl <= 0 then 300_000_000_000 else ttl
    {
      maxTTL := if ttl <= 0 then DEFAULT_TTL else ttl;
    }

    method Get(key: CacheKey, id: uint16, now: int) returns (r: Option<seq<byte>>)
      requires Valid()
      modifies this
      ensures Valid() && maxTTL == old(maxTTL)
      ensures r.Some? <==> key in old(entries) && now <= old(entries)[key].expireAt
      ensures r.Some? ==> entries == old(entries) && r.value == WithId(entries[key].response, id)
      ensures r.None? ==> entries == old(entries) - {key}
    {
      if key !in entries {
        assert entries - {key} == entries;
        return None;
      }
      var entry := entries[key];
      if now > entry.expireAt {
        RemoveOne(entries, key);
        entries := entries - {key};
        count := count - 1;
        return None;
      }
      r := Some(WithId(entry.response, id));
    }

    /** The answer's own TTL, at most `maxTTL`, at least five seconds. */
    method Lifetime(resp: seq<byte>) returns (ttl: int)
      ensures IsLifetime(resp, maxTTL, ttl) && HonoursTtls(resp, ttl) && MIN_TTL <= ttl <= Max(MIN_TTL, maxTTL)
    {
      var seconds := DnsMessage.ExtractMinTTL(resp, (maxTTL / SECOND) % 0x1_0000_0000);
      TtlLimit(resp, (maxTTL / SECOND) % 0x1_0000_0000, seconds);
      hide HonoursTtls;
      ttl := seconds * SECOND;
      assert HonoursTtls(resp, Max(MIN_TTL, Min(ttl, maxTTL)));
      if ttl > maxTTL {
        ttl := maxTTL;
      }
      if ttl < MIN_TTL {
        ttl := MIN_TTL;
      }
    }

    method Set(key: CacheKey, resp: seq<byte>, now: int)
      requires Valid()
      modifies this
      ensures Valid() && maxTTL == old(maxTTL)
      ensures |resp| < 12 ==> entries == old(entries)
      ensures |resp| >= 12 ==>
                && key in entries && entries[key].response == resp
                && now + 5_000_000_000 <= entries[key].expireAt <= now + Max(5_000_000_000, maxTTL)
                && HonoursTtls(resp, entries[key].expireAt - now)
                && IsLifetime(resp, maxTTL, entries[key].expireAt - now)
                && var stored := old(entries)[key := entries[key]];
                   entries == if key !in old(entries) && |old(entries)| >= 10000 then Live(stored, now) else stored
    {
      hide HonoursTtls, IsLifetime;
      if |resp| < 12 {
        return;
      }
      var ttl := Lifetime(resp);
      var isNew := key !in entries;
      PutOne(entries, key, Entry(resp, now + ttl));
      entries := entries[key := Entry(resp, now + ttl)];
      if isNew {
        count := count + 1;
        if count > MAX_ENTRIES {
          EvictExpired(now);
        }
      }
    }

    method EvictExpired(now: int)
      requires Valid()
      modifies this
      ensures Valid() && maxTTL == old(maxTTL) && entries == Live(old(entries), now)
      ensures forall k :: k in entries <==> k in old(entries) && now <= old(entries)[k].expireAt
      ensures forall k :: k in entries ==> entries[k] == old(entries)[k]
    {
      var todo := entries.Keys;
      while todo != {}
        invariant todo <= entries.Keys <= old(entries).Keys && Valid() && maxTTL == old(maxTTL)
        invariant forall k :: k in entries ==> entries[k] == old(entries)[k]
        invariant forall k :: k in old(entries) && k !in entries ==> now > old(entries)[k].expireAt
        invariant forall k :: k in entries && k !in todo ==> now <= entries[k].expireAt
        decreases |todo|
      {
        var k :| k in todo;
        if now > entries[k].expireAt {
          RemoveOne(entries, k);
          entries := entries - {k};
          count := count - 1;
        }
        todo := todo - {k};
      }
    }

    method Purge()
      modifies this
      requires Valid()
      ensures Valid() && entries == map[] && maxTTL == old(maxTTL)
    {
      entries := map[];
      count := 0;
    }
  }

  // ---- The count under interleaving

  type Tid = nat

  /**
    Threads in `adding` and `removing` have changed the map but not yet the counter.
    A thread in `purging` ranges over the map; its set holds the keys it still has to
    meet, those that were there when it started and have not been deleted since.
   */
  datatype Counter = Counter(keys: set<CacheKey>, count: int, adding: set<Tid>, removing: set<Tid>,
                             purging: map<Tid, set<CacheKey>>)

  const NoEntries := Counter({}, 0, {}, {}, map[])

  datatype Op =
    | Swap(t: Tid, key: CacheKey)
    | CountUp(t: Tid)
    | LoadAndDelete(t: Tid, key: CacheKey)
    | CountDown(t: Tid)
    | PurgeStart(t: Tid)
    | PurgeDelete(t: Tid, key: CacheKey)
    | PurgeStore(t: Tid)

  predicate Idle(c: Counter, t: Tid) { t !in c.adding && t !in c.removing && t !in c.purging }

  predicate Can(c: Counter, op: Op)
  {
    match op
    case Swap(t, _) => Idle(c, t)
    case CountUp(t) => t in c.adding
    case LoadAndDelete(t, _) => Idle(c, t)
    case CountDown(t) => t in c.removing
    case PurgeStart(t) => Idle(c, t)
    case PurgeDelete(t, _) => t in c.purging
    case PurgeStore(t) => t in c.purging && c.purging[t] == {}
  }

  /** `key` is gone from the map and from what the ranges have to meet. */
  function Dropped(c: Counter, key: CacheKey): Counter
  {
    c.(keys := c.keys - {key}, purging := map t | t in c.purging :: c.purging[t] - {key})
  }

  function Do(c: Counter, op: Op): Counter
  {
    match op
    case Swap(t, k) => if k in c.keys then c else c.(keys := c.keys + {k}, adding := c.adding + {t})
    case CountUp(t) => c.(count := c.count + 1, adding := c.adding - {t})
    case LoadAndDelete(t, k) => if k in c.keys then Dropped(c, k).(removing := c.removing + {t}) else c
    case CountDown(t) => c.(count := c.count - 1, removing := c.removing - {t})
    case PurgeStart(t) => c.(purging := c.purging[t := c.keys])
    case PurgeDelete(_, k) => Dropped(c, k)
    case PurgeStore(t) => c.(count := 0, purging := c.purging - {t})
  }

  /** The entries less those not yet counted, plus those counted though gone: what the counter should show. */
  function Due(c: Counter): int { |c.keys| - |c.adding| + |c.removing| }

  /** The counter and the pending adjustments together are the number of entries. */
  predicate Balanced(c: Counter) { c.count == Due(c) }

  ghost predicate Legal(ops: seq<Op>)
    decreases |ops|, 0
  {
    ops == [] || (Legal(ops[..|ops| - 1]) && Can(Final(ops[..|ops| - 1]), ops[|ops| - 1]))
  }

  ghost function Final(ops: seq<Op>): Counter
    requires Legal(ops)
    decreases |ops|, 1
  {
    if ops == [] then NoEntries else Do(Final(ops[..|ops| - 1]), ops[|ops| - 1])
  }

  /** How many entries purges have deleted, uncounted, since the last store of one. */
  ghost function Uncounted(ops: seq<Op>): nat
    requires Legal(ops)
  {
    if ops == [] || ops[|ops| - 1].PurgeStore? then 0
    else
      var before, op := ops[..|ops| - 1], ops[|ops| - 1];
      Uncounted(before) + if op.PurgeDelete? && op.key in Final(before).keys then 1 else 0
  }

  /** What the counter should have shown when the last purge set it to 0. */
  ghost function Forgotten(ops: seq<Op>): int
    requires Legal(ops)
  {
    if ops == [] then 0
    else if ops[|ops| - 1].PurgeStore? then Due(Final(ops[..|ops| - 1]))
    else Forgotten(ops[..|ops| - 1])
  }

  /** How one step moves the error of the counter. */
  lemma OpError(c: Counter, op: Op)
    requires Can(c, op)
    ensures var c' := Do(c, op);
            c'.count - Due(c') == if op.PurgeStore? then -Due(c)
                                  else c.count - Due(c) + if op.PurgeDelete? && op.key in c.keys then 1 else 0
  {
  }

  /**
    Main result, for every interleaving of lookups, stores, evictions and purges: the
    counter is off by the entries that purges deleted since the last store of a
    purge, less what that store forgot.
   */
  lemma {:induction false} CountExact(ops: seq<Op>)
    requires Legal(ops)
    ensures Final(ops).count - Due(Final(ops)) == Uncounted(ops) - Forgotten(ops)
    ensures Balanced(Final(ops)) <==> Uncounted(ops) == Forgotten(ops)
  {
    if ops != [] {
      CountExact(ops[..|ops| - 1]);
      OpError(Final(ops[..|ops| - 1]), ops[|ops| - 1]);
      hide Do, Can;
    }
  }

  /** Without purges the count is exact up to pending steps, and exact when nothing is pending. */
  lemma {:induction false} CountStaysExact(ops: seq<Op>)
    requires Legal(ops) && forall i :: 0 <= i < |ops| ==> !ops[i].PurgeDelete? && !ops[i].PurgeStore?
    ensures Balanced(Final(ops))
    ensures Final(ops).adding == {} && Final(ops).removing == {} ==> Final(ops).count == |Final(ops).keys|
  {
    if ops != [] {
      CountStaysExact(ops[..|ops| - 1]);
      OpError(Final(ops[..|ops| - 1]), ops[|ops| - 1]);
      hide Do, Can;
    }
  }

  lemma LegalStep(ops: seq<Op>, op: Op)
    requires Legal(ops + [op])
    ensures Legal(ops) && Can(Final(ops), op) && Final(ops + [op]) == Do(Final(ops), op)
  {
    assert (ops + [op])[..|ops|] == ops;
  }

  /** Exact limit: a purge leaves the balance right if and only if its store finds nothing left to count. */
  lemma PurgeExact(ops: seq<Op>, t: Tid)
    requires Legal(ops + [PurgeStore(t)])
    ensures Legal(ops)
    ensures Balanced(Final(ops + [PurgeStore(t)]))
            <==> |Final(ops).keys| == |Final(ops).adding| - |Final(ops).removing|
  {
    LegalStep(ops, PurgeStore(t));
    OpError(Final(ops), PurgeStore(t));
  }

  /** The deletes of one range. */
  function Deletes(t: Tid, keys: seq<CacheKey>): seq<Op>
  {
    if keys == [] then [] else Deletes(t, keys[..|keys| - 1]) + [PurgeDelete(t, keys[|keys| - 1])]
  }

  /** During a range that nothing overlaps, what is left in the map is what the range has still to meet. */
  lemma {:induction false} RangeAlone(ops: seq<Op>, t: Tid, keys: seq<CacheKey>)
    requires Legal(ops + [PurgeStart(t)] + Deletes(t, keys))
    ensures Legal(ops)
    ensures var c, c' := Final(ops), Final(ops + [PurgeStart(t)] + Deletes(t, keys));
            && t in c'.purging && c'.purging[t] == c'.keys
            && c'.adding == c.adding && c'.removing == c.removing
  {
    var start := ops + [PurgeStart(t)];
    if keys == [] {
      assert start + Deletes(t, keys) == start;
      LegalStep(ops, PurgeStart(t));
    } else {
      var rest, key := keys[..|keys| - 1], keys[|keys| - 1];
      assert start + Deletes(t, keys) == (start + Deletes(t, rest)) + [PurgeDelete(t, key)];
      LegalStep(start + Deletes(t, rest), PurgeDelete(t, key));
      RangeAlone(ops, t, rest);
    }
  }

  /** A purge that no other operation overlaps empties the map, and leaves it balanced iff the pending steps cancel. */
  lemma PurgeAlone(ops: seq<Op>, t: Tid, keys: seq<CacheKey>)
    requires Legal(ops + [PurgeStart(t)] + Deletes(t, keys) + [PurgeStore(t)])
    ensures Legal(ops)
    ensures var c, c' := Final(ops), Final(ops + [PurgeStart(t)] + Deletes(t, keys) + [PurgeStore(t)]);
            && c'.keys == {} && c'.count == 0
            && (Balanced(c') <==> |c.adding| == |c.removing|)
            && (c.adding == {} && c.removing == {} ==> Balanced(c'))
  {
    var range := ops + [PurgeStart(t)] + Deletes(t, keys);
    LegalStep(range, PurgeStore(t));
    RangeAlone(ops, t, keys);
    PurgeExact(range, t);
  }

  /** Nothing pending before or after, and yet wrong: a store between the range and the reset of the counter. */
  lemma PurgeOvertaken(k: CacheKey)
    ensures var ops := [PurgeStart(0)] + [Swap(1, k)] + [CountUp(1)] + [PurgeStore(0)];
            Legal(ops) && Final(ops) == Counter({k}, 0, {}, {}, map[]) && !Balanced(Final(ops))
  {
    var a, b, c, d := PurgeStart(0), Swap(1, k), CountUp(1), PurgeStore(0);
    Continue([], a, NoEntries);
    assert [] + [a] == [a];
    Continue([a], b, Counter({}, 0, {}, {}, map[0 := {}]));
    Continue([a] + [b], c, Counter({k}, 0, {1}, {}, map[0 := {}]));
    Continue([a] + [b] + [c], d, Counter({k}, 1, {}, {}, map[0 := {}]));
  }

  lemma Continue(ops: seq<Op>, op: Op, c: Counter)
    requires Legal(ops) && Final(ops) == c && Can(c, op)
    ensures Legal(ops + [op]) && Final(ops + [op]) == Do(c, op)
  {
    assert (ops + [op])[..|ops|] == ops;
  }
}
