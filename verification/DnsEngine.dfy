/**
  The DNS interception engine: parsing, filter, cache, probe and coalesced upstream
  query in one call. Upstream is an oracle; `upstream` is everything it ever answers.
 */
module DnsEngine {
  import opened Bytes
  import opened Common
  import M = DnsMessage
  import C = DnsCache
  import K = Coalesce
  import F = RuleIndex
  import W = DnsWire

  /** One question put to one server; `text` is the printed server address. */
  datatype Ask = Ask(server: C.Address, text: string, qname: seq<byte>, qtype: uint16)

  function Chars(b: seq<byte>): string { seq(|b|, i requires 0 <= i < |b| => b[i] as char) }
  function FlightKey(a: Ask): K.Key { K.MakeCoalesceKey(a.text, Chars(a.qname), a.qtype) }
  function StoreKey(a: Ask): C.CacheKey { C.MakeCacheKey(a.server, a.qname, a.qtype) }

  datatype Config = Config(dohEnabled: bool, cacheEnabled: bool, fallbackToUDP: bool, cacheTTLSec: int)

  /** What `coalesce.Do` gave this caller. */
  datatype Flight = Flight(outcome: K.Outcome, coalesced: bool)

  datatype Decision = PassThrough | Respond(bytes: seq<byte>)

  /** An upstream answer that was put into the cache at time `at`. */
  datatype Stored = Stored(ask: Ask, bytes: seq<byte>, at: int)

  const NXDOMAIN: byte := 3
  const SERVFAIL: byte := 2

  predicate Asks(payload: seq<byte>)
  {
    M.QueryOf(payload).Ok? && |M.QueryOf(payload).value.questions| > 0
  }

  function AskOf(server: C.Address, text: string, payload: seq<byte>): Ask
    requires Asks(payload)
  {
    var q := M.QueryOf(payload).value.questions[0];
    Ask(server, text, q.name, q.qtype)
  }

  /** `bytes` is `answer` under the transaction ID of `payload`. */
  ghost predicate SameButId(bytes: seq<byte>, answer: seq<byte>, payload: seq<byte>)
  {
    |bytes| == |answer| >= 12 && |payload| >= 2 && bytes[..2] == payload[..2] && bytes[2..] == answer[2..]
  }

  lemma WithIdSame(answer: seq<byte>, payload: seq<byte>)
    requires |answer| >= 12 && |payload| >= 2
    ensures SameButId(C.WithId(answer, U16(payload, 0)), answer, payload)
  {
    SplitBytes(payload[0], payload[1], U16(payload, 0));
    var r := C.WithId(answer, U16(payload, 0));
    assert r[0] == payload[0] && r[1] == payload[1];
    assert r[..2] == payload[..2];
  }

  /** The coalescing contract: the answer is upstream's, to a question with the same flight key. */
  ghost predicate Honest(upstream: iset<(Ask, seq<byte>)>, flight: Flight, ask: Ask)
  {
    flight.outcome.Value? ==>
      && |flight.outcome.val| >= 12
      && (exists a :: FlightKey(a) == FlightKey(ask) && (a, flight.outcome.val) in upstream)
      && (!flight.coalesced ==> (ask, flight.outcome.val) in upstream)
  }

  /** Thread `t` of the coalescing protocol puts the question `asks(t)`. */
  function Keys(asks: K.Tid -> Ask): K.Tid -> K.Key { (u: K.Tid) => FlightKey(asks(u)) }

  /** What each thread's own query can return; the client refuses answers below 12 bytes. */
  ghost function Own(asks: K.Tid -> Ask, upstream: iset<(Ask, seq<byte>)>): iset<(K.Tid, seq<byte>)>
  {
    iset u: K.Tid, v: seq<byte> | (asks(u), v) in upstream && |v| >= 12 :: (u, v)
  }

  /** The coalescing protocol keeps that contract in every interleaving. */
  lemma FlightsAreHonest(run: seq<K.Step>, asks: K.Tid -> Ask, upstream: iset<(Ask, seq<byte>)>, t: K.Tid)
    requires K.Possible(run) && K.At(K.After(run), t) && K.Follows(run, Keys(asks), Own(asks, upstream))
    requires K.After(run).threads[t].Finished? && K.After(run).threads[t].reply.Returned?
    ensures var reply := K.After(run).threads[t].reply;
            Honest(upstream, Flight(reply.outcome, reply.coalesced), asks(t))
  {
    if K.After(run).threads[t].reply.outcome.Value? {
      K.ValuesComeFromFn(run, Keys(asks), Own(asks, upstream), t);
    }
  }

  /**
    The filter's configuration, if there is a filter. `classify` stands for the address
    parsing that decides whether a name goes to the IP rules or to the domain rules.
   */
  datatype Policy = NoFilter | Filter(mode: string, rules: seq<string>, classify: string -> F.Destination) {
    predicate Blocks(qname: seq<byte>)
    {
      Filter? && F.Blocked(mode, rules, qname == [], classify(Chars(qname)))
    }
  }

  class Engine {
    var cache: C.Cache?
    ghost const upstream: iset<(Ask, seq<byte>)>
    ghost var log: set<Stored>
    ghost var bound: int

    /** `s` accounts for the entry at `key`: same question key, same bytes, not kept beyond the bound. */
    ghost predicate Accounts(s: Stored, key: C.CacheKey, e: C.Entry)
      reads this
    {
      && s in log && StoreKey(s.ask) == key && s.bytes == e.response
      && e.expireAt <= s.at + C.Max(C.MIN_TTL, bound)
    }

    ghost predicate EntryOk(key: C.CacheKey, e: C.Entry)
      reads this
    {
      exists s :: Accounts(s, key, e)
    }

    ghost predicate Valid()
      reads this, cache
    {
      && (forall s :: s in log ==> (s.ask, s.bytes) in upstream && |s.bytes| >= 12)
      && (cache != null ==>
            && cache.Valid() && cache.maxTTL <= bound
            && forall k :: k in cache.entries ==> EntryOk(k, cache.entries[k]))
    }

    constructor (cfg: Config, ghost upstream: iset<(Ask, seq<byte>)>)
      ensures Valid() && log == {} && this.upstream == upstream
      ensures if cfg.cacheEnabled then cache != null && fresh(cache) && cache.entries == map[] else cache == null
    {
      this.upstream := upstream;
      log := {};
      if cfg.cacheEnabled {
        var c := new C.Cache(cfg.cacheTTLSec * SECOND);
        cache := c;
        bound := c.maxTTL;
      } else {
        cache := null;
        bound := 0;
      }
    }

    method Lookup(key: C.CacheKey, id: uint16, now: int) returns (r: Option<seq<byte>>)
      requires Valid() && cache != null
      modifies cache
      ensures Valid()
      ensures r.Some? <==> key in C.Live(old(cache.entries), now)
      ensures r.Some? ==> |old(cache.entries)[key].response| >= 12
                          && r.value == C.WithId(old(cache.entries)[key].response, id)
      ensures r.Some? ==> exists s :: s in log && StoreKey(s.ask) == key && |s.bytes| >= 12
                                      && r.value == C.WithId(s.bytes, id)
                                      && now <= s.at + C.Max(C.MIN_TTL, bound)
    {
      var before := cache.entries;
      r := cache.Get(key, id, now);
      if r.Some? {
        assert EntryOk(key, before[key]);
        ghost var s :| Accounts(s, key, before[key]);
      }
    }

    method Remember(ask: Ask, bytes: seq<byte>, now: int)
      requires Valid() && cache != null && |bytes| >= 12 && (ask, bytes) in upstream
      modifies this`log, cache
      ensures Valid() && log == old(log) + {Stored(ask, bytes, now)}
      ensures StoreKey(ask) in cache.entries && cache.entries[StoreKey(ask)].response == bytes
    {
      var before := cache.entries;
      var key := StoreKey(ask);
      var s := Stored(ask, bytes, now);
      cache.Set(key, bytes, now);
      log := log + {s};
      forall k | k in cache.entries
        ensures EntryOk(k, cache.entries[k])
      {
        if k == key {
          assert Accounts(s, k, cache.entries[k]);
        } else {
          assert cache.entries[k] == before[k];
          assert old(EntryOk(k, before[k]));
          var t :| old(Accounts(t, k, before[k]));
          assert Accounts(t, k, cache.entries[k]);
        }
      }
    }

    /** The filter's verdict on a name is the configured policy's. */
    method Judge(filter: F.Engine?, policy: Policy, qname: seq<byte>) returns (blocked: bool)
      requires if filter == null then policy.NoFilter? else policy.Filter? && filter.Holds(policy.mode, policy.rules)
      ensures blocked == policy.Blocks(qname)
    {
      if filter == null {
        return false;
      }
      blocked := filter.ShouldBlock(qname == [], policy.classify(Chars(qname)), policy.mode, policy.rules);
    }

    /** The cache is on and has a live entry for the question. */
    ghost predicate CacheHit(cfg: Config, ask: Ask, now: int)
      reads this, cache
    {
      cache != null && cfg.cacheEnabled && StoreKey(ask) in C.Live(cache.entries, now)
    }

    /** The question reaches the cache: interception is on, it parses, and the policy lets it through. */
    ghost predicate Admitted(cfg: Config, policy: Policy, payload: seq<byte>)
    {
      cfg.dohEnabled && Asks(payload) && !policy.Blocks(M.QueryOf(payload).value.questions[0].name)
    }

    /** The answer comes from this flight; if not coalesced, it is upstream's to this very question. */
    ghost predicate FromFlight(bytes: seq<byte>, payload: seq<byte>, ask: Ask, flight: Flight)
    {
      && flight.outcome.Value? && SameButId(bytes, flight.outcome.val, payload)
      && (exists a :: FlightKey(a) == FlightKey(ask) && (a, flight.outcome.val) in upstream)
      && (!flight.coalesced ==> (ask, flight.outcome.val) in upstream)
    }

    /** The answer comes from the cache and was stored no longer ago than the bound. */
    ghost predicate FromCache(bytes: seq<byte>, payload: seq<byte>, ask: Ask, now: int, known: set<Stored>)
      reads this
    {
      exists s :: && s in known && StoreKey(s.ask) == StoreKey(ask) && (s.ask, s.bytes) in upstream
                  && SameButId(bytes, s.bytes, payload) && now <= s.at + C.Max(C.MIN_TTL, bound)
    }

    /** The cached answer, under the ID of this query. */
    method Recall(cfg: Config, ask: Ask, payload: seq<byte>, now: int) returns (hit: Option<seq<byte>>)
      requires Valid() && |payload| >= 2
      modifies cache
      ensures Valid()
      ensures hit.Some? <==> old(CacheHit(cfg, ask, now))
      ensures hit.Some? ==>
                && SameButId(hit.value, old(cache.entries)[StoreKey(ask)].response, payload)
                && FromCache(hit.value, payload, ask, now, log)
    {
      if cache == null || !cfg.cacheEnabled {
        return None;
      }
      hide SameButId;
      hit := Lookup(StoreKey(ask), U16(payload, 0), now);
      if hit.Some? {
        WithIdSame(old(cache.entries)[StoreKey(ask)].response, payload);
        ghost var s :| s in log && StoreKey(s.ask) == StoreKey(ask) && |s.bytes| >= 12
                       && hit.value == C.WithId(s.bytes, U16(payload, 0)) && now <= s.at + C.Max(C.MIN_TTL, bound);
        WithIdSame(s.bytes, payload);
      }
    }

    /** What is kept of a flight: the clean answer of one's own query. */
    ghost function Kept(cfg: Config, ask: Ask, flight: Flight, later: int): set<Stored>
      reads this
    {
      if flight.outcome.Value? && !flight.coalesced && cache != null && cfg.cacheEnabled
      then {Stored(ask, flight.outcome.val, later)} else {}
    }

    /** The upstream path after a cache miss. */
    method Fetch(cfg: Config, ask: Ask, payload: seq<byte>, flight: Flight, later: int) returns (d: Decision)
      requires Valid() && |payload| >= 12 && Honest(upstream, flight, ask)
      modifies this`log, cache
      ensures Valid() && log == old(log + Kept(cfg, ask, flight, later))
      ensures d.PassThrough? <==> flight.outcome.Failed? && cfg.fallbackToUDP
      ensures d.Respond? && flight.outcome.Failed? ==> d.bytes == M.ErrorResponse(payload, 2)
      ensures d.Respond? && flight.outcome.Value? ==> FromFlight(d.bytes, payload, ask, flight)
    {
      hide M.ErrorResponse;
      if flight.outcome.Failed? {
        if cfg.fallbackToUDP {
          return PassThrough;
        }
        var resp := M.BuildErrorResponse(payload, SERVFAIL);
        return Respond(resp);
      }
      var answer := flight.outcome.val;
      if !flight.coalesced && cache != null && cfg.cacheEnabled {
        Remember(ask, answer, later);
      }
      var bytes := answer[0 := payload[0]][1 := payload[1]];
      assert bytes[..2] == payload[..2] && bytes[2..] == answer[2..];
      d := Respond(bytes);
    }

    /** The answer's ID is the query's, whichever way it was made. */
    lemma EchoesId(bytes: seq<byte>, payload: seq<byte>, ask: Ask, flight: Flight, now: int, known: set<Stored>, rcode: byte)
      requires |payload| >= 12
      requires || bytes == M.ErrorResponse(payload, rcode) || FromFlight(bytes, payload, ask, flight)
               || FromCache(bytes, payload, ask, now, known)
      ensures |bytes| >= 12 && bytes[..2] == payload[..2]
    {
      hide M.ErrorResponse;
      ErrorEchoesId(payload, rcode);
    }

    /** `d` answers an admitted question: which case applies, and what it gives. */
    ghost predicate Answered(d: Decision, cfg: Config, ask: Ask, payload: seq<byte>, hit: bool, capable: bool,
                             flight: Flight, now: int, known: set<Stored>)
      reads this
    {
      if hit then d.Respond? && FromCache(d.bytes, payload, ask, now, known)
      else if !capable then d.PassThrough?
      else if flight.outcome.Value? then d.Respond? && FromFlight(d.bytes, payload, ask, flight)
      else if cfg.fallbackToUDP then d.PassThrough?
      else d == Respond(M.ErrorResponse(payload, 2))
    }

    /** Cache, then probe, then upstream. */
    method Resolve(cfg: Config, ask: Ask, payload: seq<byte>, capable: bool, flight: Flight, now: int, later: int)
      returns (d: Decision)
      requires Valid() && |payload| >= 12 && Honest(upstream, flight, ask)
      modifies this`log, cache
      ensures Valid()
      ensures Answered(d, cfg, ask, payload, old(CacheHit(cfg, ask, now)), capable, flight, now, old(log))
      ensures old(CacheHit(cfg, ask, now)) ==>
                d.Respond? && SameButId(d.bytes, old(cache.entries)[StoreKey(ask)].response, payload)
      ensures log == if old(CacheHit(cfg, ask, now)) || !capable then old(log)
                     else old(log + Kept(cfg, ask, flight, later))
      ensures d.Respond? ==> |d.bytes| >= 12 && d.bytes[..2] == payload[..2]
      ensures !capable && (old(cache) == null || !cfg.cacheEnabled) ==> d.PassThrough?
    {
      hide M.ErrorResponse, SameButId, Honest, FromFlight, FromCache;
      var hit := Recall(cfg, ask, payload, now);
      if hit.Some? {
        EchoesId(hit.value, payload, ask, flight, now, log, SERVFAIL);
        return Respond(hit.value);
      }
      if !capable {
        return PassThrough;
      }
      d := Fetch(cfg, ask, payload, flight, later);
      if d.Respond? {
        EchoesId(d.bytes, payload, ask, flight, now, log, SERVFAIL);
      }
    }

    /**
      Main result. Every answer echoes the query's ID; a blocked name gives the NXDOMAIN
      echo whatever the cache holds; any other answer is SERVFAIL or, apart from the ID,
      upstream's, of this flight or recently cached for the same key, case by case.
      `now` is the time of the cache lookup, `later` that of the store.
     */
    method ProcessDNSQuery(cfg: Config, server: C.Address, text: string, payload: seq<byte>, filter: F.Engine?,
                           policy: Policy, capable: bool, flight: Flight, now: int, later: int) returns (d: Decision)
      requires Valid()
      requires if filter == null then policy.NoFilter? else policy.Filter? && filter.Holds(policy.mode, policy.rules)
      requires Asks(payload) ==> Honest(upstream, flight, AskOf(server, text, payload))
      modifies this`log, cache
      ensures Valid()
      ensures d.Respond? ==> |d.bytes| >= 12 && |payload| >= 12 && d.bytes[..2] == payload[..2]
      ensures !cfg.dohEnabled || !Asks(payload) ==> d.PassThrough? && log == old(log)
      ensures cfg.dohEnabled && Asks(payload) && !Admitted(cfg, policy, payload) ==>
                d == Respond(M.ErrorResponse(payload, 3)) && log == old(log)
      ensures Admitted(cfg, policy, payload) && !capable && (old(cache) == null || !cfg.cacheEnabled) ==> d.PassThrough?
      ensures Admitted(cfg, policy, payload) ==>
                var ask := AskOf(server, text, payload);
                && Answered(d, cfg, ask, payload, old(CacheHit(cfg, ask, now)), capable, flight, now, old(log))
                && log == if old(CacheHit(cfg, ask, now)) || !capable then old(log)
                          else old(log + Kept(cfg, ask, flight, later))
    {
      hide M.QueryOf, M.ErrorResponse, SameButId, Honest, Answered;
      if !cfg.dohEnabled {
        return PassThrough;
      }
      var msg := M.ParseQuery(payload);
      if msg.Err? || |msg.value.questions| == 0 {
        return PassThrough;
      }
      LongEnough(payload);
      var ask := AskOf(server, text, payload);
      var blocked := Judge(filter, policy, ask.qname);
      if blocked {
        var resp := M.BuildErrorResponse(payload, NXDOMAIN);
        ErrorEchoesId(payload, NXDOMAIN);
        return Respond(resp);
      }
      d := Resolve(cfg, ask, payload, capable, flight, now, later);
    }

    method UpdateConfig(cfg: Option<Config>)
      requires Valid()
      modifies this`cache, this`bound, cache
      ensures Valid() && log == old(log) && bound >= old(bound)
      ensures cfg.None? ==> cache == old(cache) && (cache != null ==> cache.entries == old(cache.entries))
      ensures cfg.Some? && !cfg.value.cacheEnabled && cache != null ==> cache.entries == map[]
      ensures cfg.Some? && cfg.value.cacheEnabled ==>
                && cache != null
                && cache.maxTTL == (if cfg.value.cacheTTLSec <= 0 then 300_000_000_000 else cfg.value.cacheTTLSec * 1_000_000_000)
                && cache.entries == if old(cache) != null then old(cache.entries) else map[]
      ensures old(cache) != null ==> cache == old(cache)
      ensures cache != old(cache) ==> fresh(cache)
    {
      if cfg.None? {
        return;
      }
      var ttl := cfg.value.cacheTTLSec * SECOND;
      if cache != null {
        ghost var before := cache.entries;
        if !cfg.value.cacheEnabled {
          cache.Purge();
        } else {
          cache.SetMaxTTL(ttl);
          RaiseBound(before);
        }
      } else if cfg.value.cacheEnabled {
        cache := new C.Cache(ttl);
        RaiseBound(map[]);
      }
    }

    /** A longer bound accounts for every entry that the shorter one did. */
    ghost method RaiseBound(entries: map<C.CacheKey, C.Entry>)
      requires cache != null && cache.entries == entries
      requires forall k :: k in entries ==> EntryOk(k, entries[k])
      modifies this`bound
      ensures bound >= old(bound) && bound >= cache.maxTTL
      ensures forall k :: k in entries ==> EntryOk(k, entries[k])
    {
      bound := C.Max(bound, cache.maxTTL);
      forall k | k in entries
        ensures EntryOk(k, entries[k])
      {
        assert old(EntryOk(k, entries[k]));
        var s :| old(Accounts(s, k, entries[k]));
        assert Accounts(s, k, entries[k]);
      }
    }
  }

  lemma LongEnough(payload: seq<byte>)
    requires M.QueryOf(payload).Ok?
    ensures |payload| >= 12
  {
  }

  lemma ErrorEchoesId(payload: seq<byte>, rcode: byte)
    requires |payload| >= 12
    ensures |M.ErrorResponse(payload, rcode)| >= 12 && M.ErrorResponse(payload, rcode)[..2] == payload[..2]
  {
    hide M.Questions;
  }

  // ---- The question on the wire

  /** Main result: what an encoded query is cached, coalesced and filtered under is its first question's name and type. */
  lemma QuestionOnWire(server: C.Address, text: string, h: M.Header, qs: seq<W.Asked>, tail: seq<byte>)
    requires W.ValidQuery(h, qs) && qs != []
    ensures var payload := W.EncodeQuery(h, qs) + tail; var name := W.Text(qs[0].labels);
            && Asks(payload) && AskOf(server, text, payload) == Ask(server, text, name, qs[0].qtype)
            && StoreKey(AskOf(server, text, payload)) == C.MakeCacheKey(server, name, qs[0].qtype)
            && FlightKey(AskOf(server, text, payload)) == K.MakeCoalesceKey(text, Chars(name), qs[0].qtype)
  {
    hide W.EncodeQuery, W.Text, M.QueryOf;
    W.QueryRoundTrip(h, qs, tail);
  }

  /** Main result: two encoded queries share a cache entry exactly when name and type agree and the servers are the same or twins. */
  lemma SharedOnWire(server: C.Address, text: string, h: M.Header, qs: seq<W.Asked>, tail: seq<byte>,
                     server': C.Address, text': string, h': M.Header, qs': seq<W.Asked>, tail': seq<byte>)
    requires server.Valid() && server'.Valid()
    requires W.ValidQuery(h, qs) && qs != [] && W.ValidQuery(h', qs') && qs' != []
    ensures Asks(W.EncodeQuery(h, qs) + tail) && Asks(W.EncodeQuery(h', qs') + tail')
    ensures StoreKey(AskOf(server, text, W.EncodeQuery(h, qs) + tail))
            == StoreKey(AskOf(server', text', W.EncodeQuery(h', qs') + tail'))
            <==> && W.Text(qs[0].labels) == W.Text(qs'[0].labels) && qs[0].qtype == qs'[0].qtype
                 && (server == server' || C.Twins(server, server') || C.Twins(server', server))
  {
    hide W.EncodeQuery, W.Text, Asks, AskOf, StoreKey, C.MakeCacheKey;
    QuestionOnWire(server, text, h, qs, tail);
    QuestionOnWire(server', text', h', qs', tail');
    C.CacheKeyExact(server, W.Text(qs[0].labels), qs[0].qtype, server', W.Text(qs'[0].labels), qs'[0].qtype);
  }

  /** Bytes and characters of a name correspond one to one. */
  lemma CharsExact(a: seq<byte>, b: seq<byte>)
    ensures |Chars(a)| == |a| && (forall i :: 0 <= i < |a| ==> Chars(a)[i] as int == a[i])
    ensures Chars(a) == Chars(b) <==> a == b
  {
    if Chars(a) == Chars(b) {
      assert |a| == |b|;
      assert forall i :: 0 <= i < |a| ==> Chars(a)[i] == Chars(b)[i];
    }
  }
}
