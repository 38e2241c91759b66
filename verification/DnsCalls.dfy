/**
  Many DNS queries at once: the cache lookup, the coalescing steps and the cache store
  of every call are separate steps that interleave freely, with removals from the
  cache at any time. Call `t` puts the question `asks(t)`.
 */
module DnsCalls {
  import opened Bytes
  import C = DnsCache
  import K = Coalesce
  import E = DnsEngine

  /** What is fixed in a run: the questions, everything upstream ever answers, and the cache limit. */
  datatype Setting = Setting(asks: K.Tid -> E.Ask, upstream: iset<(E.Ask, seq<byte>)>, maxTTL: int) {
    ghost predicate Answers(t: K.Tid, bytes: seq<byte>) { (asks(t), bytes) in upstream }
    function Limit(): int { C.Max(C.MIN_TTL, maxTTL) }
    function Key(t: K.Tid): C.CacheKey { E.StoreKey(asks(t)) }
  }

  /** A store into the cache: by which call, of what, and when. */
  datatype Stored = Stored(t: K.Tid, bytes: seq<byte>, at: int)

  /** What a call returns, apart from the transaction ID. */
  datatype Answer = FromCache(bytes: seq<byte>, now: int) | FromFlight(outcome: K.Outcome, coalesced: bool)

  /** `missed` are the calls past their cache lookup; `flights` is the coalescing run so far. */
  datatype World = World(entries: map<C.CacheKey, C.Entry>, missed: set<K.Tid>, flights: seq<K.Step>,
                         log: set<Stored>, answers: map<K.Tid, Answer>)

  const Init := World(map[], {}, [], {}, map[])

  datatype Event =
    | Lookup(t: K.Tid, now: int)
    | NoLookup(t: K.Tid)
    | Fly(step: K.Step)
    | Store(t: K.Tid, at: int, lifetime: int)
    | Reply(t: K.Tid)
    | Remove(key: C.CacheKey)

  predicate Hit(w: World, key: C.CacheKey, now: int) { key in w.entries && now <= w.entries[key].expireAt }

  /** The call has come back from its flight. */
  ghost predicate Landed(w: World, t: K.Tid)
  {
    && K.Possible(w.flights) && K.At(K.After(w.flights), t)
    && K.After(w.flights).threads[t].Finished? && K.After(w.flights).threads[t].reply.Returned?
  }

  ghost function ReplyOf(w: World, t: K.Tid): K.Reply
    requires Landed(w, t)
  {
    K.After(w.flights).threads[t].reply
  }

  /** A flight step that the program and upstream allow. */
  ghost predicate CanFly(x: Setting, w: World, a: K.Step)
  {
    && K.Possible(w.flights) && K.Enabled(K.After(w.flights), a)
    && (a.Enter? ==> a.t in w.missed && a.key == E.FlightKey(x.asks(a.t)))
    && (a.FnReturn? && a.outcome.Value? ==> x.Answers(a.t, a.outcome.val) && |a.outcome.val| >= 12)
  }

  ghost predicate Can(x: Setting, w: World, e: Event)
  {
    match e
    case Lookup(t, _) => t !in w.missed && t !in w.answers
    case NoLookup(t) => t !in w.missed && t !in w.answers
    case Fly(a) => CanFly(x, w, a)
    case Store(t, _, lifetime) =>
      && Landed(w, t) && t !in w.answers && ReplyOf(w, t).outcome.Value? && !ReplyOf(w, t).coalesced
      && C.IsLifetime(ReplyOf(w, t).outcome.val, x.maxTTL, lifetime)
    case Reply(t) => Landed(w, t) && t !in w.answers
    case Remove(_) => true
  }

  ghost function Do(x: Setting, w: World, e: Event): World
    requires Can(x, w, e)
  {
    match e
    case Lookup(t, now) =>
      if Hit(w, x.Key(t), now) then w.(answers := w.answers[t := FromCache(w.entries[x.Key(t)].response, now)])
      else w.(missed := w.missed + {t})
    case NoLookup(t) => w.(missed := w.missed + {t})
    case Fly(a) => w.(flights := w.flights + [a])
    case Store(t, at, lifetime) =>
      var bytes := ReplyOf(w, t).outcome.val;
      w.(entries := w.entries[x.Key(t) := C.Entry(bytes, at + lifetime)], log := w.log + {Stored(t, bytes, at)})
    case Reply(t) => w.(answers := w.answers[t := FromFlight(ReplyOf(w, t).outcome, ReplyOf(w, t).coalesced)])
    case Remove(key) => w.(entries := w.entries - {key})
  }

  ghost predicate Possible(x: Setting, h: seq<Event>)
    decreases |h|, 0
  {
    h == [] || (Possible(x, h[..|h| - 1]) && Can(x, After(x, h[..|h| - 1]), h[|h| - 1]))
  }

  ghost function After(x: Setting, h: seq<Event>): World
    requires Possible(x, h)
    decreases |h|, 1
  {
    if h == [] then Init else Do(x, After(x, h[..|h| - 1]), h[|h| - 1])
  }

  // ---- Where answers come from

  /** `s` accounts for bytes cached under `key` until `until`. */
  ghost predicate Accounts(x: Setting, log: set<Stored>, s: Stored, key: C.CacheKey, bytes: seq<byte>, until: int)
  {
    s in log && x.Key(s.t) == key && s.bytes == bytes && x.Answers(s.t, bytes) && until <= s.at + x.Limit()
  }

  ghost predicate Cached(x: Setting, log: set<Stored>, key: C.CacheKey, bytes: seq<byte>, until: int)
  {
    exists s :: Accounts(x, log, s, key, bytes, until)
  }

  ghost predicate Sourced(x: Setting, log: set<Stored>, t: K.Tid, a: Answer)
  {
    match a
    case FromCache(bytes, now) => Cached(x, log, x.Key(t), bytes, now)
    case FromFlight(outcome, coalesced) => E.Honest(x.upstream, E.Flight(outcome, coalesced), x.asks(t))
  }

  ghost predicate Inv(x: Setting, w: World)
  {
    && K.Possible(w.flights) && K.Follows(w.flights, E.Keys(x.asks), E.Own(x.asks, x.upstream))
    && (forall key :: key in w.entries ==> Cached(x, w.log, key, w.entries[key].response, w.entries[key].expireAt))
    && (forall t :: t in w.answers ==> Sourced(x, w.log, t, w.answers[t]))
  }

  lemma CachedLater(x: Setting, log: set<Stored>, more: set<Stored>, key: C.CacheKey, bytes: seq<byte>, until: int, earlier: int)
    requires Cached(x, log, key, bytes, until) && log <= more && earlier <= until
    ensures Cached(x, more, key, bytes, earlier)
  {
    var s :| Accounts(x, log, s, key, bytes, until);
    assert Accounts(x, more, s, key, bytes, earlier);
  }

  lemma SourcedLater(x: Setting, log: set<Stored>, more: set<Stored>, t: K.Tid, a: Answer)
    requires Sourced(x, log, t, a) && log <= more
    ensures Sourced(x, more, t, a)
  {
    hide Cached;
    if a.FromCache? { CachedLater(x, log, more, x.Key(t), a.bytes, a.now, a.now); }
  }

  lemma LookupKeeps(x: Setting, w: World, e: Event)
    requires Inv(x, w) && e.Lookup? && Can(x, w, e)
    ensures Inv(x, Do(x, w, e))
  {
    hide Cached, K.Possible, K.Follows;
    if Hit(w, x.Key(e.t), e.now) {
      var entry := w.entries[x.Key(e.t)];
      CachedLater(x, w.log, w.log, x.Key(e.t), entry.response, entry.expireAt, e.now);
    }
  }

  lemma FlyKeeps(x: Setting, w: World, e: Event)
    requires Inv(x, w) && e.Fly? && Can(x, w, e)
    ensures Inv(x, Do(x, w, e))
  {
    hide Cached, Sourced;
    assert (w.flights + [e.step])[..|w.flights|] == w.flights;
  }

  /** What a landed call brings home is upstream's, by the protocol. */
  lemma LandedHonest(x: Setting, w: World, t: K.Tid)
    requires Inv(x, w) && Landed(w, t)
    ensures E.Honest(x.upstream, E.Flight(ReplyOf(w, t).outcome, ReplyOf(w, t).coalesced), x.asks(t))
  {
    hide K.Follows, E.Honest;
    E.FlightsAreHonest(w.flights, x.asks, x.upstream, t);
  }

  lemma LifetimeLimit(resp: seq<byte>, maxTTL: int, lifetime: int)
    requires C.IsLifetime(resp, maxTTL, lifetime)
    ensures lifetime <= C.Max(C.MIN_TTL, maxTTL)
  {
    hide C.DnsMessage.IsMinTtl;
  }

  lemma StoreKeeps(x: Setting, w: World, e: Event)
    requires Inv(x, w) && e.Store? && Can(x, w, e)
    ensures Inv(x, Do(x, w, e))
  {
    LandedHonest(x, w, e.t);
    var bytes := ReplyOf(w, e.t).outcome.val;
    LifetimeLimit(bytes, x.maxTTL, e.lifetime);
    var w' := Do(x, w, e);
    assert Accounts(x, w'.log, Stored(e.t, bytes, e.at), x.Key(e.t), bytes, e.at + e.lifetime);
    hide Accounts, K.Possible, K.Follows, Landed, E.Honest, C.IsLifetime;
    forall key | key in w'.entries
      ensures Cached(x, w'.log, key, w'.entries[key].response, w'.entries[key].expireAt)
    {
      if key != x.Key(e.t) {
        CachedLater(x, w.log, w'.log, key, w.entries[key].response, w.entries[key].expireAt, w.entries[key].expireAt);
      }
    }
    forall t | t in w'.answers
      ensures Sourced(x, w'.log, t, w'.answers[t])
    {
      SourcedLater(x, w.log, w'.log, t, w.answers[t]);
    }
  }

  lemma ReplyKeeps(x: Setting, w: World, e: Event)
    requires Inv(x, w) && e.Reply? && Can(x, w, e)
    ensures Inv(x, Do(x, w, e))
  {
    LandedHonest(x, w, e.t);
    hide Cached, K.Possible, K.Follows, E.Honest;
  }

  lemma OtherKeeps(x: Setting, w: World, e: Event)
    requires Inv(x, w) && (e.NoLookup? || e.Remove?) && Can(x, w, e)
    ensures Inv(x, Do(x, w, e))
  {
    hide Cached, Sourced, K.Possible, K.Follows;
  }

  lemma StepKeeps(x: Setting, w: World, e: Event)
    requires Inv(x, w) && Can(x, w, e)
    ensures Inv(x, Do(x, w, e))
  {
    match e
    case Lookup(_, _) => LookupKeeps(x, w, e);
    case Fly(_) => FlyKeeps(x, w, e);
    case Store(_, _, _) => StoreKeeps(x, w, e);
    case Reply(_) => ReplyKeeps(x, w, e);
    case _ => OtherKeeps(x, w, e);
  }

  lemma {:induction false} RunKeeps(x: Setting, h: seq<Event>)
    requires Possible(x, h)
    ensures Inv(x, After(x, h))
  {
    if h != [] {
      hide Inv, Do, Can;
      RunKeeps(x, h[..|h| - 1]);
      StepKeeps(x, After(x, h[..|h| - 1]), h[|h| - 1]);
    }
  }

  /**
    Main result, for every interleaving of any number of calls: an answer is upstream's
    to a question with the same cache key, stored by some call at most max(5 s, maxTTL)
    before it was looked up; or the outcome of the call's flight, whose value is
    upstream's to a question with the same flight key (this very one if not coalesced).
   */
  lemma AnswersAreSourced(x: Setting, h: seq<Event>, t: K.Tid)
    requires Possible(x, h) && t in After(x, h).answers
    ensures match After(x, h).answers[t]
            case FromCache(bytes, now) =>
              exists s :: && s in After(x, h).log && x.Key(s.t) == x.Key(t) && s.bytes == bytes && x.Answers(s.t, bytes)
                          && now <= s.at + C.Max(C.MIN_TTL, x.maxTTL)
            case FromFlight(outcome, coalesced) =>
              E.Honest(x.upstream, E.Flight(outcome, coalesced), x.asks(t))
  {
    RunKeeps(x, h);
    hide After, E.Honest;
    var a := After(x, h).answers[t];
    assert Sourced(x, After(x, h).log, t, a);
    if a.FromCache? {
      var s :| Accounts(x, After(x, h).log, s, x.Key(t), a.bytes, a.now);
    }
  }

  /** The log holds only stores that calls made in the history. */
  lemma {:induction false} LogIsHistory(x: Setting, h: seq<Event>, s: Stored) returns (i: nat)
    requires Possible(x, h) && s in After(x, h).log
    ensures i < |h| && h[i].Store? && h[i].t == s.t && h[i].at == s.at
  {
    var n := |h| - 1;
    if s in After(x, h[..n]).log {
      i := LogIsHistory(x, h[..n], s);
    } else {
      i := n;
    }
  }
}
