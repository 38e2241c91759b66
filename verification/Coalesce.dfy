/**
  Query coalescing (singleflight) as an interleaving of its atomic steps. Each
  mutex-protected section, each call of `fn` and each wait-group operation is one
  step; threads interleave freely, `fn` may return, fail or panic.
 */
module Coalesce {
  import opened Bytes

  type Key = string
  type Tid = nat
  type CallId = nat

  datatype Outcome = Value(val: seq<byte>) | Failed(err: string)

  /** The error that a panicking leader leaves for its waiters. */
  const PanicError := Failed("dns coalesce query panicked")

  /** One flight: `pending` is its wait-group counter. */
  datatype Call = Call(key: Key, leader: Tid, result: Option<Outcome>, pending: int)

  datatype Reply = Returned(outcome: Outcome, coalesced: bool) | Rethrown

  /** Where a thread is inside `Do`. */
  datatype Pc =
    | Waiting(c: CallId)
    | Running(c: CallId)
    | Unwinding(c: CallId)
    | Written(c: CallId, panicked: bool)
    | Unlisted(c: CallId, panicked: bool)
    | Finished(c: CallId, reply: Reply)

  datatype State = State(m: map<Key, CallId>, calls: map<CallId, Call>, threads: map<Tid, Pc>)

  const Init := State(map[], map[], map[])

  datatype Step =
    | Enter(t: Tid, key: Key)
    | FnReturn(t: Tid, outcome: Outcome)
    | FnPanic(t: Tid)
    | Record(t: Tid)
    | Delete(t: Tid)
    | Signal(t: Tid)
    | Read(t: Tid)

  predicate At(s: State, t: Tid) { t in s.threads && s.threads[t].c in s.calls }

  predicate Enabled(s: State, a: Step)
  {
    match a
    case Enter(t, _) => t !in s.threads
    case FnReturn(t, _) => At(s, t) && s.threads[t].Running?
    case FnPanic(t) => At(s, t) && s.threads[t].Running?
    case Record(t) => At(s, t) && s.threads[t].Unwinding?
    case Delete(t) => At(s, t) && s.threads[t].Written?
    case Signal(t) => At(s, t) && s.threads[t].Unlisted?
    case Read(t) =>
      At(s, t) && s.threads[t].Waiting? && s.calls[s.threads[t].c].pending == 0
  }

  function ResultOf(k: Call): Outcome { if k.result.Some? then k.result.value else Value([]) }

  function Fresh(s: State): CallId { |s.calls| }

  function Apply(s: State, a: Step): State
    requires Enabled(s, a)
  {
    match a
    case Enter(t, key) =>
      if key in s.m then s.(threads := s.threads[t := Waiting(s.m[key])])
      else
        var c := Fresh(s);
        State(s.m[key := c], s.calls[c := Call(key, t, None, 1)], s.threads[t := Running(c)])
    case FnReturn(t, outcome) =>
      var c := s.threads[t].c;
      State(s.m, s.calls[c := s.calls[c].(result := Some(outcome))], s.threads[t := Written(c, false)])
    case FnPanic(t) => s.(threads := s.threads[t := Unwinding(s.threads[t].c)])
    case Record(t) =>
      var c := s.threads[t].c;
      State(s.m, s.calls[c := s.calls[c].(result := Some(PanicError))], s.threads[t := Written(c, true)])
    case Delete(t) =>
      var c := s.threads[t].c;
      State(s.m - {s.calls[c].key}, s.calls, s.threads[t := Unlisted(c, s.threads[t].panicked)])
    case Signal(t) =>
      var c := s.threads[t].c;
      var reply := if s.threads[t].panicked then Rethrown else Returned(ResultOf(s.calls[c]), false);
      State(s.m, s.calls[c := s.calls[c].(pending := s.calls[c].pending - 1)], s.threads[t := Finished(c, reply)])
    case Read(t) =>
      var c := s.threads[t].c;
      s.(threads := s.threads[t := Finished(c, Returned(ResultOf(s.calls[c]), true))])
  }

  // ---- The invariant

  /** The thread still has its entry in the table. */
  predicate Listed(pc: Pc) { pc.Running? || pc.Unwinding? || pc.Written? }

  predicate Leading(pc: Pc)
  {
    Listed(pc) || pc.Unlisted? || (pc.Finished? && (pc.reply.Rethrown? || !pc.reply.coalesced))
  }

  predicate HasWritten(pc: Pc) { pc.Written? || pc.Unlisted? || pc.Finished? }

  /** The leader of `c` is where the record of `c` says it is. */
  predicate CallOk(s: State, c: CallId)
    requires c in s.calls
  {
    var k := s.calls[c];
    && c < |s.calls| && k.leader in s.threads && s.threads[k.leader].c == c && Leading(s.threads[k.leader])
    && (Listed(s.threads[k.leader]) ==> k.key in s.m && s.m[k.key] == c)
    && (k.result.Some? <==> HasWritten(s.threads[k.leader]))
    && k.pending == (if s.threads[k.leader].Finished? then 0 else 1)
  }

  predicate EntryOk(s: State, key: Key)
    requires key in s.m
  {
    var c := s.m[key];
    c in s.calls && s.calls[c].key == key && s.calls[c].leader in s.threads && Listed(s.threads[s.calls[c].leader])
  }

  predicate ThreadOk(s: State, t: Tid)
    requires t in s.threads
  {
    var pc := s.threads[t];
    && pc.c in s.calls
    && (Leading(pc) ==> s.calls[pc.c].leader == t)
    && (pc.Written? || pc.Unlisted? ==> (pc.panicked ==> s.calls[pc.c].result == Some(PanicError)))
    && (pc.Finished? ==>
          && s.calls[pc.c].result.Some?
          && (pc.reply.Rethrown? ==> s.calls[pc.c].result == Some(PanicError))
          && (pc.reply.Returned? ==> Some(pc.reply.outcome) == s.calls[pc.c].result))
  }

  ghost predicate Inv(s: State)
  {
    && (forall c :: c in s.calls ==> CallOk(s, c))
    && (forall key :: key in s.m ==> EntryOk(s, key))
    && (forall t :: t in s.threads ==> ThreadOk(s, t))
  }

  lemma FreshIsNew(s: State)
    requires Inv(s)
    ensures Fresh(s) !in s.calls
  {
    forall c | c in s.calls
      ensures c != Fresh(s)
    {
      assert CallOk(s, c);
    }
  }

  lemma EnterKeepsCalls(s: State, a: Step, c: CallId)
    requires Inv(s) && a.Enter? && Enabled(s, a) && c in Apply(s, a).calls
    ensures CallOk(Apply(s, a), c)
  {
    FreshIsNew(s);
    if c in s.calls { assert CallOk(s, c); }
  }

  /** The call that `a.t` leads follows its leader. */
  lemma OwnCallKept(s: State, a: Step)
    requires Inv(s) && !a.Enter? && !a.Read? && Enabled(s, a)
    ensures CallOk(Apply(s, a), s.threads[a.t].c)
  {
    assert ThreadOk(s, a.t) && CallOk(s, s.threads[a.t].c);
    hide Inv;
  }

  /** Every other call is left alone; a delete takes no key of another flight that is still listed. */
  lemma OtherCallKept(s: State, a: Step, c: CallId)
    requires Inv(s) && !a.Enter? && Enabled(s, a) && c in Apply(s, a).calls
    requires a.Read? || c != s.threads[a.t].c
    ensures CallOk(Apply(s, a), c)
  {
    var own := s.threads[a.t].c;
    assert CallOk(s, c) && ThreadOk(s, a.t) && CallOk(s, own);
    hide Inv;
    assert s.calls[c].leader != a.t;
    if a.Delete? {
      assert Listed(s.threads[s.calls[c].leader]) ==> s.calls[c].key != s.calls[own].key;
    }
  }

  lemma EntriesKept(s: State, a: Step, key: Key)
    requires Inv(s) && Enabled(s, a) && key in Apply(s, a).m
    ensures EntryOk(Apply(s, a), key)
  {
    if a.Enter? {
      assert key in s.m ==> CallOk(s, s.m[key]);
    } else {
      assert EntryOk(s, key) && ThreadOk(s, a.t) && CallOk(s, s.threads[a.t].c);
    }
  }

  lemma EnterKeepsThreads(s: State, a: Step, t: Tid)
    requires Inv(s) && a.Enter? && Enabled(s, a) && t in Apply(s, a).threads
    ensures ThreadOk(Apply(s, a), t)
  {
    FreshIsNew(s);
    if t in s.threads { assert ThreadOk(s, t); }
    if a.key in s.m { assert EntryOk(s, a.key); }
    hide Inv;
  }

  lemma OwnThreadKept(s: State, a: Step)
    requires Inv(s) && !a.Enter? && Enabled(s, a)
    ensures ThreadOk(Apply(s, a), a.t)
  {
    assert ThreadOk(s, a.t) && CallOk(s, s.threads[a.t].c);
    hide Inv;
  }

  lemma OtherThreadKept(s: State, a: Step, t: Tid)
    requires Inv(s) && !a.Enter? && Enabled(s, a) && t in s.threads && t != a.t
    ensures ThreadOk(Apply(s, a), t)
  {
    assert ThreadOk(s, t) && ThreadOk(s, a.t);
    assert CallOk(s, s.threads[t].c) && CallOk(s, s.threads[a.t].c);
    hide Inv;
  }

  lemma StepKeepsInv(s: State, a: Step)
    requires Inv(s) && Enabled(s, a)
    ensures Inv(Apply(s, a))
  {
    hide CallOk, EntryOk, ThreadOk;
    var s' := Apply(s, a);
    forall c | c in s'.calls
      ensures CallOk(s', c)
    {
      if a.Enter? { EnterKeepsCalls(s, a, c); }
      else if !a.Read? && c == s.threads[a.t].c { OwnCallKept(s, a); }
      else { OtherCallKept(s, a, c); }
    }
    forall key | key in s'.m
      ensures EntryOk(s', key)
    {
      EntriesKept(s, a, key);
    }
    forall t | t in s'.threads
      ensures ThreadOk(s', t)
    {
      if a.Enter? { EnterKeepsThreads(s, a, t); }
      else if t == a.t { OwnThreadKept(s, a); }
      else { OtherThreadKept(s, a, t); }
    }
  }

  // ---- Whole runs

  ghost predicate Possible(run: seq<Step>)
    decreases |run|, 0
  {
    run == [] || (Possible(run[..|run| - 1]) && Enabled(After(run[..|run| - 1]), run[|run| - 1]))
  }

  ghost function After(run: seq<Step>): State
    requires Possible(run)
    decreases |run|, 1
  {
    if run == [] then Init else Apply(After(run[..|run| - 1]), run[|run| - 1])
  }

  lemma {:induction false} RunInv(run: seq<Step>)
    requires Possible(run)
    ensures Inv(After(run))
  {
    hide Apply, Enabled, Inv;
    if run == [] {
      assert Inv(Init) by { InitInv(); }
    } else {
      RunInv(run[..|run| - 1]);
      StepKeepsInv(After(run[..|run| - 1]), run[|run| - 1]);
    }
  }

  lemma InitInv()
    ensures Inv(Init)
  {
  }

  function KeyOf(s: State, t: Tid): Key
    requires At(s, t)
  {
    s.calls[s.threads[t].c].key
  }

  /** Main result: in every reachable state at most one thread per key is between entering as leader and its delete. */
  lemma OneFlightPerKey(run: seq<Step>, t: Tid, u: Tid)
    requires Possible(run)
    requires var s := After(run); At(s, t) && At(s, u) && Listed(s.threads[t]) && Listed(s.threads[u])
    requires KeyOf(After(run), t) == KeyOf(After(run), u)
    ensures t == u
  {
    RunInv(run);
    var s := After(run);
    hide After;
    assert ThreadOk(s, t) && ThreadOk(s, u);
    assert CallOk(s, s.threads[t].c) && CallOk(s, s.threads[u].c);
  }

  /** Main result: a leader deletes its own entry and no other, and signals a counter that is still 1. */
  lemma LeaderOwnsItsEntry(run: seq<Step>, t: Tid)
    requires Possible(run) && At(After(run), t)
    ensures var s := After(run); var c := s.threads[t].c;
            && (Enabled(s, Delete(t)) ==>
                  && s.calls[c].key in s.m && s.m[s.calls[c].key] == c && s.calls[c].leader == t
                  && forall key :: key in s.m && s.m[key] != c ==> key in Apply(s, Delete(t)).m)
            && (Enabled(s, Signal(t)) ==> s.calls[c].leader == t && s.calls[c].pending == 1)
  {
    RunInv(run);
    var s := After(run);
    hide After;
    assert ThreadOk(s, t) && CallOk(s, s.threads[t].c);
  }

  /** Main result: whoever joins a flight joins one that is still listed, for the key it asked for. */
  lemma JoinsLiveFlight(run: seq<Step>, t: Tid, key: Key)
    requires Possible(run) && Enabled(After(run), Enter(t, key)) && key in After(run).m
    ensures var s := After(run); var s' := Apply(s, Enter(t, key));
            && At(s', t) && KeyOf(s', t) == key
            && s.calls[s'.threads[t].c].leader in s.threads && Listed(s.threads[s.calls[s'.threads[t].c].leader])
  {
    RunInv(run);
    var s := After(run);
    hide After;
    assert EntryOk(s, key);
  }

  /** Main result: no read before the write, and every reply is the leader's outcome for the same key. */
  lemma RepliesAreTheLeaders(run: seq<Step>, t: Tid)
    requires Possible(run) && At(After(run), t)
    ensures var s := After(run); var k := s.calls[s.threads[t].c];
            && (Enabled(s, Read(t)) ==> k.result.Some?)
            && (s.threads[t].Finished? ==>
                  match s.threads[t].reply
                  case Rethrown => k.leader == t && k.result == Some(PanicError)
                  case Returned(o, coalesced) => k.result == Some(o) && (!coalesced ==> k.leader == t))
            && k.leader in s.threads
            && (s.threads[k.leader].Finished? && s.threads[k.leader].reply.Rethrown? ==> k.result == Some(PanicError))
  {
    RunInv(run);
    var s := After(run);
    hide After;
    assert ThreadOk(s, t) && CallOk(s, s.threads[t].c);
    assert ThreadOk(s, s.calls[s.threads[t].c].leader);
  }

  /** Thread `t` asks for `keyOf(t)`, and what its own `fn` returns is in `says`. */
  ghost predicate Follows(run: seq<Step>, keyOf: Tid -> Key, says: iset<(Tid, seq<byte>)>)
  {
    forall i :: 0 <= i < |run| ==>
      && (run[i].Enter? ==> run[i].key == keyOf(run[i].t))
      && (run[i].FnReturn? && run[i].outcome.Value? ==> (run[i].t, run[i].outcome.val) in says)
  }

  /** Threads are on flights of the key they asked for. */
  ghost predicate KeysOk(s: State, keyOf: Tid -> Key)
  {
    forall t :: t in s.threads ==> s.threads[t].c in s.calls && s.calls[s.threads[t].c].key == keyOf(t)
  }

  /** Flights hold only values that their leaders' `fn` returned. */
  ghost predicate ValuesOk(s: State, says: iset<(Tid, seq<byte>)>)
  {
    forall c :: c in s.calls && s.calls[c].result.Some? && s.calls[c].result.value.Value? ==>
      (s.calls[c].leader, s.calls[c].result.value.val) in says
  }

  ghost predicate Truthful(s: State, keyOf: Tid -> Key, says: iset<(Tid, seq<byte>)>)
  {
    KeysOk(s, keyOf) && ValuesOk(s, says)
  }

  lemma EnterKeys(s: State, a: Step, keyOf: Tid -> Key)
    requires Inv(s) && a.Enter? && Enabled(s, a) && KeysOk(s, keyOf) && a.key == keyOf(a.t)
    ensures KeysOk(Apply(s, a), keyOf)
  {
    FreshIsNew(s);
    if a.key in s.m { assert EntryOk(s, a.key); }
    hide Inv, CallOk, EntryOk, ThreadOk;
  }

  lemma LaterKeys(s: State, a: Step, keyOf: Tid -> Key)
    requires !a.Enter? && Enabled(s, a) && KeysOk(s, keyOf)
    ensures KeysOk(Apply(s, a), keyOf)
  {
  }

  lemma StepValues(s: State, a: Step, says: iset<(Tid, seq<byte>)>)
    requires Inv(s) && Enabled(s, a) && ValuesOk(s, says)
    requires a.FnReturn? && a.outcome.Value? ==> (a.t, a.outcome.val) in says
    ensures ValuesOk(Apply(s, a), says)
  {
    if !a.Enter? { assert ThreadOk(s, a.t); }
    hide Inv, CallOk, EntryOk;
  }

  lemma StepTruthful(s: State, a: Step, keyOf: Tid -> Key, says: iset<(Tid, seq<byte>)>)
    requires Inv(s) && Enabled(s, a) && Truthful(s, keyOf, says) && (a.Enter? ==> a.key == keyOf(a.t))
    requires a.FnReturn? && a.outcome.Value? ==> (a.t, a.outcome.val) in says
    ensures Truthful(Apply(s, a), keyOf, says)
  {
    hide Inv, KeysOk, ValuesOk;
    if a.Enter? { EnterKeys(s, a, keyOf); } else { LaterKeys(s, a, keyOf); }
    StepValues(s, a, says);
  }

  lemma {:induction false} RunTruthful(run: seq<Step>, keyOf: Tid -> Key, says: iset<(Tid, seq<byte>)>)
    requires Possible(run) && Follows(run, keyOf, says)
    ensures Truthful(After(run), keyOf, says)
  {
    hide Inv, Enabled, Apply;
    if run != [] {
      hide Truthful;
      var before, a := run[..|run| - 1], run[|run| - 1];
      RunTruthful(before, keyOf, says);
      RunInv(before);
      StepTruthful(After(before), a, keyOf, says);
    }
  }

  /** Main result: a value comes from the `fn` of a thread that asked for the same key, the caller's own if not coalesced. */
  lemma ValuesComeFromFn(run: seq<Step>, keyOf: Tid -> Key, says: iset<(Tid, seq<byte>)>, t: Tid)
    requires Possible(run) && Follows(run, keyOf, says) && At(After(run), t)
    requires var pc := After(run).threads[t]; pc.Finished? && pc.reply.Returned? && pc.reply.outcome.Value?
    ensures var reply := After(run).threads[t].reply;
            exists l :: keyOf(l) == keyOf(t) && (l, reply.outcome.val) in says && (!reply.coalesced ==> l == t)
  {
    RunTruthful(run, keyOf, says);
    RepliesAreTheLeaders(run, t);
    LeaderIsLeading(run, t);
    RunInv(run);
    var s := After(run);
    hide After;
    assert CallOk(s, s.threads[t].c);
    var l := s.calls[s.threads[t].c].leader;
    assert keyOf(l) == keyOf(t);
  }

  /** Main result: once the leader has finished, in whichever way, a waiter can proceed. */
  lemma NoWaiterLeftBehind(run: seq<Step>, t: Tid)
    requires Possible(run) && At(After(run), t) && After(run).threads[t].Waiting?
    ensures var s := After(run); var l := s.calls[s.threads[t].c].leader;
            && At(s, l) && (s.threads[l].Finished? <==> Enabled(s, Read(t)))
  {
    RunInv(run);
    var s := After(run);
    hide After;
    assert CallOk(s, s.threads[t].c);
    assert ThreadOk(s, s.calls[s.threads[t].c].leader);
  }

  /** A step that does not start a new call. */
  predicate Later(a: Step) { !a.Enter? }

  /** Main result: no deadlock. While some call is unfinished, some thread can take a step. */
  lemma NoDeadlock(run: seq<Step>, t: Tid) returns (a: Step)
    requires Possible(run) && At(After(run), t) && !After(run).threads[t].Finished?
    ensures Later(a) && Enabled(After(run), a)
  {
    var s := After(run);
    var u := t;
    if s.threads[t].Waiting? {
      NoWaiterLeftBehind(run, t);
      var l := s.calls[s.threads[t].c].leader;
      if s.threads[l].Finished? {
        return Read(t);
      }
      LeaderIsLeading(run, t);
      u := l;
    }
    match s.threads[u] {
      case Running(_) => a := FnReturn(u, Value([]));
      case Unwinding(_) => a := Record(u);
      case Written(_, _) => a := Delete(u);
      case Unlisted(_, _) => a := Signal(u);
    }
  }

  lemma LeaderIsLeading(run: seq<Step>, t: Tid)
    requires Possible(run) && At(After(run), t)
    ensures var s := After(run); var l := s.calls[s.threads[t].c].leader; At(s, l) && Leading(s.threads[l])
  {
    RunInv(run);
    var s := After(run);
    hide After;
    assert CallOk(s, s.threads[t].c);
  }

  /** Steps a thread has left in `Do`. */
  function Remaining(pc: Pc): nat
  {
    match pc
    case Running(_) => 4
    case Unwinding(_) => 3
    case Written(_, _) => 2
    case Unlisted(_, _) => 1
    case Waiting(_) => 1
    case Finished(_, _) => 0
  }

  /** Every later step brings its thread closer to the end and moves no other thread. */
  lemma StepsRunOut(s: State, a: Step)
    requires Later(a) && Enabled(s, a)
    ensures var s' := Apply(s, a);
            && s'.threads.Keys == s.threads.Keys && Remaining(s'.threads[a.t]) < Remaining(s.threads[a.t])
            && forall t :: t in s.threads && t != a.t ==> s'.threads[t] == s.threads[t]
  {
  }

  /** The threads of a run in the order in which they entered. */
  function Entered(run: seq<Step>): seq<Tid>
  {
    if run == [] then []
    else
      var before, a := run[..|run| - 1], run[|run| - 1];
      Entered(before) + if a.Enter? then [a.t] else []
  }

  /** The steps that the threads `ts` have left together. */
  function Left(ts: seq<Tid>, threads: map<Tid, Pc>): nat
  {
    if ts == [] then 0
    else Left(ts[..|ts| - 1], threads) + if ts[|ts| - 1] in threads then Remaining(threads[ts[|ts| - 1]]) else 0
  }

  ghost predicate Distinct(ts: seq<Tid>) { forall i, j :: 0 <= i < j < |ts| ==> ts[i] != ts[j] }

  lemma {:induction false} LeftElsewhere(ts: seq<Tid>, m: map<Tid, Pc>, m': map<Tid, Pc>, t: Tid)
    requires t !in ts && forall u :: u != t ==> (u in m <==> u in m') && (u in m ==> m[u] == m'[u])
    ensures Left(ts, m) == Left(ts, m')
  {
    if ts != [] { LeftElsewhere(ts[..|ts| - 1], m, m', t); }
  }

  /** When one thread gets closer to its end, so do all together. */
  lemma {:induction false} LeftFalls(ts: seq<Tid>, m: map<Tid, Pc>, m': map<Tid, Pc>, t: Tid)
    requires Distinct(ts) && t in ts && t in m && t in m' && Remaining(m'[t]) < Remaining(m[t])
    requires forall u :: u != t ==> (u in m <==> u in m') && (u in m ==> m[u] == m'[u])
    ensures Left(ts, m') < Left(ts, m)
  {
    var n := |ts| - 1;
    if ts[n] == t {
      LeftElsewhere(ts[..n], m, m', t);
    } else {
      LeftFalls(ts[..n], m, m', t);
    }
  }

  lemma {:induction false} EnteredThreads(run: seq<Step>)
    requires Possible(run)
    ensures Distinct(Entered(run)) && forall t :: t in Entered(run) <==> t in After(run).threads
  {
    if run != [] {
      var before, a := run[..|run| - 1], run[|run| - 1];
      EnteredThreads(before);
      if a.Enter? { EnterAdds(After(before), a); } else { StepsRunOut(After(before), a); }
      hide Apply, Enabled;
    }
  }

  lemma EnterAdds(s: State, a: Step)
    requires a.Enter? && Enabled(s, a)
    ensures a.t !in s.threads && Apply(s, a).threads.Keys == s.threads.Keys + {a.t}
    ensures Remaining(Apply(s, a).threads[a.t]) <= 4
    ensures forall u :: u in s.threads ==> Apply(s, a).threads[u] == s.threads[u]
  {
  }

  lemma EnterLeft(ts: seq<Tid>, s: State, a: Step)
    requires a.Enter? && Enabled(s, a) && a.t !in ts
    ensures Left(ts + [a.t], Apply(s, a).threads) <= Left(ts, s.threads) + 4
  {
    EnterAdds(s, a);
    hide Apply, Enabled, Remaining;
    LeftElsewhere(ts, s.threads, Apply(s, a).threads, a.t);
    assert (ts + [a.t])[..|ts|] == ts;
  }

  lemma LaterLeft(ts: seq<Tid>, s: State, a: Step)
    requires Later(a) && Enabled(s, a) && Distinct(ts) && a.t in ts
    ensures Left(ts, Apply(s, a).threads) < Left(ts, s.threads)
  {
    StepsRunOut(s, a);
    StepperThere(s, a);
    hide Apply, Enabled, Remaining;
    LeftFalls(ts, s.threads, Apply(s, a).threads, a.t);
  }

  lemma {:induction false} RunShrinks(run: seq<Step>)
    requires Possible(run)
    ensures |run| + Left(Entered(run), After(run).threads) <= 5 * |Entered(run)|
  {
    if run != [] {
      hide Apply, Enabled, Left, Distinct;
      var before, a := run[..|run| - 1], run[|run| - 1];
      RunShrinks(before);
      EnteredThreads(before);
      if a.Enter? {
        EnterAdds(After(before), a);
        EnterLeft(Entered(before), After(before), a);
      } else {
        StepperThere(After(before), a);
        LaterLeft(Entered(before), After(before), a);
        assert Entered(run) == Entered(before);
      }
    }
  }

  lemma StepperThere(s: State, a: Step)
    requires Later(a) && Enabled(s, a)
    ensures a.t in s.threads
  {
  }

  /**
    Main result: a run has at most five steps for each call, so it can only go on by new
    calls; and when no step of the calls so far is left, every one of them has finished.
   */
  lemma EveryCallFinishes(run: seq<Step>)
    requires Possible(run)
    ensures |run| <= 5 * |Entered(run)|
    ensures (forall a :: Later(a) ==> !Enabled(After(run), a)) ==>
              forall t :: t in After(run).threads ==> After(run).threads[t].Finished?
  {
    RunShrinks(run);
    RunInv(run);
    var s := After(run);
    forall t | t in s.threads && !s.threads[t].Finished?
      ensures exists a :: Later(a) && Enabled(s, a)
    {
      assert ThreadOk(s, t);
      var a := NoDeadlock(run, t);
    }
  }

  // ---- The key

  function Digits(n: nat): string
  {
    (if n < 10 then "" else Digits(n / 10)) + [('0' as int + n % 10) as char]
  }

  /** `fmt.Sprintf("%s:%s:%d", ...)` with the address already in text form. */
  function MakeCoalesceKey(ip: string, qname: string, qtype: uint16): Key
  {
    ip + ":" + qname + ":" + Digits(qtype)
  }

  lemma {:induction false} DigitsNoColon(n: nat)
    ensures ':' !in Digits(n) && |Digits(n)| > 0
  {
    if n >= 10 { DigitsNoColon(n / 10); }
  }

  lemma {:induction false} DigitsInjective(n: nat, m: nat)
    requires Digits(n) == Digits(m)
    ensures n == m
    decreases n
  {
    var a, b := Digits(n), Digits(m);
    assert a[|a| - 1] == b[|b| - 1];
    assert a[..|a| - 1] == b[..|b| - 1];
    if n >= 10 { DigitsNoColon(n / 10); }
    if m >= 10 { DigitsNoColon(m / 10); }
    if n >= 10 && m >= 10 {
      DigitsInjective(n / 10, m / 10);
    }
  }

  /** Two texts that end alike after their last colon split alike. */
  lemma LastColon(x: string, y: string, x': string, y': string)
    requires x + ":" + y == x' + ":" + y' && ':' !in y && ':' !in y'
    ensures x == x' && y == y'
  {
    var w, w' := x + ":" + y, x' + ":" + y';
    assert forall k :: |x| < k < |w| ==> w[k] == y[k - |x| - 1];
    assert forall k :: |x'| < k < |w'| ==> w'[k] == y'[k - |x'| - 1];
    assert w[|x|] == ':' && w'[|x'|] == ':';
    assert |x'| <= |x| && |x| <= |x'|;
    assert w[..|x|] == x && w'[..|x|] == x' && w[|x| + 1..] == y && w'[|x| + 1..] == y';
  }

  /** Server and name of the first question, printed with a colon between, continue into the second's. */
  ghost predicate Shifted(ip: string, qname: string, ip': string, qname': string)
  {
    exists b :: ip' == ip + ":" + b && qname == b + ":" + qname'
  }

  /** Equal texts around a colon that starts earlier in the first one. */
  lemma ShiftedSplit(ip: string, qname: string, ip': string, qname': string)
    requires ip + ":" + qname == ip' + ":" + qname' && |ip| < |ip'|
    ensures Shifted(ip, qname, ip', qname')
  {
    var w, w' := ip + ":" + qname, ip' + ":" + qname';
    var b := ip'[|ip| + 1..];
    assert w[..|ip|] == ip && w'[..|ip|] == ip'[..|ip|];
    assert w[|ip|] == ':' && w'[|ip|] == ip'[|ip|];
    assert ip' == ip'[..|ip|] + [ip'[|ip|]] + b;
    assert w[|ip| + 1..] == qname;
    assert w'[|ip| + 1..] == b + ":" + qname';
  }

  lemma ShiftedJoins(ip: string, qname: string, ip': string, qname': string)
    requires Shifted(ip, qname, ip', qname')
    ensures ip + ":" + qname == ip' + ":" + qname'
  {
    var b :| ip' == ip + ":" + b && qname == b + ":" + qname';
    assert ip + ":" + (b + ":" + qname') == (ip + ":" + b) + ":" + qname';
  }

  /**
    Exactly which questions share a flight: equal ones, and those of one type whose
    server and name run together to the same text, which takes a colon in a name.
   */
  lemma CoalesceKeyExact(ip: string, qname: string, qtype: uint16, ip': string, qname': string, qtype': uint16)
    ensures MakeCoalesceKey(ip, qname, qtype) == MakeCoalesceKey(ip', qname', qtype')
            <==> qtype == qtype' && ((ip == ip' && qname == qname')
                                     || Shifted(ip, qname, ip', qname') || Shifted(ip', qname', ip, qname))
  {
    hide Shifted;
    if MakeCoalesceKey(ip, qname, qtype) == MakeCoalesceKey(ip', qname', qtype') {
      DigitsNoColon(qtype);
      DigitsNoColon(qtype');
      LastColon(ip + ":" + qname, Digits(qtype), ip' + ":" + qname', Digits(qtype'));
      DigitsInjective(qtype, qtype');
      SameJoin(ip, qname, ip', qname');
    }
    if Shifted(ip, qname, ip', qname') { ShiftedJoins(ip, qname, ip', qname'); }
    if Shifted(ip', qname', ip, qname) { ShiftedJoins(ip', qname', ip, qname); }
  }

  lemma SameJoin(ip: string, qname: string, ip': string, qname': string)
    requires ip + ":" + qname == ip' + ":" + qname'
    ensures (ip == ip' && qname == qname') || Shifted(ip, qname, ip', qname') || Shifted(ip', qname', ip, qname)
  {
    hide Shifted;
    if |ip| < |ip'| {
      ShiftedSplit(ip, qname, ip', qname');
    } else if |ip'| < |ip| {
      ShiftedSplit(ip', qname', ip, qname);
    } else {
      var w, w' := ip + ":" + qname, ip' + ":" + qname';
      assert w[..|ip|] == ip && w'[..|ip|] == ip';
      assert w[|ip| + 1..] == qname && w'[|ip| + 1..] == qname';
    }
  }

  /** Names without a colon keep different questions apart. */
  lemma CoalesceKeyInjective(ip: string, qname: string, qtype: uint16, ip': string, qname': string, qtype': uint16)
    requires ':' !in qname && ':' !in qname'
    requires MakeCoalesceKey(ip, qname, qtype) == MakeCoalesceKey(ip', qname', qtype')
    ensures ip == ip' && qname == qname' && qtype == qtype'
  {
    CoalesceKeyExact(ip, qname, qtype, ip', qname', qtype');
    ShiftTakesColon(ip, qname, ip', qname');
    ShiftTakesColon(ip', qname', ip, qname);
  }

  lemma ShiftTakesColon(ip: string, qname: string, ip': string, qname': string)
    ensures Shifted(ip, qname, ip', qname') ==> ':' in qname
  {
    if b :| ip' == ip + ":" + b && qname == b + ":" + qname' {
      assert qname[|b|] == ':';
    }
  }

  /** Two real questions on one flight: different servers, different names. */
  lemma CoalesceKeyCollides(qtype: uint16)
    ensures MakeCoalesceKey("2001:db8::1", "2:x", qtype) == MakeCoalesceKey("2001:db8::1:2", "x", qtype)
  {
    assert "2001:db8::1:2" == "2001:db8::1" + ":" + "2" && "2:x" == "2" + ":" + "x";
    assert Shifted("2001:db8::1", "2:x", "2001:db8::1:2", "x");
    CoalesceKeyExact("2001:db8::1", "2:x", qtype, "2001:db8::1:2", "x", qtype);
  }
}
