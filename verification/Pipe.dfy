/**
  The two-pump relay between a client and an upstream connection. Every start,
  read, write and end-of-read decision of either pump is one step; the pumps
  interleave freely, and reads and writes give whatever the network gives. Time is in
  nanoseconds: `now` is the real time of a step, `coarse` the cached clock that lags it.
 */
module Pipe {
  import opened Bytes
  import opened Common

  /** Down copies upstream to client, Up copies client to upstream. */
  datatype Dir = Down | Up {
    function Other(): Dir { if Down? then Up else Down }
  }

  datatype ReadEnd = Open | Timeout | Eof | Broken
  datatype End = Clean | Idle | Failed

  datatype Phase =
    | Starting
    | Reading
    | Writing(chunk: seq<byte>, then': ReadEnd)
    | Deciding(why: ReadEnd)
    | Done(end: End)

  /** `taken` bytes have been read, `count` is the byte counter, `armed` when the read deadline was last set. */
  datatype Pump = Pump(phase: Phase, taken: nat, count: nat, armed: Option<int>)

  /** `got` is what was written to the connection, `shut` its closed write side. */
  datatype Conn = Conn(open: bool, shut: bool, got: seq<byte>, deadline: Option<int>)

  datatype State = State(down: Pump, up: Pump, client: Conn, upstream: Conn, lastActivity: int) {
    function At(d: Dir): Pump { if d.Down? then down else up }
    function Target(d: Dir): Conn { if d.Down? then client else upstream }
    function Source(d: Dir): Conn { if d.Down? then upstream else client }

    function Put(d: Dir, p: Pump, c: Conn): State
    {
      if d.Down? then this.(down := p, client := c) else this.(up := p, upstream := c)
    }

    /** The read deadline of pump `d` is set to `deadline` at time `t`. */
    function Armed(d: Dir, t: int, deadline: int): State
    {
      if d.Down? then this.(down := down.(armed := Some(t)), upstream := upstream.(deadline := Some(deadline)))
      else this.(up := up.(armed := Some(t)), client := client.(deadline := Some(deadline)))
    }

    /** Both connections are closed. */
    function Closed(): State
    {
      this.(client := client.(open := false), upstream := upstream.(open := false))
    }
  }

  /** What one side sends: bytes already buffered, then the rest of its stream. */
  datatype Input = Input(buffered: seq<byte>, rest: seq<byte>) {
    function All(): seq<byte> { buffered + rest }
  }

  /** `drains` is true of the program; false is the same relay if EOF set no deadline. */
  datatype Relay = Relay(fromUpstream: Input, fromClient: Input, idleTimeout: int, drains: bool) {
    function In(d: Dir): Input { if d.Down? then fromUpstream else fromClient }

    /** How long a read deadline is left before it is set again. */
    function Interval(): int
    {
      var q := idleTimeout / 4;
      if q > 30 * SECOND then 30 * SECOND else if q < 5 * SECOND && idleTimeout > 5 * SECOND then 5 * SECOND else q
    }

    /** The deadline that EOF leaves to the other direction. */
    function Drain(): int { if idleTimeout <= 0 || idleTimeout > 60 * SECOND then 60 * SECOND else idleTimeout }
  }

  const BUFFER := 256 * 1024

  function Init(t: int): State
  {
    State(Pump(Starting, 0, 0, None), Pump(Starting, 0, 0, None), Conn(true, false, [], None), Conn(true, false, [], None), t)
  }

  datatype Action =
    | Start(dir: Dir, now: int, coarse: int)
    | Read(dir: Dir, n: nat, end: ReadEnd, now: int, coarse: int)
    | Write(dir: Dir, n: nat, failed: bool, now: int)
    | Decide(dir: Dir, now: int)

  predicate Expired(c: Conn, now: int) { c.deadline.Some? && now >= c.deadline.value }

  /**
    What the connections allow. Buffered bytes come first and involve no connection;
    then a closed connection only fails, an expired one only times out, and any other
    gives bytes, an error, or EOF at the end of its stream.
   */
  predicate Enabled(r: Relay, s: State, a: Action)
  {
    var p := s.At(a.dir);
    match a
    case Start(_, _, _) => p.phase.Starting?
    case Read(d, n, end, now, _) =>
      && p.phase.Reading? && n <= BUFFER && p.taken + n <= |r.In(d).All()|
      && if p.taken < |r.In(d).buffered| then n > 0 && end.Open? && p.taken + n <= |r.In(d).buffered|
         else if !s.Source(d).open then n == 0 && end.Broken?
         else if Expired(s.Source(d), now) then n == 0 && end.Timeout?
         else !end.Timeout? && (end.Eof? ==> p.taken + n == |r.In(d).All()|)
    case Write(d, n, failed, _) =>
      && p.phase.Writing? && n <= |p.phase.chunk|
      && (!s.Target(d).open || s.Target(d).shut ==> n == 0 && failed)
    case Decide(_, _) => p.phase.Deciding?
  }

  /** Where the loop goes after the bytes of a read are dealt with. */
  function Next(end: ReadEnd): Phase { if end.Open? then Reading else Deciding(end) }

  /** `updateDeadline`: only with an idle timeout, and not more often than the interval. */
  function Arm(r: Relay, s: State, d: Dir, t: int): State
  {
    if r.idleTimeout > 0 && (s.At(d).armed.None? || t - s.At(d).armed.value > r.Interval())
    then s.Armed(d, t, t + r.idleTimeout) else s
  }

  function Effect(r: Relay, s: State, a: Action): State
    requires Enabled(r, s, a)
  {
    var p, c := s.At(a.dir), s.Target(a.dir);
    match a
    case Start(d, _, coarse) => Arm(r, s.Put(d, p.(phase := Reading), c), d, coarse)
    case Read(d, n, end, _, coarse) =>
      var chunk := r.In(d).All()[p.taken..p.taken + n];
      if n > 0 then
        Arm(r, s.Put(d, p.(phase := Writing(chunk, end), taken := p.taken + n), c).(lastActivity := coarse), d, coarse)
      else s.Put(d, p.(phase := Next(end)), c)
    case Write(d, n, failed, _) =>
      var c' := c.(got := c.got + p.phase.chunk[..n]);
      if failed || n != |p.phase.chunk| then s.Put(d, p.(phase := Done(Failed), count := p.count + n), c').Closed()
      else s.Put(d, p.(phase := Next(p.phase.then'), count := p.count + n), c')
    case Decide(d, now) =>
      match p.phase.why
      case Timeout =>
        if now - s.lastActivity < r.idleTimeout then Arm(r, s.Put(d, p.(phase := Reading), c), d, now)
        else s.Put(d, p.(phase := Done(Idle)), c.(shut := true))
      case Eof =>
        s.Put(d, p.(phase := Done(Clean)),
              c.(shut := true, deadline := if r.drains then Some(now + r.Drain()) else c.deadline))
      case _ => s.Put(d, p.(phase := Done(Failed)), c).Closed()
  }

  /** A step that cannot happen changes nothing, so every list of actions is a run. */
  function Apply(r: Relay, s: State, a: Action): State
  {
    if Enabled(r, s, a) then Effect(r, s, a) else s
  }

  function After(r: Relay, s: State, h: seq<Action>): State
  {
    if h == [] then s else Apply(r, After(r, s, h[..|h| - 1]), h[|h| - 1])
  }

  // ---- What every step keeps

  predicate Ends(p: Phase) { p == Done(Clean) || p == Done(Idle) }

  /** One direction: what was delivered, what is in hand and what the ends mean. */
  predicate LaneOk(r: Relay, s: State, d: Dir)
  {
    var p, all := s.At(d), r.In(d).All();
    && p.count <= p.taken <= |all|
    && s.Target(d).got == all[..p.count]
    && (p.phase.Writing? ==> p.phase.chunk == all[p.count..p.taken])
    && (p.phase.Starting? || p.phase.Reading? || p.phase.Deciding? || Ends(p.phase) ==> p.count == p.taken)
    && (p.phase == Deciding(Eof) || (p.phase.Writing? && p.phase.then'.Eof?) || p.phase == Done(Clean) ==> p.taken == |all|)
    && ((p.phase.Deciding? && !p.phase.why.Open?) || Ends(p.phase) || (p.phase.Writing? && !p.phase.then'.Open?) ==>
          p.taken >= |r.In(d).buffered|)
    && p.phase != Deciding(Open)
    && (s.Target(d).shut <==> Ends(p.phase))
  }

  /** The connections are closed by a failure and only by one, both at once. */
  predicate Closing(s: State)
  {
    && (s.client.open <==> s.upstream.open)
    && (!s.client.open <==> s.down.phase == Done(Failed) || s.up.phase == Done(Failed))
  }

  ghost predicate Inv(r: Relay, s: State) { LaneOk(r, s, Down) && LaneOk(r, s, Up) && Closing(s) }

  /** What belongs to one direction. */
  datatype Lane = Lane(pump: Pump, got: seq<byte>, shut: bool)

  function LaneOf(s: State, d: Dir): Lane { Lane(s.At(d), s.Target(d).got, s.Target(d).shut) }

  /** A step of one pump leaves the other pump and its output alone. */
  lemma OtherLaneKept(r: Relay, s: State, a: Action)
    ensures LaneOf(Apply(r, s, a), a.dir.Other()) == LaneOf(s, a.dir.Other())
  {
  }

  lemma SameLaneOk(r: Relay, s: State, t: State, d: Dir)
    requires LaneOf(s, d) == LaneOf(t, d)
    ensures LaneOk(r, s, d) <==> LaneOk(r, t, d)
  {
  }

  lemma StartKeepsLane(r: Relay, s: State, a: Action)
    requires LaneOk(r, s, a.dir) && a.Start? && Enabled(r, s, a)
    ensures LaneOk(r, Effect(r, s, a), a.dir)
  {
  }

  lemma ReadKeepsLane(r: Relay, s: State, a: Action)
    requires LaneOk(r, s, a.dir) && a.Read? && Enabled(r, s, a)
    ensures LaneOk(r, Effect(r, s, a), a.dir)
  {
  }

  lemma WriteKeepsLane(r: Relay, s: State, a: Action)
    requires LaneOk(r, s, a.dir) && a.Write? && Enabled(r, s, a)
    ensures LaneOk(r, Effect(r, s, a), a.dir)
  {
    var p, all := s.At(a.dir), r.In(a.dir).All();
    assert all[..p.count] + all[p.count..p.taken][..a.n] == all[..p.count + a.n];
  }

  lemma DecideKeepsLane(r: Relay, s: State, a: Action)
    requires LaneOk(r, s, a.dir) && a.Decide? && Enabled(r, s, a)
    ensures LaneOk(r, Effect(r, s, a), a.dir)
  {
  }

  lemma StepKeepsLane(r: Relay, s: State, a: Action, d: Dir)
    requires LaneOk(r, s, d)
    ensures LaneOk(r, Apply(r, s, a), d)
  {
    if a.dir != d {
      OtherLaneKept(r, s, a);
      SameLaneOk(r, s, Apply(r, s, a), d);
    } else if Enabled(r, s, a) {
      hide LaneOk, Enabled, Effect;
      match a
      case Start(_, _, _) => StartKeepsLane(r, s, a);
      case Read(_, _, _, _, _) => ReadKeepsLane(r, s, a);
      case Write(_, _, _, _) => WriteKeepsLane(r, s, a);
      case Decide(_, _) => DecideKeepsLane(r, s, a);
    }
  }

  lemma StepKeepsClosing(r: Relay, s: State, a: Action)
    requires Closing(s)
    ensures Closing(Apply(r, s, a))
  {
  }

  lemma {:induction false} RunKeeps(r: Relay, t0: int, h: seq<Action>)
    ensures Inv(r, After(r, Init(t0), h))
  {
    if h != [] {
      hide LaneOk, Closing, Apply;
      var a, t := h[|h| - 1], After(r, Init(t0), h[..|h| - 1]);
      RunKeeps(r, t0, h[..|h| - 1]);
      StepKeepsLane(r, t, a, Down);
      StepKeepsLane(r, t, a, Up);
      StepKeepsClosing(r, t, a);
    }
  }

  /**
    Main result, for every interleaving: each side has received a prefix of the
    buffered bytes followed by the peer's stream, the counter is its length, and
    nothing but a failure leaves bytes that were read undelivered.
   */
  lemma DeliveredIsPrefix(r: Relay, t0: int, h: seq<Action>, d: Dir)
    ensures var s := After(r, Init(t0), h); var p, got := s.At(d), s.Target(d).got;
            && got <= r.In(d).buffered + r.In(d).rest && p.count == |got|
            && (p.phase == Done(Clean) ==> got == r.In(d).buffered + r.In(d).rest)
            && (p.phase == Done(Idle) ==> p.taken == |got|)
  {
    RunKeeps(r, t0, h);
    hide Inv, After;
    LaneFacts(r, After(r, Init(t0), h), d);
  }

  lemma LaneFacts(r: Relay, s: State, d: Dir)
    requires Inv(r, s)
    ensures LaneOk(r, s, d)
  {
  }

  /** Main result: the connections are closed before the end only after a failure, and then both are. */
  lemma {:induction false} ClosedOnlyByFailure(r: Relay, t0: int, h: seq<Action>)
    ensures var s := After(r, Init(t0), h);
            && (s.client.open <==> s.upstream.open)
            && (!s.client.open <==> s.down.phase == Done(Failed) || s.up.phase == Done(Failed))
  {
    RunKeeps(r, t0, h);
  }

  // ---- Time

  /** The actions of `h` follow each other in time, and the coarse clock neither runs ahead nor goes back. */
  ghost predicate InOrder(t0: int, h: seq<Action>)
  {
    && (forall i :: 0 <= i < |h| ==> t0 <= h[i].now)
    && (forall i, j :: 0 <= i < j < |h| ==> h[i].now <= h[j].now)
    && (forall i :: 0 <= i < |h| && (h[i].Read? || h[i].Start?) ==> t0 <= h[i].coarse <= h[i].now)
    && (forall i, j :: 0 <= i < j < |h| && h[i].Read? && h[j].Read? ==> h[i].coarse <= h[j].coarse)
  }

  lemma OrderedPrefix(t0: int, h: seq<Action>, n: nat)
    requires InOrder(t0, h) && n <= |h|
    ensures InOrder(t0, h[..n])
  {
  }

  lemma OrderedPair(t0: int, h: seq<Action>, i: nat, j: nat)
    requires InOrder(t0, h) && i < j < |h|
    ensures h[i].now <= h[j].now && (h[i].Read? && h[j].Read? ==> h[i].coarse <= h[j].coarse)
  {
  }

  /** Step `i` of the run brought bytes. */
  predicate Brought(r: Relay, s: State, h: seq<Action>, i: nat)
    requires i < |h|
  {
    h[i].Read? && h[i].n > 0 && Enabled(r, After(r, s, h[..i]), h[i])
  }

  /** The shared activity stamp covers every read of both directions. */
  lemma {:induction false} ActivityCovers(r: Relay, t0: int, h: seq<Action>, i: nat)
    requires InOrder(t0, h) && i < |h| && Brought(r, Init(t0), h, i)
    ensures h[i].coarse <= After(r, Init(t0), h).lastActivity
  {
    var n := |h| - 1;
    var g := h[..n];
    if i < n {
      hide InOrder;
      assert g[..i] == h[..i] && g[i] == h[i];
      OrderedPrefix(t0, h, n);
      ActivityCovers(r, t0, g, i);
      ActivityGrows(r, After(r, Init(t0), g), h[n]);
      OrderedPair(t0, h, i, n);
      hide Enabled, Effect;
    }
  }

  lemma ActivityGrows(r: Relay, s: State, a: Action)
    ensures Apply(r, s, a).lastActivity == s.lastActivity || (a.Read? && Apply(r, s, a).lastActivity == a.coarse)
  {
  }

  /** The last step of `h` gives direction `d` up as idle, after a read that timed out. */
  ghost predicate GivesUp(r: Relay, t0: int, h: seq<Action>, d: Dir)
  {
    && |h| > 0 && h[|h| - 1].Decide? && h[|h| - 1].dir == d
    && After(r, Init(t0), h[..|h| - 1]).At(d).phase == Deciding(Timeout)
    && After(r, Init(t0), h).At(d).phase == Done(Idle)
  }

  /** Neither direction has brought a byte for the idle timeout before the last step. */
  ghost predicate Silent(r: Relay, t0: int, h: seq<Action>)
    requires |h| > 0
  {
    && r.idleTimeout > 0
    && forall i :: 0 <= i < |h| - 1 && Brought(r, Init(t0), h, i) ==> h[|h| - 1].now - h[i].coarse >= r.idleTimeout
  }

  /** Main result: with an idle timeout a direction is given up only when both have been silent for it, EOF or no EOF. */
  lemma IdleMeansSilence(r: Relay, t0: int, h: seq<Action>, d: Dir)
    requires InOrder(t0, h) && GivesUp(r, t0, h, d) && r.idleTimeout > 0
    ensures Silent(r, t0, h)
  {
    var n := |h| - 1;
    var g, s := h[..n], After(r, Init(t0), h[..n]);
    OrderedPrefix(t0, h, n);
    assert h[n].now - s.lastActivity >= r.idleTimeout;
    hide After, InOrder, Enabled, Effect;
    forall i | 0 <= i < n && Brought(r, Init(t0), h, i)
      ensures h[n].now - h[i].coarse >= r.idleTimeout
    {
      assert g[..i] == h[..i] && g[i] == h[i];
      ActivityCovers(r, t0, g, i);
    }
  }

  // ---- Deadlines, spelled out

  /** How often a deadline is set again, in nanoseconds. */
  lemma IntervalSpelled(r: Relay)
    requires r.idleTimeout > 0
    ensures r.idleTimeout >= 120_000_000_000 ==> r.Interval() == 30_000_000_000
    ensures 20_000_000_000 <= r.idleTimeout <= 120_000_000_000 ==> r.Interval() == r.idleTimeout / 4
    ensures 5_000_000_000 < r.idleTimeout <= 20_000_000_000 ==> r.Interval() == 5_000_000_000
    ensures r.idleTimeout <= 5_000_000_000 ==> r.Interval() == r.idleTimeout / 4
  {
  }

  /** With an idle timeout the start of a pump sets its deadline, and so do bytes, but not more often than the interval. */
  lemma ReadsArm(r: Relay, s: State, a: Action)
    requires r.idleTimeout > 0 && Enabled(r, s, a) && (a.Start? || (a.Read? && a.n > 0))
    ensures var due := s.At(a.dir).armed.None? || a.coarse - s.At(a.dir).armed.value > r.Interval();
            Effect(r, s, a).Source(a.dir).deadline
            == if due then Some(a.coarse + r.idleTimeout) else s.Source(a.dir).deadline
  {
    hide r.Interval;
  }

  /** EOF leaves the other direction the idle timeout, but at most a minute, and a minute if there is none. */
  lemma EofLeavesDeadline(r: Relay, s: State, d: Dir, now: int)
    requires r.drains && s.At(d).phase == Deciding(Eof)
    ensures Effect(r, s, Decide(d, now)).Source(d.Other()).deadline
            == Some(now + if 0 < r.idleTimeout < 60_000_000_000 then r.idleTimeout else 60_000_000_000)
  {
  }

  /** A read that timed out gives its direction up exactly when nothing came for the idle timeout; else it reads on. */
  lemma TimeoutVerdict(r: Relay, s: State, d: Dir, now: int)
    requires s.At(d).phase == Deciding(Timeout)
    ensures var p := Effect(r, s, Decide(d, now)).At(d).phase;
            p == if now - s.lastActivity >= r.idleTimeout then Done(Idle) else Reading
  {
  }

  // ---- Deadlines with an idle timeout

  /** Deadlines are set, lie beyond the refresh interval, and a timed-out read is past that interval at `t`. */
  predicate Timed(r: Relay, s: State, d: Dir, t: int)
  {
    var p, c := s.At(d), s.Source(d);
    if p.phase.Starting? then p.armed.None?
    else
      && p.armed.Some? && p.armed.value <= t && c.deadline.Some?
      && p.armed.value + r.Interval() < c.deadline.value
      && (p.phase == Deciding(Timeout) ==> p.armed.value + r.Interval() < t)
      && !(p.phase.Writing? && p.phase.then'.Timeout?)
  }

  lemma IntervalShort(r: Relay)
    requires r.idleTimeout > 0
    ensures r.Interval() < r.idleTimeout && r.Interval() < r.Drain()
  {
  }

  /** A step of the pump's own. */
  lemma OwnTimed(r: Relay, s: State, a: Action, t: int)
    requires r.idleTimeout > 0 && Timed(r, s, a.dir, t) && t <= a.now && Enabled(r, s, a)
    requires a.Start? || a.Read? ==> a.coarse <= a.now
    ensures Timed(r, Effect(r, s, a), a.dir, a.now)
  {
    IntervalShort(r);
    hide r.Interval, r.Drain;
  }

  /** A step of the other pump can only set the deadline by its EOF. */
  lemma OtherTimed(r: Relay, s: State, a: Action, d: Dir, t: int)
    requires r.idleTimeout > 0 && Timed(r, s, d, t) && t <= a.now && Enabled(r, s, a) && a.dir == d.Other()
    ensures Timed(r, Effect(r, s, a), d, a.now)
  {
    IntervalShort(r);
    hide r.Interval, r.Drain;
  }

  lemma StepTimed(r: Relay, s: State, a: Action, d: Dir, t: int)
    requires r.idleTimeout > 0 && Timed(r, s, d, t) && t <= a.now
    requires a.Start? || a.Read? ==> a.coarse <= a.now
    ensures Timed(r, Apply(r, s, a), d, a.now)
  {
    if Enabled(r, s, a) {
      hide Timed, Effect, Enabled;
      if a.dir == d { OwnTimed(r, s, a, t); } else { OtherTimed(r, s, a, d, t); }
    }
  }

  lemma {:induction false} RunTimed(r: Relay, t0: int, h: seq<Action>, d: Dir)
    requires r.idleTimeout > 0 && InOrder(t0, h)
    ensures Timed(r, After(r, Init(t0), h), d, if h == [] then t0 else h[|h| - 1].now)
  {
    if h != [] {
      var n := |h| - 1;
      RunTimed(r, t0, h[..n], d);
      if n > 0 { OrderedPair(t0, h, n - 1, n); }
      hide Timed, Apply;
      StepTimed(r, After(r, Init(t0), h[..n]), h[n], d, if n == 0 then t0 else h[n - 1].now);
    }
  }

  /**
    Main result: with an idle timeout a read that timed out early, by a drain deadline
    or not, is retried with the full idle timeout ahead of it.
   */
  lemma RetryRearms(r: Relay, t0: int, h: seq<Action>, d: Dir, now: int)
    requires r.idleTimeout > 0 && InOrder(t0, h + [Decide(d, now)])
    requires After(r, Init(t0), h).At(d).phase == Deciding(Timeout)
    requires now - After(r, Init(t0), h).lastActivity < r.idleTimeout
    ensures var s := Apply(r, After(r, Init(t0), h), Decide(d, now));
            s.At(d).phase == Reading && s.Source(d).deadline == Some(now + r.idleTimeout)
  {
    var h' := h + [Decide(d, now)];
    assert h'[..|h|] == h;
    OrderedPrefix(t0, h', |h|);
    if h != [] { OrderedPair(t0, h', |h| - 1, |h|); }
    RunTimed(r, t0, h, d);
    hide After, InOrder;
  }

  // ---- Relays without idle timeout

  /** Without idle timeout the only deadlines are those that EOF of the other direction set. */
  predicate OnlyDrains(r: Relay, s: State, d: Dir)
  {
    && (s.Source(d).deadline.Some? <==> r.drains && s.At(d.Other()).phase == Done(Clean))
    && (s.At(d).phase == Deciding(Timeout) || s.At(d).phase == Done(Idle) ==> s.Source(d).deadline.Some?)
    && !(s.At(d).phase.Writing? && s.At(d).phase.then'.Timeout?)
  }

  lemma StepOnlyDrains(r: Relay, s: State, a: Action, d: Dir)
    requires r.idleTimeout <= 0 && OnlyDrains(r, s, d)
    ensures OnlyDrains(r, Apply(r, s, a), d)
  {
  }

  lemma {:induction false} RunOnlyDrains(r: Relay, t0: int, h: seq<Action>, d: Dir)
    requires r.idleTimeout <= 0
    ensures OnlyDrains(r, After(r, Init(t0), h), d)
  {
    if h != [] {
      hide OnlyDrains, Apply;
      RunOnlyDrains(r, t0, h[..|h| - 1], d);
      StepOnlyDrains(r, After(r, Init(t0), h[..|h| - 1]), h[|h| - 1], d);
    }
  }

  // ---- What the drain deadline changes

  /** The same relay if EOF set no deadline. */
  function Undrained(r: Relay): Relay { r.(drains := false) }

  /** The deadline that a pump has set itself. */
  function OwnDeadline(r: Relay, p: Pump): Option<int>
  {
    if r.idleTimeout > 0 && p.armed.Some? then Some(p.armed.value + r.idleTimeout) else None
  }

  /** The state with the pumps' own deadlines in place of those that EOF set. */
  function Own(r: Relay, s: State): State
  {
    s.(client := s.client.(deadline := OwnDeadline(r, s.up)), upstream := s.upstream.(deadline := OwnDeadline(r, s.down)))
  }

  /** The connection that the read would go to is past one of its two deadlines and not past the other. */
  predicate Disturbed(r: Relay, s: State, a: Action)
  {
    && a.Read? && s.At(a.dir).phase.Reading? && s.At(a.dir).taken >= |r.In(a.dir).buffered| && s.Source(a.dir).open
    && Expired(s.Source(a.dir), a.now) != Expired(Own(r, s).Source(a.dir), a.now)
    && (Enabled(r, s, a) || Enabled(r, Own(r, s), a)) && (a.n > 0 || !a.end.Open?)
  }

  /** Such a read is where the relay parts from the one without drain deadlines, and only there. */
  lemma DrainStep(r: Relay, s: State, a: Action)
    ensures Own(r, Apply(r, s, a)) == Apply(Undrained(r), Own(r, s), a) <==> !Disturbed(r, s, a)
  {
    match a
    case Start(_, _, _) => DrainStart(r, s, a);
    case Read(_, _, _, _, _) => DrainRead(r, s, a);
    case Write(_, _, _, _) => DrainWrite(r, s, a);
    case Decide(_, _) => DrainDecide(r, s, a);
  }

  /** Setting a deadline is the pump's own business. */
  lemma ArmOwn(r: Relay, s: State, d: Dir, t: int)
    ensures Own(r, Arm(r, s, d, t)) == Arm(Undrained(r), Own(r, s), d, t)
  {
  }

  lemma PutOwn(r: Relay, s: State, d: Dir, p: Pump, c: Conn)
    requires p.armed == s.At(d).armed
    ensures Own(r, s.Put(d, p, c)) == Own(r, s).Put(d, p, c.(deadline := Own(r, s).Target(d).deadline))
  {
  }

  lemma DrainStart(r: Relay, s: State, a: Action)
    requires a.Start?
    ensures Own(r, Apply(r, s, a)) == Apply(Undrained(r), Own(r, s), a)
  {
  }

  lemma DrainRead(r: Relay, s: State, a: Action)
    requires a.Read?
    ensures Own(r, Apply(r, s, a)) == Apply(Undrained(r), Own(r, s), a) <==> !Disturbed(r, s, a)
  {
    assert Undrained(r).Interval() == r.Interval();
    hide r.Interval;
    if a.dir.Down? { DrainReadDown(r, s, a); } else { DrainReadUp(r, s, a); }
  }

  lemma DrainReadDown(r: Relay, s: State, a: Action)
    requires a.Read? && a.dir.Down? && Undrained(r).Interval() == r.Interval()
    ensures Own(r, Apply(r, s, a)) == Apply(Undrained(r), Own(r, s), a) <==> !Disturbed(r, s, a)
  {
    hide r.Interval;
  }

  lemma DrainReadUp(r: Relay, s: State, a: Action)
    requires a.Read? && a.dir.Up? && Undrained(r).Interval() == r.Interval()
    ensures Own(r, Apply(r, s, a)) == Apply(Undrained(r), Own(r, s), a) <==> !Disturbed(r, s, a)
  {
    hide r.Interval;
  }

  lemma DrainWrite(r: Relay, s: State, a: Action)
    requires a.Write?
    ensures Own(r, Apply(r, s, a)) == Apply(Undrained(r), Own(r, s), a)
  {
  }

  lemma DrainDecide(r: Relay, s: State, a: Action)
    requires a.Decide?
    ensures Own(r, Apply(r, s, a)) == Apply(Undrained(r), Own(r, s), a)
  {
    if s.At(a.dir).phase == Deciding(Timeout) {
      DrainTimeout(r, s, a);
    } else if s.At(a.dir).phase == Deciding(Eof) {
      DrainEof(r, s, a);
    } else {
      DrainBroken(r, s, a);
    }
  }

  lemma DrainTimeout(r: Relay, s: State, a: Action)
    requires a.Decide? && s.At(a.dir).phase == Deciding(Timeout)
    ensures Own(r, Apply(r, s, a)) == Apply(Undrained(r), Own(r, s), a)
  {
    var p, c := s.At(a.dir), s.Target(a.dir);
    PutOwn(r, s, a.dir, p.(phase := Reading), c);
    PutOwn(r, s, a.dir, p.(phase := Done(Idle)), c.(shut := true));
    ArmOwn(r, s.Put(a.dir, p.(phase := Reading), c), a.dir, a.now);
    hide Arm;
  }

  lemma DrainEof(r: Relay, s: State, a: Action)
    requires a.Decide? && s.At(a.dir).phase == Deciding(Eof)
    ensures Own(r, Apply(r, s, a)) == Apply(Undrained(r), Own(r, s), a)
  {
    hide r.Drain;
  }

  lemma DrainBroken(r: Relay, s: State, a: Action)
    requires a.Decide? && s.At(a.dir).phase != Deciding(Timeout) && s.At(a.dir).phase != Deciding(Eof)
    ensures Own(r, Apply(r, s, a)) == Apply(Undrained(r), Own(r, s), a)
  {
  }

  /** After `h` the relay is where it would be without drain deadlines. */
  predicate Same(r: Relay, t0: int, h: seq<Action>)
  {
    Own(r, After(r, Init(t0), h)) == After(Undrained(r), Init(t0), h)
  }

  /** ... and so it was after every step before. */
  ghost predicate Undisturbed(r: Relay, t0: int, h: seq<Action>) { forall m :: 0 <= m <= |h| ==> Same(r, t0, h[..m]) }

  predicate DisturbedAt(r: Relay, t0: int, h: seq<Action>, i: nat)
    requires i < |h|
  {
    Disturbed(r, After(r, Init(t0), h[..i]), h[i])
  }

  ghost predicate NoneDisturbed(r: Relay, t0: int, h: seq<Action>) { forall i :: 0 <= i < |h| ==> !DisturbedAt(r, t0, h, i) }

  /**
    Main result, for every relay and run: the deadline that EOF sets changes nothing in
    any state if and only if no read of the other direction comes between that deadline
    and the one its pump has set itself (which without idle timeout is never).
   */
  lemma {:induction false} DrainExact(r: Relay, t0: int, h: seq<Action>)
    ensures Undisturbed(r, t0, h) <==> NoneDisturbed(r, t0, h)
  {
    if h == [] {
      assert Same(r, t0, h[..0]);
    } else {
      var g := h[..|h| - 1];
      DrainExact(r, t0, g);
      if Same(r, t0, g) { SameStep(r, t0, h); }
      hide Same, DisturbedAt;
      UndisturbedStep(r, t0, h);
      DisturbedStep(r, t0, h);
    }
  }

  lemma SameStep(r: Relay, t0: int, h: seq<Action>)
    requires |h| > 0 && Same(r, t0, h[..|h| - 1])
    ensures Same(r, t0, h) <==> !DisturbedAt(r, t0, h, |h| - 1)
  {
    hide Disturbed, Apply;
    DrainStep(r, After(r, Init(t0), h[..|h| - 1]), h[|h| - 1]);
  }

  lemma UndisturbedStep(r: Relay, t0: int, h: seq<Action>)
    requires |h| > 0
    ensures Undisturbed(r, t0, h) <==> Undisturbed(r, t0, h[..|h| - 1]) && Same(r, t0, h)
    ensures Undisturbed(r, t0, h[..|h| - 1]) ==> Same(r, t0, h[..|h| - 1])
  {
    hide Same;
    var n := |h| - 1;
    var g := h[..n];
    assert h[..n + 1] == h && g[..n] == g;
    assert forall m :: 0 <= m <= n ==> g[..m] == h[..m];
  }

  lemma DisturbedStep(r: Relay, t0: int, h: seq<Action>)
    requires |h| > 0
    ensures NoneDisturbed(r, t0, h) <==> NoneDisturbed(r, t0, h[..|h| - 1]) && !DisturbedAt(r, t0, h, |h| - 1)
  {
    hide After, Disturbed;
    var n := |h| - 1;
    var g := h[..n];
    forall i | 0 <= i < n
      ensures DisturbedAt(r, t0, g, i) <==> DisturbedAt(r, t0, h, i)
    {
      assert g[..i] == h[..i];
    }
    hide DisturbedAt;
  }

  // ---- Which relays can be cut

  /** Direction `d` is given up with bytes still to come, though not for the idle timeout's silence. */
  ghost predicate CutShort(r: Relay, t0: int, h: seq<Action>, d: Dir)
  {
    GivesUp(r, t0, h, d) && !Silent(r, t0, h) && After(r, Init(t0), h).Target(d).got != r.In(d).All()
  }

  lemma CutNeeds(r: Relay, t0: int, h: seq<Action>, d: Dir)
    requires InOrder(t0, h) && CutShort(r, t0, h, d)
    ensures r.drains && r.idleTimeout <= 0 && r.In(d).rest != []
  {
    if r.idleTimeout > 0 {
      IdleMeansSilence(r, t0, h, d);
    } else {
      RunOnlyDrains(r, t0, h, d);
    }
    RunKeeps(r, t0, h);
    hide After, InOrder;
    LaneFacts(r, After(r, Init(t0), h), d);
  }

  /** `k` bytes of direction `d`, one by one, at time 0. */
  function Copies(d: Dir, k: nat): seq<Action>
  {
    if k == 0 then [] else Copies(d, k - 1) + [Read(d, 1, Open, 0, 0)] + [Write(d, 1, false, 0)]
  }

  predicate CanCopy(r: Relay, s: State, d: Dir, k: nat)
  {
    var p := s.At(d);
    && r.idleTimeout <= 0 && p.phase.Reading? && p.taken == p.count && p.taken + k <= |r.In(d).All()|
    && s.client.open && s.upstream.open && !s.Target(d).shut && !Expired(s.Source(d), 0) && s.lastActivity == 0
  }

  function Copied(r: Relay, s: State, d: Dir, k: nat): State
    requires s.At(d).taken + k <= |r.In(d).All()|
  {
    var p, c := s.At(d), s.Target(d);
    s.Put(d, p.(taken := p.taken + k, count := p.count + k), c.(got := c.got + r.In(d).All()[p.taken..p.taken + k]))
  }

  lemma CopyOne(r: Relay, s: State, d: Dir)
    requires CanCopy(r, s, d, 1)
    ensures Apply(r, Apply(r, s, Read(d, 1, Open, 0, 0)), Write(d, 1, false, 0)) == Copied(r, s, d, 1)
  {
    var t := Apply(r, s, Read(d, 1, Open, 0, 0));
    assert t.At(d).phase.chunk[..1] == t.At(d).phase.chunk;
  }

  lemma CopyMore(r: Relay, s: State, d: Dir, k: nat)
    requires k > 0 && CanCopy(r, s, d, k)
    ensures CanCopy(r, Copied(r, s, d, k - 1), d, 1)
    ensures Copied(r, Copied(r, s, d, k - 1), d, 1) == Copied(r, s, d, k)
  {
    var all, i := r.In(d).All(), s.At(d).taken;
    assert all[i..i + k] == all[i..i + k - 1] + all[i + k - 1..i + k];
    assert (s.Target(d).got + all[i..i + k - 1]) + all[i + k - 1..i + k] == s.Target(d).got + all[i..i + k];
  }

  lemma Extend(r: Relay, s: State, h: seq<Action>, a: Action)
    ensures After(r, s, h + [a]) == Apply(r, After(r, s, h), a)
  {
    assert (h + [a])[..|h|] == h;
  }

  lemma {:induction false} CopyRun(r: Relay, s: State, h: seq<Action>, d: Dir, k: nat)
    requires CanCopy(r, After(r, s, h), d, k)
    ensures After(r, s, h + Copies(d, k)) == Copied(r, After(r, s, h), d, k)
  {
    hide After;
    var now := After(r, s, h);
    if k == 0 {
      assert h + Copies(d, k) == h;
      assert r.In(d).All()[now.At(d).taken..now.At(d).taken] == [];
      assert now.Target(d).got + [] == now.Target(d).got;
    } else {
      var before, a, b := h + Copies(d, k - 1), Read(d, 1, Open, 0, 0), Write(d, 1, false, 0);
      CopyRun(r, s, h, d, k - 1);
      CopyMore(r, now, d, k);
      CopyOne(r, Copied(r, now, d, k - 1), d);
      hide Apply, Copied, CanCopy;
      assert h + Copies(d, k) == before + [a] + [b];
      Extend(r, s, before, a);
      Extend(r, s, before + [a], b);
    }
  }

  /** The other direction reads everything and its EOF; then `d` reads its buffered bytes. */
  function Lead(r: Relay, d: Dir): seq<Action>
  {
    [Start(d.Other(), 0, 0)] + [Start(d, 0, 0)] + Copies(d.Other(), |r.In(d.Other()).All()|)
    + [Read(d.Other(), 0, Eof, 0, 0)] + [Decide(d.Other(), 0)] + Copies(d, |r.In(d).buffered|)
  }

  /** Where `Lead` leaves direction `d`: at the end of its buffer, with the drain deadline set. */
  predicate AtDrain(r: Relay, s: State, d: Dir)
  {
    && s.At(d).phase.Reading? && s.At(d).taken == |r.In(d).buffered| && s.Source(d).open
    && s.Source(d).deadline == Some(60 * SECOND) && s.Target(d).got == r.In(d).buffered && s.lastActivity == 0
  }

  lemma LeadStarts(r: Relay, d: Dir)
    requires r.idleTimeout <= 0
    ensures var s := After(r, Init(0), [Start(d.Other(), 0, 0)] + [Start(d, 0, 0)]);
            s == Init(0).(down := Pump(Reading, 0, 0, None), up := Pump(Reading, 0, 0, None))
  {
    hide After;
    var a, b := Start(d.Other(), 0, 0), Start(d, 0, 0);
    assert [] + [a] == [a];
    Nothing(r, Init(0));
    Extend(r, Init(0), [], a);
    Extend(r, Init(0), [a], b);
  }

  lemma Nothing(r: Relay, s: State)
    ensures After(r, s, []) == s
  {
  }

  lemma EofSteps(r: Relay, t: State, d: Dir)
    requires r.idleTimeout <= 0 && r.drains && CanCopy(r, t, d, 0) && t.At(d).taken == |r.In(d).All()|
    ensures Apply(r, Apply(r, t, Read(d, 0, Eof, 0, 0)), Decide(d, 0))
            == t.Put(d, t.At(d).(phase := Done(Clean)), t.Target(d).(shut := true, deadline := Some(60 * SECOND)))
  {
  }

  lemma EofStep(r: Relay, s: State, h: seq<Action>, d: Dir)
    requires r.idleTimeout <= 0 && r.drains
    requires var t := After(r, s, h); CanCopy(r, t, d, 0) && t.At(d).taken == |r.In(d).All()|
    ensures var t := After(r, s, h);
            After(r, s, h + [Read(d, 0, Eof, 0, 0)] + [Decide(d, 0)])
            == t.Put(d, t.At(d).(phase := Done(Clean)), t.Target(d).(shut := true, deadline := Some(60 * SECOND)))
  {
    hide After, Apply;
    EofSteps(r, After(r, s, h), d);
    Extend(r, s, h, Read(d, 0, Eof, 0, 0));
    Extend(r, s, h + [Read(d, 0, Eof, 0, 0)], Decide(d, 0));
  }

  lemma LeadDrains(r: Relay, d: Dir)
    requires r.idleTimeout <= 0 && r.drains
    ensures AtDrain(r, After(r, Init(0), Lead(r, d)), d)
  {
    var o := d.Other();
    var starts := [Start(o, 0, 0)] + [Start(d, 0, 0)];
    LeadStarts(r, d);
    hide After;
    CopyRun(r, Init(0), starts, o, |r.In(o).All()|);
    EofStep(r, Init(0), starts + Copies(o, |r.In(o).All()|), o);
    var mid := starts + Copies(o, |r.In(o).All()|) + [Read(o, 0, Eof, 0, 0)] + [Decide(o, 0)];
    CopyRun(r, Init(0), mid, d, |r.In(d).buffered|);
    assert r.In(d).All()[0..|r.In(d).buffered|] == r.In(d).buffered;
    assert [] + r.In(d).buffered == r.In(d).buffered;
  }

  predicate AtZero(a: Action) { a.now == 0 && (a.Read? || a.Start? ==> a.coarse == 0) }

  lemma {:induction false} CopiesAtZero(d: Dir, k: nat)
    ensures forall i :: 0 <= i < |Copies(d, k)| ==> AtZero(Copies(d, k)[i])
  {
    if k > 0 { CopiesAtZero(d, k - 1); }
  }

  lemma LeadAtZero(r: Relay, d: Dir)
    ensures forall i :: 0 <= i < |Lead(r, d)| ==> AtZero(Lead(r, d)[i])
  {
    CopiesAtZero(d, |r.In(d).buffered|);
    CopiesAtZero(d.Other(), |r.In(d.Other()).All()|);
    hide Copies;
  }

  lemma LateEnd(h: seq<Action>, d: Dir, t: int)
    requires t >= 0 && forall i :: 0 <= i < |h| ==> AtZero(h[i])
    ensures InOrder(0, h + [Read(d, 0, Timeout, t, t)] + [Decide(d, t)])
  {
  }

  lemma LastOf(h: seq<Action>, a: Action)
    ensures |h + [a]| == |h| + 1 && (h + [a])[..|h|] == h && (h + [a])[|h|] == a
  {
  }

  lemma CutSteps(r: Relay, s: State, d: Dir)
    requires AtDrain(r, s, d) && r.idleTimeout <= 0
    ensures var s' := Apply(r, s, Read(d, 0, Timeout, 60 * SECOND, 60 * SECOND));
            var s'' := Apply(r, s', Decide(d, 60 * SECOND));
            s'.At(d).phase == Deciding(Timeout) && s''.At(d).phase == Done(Idle) && s''.Target(d).got == r.In(d).buffered
  {
  }

  /** The run that cuts direction `d`: its first read of the connection comes at the drain deadline. */
  lemma CutHappens(r: Relay, d: Dir)
    requires r.drains && r.idleTimeout <= 0 && r.In(d).rest != []
    ensures var h := Lead(r, d) + [Read(d, 0, Timeout, 60 * SECOND, 60 * SECOND)] + [Decide(d, 60 * SECOND)];
            InOrder(0, h) && CutShort(r, 0, h, d)
  {
    var lead, a, b := Lead(r, d), Read(d, 0, Timeout, 60 * SECOND, 60 * SECOND), Decide(d, 60 * SECOND);
    LeadAtZero(r, d);
    LateEnd(lead, d, 60 * SECOND);
    LeadDrains(r, d);
    hide After, Lead, InOrder, AtDrain, Apply, Brought;
    CutSteps(r, After(r, Init(0), lead), d);
    Extend(r, Init(0), lead, a);
    Extend(r, Init(0), lead + [a], b);
    LastOf(lead + [a], b);
    assert |r.In(d).All()| > |r.In(d).buffered|;
  }

  /**
    Main result: a relay can give up a direction that still has bytes to come, other
    than for the idle timeout's silence, if and only if it has no idle timeout, EOF sets
    the drain deadline, and not all of that direction was buffered in advance.
   */
  lemma CutExact(r: Relay, d: Dir)
    ensures (exists t0, h :: InOrder(t0, h) && CutShort(r, t0, h, d))
            <==> r.drains && r.idleTimeout <= 0 && r.In(d).rest != []
  {
    hide InOrder, CutShort;
    if r.drains && r.idleTimeout <= 0 && r.In(d).rest != [] {
      CutHappens(r, d);
    }
    forall t0, h | InOrder(t0, h) && CutShort(r, t0, h, d)
      ensures r.drains && r.idleTimeout <= 0 && r.In(d).rest != []
    {
      CutNeeds(r, t0, h, d);
    }
  }

  // ---- A witness

  /** After the client's EOF at time 0 and one byte from upstream just before the drain deadline. */
  function HalfClosed(b: byte): State
  {
    State(Pump(Reading, 1, 1, None), Pump(Done(Clean), 0, 0, None), Conn(true, false, [b], None),
          Conn(true, true, [], Some(60 * SECOND)), 60 * SECOND - 1)
  }

  const HalfClosing := [Start(Up, 0, 0)] + [Start(Down, 0, 0)] + [Read(Up, 0, Eof, 0, 0)] + [Decide(Up, 0)]
                       + [Read(Down, 1, Open, 60 * SECOND - 1, 60 * SECOND - 1)] + [Write(Down, 1, false, 60 * SECOND - 1)]

  lemma HalfClosedReached(b: byte, rest: seq<byte>)
    ensures After(Relay(Input([], [b] + rest), Input([], []), 0, true), Init(0), HalfClosing) == HalfClosed(b)
  {
    var r, t := Relay(Input([], [b] + rest), Input([], []), 0, true), 60 * SECOND - 1;
    var starts := [Start(Up, 0, 0)] + [Start(Down, 0, 0)];
    LeadStarts(r, Down);
    hide After;
    EofStep(r, Init(0), starts, Up);
    var mid := starts + [Read(Up, 0, Eof, 0, 0)] + [Decide(Up, 0)];
    Extend(r, Init(0), mid, Read(Down, 1, Open, t, t));
    assert r.In(Down).All()[0..1] == [b];
    Extend(r, Init(0), mid + [Read(Down, 1, Open, t, t)], Write(Down, 1, false, t));
  }

  /**
    The drain deadline at work: one nanosecond after a byte has come, the rest of the
    stream is lost.
   */
  lemma PermanentRelayCut(b: byte, rest: seq<byte>)
    ensures var r, t := Relay(Input([], [b] + rest), Input([], []), 0, true), 60 * SECOND;
            var s := After(r, Init(0), HalfClosing + [Read(Down, 0, Timeout, t, t)] + [Decide(Down, t)]);
            && s.up.phase == Done(Clean) && s.down.phase == Done(Idle) && s.client.got == [b]
            && s.lastActivity == t - 1
  {
    var r, t := Relay(Input([], [b] + rest), Input([], []), 0, true), 60 * SECOND;
    hide After;
    HalfClosedReached(b, rest);
    Extend(r, Init(0), HalfClosing, Read(Down, 0, Timeout, t, t));
    Extend(r, Init(0), HalfClosing + [Read(Down, 0, Timeout, t, t)], Decide(Down, t));
  }

  /** With an idle timeout of two minutes: a byte at 29 s, and the client's EOF at 100 s. */
  const Lagging := [Start(Up, 0, 0)] + [Start(Down, 0, 0)] + [Read(Down, 1, Open, 29 * SECOND, 29 * SECOND)]
                   + [Write(Down, 1, false, 29 * SECOND)] + [Read(Up, 0, Eof, 100 * SECOND, 100 * SECOND)]
                   + [Decide(Up, 100 * SECOND)]

  function Lagged(b: byte, deadline: int): State
  {
    State(Pump(Reading, 1, 1, Some(0)), Pump(Done(Clean), 0, 0, Some(0)), Conn(true, false, [b], Some(120 * SECOND)),
          Conn(true, true, [], Some(deadline)), 29 * SECOND)
  }

  lemma LaggedReached(b: byte, rest: seq<byte>, drains: bool)
    ensures After(Relay(Input([], [b] + rest), Input([], []), 120 * SECOND, drains), Init(0), Lagging)
            == Lagged(b, if drains then 160 * SECOND else 120 * SECOND)
  {
    hide After;
    var r, t := Relay(Input([], [b] + rest), Input([], []), 120 * SECOND, drains), 29 * SECOND;
    var h1 := [] + [Start(Up, 0, 0)];
    Nothing(r, Init(0));
    Extend(r, Init(0), [], Start(Up, 0, 0));
    assert h1 == [Start(Up, 0, 0)];
    var h2 := h1 + [Start(Down, 0, 0)];
    Extend(r, Init(0), h1, Start(Down, 0, 0));
    assert r.Interval() == 30 * SECOND && r.Drain() == 60 * SECOND;
    hide r.Interval, r.Drain;
    LaggedByte(r, h2, b, rest);
    var h4 := h2 + [Read(Down, 1, Open, t, t)] + [Write(Down, 1, false, t)];
    Extend(r, Init(0), h4, Read(Up, 0, Eof, 100 * SECOND, 100 * SECOND));
    Extend(r, Init(0), h4 + [Read(Up, 0, Eof, 100 * SECOND, 100 * SECOND)], Decide(Up, 100 * SECOND));
  }

  function Started(): State
  {
    State(Pump(Reading, 0, 0, Some(0)), Pump(Reading, 0, 0, Some(0)), Conn(true, false, [], Some(120 * SECOND)),
          Conn(true, false, [], Some(120 * SECOND)), 0)
  }

  lemma LaggedByte(r: Relay, h: seq<Action>, b: byte, rest: seq<byte>)
    requires r.fromUpstream == Input([], [b] + rest) && r.idleTimeout == 120 * SECOND && r.Interval() == 30 * SECOND
    requires After(r, Init(0), h) == Started()
    ensures After(r, Init(0), h + [Read(Down, 1, Open, 29 * SECOND, 29 * SECOND)] + [Write(Down, 1, false, 29 * SECOND)])
            == Started().(down := Pump(Reading, 1, 1, Some(0)), client := Conn(true, false, [b], Some(120 * SECOND)),
                          lastActivity := 29 * SECOND)
  {
    hide After, r.Interval;
    var a := Read(Down, 1, Open, 29 * SECOND, 29 * SECOND);
    assert r.In(Down).All()[0..1] == [b];
    Extend(r, Init(0), h, a);
    Extend(r, Init(0), h + [a], Write(Down, 1, false, 29 * SECOND));
  }

  /** EOF's deadline gives the other direction up at 160 s ... */
  lemma IdleRelayCut(b: byte, rest: seq<byte>)
    ensures var r, t := Relay(Input([], [b] + rest), Input([], []), 120 * SECOND, true), 160 * SECOND;
            var s := After(r, Init(0), Lagging + [Read(Down, 0, Timeout, t, t)] + [Decide(Down, t)]);
            s.up.phase == Done(Clean) && s.down.phase == Done(Idle) && s.client.got == [b]
  {
    hide After;
    var r, t := Relay(Input([], [b] + rest), Input([], []), 120 * SECOND, true), 160 * SECOND;
    LaggedReached(b, rest, true);
    Extend(r, Init(0), Lagging, Read(Down, 0, Timeout, t, t));
    Extend(r, Init(0), Lagging + [Read(Down, 0, Timeout, t, t)], Decide(Down, t));
  }

  /** ... where its own, at 120 s, would have been set again, and a byte at 200 s delivered. */
  lemma IdleRelayKept(b: byte, b': byte, rest: seq<byte>)
    ensures var r, t := Relay(Input([], [b] + ([b'] + rest)), Input([], []), 120 * SECOND, false), 120 * SECOND;
            var s := After(r, Init(0), Lagging + [Read(Down, 0, Timeout, t, t)] + [Decide(Down, t)]
                                       + [Read(Down, 1, Open, 200 * SECOND, 200 * SECOND)]
                                       + [Write(Down, 1, false, 200 * SECOND)]);
            s.up.phase == Done(Clean) && s.down.phase == Reading && s.client.got == [b, b']
  {
    hide After;
    var r, t := Relay(Input([], [b] + ([b'] + rest)), Input([], []), 120 * SECOND, false), 120 * SECOND;
    LaggedReached(b, [b'] + rest, false);
    var h1 := Lagging + [Read(Down, 0, Timeout, t, t)];
    Extend(r, Init(0), Lagging, Read(Down, 0, Timeout, t, t));
    assert r.Interval() == 30 * SECOND;
    hide r.Interval;
    Extend(r, Init(0), h1, Decide(Down, t));
    var h2, a := h1 + [Decide(Down, t)], Read(Down, 1, Open, 200 * SECOND, 200 * SECOND);
    var s2 := After(r, Init(0), h2);
    assert s2 == Lagged(b, 240 * SECOND).(down := Pump(Reading, 1, 1, Some(t)));
    Extend(r, Init(0), h2, a);
    assert r.In(Down).All()[1..2] == [b'];
    Extend(r, Init(0), h2 + [a], Write(Down, 1, false, 200 * SECOND));
    assert [b] + [b'] == [b, b'];
  }
}
