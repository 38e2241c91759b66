/**
  The redirector's NAT session table. One packet, lookup, delete or collection is
  one step; `Run` is the table after a whole history of them, and the theorems
  compare it with what the history itself says.
 */
module NatSessions {
  import opened Bytes
  import opened Common
  import opened Headers
  import opened Checksum
  import R = Rewrite
  import F4 = Fragment4
  import S6 = Segment6

  // ---- Session keys

  datatype SessionKey = SessionKey(ip: seq<byte>, port: uint16, isV6: bool)

  const MAPPED: seq<byte> := [0, 0, 0, 0, 0, 0, 0, 0, 0, 0, 0xff, 0xff]

  function MakeSessionKeyIPv4(ip: seq<byte>, port: uint16): SessionKey { SessionKey(ip + ZERO12, port, false) }
  function MakeSessionKeyIPv6(ip: seq<byte>, port: uint16): SessionKey { SessionKey(ip, port, true) }

  /** Go's `To4`: a 4-byte address, or the tail of an IPv4-mapped one. */
  function To4(ip: seq<byte>): Option<seq<byte>>
  {
    if |ip| == 4 then Some(ip)
    else if |ip| == 16 && ip[..12] == MAPPED then Some(ip[12..])
    else None
  }

  function MakeSessionKeyFromNetIP(ip: seq<byte>, port: uint16): SessionKey
  {
    if To4(ip).Some? then MakeSessionKeyIPv4(To4(ip).value, port) else MakeSessionKeyIPv6(ip, port)
  }

  function KeyOf(isV6: bool, ip: seq<byte>, port: uint16): SessionKey
  {
    if isV6 then MakeSessionKeyIPv6(ip, port) else MakeSessionKeyIPv4(ip, port)
  }

  /**
    The accept path and the packet path name the same session, whichever way the
    runtime spells an IPv4 address, except for a client whose IPv6 address is IPv4-mapped.
   */
  lemma AcceptKeyAgrees(isV6: bool, ip: seq<byte>, port: uint16)
    requires |ip| == if isV6 then 16 else 4
    ensures MakeSessionKeyFromNetIP(ip, port) == KeyOf(isV6, ip, port) <==> !(isV6 && ip[..12] == MAPPED)
    ensures !isV6 ==> MakeSessionKeyFromNetIP(MAPPED + ip, port) == KeyOf(isV6, ip, port)
  {
    assert (MAPPED + ip)[..12] == MAPPED && (MAPPED + ip)[12..] == ip;
  }

  /** Distinct clients have distinct keys, also across families. */
  lemma KeysAreInjective(isV6: bool, ip: seq<byte>, port: uint16, isV6': bool, ip': seq<byte>, port': uint16)
    requires |ip| == (if isV6 then 16 else 4) && |ip'| == if isV6' then 16 else 4
    ensures KeyOf(isV6, ip, port) == KeyOf(isV6', ip', port') ==> isV6 == isV6' && ip == ip' && port == port'
  {
    assert (ip + ZERO12)[..|ip|] == ip && (ip' + ZERO12)[..|ip'|] == ip';
  }

  // ---- Packets

  const TCP_SYN := 2
  const TCP_ACK := 16
  const OUTBOUND_MIN: uint16 := 40000
  const OUTBOUND_MAX: uint16 := 48999

  predicate Reserved(port: uint16) { OUTBOUND_MIN <= port <= OUTBOUND_MAX }

  /** Where the listener is; `ip` is set only for a specific, non-loopback address, in its shortest form. */
  datatype Config = Config(ip: Option<seq<byte>>, port: uint16) {
    ghost predicate Valid() { port != 0 && (ip.Some? ==> |ip.value| == 4 || (|ip.value| == 16 && To4(ip.value).None?)) }
  }

  /** What the packet loop reads from a TCP packet. */
  datatype Flow = Flow(isV6: bool, tcp: nat, src: seq<byte>, dst: seq<byte>, srcPort: uint16, dstPort: uint16, flags: byte) {
    function Layout(): R.Layout { if isV6 then R.IPV6 else R.IPv4(tcp) }
    function Client(): SessionKey { KeyOf(isV6, src, srcPort) }
    function Peer(): SessionKey { KeyOf(isV6, dst, dstPort) }
    predicate Opens() { flags / TCP_SYN % 2 == 1 && flags / TCP_ACK % 2 == 0 }
  }

  function FlowOf(p: seq<byte>): Option<Flow>
  {
    if |p| == 0 || (p[0] / 16 != 4 && p[0] / 16 != 6) then None
    else
      var v6 := p[0] / 16 == 6;
      var n := if v6 then ParseIPv6Fast(p) else ParseIPv4Fast(p);
      if n.Err? || n.value.proto != IPPROTO_TCP then None
      else
        var t := ParseTCPFast(p, n.value.ihl);
        if t.Err? then None
        else Some(Flow(v6, n.value.ihl, n.value.src, n.value.dst, t.value.srcPort, t.value.dstPort, t.value.flags))
  }

  /** A parsed packet is long enough for the rewriter, which sees the same four fields. */
  lemma FlowFits(p: seq<byte>)
    requires FlowOf(p).Some?
    ensures var f := FlowOf(p).value; var l := f.Layout();
            && R.Live(l, p) && (l.n == 4 || l.n == 16) && |f.src| == |f.dst| == l.n && (f.isV6 <==> l.n == 16)
            && R.FieldsOf(l, p) == R.Fields(f.src, f.dst, f.srcPort, f.dstPort)
            && |p| >= 40 && (f.isV6 ==> |p| >= 60 && p[0] / 16 == 6)
            && (!f.isV6 ==> f.tcp == Ihl(p) && |p| >= Ihl(p) + 20)
  {
    R.FamiliesAreProper(p);
  }

  /** An IPv4 TCP packet with whole headers, by its bytes. */
  predicate IsTcp4(p: seq<byte>)
  {
    && |p| >= 40 && p[0] / 16 == 4 && p[9] == 6
    && var ihl := (p[0] as int % 16) * 4;
    20 <= ihl && ihl + 20 <= |p| && 20 <= (p[ihl + 12] as int / 16) * 4 <= |p| - ihl
  }

  /** An IPv6 TCP packet with whole headers, by its bytes. */
  predicate IsTcp6(p: seq<byte>)
  {
    |p| >= 60 && p[0] / 16 == 6 && p[6] == 6 && 20 <= (p[52] as int / 16) * 4 <= |p| - 40
  }

  /** The packet loop takes exactly these packets, and reads their fields where the two standards put them. */
  lemma FlowExact(p: seq<byte>)
    ensures FlowOf(p).Some? <==> IsTcp4(p) || IsTcp6(p)
    ensures IsTcp4(p) ==>
              var f, t := FlowOf(p).value, (p[0] as int % 16) * 4;
              && !f.isV6 && f.tcp == t && f.src == p[12..16] && f.dst == p[16..20]
              && f.srcPort == U16(p, t) && f.dstPort == U16(p, t + 2) && f.flags == p[t + 13]
    ensures IsTcp6(p) ==>
              var f := FlowOf(p).value;
              && f.isV6 && f.tcp == 40 && f.src == p[8..24] && f.dst == p[24..40]
              && f.srcPort == U16(p, 40) && f.dstPort == U16(p, 42) && f.flags == p[53]
  {
  }

  // ---- The session machine

  const SESSION_TTL := 24 * 3600 * SECOND

  datatype Interface = Interface(idx: uint32, sub: uint32)
  datatype Session = Session(dst: seq<byte>, dstPort: uint16, via: Interface, lastSeen: int)
  type Table = map<SessionKey, Session>

  /** `now` is the clock reading the step uses: the coarse clock for packets, the real one elsewhere. */
  datatype Event =
    | Packet(now: int, bytes: seq<byte>, via: Interface)
    | Lookup(now: int, ip: seq<byte>, port: uint16)
    | Delete(now: int, ip: seq<byte>, port: uint16)
    | Collect(now: int)

  /** A packet of the client's, to be redirected to the proxy. */
  predicate Forward(cfg: Config, f: Flow) { !Reserved(f.srcPort) && f.srcPort != cfg.port }

  /** A packet of the proxy's, to be turned into one of the original destination's. */
  predicate Reverse(cfg: Config, f: Flow) { !Reserved(f.srcPort) && f.srcPort == cfg.port }

  function AfterForward(s: Table, f: Flow, now: int, via: Interface): Table
  {
    var k := f.Client();
    if k in s && !f.Opens() && s[k].dst == f.dst && s[k].dstPort == f.dstPort then
      s[k := s[k].(lastSeen := now, via := if via.idx != 0 then via else s[k].via)]
    else
      s[k := Session(f.dst, f.dstPort, via, now)]
  }

  function AfterReverse(s: Table, f: Flow, now: int): Table
  {
    var k := f.Peer();
    if k in s && (f.isV6 || now - s[k].lastSeen > SECOND) then s[k := s[k].(lastSeen := now)] else s
  }

  function AfterPacket(cfg: Config, s: Table, p: seq<byte>, now: int, via: Interface): Table
  {
    match FlowOf(p)
    case None => s
    case Some(f) =>
      if Forward(cfg, f) then AfterForward(s, f, now, via)
      else if Reverse(cfg, f) then AfterReverse(s, f, now)
      else s
  }

  function Touched(s: Table, k: SessionKey, now: int): Table
  {
    if k in s then s[k := s[k].(lastSeen := now)] else s
  }

  predicate Stale(x: Session, now: int) { now - x.lastSeen > SESSION_TTL }

  function Collected(s: Table, now: int): Table
  {
    map k | k in s && !Stale(s[k], now) :: s[k]
  }

  function Step(cfg: Config, s: Table, e: Event): Table
  {
    match e
    case Packet(now, p, via) => AfterPacket(cfg, s, p, now, via)
    case Lookup(now, ip, port) => Touched(s, MakeSessionKeyFromNetIP(ip, port), now)
    case Delete(_, ip, port) => s - {MakeSessionKeyFromNetIP(ip, port)}
    case Collect(now) => Collected(s, now)
  }

  function Run(cfg: Config, h: seq<Event>): Table
  {
    if h == [] then map[] else Step(cfg, Run(cfg, h[..|h| - 1]), h[|h| - 1])
  }

  // ---- What is sent on

  /** The address that redirected packets get; `None` leaves it (an IPv6 listener address in an IPv4 packet). */
  function Target(cfg: Config, f: Flow): Option<seq<byte>>
  {
    if cfg.ip.Some? && |cfg.ip.value| == f.Layout().n then cfg.ip
    else if cfg.ip.None? || f.isV6 then Some(f.src)
    else None
  }

  function EditOf(cfg: Config, s: Table, f: Flow): R.Edit
  {
    if Forward(cfg, f) then R.Edit(None, Target(cfg, f), 0, cfg.port)
    else if Reverse(cfg, f) && f.Peer() in s && |s[f.Peer()].dst| == f.Layout().n then
      R.Edit(Some(s[f.Peer()].dst), None, s[f.Peer()].dstPort, 0)
    else R.Edit(None, None, 0, 0)
  }

  lemma EditFits(cfg: Config, s: Table, p: seq<byte>)
    requires FlowOf(p).Some?
    ensures EditOf(cfg, s, FlowOf(p).value).For(FlowOf(p).value.Layout())
  {
    FlowFits(p);
  }

  predicate Rewrites(cfg: Config, s: Table, f: Flow)
  {
    Forward(cfg, f) || (Reverse(cfg, f) && f.Peer() in s)
  }

  /** The packet as it is reinjected, before any splitting to the MTU. */
  function Out(cfg: Config, s: Table, p: seq<byte>): seq<byte>
  {
    if FlowOf(p).None? || !Rewrites(cfg, s, FlowOf(p).value) then p
    else
      FlowFits(p);
      EditFits(cfg, s, p);
      R.Rewritten(FlowOf(p).value.Layout(), p, EditOf(cfg, s, FlowOf(p).value))
  }

  /** The packets handed to the driver; IPv6 replies are split only after a failed send. */
  function Sent(cfg: Config, s: Table, p: seq<byte>, sendOk: bool): seq<seq<byte>>
  {
    var q := Out(cfg, s, p);
    if FlowOf(p).None? then [q]
    else
      var f := FlowOf(p).value;
      if !Reverse(cfg, f) || f.Peer() !in s then [q]
      else if !f.isV6 then F4.Fragments(q, 1500)
      else if |q| > 1280 && !sendOk then [q] + S6.Segments(q, 1280)
      else [q]
  }

  // ---- The history's own account

  /** A forward packet of client `k`. */
  predicate ForwardOf(cfg: Config, e: Event, k: SessionKey)
  {
    e.Packet? && FlowOf(e.bytes).Some? && Forward(cfg, FlowOf(e.bytes).value) && FlowOf(e.bytes).value.Client() == k
  }

  /** Anything that counts as activity of `k`: its packets, replies to it, lookups of it. */
  predicate TrafficOf(cfg: Config, e: Event, k: SessionKey)
  {
    || ForwardOf(cfg, e, k)
    || (e.Packet? && FlowOf(e.bytes).Some? && Reverse(cfg, FlowOf(e.bytes).value) && FlowOf(e.bytes).value.Peer() == k)
    || (e.Lookup? && MakeSessionKeyFromNetIP(e.ip, e.port) == k)
  }

  predicate DeleteOf(e: Event, k: SessionKey) { e.Delete? && MakeSessionKeyFromNetIP(e.ip, e.port) == k }

  /** The index of the latest forward packet of `k`. */
  function LatestForward(cfg: Config, h: seq<Event>, k: SessionKey): (r: Option<nat>)
    ensures r.Some? ==> r.value < |h| && ForwardOf(cfg, h[r.value], k)
    ensures forall i :: (if r.Some? then r.value + 1 else 0) <= i < |h| ==> !ForwardOf(cfg, h[i], k)
  {
    if h == [] then None
    else if ForwardOf(cfg, h[|h| - 1], k) then Some(|h| - 1)
    else LatestForward(cfg, h[..|h| - 1], k)
  }

  /** The clock reading of the latest activity of `k`. */
  function LatestTraffic(cfg: Config, h: seq<Event>, k: SessionKey): Option<int>
  {
    if h == [] then None
    else if TrafficOf(cfg, h[|h| - 1], k) then Some(h[|h| - 1].now)
    else LatestTraffic(cfg, h[..|h| - 1], k)
  }

  // ---- Invariants over every run

  /** `x` is the session that packet `e` asks for. */
  predicate Records(x: Session, e: Event)
    requires e.Packet? && FlowOf(e.bytes).Some?
  {
    var f := FlowOf(e.bytes).value;
    x.dst == f.dst && x.dstPort == f.dstPort && (e.via.idx != 0 ==> x.via == e.via)
  }

  /** What one step does to the session of `k`. */
  lemma StepAt(cfg: Config, s: Table, e: Event, k: SessionKey)
    ensures var t := Step(cfg, s, e);
            && (ForwardOf(cfg, e, k) ==> k in t && Records(t[k], e) && t[k].lastSeen == e.now)
            && (!ForwardOf(cfg, e, k) && k in t ==> k in s && t[k].(lastSeen := s[k].lastSeen) == s[k])
            && (k in s && k !in t <==> k in s && (DeleteOf(e, k) || (e.Collect? && Stale(s[k], e.now))))
            && (k in s && k in t && !TrafficOf(cfg, e, k) ==> t[k] == s[k])
            && (k in s && k in t && TrafficOf(cfg, e, k) ==>
                  t[k].lastSeen == e.now || (!k.isV6 && t[k].lastSeen == s[k].lastSeen >= e.now - SECOND))
  {
    hide FlowOf;
  }

  /** Main result: a session holds the destination, and the interface, of its client's latest forward packet. */
  lemma {:induction false} SessionsAreLatest(cfg: Config, h: seq<Event>, k: SessionKey)
    requires k in Run(cfg, h)
    ensures LatestForward(cfg, h, k).Some?
    ensures Records(Run(cfg, h)[k], h[LatestForward(cfg, h, k).value])
  {
    hide FlowOf, Records, Step;
    var n := |h| - 1;
    StepAt(cfg, Run(cfg, h[..n]), h[n], k);
    if !ForwardOf(cfg, h[n], k) {
      SessionsAreLatest(cfg, h[..n], k);
      RecordsOnly(Run(cfg, h[..n])[k], Run(cfg, h)[k], h[LatestForward(cfg, h[..n], k).value]);
    }
  }

  lemma RecordsOnly(x: Session, y: Session, e: Event)
    requires e.Packet? && FlowOf(e.bytes).Some? && Records(x, e) && y.(lastSeen := x.lastSeen) == x
    ensures Records(y, e)
  {
    hide FlowOf;
  }

  /** Main result: no run has a session for one of the proxy's own ports, and addresses fit their family. */
  lemma {:induction false} NoOwnSessions(cfg: Config, h: seq<Event>, k: SessionKey)
    requires k in Run(cfg, h)
    ensures !(40000 <= k.port <= 48999) && k.port != cfg.port
    ensures |k.ip| == 16 && |Run(cfg, h)[k].dst| == if k.isV6 then 16 else 4
  {
    hide FlowOf;
    SessionsAreLatest(cfg, h, k);
    var e := h[LatestForward(cfg, h, k).value];
    FlowFits(e.bytes);
  }

  /** The recorded time lags the latest activity by at most one second (not at all for IPv6). */
  lemma {:induction false} LastSeenLag(cfg: Config, h: seq<Event>, k: SessionKey)
    requires k in Run(cfg, h)
    ensures LatestTraffic(cfg, h, k).Some?
    ensures Run(cfg, h)[k].lastSeen >= LatestTraffic(cfg, h, k).value - SECOND
    ensures k.isV6 ==> Run(cfg, h)[k].lastSeen == LatestTraffic(cfg, h, k).value
  {
    hide FlowOf, Records, Step;
    var n := |h| - 1;
    StepAt(cfg, Run(cfg, h[..n]), h[n], k);
    if !ForwardOf(cfg, h[n], k) {
      LastSeenLag(cfg, h[..n], k);
    }
  }

  predicate Monotone(h: seq<Event>)
  {
    |h| < 2 || (Monotone(h[..|h| - 1]) && h[|h| - 2].now <= h[|h| - 1].now)
  }

  lemma {:induction false} TrafficIsPast(cfg: Config, h: seq<Event>, k: SessionKey)
    requires Monotone(h) && LatestTraffic(cfg, h, k).Some?
    ensures |h| > 0 && LatestTraffic(cfg, h, k).value <= h[|h| - 1].now
  {
    hide TrafficOf;
    if !TrafficOf(cfg, h[|h| - 1], k) {
      TrafficIsPast(cfg, h[..|h| - 1], k);
    }
  }

  /** With a clock that does not go back the recorded time is never ahead of the latest activity. */
  lemma {:induction false} LastSeenNotAhead(cfg: Config, h: seq<Event>, k: SessionKey)
    requires k in Run(cfg, h) && Monotone(h)
    ensures LatestTraffic(cfg, h, k).Some? && Run(cfg, h)[k].lastSeen <= LatestTraffic(cfg, h, k).value
  {
    hide FlowOf, Records, Step;
    var n := |h| - 1;
    StepAt(cfg, Run(cfg, h[..n]), h[n], k);
    if !ForwardOf(cfg, h[n], k) {
      LastSeenNotAhead(cfg, h[..n], k);
      TrafficIsPast(cfg, h[..n], k);
    }
  }

  /**
    Main result: collection removes only sessions idle for more than 24 hours less
    one second, and (clock not going back) all that are idle for more than 24 hours.
   */
  lemma {:induction false} CollectIdle(cfg: Config, h: seq<Event>, now: int, k: SessionKey)
    requires k in Run(cfg, h)
    ensures LatestTraffic(cfg, h, k).Some?
    ensures k !in Run(cfg, h + [Collect(now)]) ==> now - LatestTraffic(cfg, h, k).value > 86_399_000_000_000
    ensures Monotone(h) && now - LatestTraffic(cfg, h, k).value > 86_400_000_000_000 ==> k !in Run(cfg, h + [Collect(now)])
  {
    hide FlowOf;
    assert (h + [Collect(now)])[..|h|] == h;
    LastSeenLag(cfg, h, k);
    if Monotone(h) { LastSeenNotAhead(cfg, h, k); }
  }

  /** Event `i` does not end the session of `k`: no delete, no collection after a long silence. */
  predicate Spares(cfg: Config, h: seq<Event>, i: nat, k: SessionKey)
    requires i < |h|
  {
    && !DeleteOf(h[i], k)
    && (h[i].Collect? && LatestTraffic(cfg, h[..i], k).Some? ==>
          h[i].now - LatestTraffic(cfg, h[..i], k).value <= SESSION_TTL - SECOND)
  }

  /** Main result: a session survives every stretch of history without delete or long silence. */
  lemma {:induction false} SessionSurvives(cfg: Config, h: seq<Event>, from: nat, k: SessionKey)
    requires from <= |h| && k in Run(cfg, h[..from])
    requires forall i :: from <= i < |h| ==> Spares(cfg, h, i, k)
    ensures k in Run(cfg, h)
  {
    hide FlowOf, Records, Step, DeleteOf;
    var n := |h| - 1;
    if from == |h| {
      assert h[..from] == h;
    } else {
      var g := h[..n];
      assert h[..from] == g[..from];
      forall i | from <= i < |g|
        ensures Spares(cfg, g, i, k)
      {
        assert g[..i] == h[..i] && Spares(cfg, h, i, k);
      }
      SessionSurvives(cfg, g, from, k);
      assert Spares(cfg, h, n, k);
      LastSeenLag(cfg, g, k);
      StepAt(cfg, Run(cfg, g), h[n], k);
    }
  }

  // ---- Replies

  /** The four address fields of a TCP packet. */
  function FieldsAt(f: Flow): R.Fields { R.Fields(f.src, f.dst, f.srcPort, f.dstPort) }

  function Swapped(f: R.Fields): R.Fields { R.Fields(f.dst, f.src, f.dstPort, f.srcPort) }

  /** What a redirected packet is addressed to. */
  lemma ForwardFields(cfg: Config, s: Table, p: seq<byte>)
    requires cfg.Valid() && FlowOf(p).Some? && Forward(cfg, FlowOf(p).value)
    ensures var f := FlowOf(p).value;
            && |Out(cfg, s, p)| == |p| && f.Layout().Fits(Out(cfg, s, p))
            && R.FieldsOf(f.Layout(), Out(cfg, s, p))
               == R.Fields(f.src, if Target(cfg, f).Some? then Target(cfg, f).value else f.dst, f.srcPort, cfg.port)
  {
    hide FlowOf, R.Rewritten, R.FieldsOf;
    FlowFits(p);
    EditFits(cfg, s, p);
    R.RewriteFields(FlowOf(p).value.Layout(), p, EditOf(cfg, s, FlowOf(p).value));
  }

  /** What a reply is turned into when its session is there. */
  lemma ReverseFields(cfg: Config, s: Table, p: seq<byte>)
    requires FlowOf(p).Some? && Reverse(cfg, FlowOf(p).value) && FlowOf(p).value.Peer() in s
    requires |s[FlowOf(p).value.Peer()].dst| == FlowOf(p).value.Layout().n
    ensures var f := FlowOf(p).value; var x := s[f.Peer()];
            && |Out(cfg, s, p)| == |p| && f.Layout().Fits(Out(cfg, s, p))
            && R.FieldsOf(f.Layout(), Out(cfg, s, p))
               == R.Fields(x.dst, f.dst, if x.dstPort != 0 then x.dstPort else f.srcPort, f.dstPort)
  {
    hide FlowOf, R.Rewritten, R.FieldsOf;
    FlowFits(p);
    EditFits(cfg, s, p);
    R.RewriteFields(FlowOf(p).value.Layout(), p, EditOf(cfg, s, FlowOf(p).value));
  }

  /** A SYN without ACK, or a new destination, starts the session anew; other packets keep its interface unless they have one. */
  lemma SessionRenewed(cfg: Config, s: Table, e: Event, k: SessionKey)
    requires ForwardOf(cfg, e, k)
    ensures var f, t := FlowOf(e.bytes).value, Step(cfg, s, e);
            var opens := (f.flags / 2) % 2 == 1 && (f.flags / 16) % 2 == 0;
            && k in t
            && (k !in s || opens || s[k].dst != f.dst || s[k].dstPort != f.dstPort ==> t[k].via == e.via)
            && (k in s && !opens && s[k].dst == f.dst && s[k].dstPort == f.dstPort ==>
                  t[k].via == if e.via.idx == 0 then s[k].via else e.via)
  {
    hide FlowOf;
  }

  // ---- What the driver is given

  /** The address a redirected packet goes to, from the listener's address and the packet. */
  ghost predicate GoesTo(cfg: Config, f: Flow, dst: seq<byte>)
  {
    if f.isV6 then dst == if cfg.ip.Some? && |cfg.ip.value| == 16 then cfg.ip.value else f.src
    else dst == if cfg.ip.None? then f.src else if |cfg.ip.value| == 4 then cfg.ip.value else f.dst
  }

  /** Main result: a client's packet is handed on once, as one from the client to the listener, otherwise unchanged. */
  lemma ForwardSent(cfg: Config, s: Table, p: seq<byte>, sendOk: bool)
    requires cfg.Valid() && FlowOf(p).Some?
    requires var port := FlowOf(p).value.srcPort; !(40000 <= port <= 48999) && port != cfg.port
    ensures var f, out := FlowOf(p).value, Sent(cfg, s, p, sendOk);
            && |out| == 1 && |out[0]| == |p| && f.Layout().Fits(out[0]) && R.SameOutside(f.Layout(), p, out[0])
            && var g := R.FieldsOf(f.Layout(), out[0]);
            g.src == f.src && g.srcPort == f.srcPort && g.dstPort == cfg.port && GoesTo(cfg, f, g.dst)
  {
    hide FlowOf, Out, Sent, R.FieldsOf, R.SameOutside, Target;
    SentOnce(cfg, s, p, sendOk);
    ForwardFields(cfg, s, p);
    ForwardOutside(cfg, s, p);
    TargetSpelled(cfg, p);
  }

  lemma SentOnce(cfg: Config, s: Table, p: seq<byte>, sendOk: bool)
    requires FlowOf(p).Some? && Forward(cfg, FlowOf(p).value)
    ensures Sent(cfg, s, p, sendOk) == [Out(cfg, s, p)]
  {
    hide FlowOf, Out;
  }

  lemma ForwardOutside(cfg: Config, s: Table, p: seq<byte>)
    requires cfg.Valid() && FlowOf(p).Some? && Forward(cfg, FlowOf(p).value)
    ensures R.SameOutside(FlowOf(p).value.Layout(), p, Out(cfg, s, p))
  {
    hide FlowOf, R.FieldsOf, R.SameOutside, R.Rewritten;
    FlowFits(p);
    EditFits(cfg, s, p);
    R.RewriteFields(FlowOf(p).value.Layout(), p, EditOf(cfg, s, FlowOf(p).value));
  }

  lemma TargetSpelled(cfg: Config, p: seq<byte>)
    requires cfg.Valid() && FlowOf(p).Some?
    ensures var f := FlowOf(p).value; GoesTo(cfg, f, if Target(cfg, f).Some? then Target(cfg, f).value else f.dst)
  {
    hide FlowOf;
    FlowFits(p);
  }

  /** Main result: what is not TCP, comes from a reserved port, or answers no session is handed on as it is. */
  lemma OthersSent(cfg: Config, s: Table, p: seq<byte>, sendOk: bool)
    requires FlowOf(p).Some? ==>
               var f := FlowOf(p).value;
               40000 <= f.srcPort <= 48999 || (f.srcPort == cfg.port && KeyOf(f.isV6, f.dst, f.dstPort) !in s)
    ensures Sent(cfg, s, p, sendOk) == [p]
  {
    hide FlowOf;
  }

  /** The reply with its session, as the reverse branch meets it. */
  ghost predicate Answered(cfg: Config, s: Table, p: seq<byte>)
  {
    && FlowOf(p).Some?
    && var f := FlowOf(p).value;
    && f.srcPort == cfg.port && !(40000 <= f.srcPort <= 48999) && KeyOf(f.isV6, f.dst, f.dstPort) in s
    && |s[KeyOf(f.isV6, f.dst, f.dstPort)].dst| == if f.isV6 then 16 else 4
  }

  /** The restored reply keeps every byte that splitting looks at. */
  lemma RestoredShape(cfg: Config, s: Table, p: seq<byte>)
    requires Answered(cfg, s, p)
    ensures var f, q := FlowOf(p).value, Out(cfg, s, p); var x := s[KeyOf(f.isV6, f.dst, f.dstPort)];
            && |q| == |p| && f.Layout().Fits(q) && R.SameOutside(f.Layout(), p, q)
            && R.FieldsOf(f.Layout(), q) == R.Fields(x.dst, f.dst, if x.dstPort != 0 then x.dstPort else cfg.port, f.dstPort)
  {
    var f := FlowOf(p).value;
    FlowFits(p);
    ReverseFields(cfg, s, p);
    EditFits(cfg, s, p);
    hide FlowOf, R.FieldsOf, R.SameOutside, R.Rewritten;
    R.RewriteFields(f.Layout(), p, EditOf(cfg, s, f));
  }

  lemma RestoredBytes4(cfg: Config, s: Table, p: seq<byte>)
    requires Answered(cfg, s, p) && !FlowOf(p).value.isV6
    ensures var q := Out(cfg, s, p);
            && |q| == |p| >= 40 && q[0] == p[0] && q[0] / 16 == 4 && q[6] == p[6] && q[7] == p[7]
            && 20 <= Ihl(q) < |q|
            && q[12..16] == s[FlowOf(p).value.Peer()].dst && q[16..20] == FlowOf(p).value.dst
  {
    FlowExact(p);
    FlowFits(p);
    RestoredShape(cfg, s, p);
    hide Out;
    var l := FlowOf(p).value.Layout();
    assert !R.IsNatByte(l, 0) && !R.IsNatByte(l, 6) && !R.IsNatByte(l, 7);
  }

  /** Packets of at most 1500 bytes between the two addresses that do at the receiver what `q` would. */
  ghost predicate GoodFragments(out: seq<seq<byte>>, q: seq<byte>, src: seq<byte>, dst: seq<byte>)
  {
    && F4.AllFit(out) && F4.AllFit([q])
    && (forall i :: 0 <= i < |out| ==> |out[i]| <= 1500 && out[i][12..16] == src && out[i][16..20] == dst)
    && (F4.Equivalent(out, [q]) <==> |q| <= 1500 || (F4.FragmentOffset(q) == 0 && !F4.MoreFragments(q)))
  }

  /**
    Main result: an IPv4 reply goes out from the original destination in packets of at
    most 1500 bytes, and these do at the client what the whole reply would, unless it is
    over 1500 bytes and was itself a fragment.
   */
  lemma ReplySent4(cfg: Config, s: Table, p: seq<byte>, sendOk: bool)
    requires Answered(cfg, s, p) && !FlowOf(p).value.isV6 && |p| <= 0xffff
    ensures var f, q := FlowOf(p).value, Out(cfg, s, p);
            && GoodFragments(Sent(cfg, s, p, sendOk), q, s[f.Peer()].dst, f.dst)
            && |q| == |p| >= 8 && q[6..8] == p[6..8]
  {
    hide FlowOf, Out, Sent, F4.Fragments, GoodFragments, Answered;
    SentFragments(cfg, s, p, sendOk);
    RestoredBytes4(cfg, s, p);
    SplitReply(Out(cfg, s, p));
    SamePair(Out(cfg, s, p), p);
  }

  lemma SamePair(a: seq<byte>, b: seq<byte>)
    requires |a| >= 8 && |b| >= 8 && a[6] == b[6] && a[7] == b[7]
    ensures a[6..8] == b[6..8]
  {
  }

  lemma SentFragments(cfg: Config, s: Table, p: seq<byte>, sendOk: bool)
    requires Answered(cfg, s, p) && !FlowOf(p).value.isV6
    ensures Sent(cfg, s, p, sendOk) == F4.Fragments(Out(cfg, s, p), 1500)
  {
    hide FlowOf, Out, F4.Fragments;
  }

  lemma Halves(a: seq<byte>, b: seq<byte>)
    requires |a| >= 20 && |b| >= 20 && a[12..20] == b[12..20]
    ensures a[12..16] == b[12..16] && a[16..20] == b[16..20]
  {
    SliceOfSlice(a, 12, 20, 0, 4);
    SliceOfSlice(b, 12, 20, 0, 4);
    SliceOfSlice(a, 12, 20, 4, 8);
    SliceOfSlice(b, 12, 20, 4, 8);
  }

  lemma SplitReply(q: seq<byte>)
    requires 20 <= |q| <= 0xffff && q[0] / 16 == 4 && 20 <= Ihl(q) < |q|
    ensures GoodFragments(F4.Fragments(q, 1500), q, q[12..16], q[16..20])
  {
    var out := F4.Fragments(q, 1500);
    F4.FragmentsWithinMtu(q, 1500);
    if |q| > 1500 {
      assert F4.Splits(q, 1500);
      hide F4.Fragments, F4.Equivalent, F4.Splits;
      F4.RefragmentationExact(q, 1500);
      SameHeaders(q);
      forall i | 0 <= i < |out|
        ensures out[i][12..16] == q[12..16] && out[i][16..20] == q[16..20]
      {
        Halves(out[i], q);
      }
    }
  }

  /** Every fragment repeats the addresses. */
  lemma SameHeaders(q: seq<byte>)
    requires F4.Splits(q, 1500) && |q| <= 0xffff
    ensures forall i :: 0 <= i < |F4.Fragments(q, 1500)| ==>
              |F4.Fragments(q, 1500)[i]| >= 20 && F4.Fragments(q, 1500)[i][12..20] == q[12..20]
  {
    var fs := F4.Fragments(q, 1500);
    F4.FragmentsFit(q, 1500);
    F4.ChainStarts(fs, q, 1500, 0);
    hide F4.Fragments, F4.Chain;
  }

  lemma RestoredBytes6(cfg: Config, s: Table, p: seq<byte>)
    requires Answered(cfg, s, p) && FlowOf(p).value.isV6
    ensures var q := Out(cfg, s, p);
            && |q| == |p| >= 60 && q[0] / 16 == 6 && q[6] == 6 && q[53] == FlowOf(p).value.flags
            && 60 <= S6.HeaderBytes(q) <= |q|
  {
    FlowExact(p);
    FlowFits(p);
    RestoredShape(cfg, s, p);
    hide Out;
    var l := FlowOf(p).value.Layout();
    assert !R.IsNatByte(l, 0) && !R.IsNatByte(l, 6) && !R.IsNatByte(l, 52) && !R.IsNatByte(l, 53);
  }

  /**
    Main result: an IPv6 reply goes out whole; if the driver refuses it and it is over
    1280 bytes, segments of at most 1280 bytes follow that fill the same sequence
    space, exactly when it is not a SYN.
   */
  lemma ReplySent6(cfg: Config, s: Table, p: seq<byte>, sendOk: bool)
    requires Answered(cfg, s, p) && FlowOf(p).value.isV6 && |p| <= 0xffff
    ensures var q, out := Out(cfg, s, p), Sent(cfg, s, p, sendOk);
            && |out| > 0 && out[0] == q
            && (sendOk || |p| <= 1280 ==> |out| == 1)
            && (!sendOk && |p| > 1280 ==>
                  && S6.HeaderFits(q)
                  && (forall i :: 1 <= i < |out| ==> |out[i]| <= 1280 && S6.HeaderFits(out[i]))
                  && (S6.SameSpace(out[1..], q) <==> (FlowOf(p).value.flags / 2) % 2 == 0))
  {
    RestoredBytes6(cfg, s, p);
    SentSegments(cfg, s, p, sendOk);
    var q := Out(cfg, s, p);
    hide FlowOf, Out, Sent;
    if !sendOk && |p| > 1280 {
      var segments := S6.Segments(q, 1280);
      S6.SegmentsWithinMtu(q, 1280);
      S6.SegmentsPreserveStream(q, 1280);
      assert ([q] + segments)[1..] == segments;
      hide S6.Segments, S6.SameSpace;
    }
  }

  lemma SentSegments(cfg: Config, s: Table, p: seq<byte>, sendOk: bool)
    requires Answered(cfg, s, p) && FlowOf(p).value.isV6
    ensures var q := Out(cfg, s, p);
            |q| == |p| && Sent(cfg, s, p, sendOk) == if |p| > 1280 && !sendOk then [q] + S6.Segments(q, 1280) else [q]
  {
    RestoredShape(cfg, s, p);
    hide FlowOf, Out, S6.Segments;
  }

  /** `reply` answers `sent`, what `p` was turned into: same family, both ends swapped. */
  ghost predicate Answers(p: seq<byte>, sent: seq<byte>, reply: seq<byte>)
  {
    && FlowOf(p).Some? && FlowOf(reply).Some?
    && var f, g := FlowOf(p).value, FlowOf(reply).value;
    g.isV6 == f.isV6 && f.Layout().Fits(sent) && FieldsAt(g) == Swapped(R.FieldsOf(f.Layout(), sent))
  }

  /** The client spoke to the listener itself, so there was nothing to translate. */
  predicate Direct(cfg: Config, f: Flow)
  {
    (Target(cfg, f).Some? ==> f.dst == Target(cfg, f).value) && f.dstPort == cfg.port
  }

  /**
    Main result: in every run whose session outlives the exchange, the reply to a
    redirected packet goes out from the original destination to the original client,
    exactly when the destination port was not 0 (0 means "keep" to the rewriter) and
    the listener's port is outside the reserved range (or nothing was translated).
   */
  lemma ReplyRestored(cfg: Config, h: seq<Event>, at: nat, k: SessionKey, reply: seq<byte>)
    requires cfg.Valid() && at < |h| && ForwardOf(cfg, h[at], k)
    requires forall i :: at < i < |h| ==> Spares(cfg, h, i, k) && !ForwardOf(cfg, h[i], k)
    requires Answers(h[at].bytes, Out(cfg, Run(cfg, h[..at]), h[at].bytes), reply)
    ensures var f, out := FlowOf(h[at].bytes).value, Out(cfg, Run(cfg, h), reply);
            var l := FlowOf(reply).value.Layout();
            && l.Fits(out)
            && (R.FieldsOf(l, out) == Swapped(FieldsAt(f))
                <==> f.dstPort != 0 && (!Reserved(cfg.port) || Direct(cfg, f)))
  {
    var f, g := FlowOf(h[at].bytes).value, FlowOf(reply).value;
    FlowFits(reply);
    ForwardFields(cfg, Run(cfg, h[..at]), h[at].bytes);
    hide FlowOf, Out;
    ForwardIsLatest(cfg, h, at, k);
    assert g.Peer() == k;
    if Reserved(cfg.port) {
      assert Out(cfg, Run(cfg, h), reply) == reply;
    } else {
      SessionsAreLatest(cfg, h, k);
      NoOwnSessions(cfg, h, k);
      ReverseFields(cfg, Run(cfg, h), reply);
    }
  }

  /** A forward packet with no later one is the latest, and its session is still there. */
  lemma ForwardIsLatest(cfg: Config, h: seq<Event>, at: nat, k: SessionKey)
    requires at < |h| && ForwardOf(cfg, h[at], k)
    requires forall i :: at < i < |h| ==> Spares(cfg, h, i, k) && !ForwardOf(cfg, h[i], k)
    ensures k in Run(cfg, h) && LatestForward(cfg, h, k) == Some(at)
  {
    hide FlowOf, Records, Step, Forward, ForwardOf, Spares;
    assert h[..at + 1][..at] == h[..at];
    StepAt(cfg, Run(cfg, h[..at]), h[at], k);
    SessionSurvives(cfg, h, at + 1, k);
  }

  /** The accept path finds the same destination, unless the client's IPv6 address is IPv4-mapped. */
  lemma LookupFindsDestination(cfg: Config, h: seq<Event>, at: nat, k: SessionKey, ip: seq<byte>)
    requires at < |h| && ForwardOf(cfg, h[at], k)
    requires forall i :: at < i < |h| ==> Spares(cfg, h, i, k) && !ForwardOf(cfg, h[i], k)
    requires var f := FlowOf(h[at].bytes).value; ip == f.src || (!f.isV6 && ip == MAPPED + f.src)
    ensures var f, k' := FlowOf(h[at].bytes).value, MakeSessionKeyFromNetIP(ip, FlowOf(h[at].bytes).value.srcPort);
            !(f.isV6 && f.src[..12] == MAPPED) ==>
              k' in Run(cfg, h) && Run(cfg, h)[k'].dst == f.dst && Run(cfg, h)[k'].dstPort == f.dstPort
  {
    var f := FlowOf(h[at].bytes).value;
    FlowFits(h[at].bytes);
    hide FlowOf;
    AcceptKeyAgrees(f.isV6, f.src, f.srcPort);
    ForwardIsLatest(cfg, h, at, k);
    SessionsAreLatest(cfg, h, k);
  }

  /** Whatever the table holds, checksums that were exact stay exact. */
  lemma OutKeepsChecksums(cfg: Config, s: Table, p: seq<byte>, end: nat)
    requires FlowOf(p).Some? && FlowOf(p).value.Layout().Proper(p)
    requires FlowOf(p).value.Layout().tcp + 20 <= end <= |p|
    requires R.FullyChecksummed(FlowOf(p).value.Layout(), p, end)
    ensures |Out(cfg, s, p)| == |p| && R.FullyChecksummed(FlowOf(p).value.Layout(), Out(cfg, s, p), end)
  {
    hide FlowOf, R.Rewritten, R.FullyChecksummed;
    if Rewrites(cfg, s, FlowOf(p).value) {
      FlowFits(p);
      EditFits(cfg, s, p);
      R.RewriteChecksums(FlowOf(p).value.Layout(), p, EditOf(cfg, s, FlowOf(p).value), end);
    }
  }

  // ---- The proxy's own ports

  /** The local port of the n-th outbound connection of a dialer; the counter is a wrapping uint32. */
  function DialPort(counter: uint32): uint16
  {
    OUTBOUND_MIN + counter % (OUTBOUND_MAX - OUTBOUND_MIN + 1)
  }

  /** The ports lie in 40000-48999, and 9000 consecutive connections have different ones. */
  lemma DialPortsCycle(c: uint32, d: uint32)
    ensures 40000 <= DialPort(c) <= 48999
    ensures c < d < c + 9000 ==> DialPort(c) != DialPort(d)
  {
    if c < d < c + 9000 {
      var q, r := c / 9000, c % 9000;
      assert c == 9000 * q + r;
      if r + (d - c) < 9000 {
        assert d == 9000 * q + (r + (d - c));
      } else {
        assert d == 9000 * (q + 1) + (r + (d - c) - 9000);
      }
    }
  }

  /** Main result: no connection the proxy makes is redirected, recorded or changed. */
  lemma OwnConnectionsUntouched(cfg: Config, s: Table, e: Event, counter: uint32)
    requires e.Packet? && FlowOf(e.bytes).Some? && FlowOf(e.bytes).value.srcPort == DialPort(counter)
    ensures Step(cfg, s, e) == s && Out(cfg, s, e.bytes) == e.bytes
  {
    hide FlowOf;
    assert Reserved(DialPort(counter));
  }

  function Candidate(preferred: uint16, offset: nat): uint16
    requires offset <= 100
  {
    if preferred + offset > 65535 then 18000 + offset else preferred + offset
  }

  /** The search gives up at this candidate. */
  predicate Refused(preferred: uint16, free: set<int>, offset: nat)
    requires offset <= 100
  {
    Candidate(preferred, offset) !in free || Reserved(Candidate(preferred, offset))
  }

  /**
    The listener's port search; `free` is what the system lets it bind, `given`
    what it picks for port 0. Only a fallback is kept out of the reserved range.
   */
  method AcquireListener(preferred: uint16, free: set<int>, given: uint16) returns (port: Option<uint16>)
    ensures preferred in free ==> port == Some(if preferred == 0 then given else preferred)
    ensures preferred !in free && port.Some? ==>
              && port.value in free && !Reserved(port.value)
              && exists o :: 1 <= o <= 100 && port.value == Candidate(preferred, o)
                             && forall i :: 1 <= i < o ==> Refused(preferred, free, i)
    ensures preferred !in free && preferred + 100 <= 65535 && port.Some? ==>
              && preferred < port.value <= preferred + 100 && !(40000 <= port.value <= 48999)
              && forall q :: preferred < q < port.value && q in free ==> 40000 <= q <= 48999
    ensures preferred !in free && port.Some? ==> preferred < port.value <= preferred + 100 || 18001 <= port.value <= 18100
    ensures port.None? && preferred + 100 <= 65535 ==>
              forall q :: preferred <= q <= preferred + 100 && q in free ==> q != preferred && 40000 <= q <= 48999
    ensures port.None? ==> preferred !in free && forall o :: 1 <= o <= 100 ==> Refused(preferred, free, o)
  {
    if preferred in free {
      return Some(if preferred == 0 then given else preferred);
    }
    for offset := 1 to 101
      invariant forall o :: 1 <= o < offset ==> Refused(preferred, free, o)
      invariant preferred + 100 <= 65535 ==> forall q :: preferred < q < preferred + offset && q in free ==> 40000 <= q <= 48999
    {
      var candidate := Candidate(preferred, offset);
      if Reserved(candidate) {
        continue;
      }
      if candidate in free {
        return Some(candidate);
      }
    }
    port := None;
  }

  // ---- The redirector object

  class Redirector {
    const cfg: Config
    var sessions: Table
    ghost var history: seq<Event>

    ghost predicate Valid()
      reads this
    {
      cfg.Valid() && sessions == Run(cfg, history)
    }

    constructor (cfg: Config)
      requires cfg.Valid()
      ensures Valid() && this.cfg == cfg && history == []
    {
      this.cfg := cfg;
      sessions, history := map[], [];
    }

    /** One step more of the run. */
    ghost method Log(e: Event, before: Table)
      requires cfg.Valid() && before == Run(cfg, history) && sessions == Step(cfg, before, e)
      modifies this`history
      ensures Valid() && history == old(history) + [e]
    {
      history := history + [e];
      assert history[..|history| - 1] == old(history);
    }

    method SaveSession(f: Flow, now: int, via: Interface)
      modifies this`sessions
      ensures sessions == AfterForward(old(sessions), f, now, via)
    {
      var k := f.Client();
      if k in sessions {
        var x := sessions[k];
        if f.Opens() || x.dst != f.dst || x.dstPort != f.dstPort {
          sessions := sessions[k := Session(f.dst, f.dstPort, via, now)];
        } else {
          x := x.(lastSeen := now);
          if via.idx != 0 {
            x := x.(via := via);
          }
          sessions := sessions[k := x];
        }
      } else {
        sessions := sessions[k := Session(f.dst, f.dstPort, via, now)];
      }
    }

    method RewritePacket(p: array<byte>, f: Flow, e: R.Edit)
      requires FlowOf(p[..]) == Some(f) && e.For(f.Layout())
      modifies p
      ensures f.Layout().Fits(old(p[..])) && p[..] == R.Rewritten(f.Layout(), old(p[..]), e)
    {
      hide R.Rewritten;
      FlowFits(p[..]);
      hide FlowOf;
      if f.isV6 {
        var _ := R.RewriteIPv6TCP(p, e);
      } else {
        var _ := R.RewriteIPv4TCP(p, e);
      }
    }

    /** One TCP packet of the loop; `sendOk` is the driver's verdict on an unsplit IPv6 reply. */
    method ProcessPacket(p: array<byte>, now: int, via: Interface, sendOk: bool) returns (sent: seq<seq<byte>>)
      requires Valid() && p.Length <= 0xffff
      modifies this`sessions, this`history, p
      ensures Valid() && history == old(history) + [Packet(now, old(p[..]), via)]
      ensures p[..] == Out(cfg, old(sessions), old(p[..]))
      ensures sent == Sent(cfg, old(sessions), old(p[..]), sendOk)
    {
      hide R.Rewritten, F4.Fragments, S6.Segments;
      ghost var before, was := sessions, p[..];
      var flow := FlowOf(p[..]);
      if flow.None? {
        sent := [p[..]];
      } else {
        var f := flow.value;
        EditFits(cfg, sessions, p[..]);
        NoOwnSessionsAt(cfg, history, f, was);
        hide FlowOf;
        if Reserved(f.srcPort) {
          sent := [p[..]];
        } else if f.srcPort == cfg.port {
          var k := f.Peer();
          if k in sessions {
            var x := sessions[k];
            if f.isV6 || now - x.lastSeen > SECOND {
              sessions := sessions[k := x.(lastSeen := now)];
            }
            RewritePacket(p, f, R.Edit(Some(x.dst), None, x.dstPort, 0));
            if !f.isV6 {
              sent := F4.FragmentIPv4(p[..], 1500);
            } else {
              sent := [p[..]];
              if p.Length > 1280 && !sendOk {
                var segments := S6.FragmentIPv6TCP(p[..], 1280);
                sent := sent + segments;
              }
            }
          } else {
            sent := [p[..]];
          }
        } else {
          SaveSession(f, now, via);
          RewritePacket(p, f, R.Edit(None, Target(cfg, f), 0, cfg.port));
          sent := [p[..]];
        }
      }
      Log(Packet(now, was, via), before);
    }

    method LookupOriginalDestination(ip: seq<byte>, port: uint16, now: int) returns (r: Option<(seq<byte>, uint16)>)
      requires Valid()
      modifies this
      ensures Valid() && history == old(history) + [Lookup(now, ip, port)]
      ensures var k := MakeSessionKeyFromNetIP(ip, port);
              r == if k in old(sessions) then Some((old(sessions)[k].dst, old(sessions)[k].dstPort)) else None
    {
      ghost var before := sessions;
      var k := MakeSessionKeyFromNetIP(ip, port);
      r := None;
      if k in sessions {
        var x := sessions[k];
        sessions := sessions[k := x.(lastSeen := now)];
        r := Some((x.dst, x.dstPort));
      }
      Log(Lookup(now, ip, port), before);
    }

    method DeleteSession(ip: seq<byte>, port: uint16, ghost now: int)
      requires Valid()
      modifies this
      ensures Valid() && history == old(history) + [Delete(now, ip, port)]
    {
      ghost var before := sessions;
      sessions := sessions - {MakeSessionKeyFromNetIP(ip, port)};
      Log(Delete(now, ip, port), before);
    }

    /** One round of the garbage collector, key by key. */
    method CollectSessions(now: int)
      requires Valid()
      modifies this
      ensures Valid() && history == old(history) + [Collect(now)]
    {
      ghost var before := sessions;
      var keys := sessions.Keys;
      while keys != {}
        invariant keys <= sessions.Keys <= before.Keys
        invariant forall k :: k in before ==> (k in sessions <==> k in keys || !Stale(before[k], now))
        invariant forall k :: k in sessions ==> sessions[k] == before[k]
        invariant history == old(history)
        decreases |keys|
      {
        var k :| k in keys;
        keys := keys - {k};
        if now - sessions[k].lastSeen > SESSION_TTL {
          sessions := sessions - {k};
        }
      }
      assert sessions == Collected(before, now);
      Log(Collect(now), before);
    }
  }

  /** In a run, the session found for a reply has an address of the reply's family. */
  lemma NoOwnSessionsAt(cfg: Config, h: seq<Event>, f: Flow, p: seq<byte>)
    requires FlowOf(p) == Some(f)
    ensures f.Peer() in Run(cfg, h) ==> |Run(cfg, h)[f.Peer()].dst| == f.Layout().n
  {
    FlowFits(p);
    hide FlowOf, Run;
    if f.Peer() in Run(cfg, h) {
      NoOwnSessions(cfg, h, f.Peer());
    }
  }
}
