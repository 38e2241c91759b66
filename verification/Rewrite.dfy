/**
  In-place NAT rewriting of IPv4 and IPv6 TCP packets with incremental checksums.
  The buffer methods follow the source; what they promise is proved on
  `Rewritten`, against checksums recomputed from scratch.
 */
module Rewrite {
  import opened Bytes
  import opened Checksum
  import opened Headers

  datatype Error = TooShort | WrongVersion

  /**
    Where a family keeps the fields that NAT touches: the source address at `src`,
    the destination address right after it, `n` bytes each, the TCP header at `tcp`.
    Only IPv4 has a header checksum.
   */
  datatype Layout = Layout(src: nat, n: nat, tcp: nat, hasHeaderCsum: bool) {
    function Dst(): nat { src + n }

    ghost predicate Fits(p: seq<byte>) {
      Dst() + n <= |p| && tcp + 20 <= |p| && 12 <= |p|
    }

    /** The header is complete before the TCP header starts (IHL >= 20 for IPv4). */
    ghost predicate Proper(p: seq<byte>) {
      && Fits(p) && Dst() + n <= tcp && tcp % 2 == src % 2 == n % 2 == 0
      && (hasHeaderCsum ==> 12 <= src)
    }
  }

  function IPv4(ihl: nat): Layout { Layout(12, 4, ihl, true) }

  const IPV6 := Layout(8, 16, 40, false)

  /** The packet being edited and the two checksums carried along until the end. */
  datatype Work = Work(p: seq<byte>, ip: uint16, tcp: uint16)

  function PatchAddress(l: Layout, w: Work, at: nat, ip: Option<seq<byte>>): (r: Work)
    requires at + l.n <= |w.p| && l.n % 2 == 0 && (ip.Some? ==> |ip.value| == l.n)
    ensures |r.p| == |w.p|
  {
    if ip.None? || w.p[at..at + l.n] == ip.value then w
    else
      var before := w.p[at..at + l.n];
      WordSumBound(before);
      Work(Splice(w.p, at, ip.value),
           if l.hasHeaderCsum then Adjust(w.ip, WordSum(before), WordSum(ip.value), l.n / 2) else w.ip,
           Adjust(w.tcp, WordSum(before), WordSum(ip.value), l.n / 2))
  }

  function PatchPort(w: Work, at: nat, port: uint16): (r: Work)
    requires at + 2 <= |w.p|
    ensures |r.p| == |w.p|
  {
    if port == 0 || U16(w.p, at) == port then w
    else Work(Put16(w.p, at, port), w.ip, Adjust(w.tcp, U16(w.p, at), port, 1))
  }

  /** What a NAT rewrite asks for; `None` and port 0 leave a field alone. */
  datatype Edit = Edit(src: Option<seq<byte>>, dst: Option<seq<byte>>, srcPort: uint16, dstPort: uint16) {
    ghost predicate For(l: Layout) {
      l.n % 2 == 0 && (src.Some? ==> |src.value| == l.n) && (dst.Some? ==> |dst.value| == l.n)
    }
  }

  function Load(l: Layout, p: seq<byte>): Work
    requires l.Fits(p)
  {
    Work(p, U16(p, 10), U16(p, l.tcp + TCP_CSUM))
  }

  function Patch(l: Layout, w: Work, e: Edit): (r: Work)
    requires l.Fits(w.p) && e.For(l)
    ensures |r.p| == |w.p|
  {
    PatchPort(PatchPort(PatchAddress(l, PatchAddress(l, w, l.src, e.src), l.Dst(), e.dst),
                        l.tcp, e.srcPort), l.tcp + 2, e.dstPort)
  }

  function Store(l: Layout, w: Work): (r: seq<byte>)
    requires l.Fits(w.p)
    ensures |r| == |w.p|
  {
    Put16(if l.hasHeaderCsum then Put16(w.p, 10, w.ip) else w.p, l.tcp + TCP_CSUM, w.tcp)
  }

  function Rewritten(l: Layout, p: seq<byte>, e: Edit): (r: seq<byte>)
    requires l.Fits(p) && e.For(l)
    ensures |r| == |p|
  {
    Store(l, Patch(l, Load(l, p), e))
  }

  // ---- The buffer methods

  method RewriteAddress(l: Layout, a: array<byte>, at: nat, ip: Option<seq<byte>>, ipCsum: uint16, tcpCsum: uint16)
    returns (ipCsum': uint16, tcpCsum': uint16)
    requires at + l.n <= a.Length && (l.n == 4 || l.n == 16) && (ip.Some? ==> |ip.value| == l.n)
    modifies a
    ensures Work(a[..], ipCsum', tcpCsum') == PatchAddress(l, Work(old(a[..]), ipCsum, tcpCsum), at, ip)
  {
    hide WordSum, Adjust, U32, Splice;
    ipCsum', tcpCsum' := ipCsum, tcpCsum;
    if ip.Some? && a[at..at + l.n] != ip.value {
      var before := a[at..at + l.n];
      assert before == a[..][at..at + l.n];
      if l.n == 4 {
        Words4(before);
        Words4(ip.value);
        if l.hasHeaderCsum {
          ipCsum' := UpdateChecksum32(ipCsum, U32(before, 0), U32(ip.value, 0));
        }
        tcpCsum' := UpdateChecksum32(tcpCsum, U32(before, 0), U32(ip.value, 0));
      } else {
        if l.hasHeaderCsum {
          ipCsum' := UpdateChecksumIPv6Bytes(ipCsum, before, ip.value);
        }
        tcpCsum' := UpdateChecksumIPv6Bytes(tcpCsum, before, ip.value);
      }
      CopyInto(a, at, ip.value);
    } else {
      assert a[..][at..at + l.n] == a[at..at + l.n];
    }
  }

  lemma Words4(b: seq<byte>)
    requires |b| == 4
    ensures WordSum(b) == U32(b, 0) / 0x1_0000 + U32(b, 0) % 0x1_0000
  {
    assert b[2..][2..] == [];
    assert WordSum(b[2..]) == U16(b, 2);
  }

  method RewritePort(a: array<byte>, at: nat, port: uint16, tcpCsum: uint16) returns (tcpCsum': uint16)
    requires at + 2 <= a.Length
    modifies a
    ensures forall ip: uint16 :: Work(a[..], ip, tcpCsum') == PatchPort(Work(old(a[..]), ip, tcpCsum), at, port)
  {
    tcpCsum' := tcpCsum;
    if port != 0 {
      var oldPort := U16(a[..], at);
      if oldPort != port {
        tcpCsum' := UpdateChecksum16(tcpCsum, oldPort, port);
        Write16(a, at, port);
      }
    }
  }

  /** The edits shared by both families: read the checksums, edit, write them back. */
  method RewriteTCP(l: Layout, a: array<byte>, e: Edit)
    requires l.Fits(a[..]) && e.For(l) && (l.n == 4 || l.n == 16)
    modifies a
    ensures a[..] == Rewritten(l, old(a[..]), e)
  {
    hide PatchAddress, PatchPort, Put16;
    var ipCsum, tcpCsum := U16(a[..], 10), U16(a[..], l.tcp + TCP_CSUM);
    ipCsum, tcpCsum := RewriteAddress(l, a, l.src, e.src, ipCsum, tcpCsum);
    ipCsum, tcpCsum := RewriteAddress(l, a, l.Dst(), e.dst, ipCsum, tcpCsum);
    tcpCsum := RewritePort(a, l.tcp, e.srcPort, tcpCsum);
    tcpCsum := RewritePort(a, l.tcp + 2, e.dstPort, tcpCsum);
    if l.hasHeaderCsum {
      Write16(a, 10, ipCsum);
    }
    Write16(a, l.tcp + TCP_CSUM, tcpCsum);
  }

  method RewriteIPv4TCP(a: array<byte>, e: Edit) returns (err: Option<Error>)
    requires e.For(IPv4(0))
    modifies a
    ensures err.Some? <==> a.Length < 40 || a.Length < Ihl(old(a[..])) + 20
    ensures err.Some? ==> a[..] == old(a[..])
    ensures err.None? ==> a[..] == Rewritten(IPv4(Ihl(old(a[..]))), old(a[..]), e)
  {
    if a.Length < 40 {
      return Some(TooShort);
    }
    var ihl := Ihl(a[..]);
    if a.Length < ihl + 20 {
      return Some(TooShort);
    }
    RewriteTCP(IPv4(ihl), a, e);
    err := None;
  }

  method RewriteIPv6TCP(a: array<byte>, e: Edit) returns (err: Option<Error>)
    requires e.For(IPV6)
    modifies a
    ensures err.Some? <==> a.Length < 60 || old(a[0]) / 16 != 6
    ensures err.Some? ==> a[..] == old(a[..])
    ensures err.None? ==> a[..] == Rewritten(IPV6, old(a[..]), e)
  {
    if a.Length < 60 {
      return Some(TooShort);
    }
    if a[0] / 16 != 6 {
      return Some(WrongVersion);
    }
    RewriteTCP(IPV6, a, e);
    err := None;
  }

  // ---- The fields, and the checksums recomputed from scratch

  function Src(l: Layout, p: seq<byte>): seq<byte> requires l.Fits(p) { p[l.src..l.Dst()] }
  function Dst(l: Layout, p: seq<byte>): seq<byte> requires l.Fits(p) { p[l.Dst()..l.Dst() + l.n] }
  function SrcPort(l: Layout, p: seq<byte>): uint16 requires l.Fits(p) { U16(p, l.tcp) }
  function DstPort(l: Layout, p: seq<byte>): uint16 requires l.Fits(p) { U16(p, l.tcp + 2) }

  /** The TCP segment that ends at `end`; trailing link padding is not covered. */
  function Segment(l: Layout, p: seq<byte>, end: nat): seq<byte>
    requires l.Fits(p) && l.tcp + 20 <= end <= |p|
  {
    p[l.tcp..end]
  }

  function Header(l: Layout, p: seq<byte>): seq<byte>
    requires l.Fits(p)
  {
    p[..l.tcp]
  }

  function IpSum(l: Layout, p: seq<byte>): nat
    requires l.Proper(p) && l.hasHeaderCsum
  {
    HeaderSum(Header(l, p))
  }

  function TcpSum(l: Layout, p: seq<byte>, end: nat): nat
    requires l.Proper(p) && l.tcp + 20 <= end <= |p|
  {
    SegmentSum(Src(l, p), Dst(l, p), 6, Segment(l, p, end), 16)
  }

  /** Both checksum fields are what a full recomputation gives. */
  ghost predicate FullyChecksummed(l: Layout, p: seq<byte>, end: nat)
    requires l.Proper(p) && l.tcp + 20 <= end <= |p|
  {
    && (l.hasHeaderCsum ==> U16(p, 10) == Csum(IpSum(l, p)))
    && U16(p, l.tcp + 16) == Csum(TcpSum(l, p, end))
  }

  /** Both checksum fields pass the receiver's check. */
  ghost predicate Accepted(l: Layout, p: seq<byte>, end: nat)
    requires l.Proper(p) && l.tcp + 20 <= end <= |p|
  {
    && (l.hasHeaderCsum ==> Accepts(IpSum(l, p), U16(p, 10)))
    && Accepts(TcpSum(l, p, end), U16(p, l.tcp + 16))
  }

  // The same two notions while the checksums are held outside the packet.

  ghost predicate FullWork(l: Layout, w: Work, end: nat)
    requires l.Proper(w.p) && l.tcp + 20 <= end <= |w.p|
  {
    (l.hasHeaderCsum ==> w.ip == Csum(IpSum(l, w.p))) && w.tcp == Csum(TcpSum(l, w.p, end))
  }

  ghost predicate AcceptedWork(l: Layout, w: Work, end: nat)
    requires l.Proper(w.p) && l.tcp + 20 <= end <= |w.p|
  {
    (l.hasHeaderCsum ==> Accepts(IpSum(l, w.p), w.ip)) && Accepts(TcpSum(l, w.p, end), w.tcp)
  }

  /** The IPv4 header sum never becomes +0: byte 0 carries version and length. */
  ghost predicate Live(l: Layout, p: seq<byte>) { l.Proper(p) && (l.hasHeaderCsum ==> p[0] > 0) }

  lemma IpSumPositive(l: Layout, p: seq<byte>)
    requires Live(l, p) && l.hasHeaderCsum
    ensures IpSum(l, p) > 0
  {
    WordSumPut16(Blank(p[..l.tcp], 10), 0, 0);
  }

  /** Which field of the pseudo-header an address edit replaces. */
  function AddressAt(l: Layout, p: seq<byte>, at: nat): seq<byte>
    requires l.Fits(p) && (at == l.src || at == l.Dst())
  {
    if at == l.src then Src(l, p) else Dst(l, p)
  }

  lemma SpliceViews(l: Layout, p: seq<byte>, at: nat, ip: seq<byte>, end: nat)
    requires l.Proper(p) && l.n > 0 && (at == l.src || at == l.Dst()) && |ip| == l.n
    requires l.tcp + 20 <= end <= |p|
    ensures var q := Splice(p, at, ip);
            && Src(l, q) == (if at == l.src then ip else Src(l, p))
            && Dst(l, q) == (if at == l.src then Dst(l, p) else ip)
            && Segment(l, q, end) == Segment(l, p, end)
  {
  }

  lemma SpliceHeader(l: Layout, p: seq<byte>, at: nat, ip: seq<byte>)
    requires l.Proper(p) && l.hasHeaderCsum && (at == l.src || at == l.Dst()) && |ip| == l.n
    ensures Blank(Header(l, Splice(p, at, ip)), 10) == Splice(Blank(Header(l, p), 10), at, ip)
    ensures Blank(Header(l, p), 10)[at..at + l.n] == AddressAt(l, p, at)
  {
  }

  lemma HeaderAddressShift(l: Layout, p: seq<byte>, at: nat, ip: seq<byte>)
    requires l.Proper(p) && l.hasHeaderCsum && (at == l.src || at == l.Dst()) && |ip| == l.n
    ensures IpSum(l, p) >= WordSum(AddressAt(l, p, at))
    ensures IpSum(l, Splice(p, at, ip)) == IpSum(l, p) - WordSum(AddressAt(l, p, at)) + WordSum(ip)
  {
    hide WordSum;
    SpliceHeader(l, p, at, ip);
    WordSumSplice(Blank(Header(l, p), 10), at, ip);
  }

  lemma SegmentAddressShift(l: Layout, p: seq<byte>, at: nat, ip: seq<byte>, end: nat)
    requires l.Proper(p) && l.n > 0 && l.tcp + 20 <= end <= |p|
    requires (at == l.src || at == l.Dst()) && |ip| == l.n
    ensures TcpSum(l, p, end) >= WordSum(AddressAt(l, p, at))
    ensures TcpSum(l, Splice(p, at, ip), end) == TcpSum(l, p, end) - WordSum(AddressAt(l, p, at)) + WordSum(ip)
  {
    hide WordSum;
    SpliceViews(l, p, at, ip, end);
  }

  lemma PortViews(l: Layout, p: seq<byte>, at: nat, port: uint16, end: nat)
    requires l.Proper(p) && l.tcp + 20 <= end <= |p| && (at == l.tcp || at == l.tcp + 2)
    ensures var q := Put16(p, at, port);
            && Src(l, q) == Src(l, p) && Dst(l, q) == Dst(l, p) && Header(l, q) == Header(l, p)
            && Blank(Segment(l, q, end), TCP_CSUM) == Put16(Blank(Segment(l, p, end), TCP_CSUM), at - l.tcp, port)
            && U16(Blank(Segment(l, p, end), TCP_CSUM), at - l.tcp) == U16(p, at)
  {
  }

  lemma PortShift(l: Layout, p: seq<byte>, at: nat, port: uint16, end: nat)
    requires l.Proper(p) && l.tcp + 20 <= end <= |p| && (at == l.tcp || at == l.tcp + 2)
    ensures TcpSum(l, p, end) >= U16(p, at)
    ensures TcpSum(l, Put16(p, at, port), end) == TcpSum(l, p, end) - U16(p, at) + port
    ensures l.hasHeaderCsum ==> IpSum(l, Put16(p, at, port)) == IpSum(l, p)
  {
    hide WordSum;
    PortViews(l, p, at, port, end);
    WordSumPut16(Blank(Segment(l, p, end), TCP_CSUM), at - l.tcp, port);
  }

  lemma TcpSumPositive(l: Layout, p: seq<byte>, end: nat)
    requires l.Proper(p) && l.tcp + 20 <= end <= |p|
    ensures TcpSum(l, p, end) > 0
  {
  }

  lemma AddressStepTcp(l: Layout, w: Work, at: nat, ip: Option<seq<byte>>, end: nat)
    requires l.Proper(w.p) && l.n > 0 && l.tcp + 20 <= end <= |w.p|
    requires (at == l.src || at == l.Dst()) && (ip.Some? ==> |ip.value| == l.n)
    ensures var r := PatchAddress(l, w, at, ip);
            && (w.tcp == Csum(TcpSum(l, w.p, end)) ==> r.tcp == Csum(TcpSum(l, r.p, end)))
            && (Accepts(TcpSum(l, w.p, end), w.tcp) <==> Accepts(TcpSum(l, r.p, end), r.tcp))
  {
    hide WordSum, Fold, TcpSum, Adjust, Csum, Accepts;
    var before := w.p[at..at + l.n];
    if ip.Some? && before != ip.value {
      WordSumBound(before);
      SegmentAddressShift(l, w.p, at, ip.value, end);
      TcpSumPositive(l, w.p, end);
      TcpSumPositive(l, Splice(w.p, at, ip.value), end);
      AdjustSound(TcpSum(l, w.p, end), w.tcp, WordSum(before), WordSum(ip.value), l.n / 2);
    }
  }

  lemma AddressStepIp(l: Layout, w: Work, at: nat, ip: Option<seq<byte>>)
    requires Live(l, w.p) && l.n > 0 && l.hasHeaderCsum
    requires (at == l.src || at == l.Dst()) && (ip.Some? ==> |ip.value| == l.n)
    ensures var r := PatchAddress(l, w, at, ip);
            && (w.ip == Csum(IpSum(l, w.p)) ==> r.ip == Csum(IpSum(l, r.p)))
            && (Accepts(IpSum(l, w.p), w.ip) <==> Accepts(IpSum(l, r.p), r.ip))
  {
    hide WordSum, Fold, IpSum, Adjust, Csum, Accepts;
    var before := w.p[at..at + l.n];
    if ip.Some? && before != ip.value {
      WordSumBound(before);
      HeaderAddressShift(l, w.p, at, ip.value);
      IpSumPositive(l, w.p);
      var q := Splice(w.p, at, ip.value);
      assert q[0] == w.p[0];
      IpSumPositive(l, q);
      AdjustSound(IpSum(l, w.p), w.ip, WordSum(before), WordSum(ip.value), l.n / 2);
    }
  }

  lemma AddressStep(l: Layout, w: Work, at: nat, ip: Option<seq<byte>>, end: nat)
    requires Live(l, w.p) && l.n > 0 && l.tcp + 20 <= end <= |w.p|
    requires (at == l.src || at == l.Dst()) && (ip.Some? ==> |ip.value| == l.n)
    ensures var r := PatchAddress(l, w, at, ip);
            && Live(l, r.p)
            && (FullWork(l, w, end) ==> FullWork(l, r, end))
            && (AcceptedWork(l, w, end) <==> AcceptedWork(l, r, end))
  {
    hide WordSum, Fold, TcpSum, IpSum, Adjust;
    assert l.hasHeaderCsum ==> PatchAddress(l, w, at, ip).p[0] == w.p[0];
    AddressStepTcp(l, w, at, ip, end);
    if l.hasHeaderCsum { AddressStepIp(l, w, at, ip); }
  }

  lemma PortStep(l: Layout, w: Work, at: nat, port: uint16, end: nat)
    requires Live(l, w.p) && l.tcp + 20 <= end <= |w.p| && (at == l.tcp || at == l.tcp + 2)
    ensures var r := PatchPort(w, at, port);
            && Live(l, r.p)
            && (FullWork(l, w, end) ==> FullWork(l, r, end))
            && (AcceptedWork(l, w, end) <==> AcceptedWork(l, r, end))
  {
    hide WordSum, Fold;
    PortShift(l, w.p, at, port, end);
    AdjustSound(TcpSum(l, w.p, end), w.tcp, U16(w.p, at), port, 1);
  }

  /** Writing a checksum field does not move the sum that leaves it out. */
  lemma StoreSums(l: Layout, w: Work, end: nat)
    requires l.Proper(w.p) && l.tcp + 20 <= end <= |w.p|
    ensures var r := Store(l, w);
            && U16(r, l.tcp + TCP_CSUM) == w.tcp && TcpSum(l, r, end) == TcpSum(l, w.p, end)
            && (l.hasHeaderCsum ==> U16(r, 10) == w.ip && IpSum(l, r) == IpSum(l, w.p))
  {
    hide WordSum;
    var r := Store(l, w);
    assert Src(l, r) == Src(l, w.p) && Dst(l, r) == Dst(l, w.p);
    assert Blank(Segment(l, r, end), TCP_CSUM) == Blank(Segment(l, w.p, end), TCP_CSUM);
    if l.hasHeaderCsum {
      assert Blank(Header(l, r), 10) == Blank(Header(l, w.p), 10);
    }
  }

  /**
    Main result: the O(1) update gives exactly the checksums of a full
    recomputation, for every edit, header option, segment length and parity; and
    whatever the checksums were, the receiver's verdict is unchanged.
   */
  lemma RewriteChecksums(l: Layout, p: seq<byte>, e: Edit, end: nat)
    requires Live(l, p) && l.n > 0 && e.For(l) && l.tcp + 20 <= end <= |p|
    ensures FullyChecksummed(l, p, end) ==> FullyChecksummed(l, Rewritten(l, p, e), end)
    ensures Accepted(l, p, end) <==> Accepted(l, Rewritten(l, p, e), end)
  {
    hide WordSum, Fold, TcpSum, IpSum, Adjust, PatchAddress, PatchPort, Store;
    var w0 := Load(l, p);
    var w1 := PatchAddress(l, w0, l.src, e.src);
    AddressStep(l, w0, l.src, e.src, end);
    var w2 := PatchAddress(l, w1, l.Dst(), e.dst);
    AddressStep(l, w1, l.Dst(), e.dst, end);
    var w3 := PatchPort(w2, l.tcp, e.srcPort);
    PortStep(l, w2, l.tcp, e.srcPort, end);
    PortStep(l, w3, l.tcp + 2, e.dstPort, end);
    StoreSums(l, Patch(l, w0, e), end);
  }

  // ---- What a rewrite changes

  ghost predicate IsCsumByte(l: Layout, k: int)
  {
    l.tcp + 16 <= k < l.tcp + 18 || (l.hasHeaderCsum && 10 <= k < 12)
  }

  ghost predicate IsNatByte(l: Layout, k: int)
  {
    l.src <= k < l.Dst() + l.n || l.tcp <= k < l.tcp + 4 || IsCsumByte(l, k)
  }

  /** The four fields that NAT reads and writes. */
  datatype Fields = Fields(src: seq<byte>, dst: seq<byte>, srcPort: uint16, dstPort: uint16)

  function FieldsOf(l: Layout, p: seq<byte>): Fields
    requires l.Fits(p)
  {
    Fields(Src(l, p), Dst(l, p), SrcPort(l, p), DstPort(l, p))
  }

  ghost predicate SameOutside(l: Layout, p: seq<byte>, q: seq<byte>)
  {
    |q| == |p| && forall k :: 0 <= k < |p| && !IsNatByte(l, k) ==> q[k] == p[k]
  }

  lemma SpliceOutside(l: Layout, p: seq<byte>, at: nat, ip: seq<byte>)
    requires l.Proper(p) && (at == l.src || at == l.Dst()) && |ip| == l.n
    ensures var q := Splice(p, at, ip);
            SameOutside(l, p, q) && SrcPort(l, q) == SrcPort(l, p) && DstPort(l, q) == DstPort(l, p)
  {
  }

  lemma AddressFields(l: Layout, w: Work, at: nat, ip: Option<seq<byte>>)
    requires l.Proper(w.p) && l.n > 0 && (at == l.src || at == l.Dst()) && (ip.Some? ==> |ip.value| == l.n)
    ensures var r, f := PatchAddress(l, w, at, ip).p, FieldsOf(l, w.p);
            && SameOutside(l, w.p, r)
            && FieldsOf(l, r) == if ip.None? then f
                                 else if at == l.src then f.(src := ip.value) else f.(dst := ip.value)
  {
    hide WordSum, Fold, Adjust, U16;
    if ip.Some? {
      hide SameOutside;
      SpliceViews(l, w.p, at, ip.value, |w.p|);
      SpliceOutside(l, w.p, at, ip.value);
      if w.p[at..at + l.n] == ip.value { assert Splice(w.p, at, ip.value) == w.p; }
    }
  }

  lemma PortFields(l: Layout, w: Work, at: nat, port: uint16)
    requires l.Proper(w.p) && (at == l.tcp || at == l.tcp + 2)
    ensures var r, f := PatchPort(w, at, port).p, FieldsOf(l, w.p);
            && SameOutside(l, w.p, r)
            && FieldsOf(l, r) == if port == 0 then f
                                 else if at == l.tcp then f.(srcPort := port) else f.(dstPort := port)
  {
    hide WordSum, Fold, Adjust;
    PortViews(l, w.p, at, port, |w.p|);
  }

  lemma StoreFields(l: Layout, w: Work)
    requires l.Proper(w.p)
    ensures SameOutside(l, w.p, Store(l, w)) && FieldsOf(l, Store(l, w)) == FieldsOf(l, w.p)
  {
    var r := Store(l, w);
    assert Src(l, r) == Src(l, w.p) && Dst(l, r) == Dst(l, w.p);
  }

  /** A rewrite sets exactly the requested fields and no byte outside them and the checksums. */
  lemma RewriteFields(l: Layout, p: seq<byte>, e: Edit)
    requires l.Proper(p) && l.n > 0 && e.For(l)
    ensures var r, f := Rewritten(l, p, e), FieldsOf(l, p);
            && SameOutside(l, p, r)
            && FieldsOf(l, r) == Fields(if e.src.Some? then e.src.value else f.src,
                                        if e.dst.Some? then e.dst.value else f.dst,
                                        if e.srcPort != 0 then e.srcPort else f.srcPort,
                                        if e.dstPort != 0 then e.dstPort else f.dstPort)
  {
    hide PatchAddress, PatchPort, Store, FieldsOf;
    var w0 := Load(l, p);
    var w1 := PatchAddress(l, w0, l.src, e.src);
    AddressFields(l, w0, l.src, e.src);
    var w2 := PatchAddress(l, w1, l.Dst(), e.dst);
    AddressFields(l, w1, l.Dst(), e.dst);
    var w3 := PatchPort(w2, l.tcp, e.srcPort);
    PortFields(l, w2, l.tcp, e.srcPort);
    PortFields(l, w3, l.tcp + 2, e.dstPort);
    StoreFields(l, Patch(l, w0, e));
  }

  /** The edit that puts the fields of `p` back. */
  function Undo(l: Layout, p: seq<byte>): Edit
    requires l.Fits(p)
  {
    Edit(Some(Src(l, p)), Some(Dst(l, p)), SrcPort(l, p), DstPort(l, p))
  }

  /** Same bytes outside the checksums, both fully checksummed: same packet. */
  lemma DeterminedByFields(l: Layout, p: seq<byte>, q: seq<byte>, end: nat)
    requires l.Proper(p) && |q| == |p| && l.tcp + 20 <= end <= |p|
    requires FullyChecksummed(l, p, end) && FullyChecksummed(l, q, end)
    requires forall k :: 0 <= k < |p| && !IsCsumByte(l, k) ==> q[k] == p[k]
    ensures q == p
  {
    hide WordSum, Fold, TcpSum, IpSum;
    var w := Work(p, U16(q, 10), U16(q, l.tcp + TCP_CSUM));
    StoreSums(l, w, end);
    assert Store(l, w) == q by { hide TcpSum; }
    SamePair(p, q, l.tcp + TCP_CSUM);
    SamePair(p, q, 10);
  }

  lemma SamePair(p: seq<byte>, q: seq<byte>, i: nat)
    requires i + 2 <= |p| == |q|
    ensures U16(p, i) == U16(q, i) ==> p[i] == q[i] && p[i + 1] == q[i + 1]
  {
  }

  /** Equal fields and equal bytes outside are equal bytes everywhere but in the checksums. */
  lemma SameFieldsSameBytes(l: Layout, p: seq<byte>, q: seq<byte>, k: nat)
    requires l.Proper(p) && SameOutside(l, p, q) && FieldsOf(l, q) == FieldsOf(l, p)
    requires k < |p| && !IsCsumByte(l, k)
    ensures q[k] == p[k]
  {
    if l.src <= k < l.Dst() {
      assert p[k] == Src(l, p)[k - l.src] && q[k] == Src(l, q)[k - l.src];
    } else if l.Dst() <= k < l.Dst() + l.n {
      assert p[k] == Dst(l, p)[k - l.Dst()] && q[k] == Dst(l, q)[k - l.Dst()];
    } else if l.tcp <= k < l.tcp + 4 {
      SamePair(p, q, l.tcp);
      SamePair(p, q, l.tcp + 2);
    }
  }

  /**
    Main result: rewriting back restores the packet byte for byte, except that a
    port that was 0 and has been replaced cannot be put back (0 means "keep").
   */
  lemma RewriteRoundTrip(l: Layout, p: seq<byte>, e: Edit, end: nat)
    requires Live(l, p) && l.n > 0 && e.For(l) && l.tcp + 20 <= end <= |p|
    requires FullyChecksummed(l, p, end)
    ensures Rewritten(l, Rewritten(l, p, e), Undo(l, p)) == p
            <==> (e.srcPort != 0 ==> SrcPort(l, p) != 0) && (e.dstPort != 0 ==> DstPort(l, p) != 0)
  {
    hide Rewritten, FullyChecksummed, Accepted;
    var q := Rewritten(l, p, e);
    var r := Rewritten(l, q, Undo(l, p));
    RewriteFields(l, p, e);
    RewriteFields(l, q, Undo(l, p));
    RewriteChecksums(l, p, e, end);
    assert l.hasHeaderCsum ==> !IsNatByte(l, 0) && q[0] == p[0];
    RewriteChecksums(l, q, Undo(l, p), end);
    if FieldsOf(l, r) == FieldsOf(l, p) {
      forall k | 0 <= k < |p| && !IsCsumByte(l, k)
        ensures r[k] == p[k]
      {
        SameFieldsSameBytes(l, p, r, k);
      }
      DeterminedByFields(l, p, r, end);
    }
  }

  /** The two families meet the requirements above as soon as their parsers accept. */
  lemma FamiliesAreProper(p: seq<byte>)
    ensures |p| >= 40 && Ihl(p) >= 20 && |p| >= Ihl(p) + 20 ==> Live(IPv4(Ihl(p)), p)
    ensures |p| >= 60 ==> Live(IPV6, p)
  {
  }
}
