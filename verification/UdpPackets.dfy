/** UDP packets built for injection, proved against the parsers and the receiver's checks. */
module UdpPackets {
  import opened Bytes
  import opened Checksum
  import opened Headers
  import F4 = Fragment4

  /** Both length fields are cut to 16 bits, as `uint16(...)` does. */
  function Cut16(n: nat): uint16 { n % 0x1_0000 }

  function Header4(src: seq<byte>, dst: seq<byte>, total: nat): (h: seq<byte>)
    requires |src| == |dst| == 4
    ensures |h| == 20
  {
    [0x45, 0] + Be16(Cut16(total)) + [0x12, 0x34, 0x40, 0, 64, IPPROTO_UDP, 0, 0] + src + dst
  }

  function Header6(src: seq<byte>, dst: seq<byte>, payloadLen: nat): (h: seq<byte>)
    requires |src| == |dst| == 16
    ensures |h| == 40
  {
    [0x60, 0, 0, 0] + Be16(Cut16(payloadLen)) + [IPPROTO_UDP, 64] + src + dst
  }

  function Datagram(srcPort: uint16, dstPort: uint16, payload: seq<byte>): (d: seq<byte>)
    ensures |d| == 8 + |payload|
  {
    Be16(srcPort) + Be16(dstPort) + Be16(Cut16(8 + |payload|)) + [0, 0] + payload
  }

  function Packet4(src: seq<byte>, dst: seq<byte>, srcPort: uint16, dstPort: uint16, payload: seq<byte>): seq<byte>
    requires |src| == |dst| == 4
  {
    var h := Header4(src, dst, 28 + |payload|);
    var d := Datagram(srcPort, dstPort, payload);
    Put16(h, 10, Csum(HeaderSum(h)))
    + Put16(d, UDP_CSUM, UdpCsum(SegmentSum(src, dst, IPPROTO_UDP, d, UDP_CSUM)))
  }

  function Packet6(src: seq<byte>, dst: seq<byte>, srcPort: uint16, dstPort: uint16, payload: seq<byte>): seq<byte>
    requires |src| == |dst| == 16
  {
    var d := Datagram(srcPort, dstPort, payload);
    Header6(src, dst, |d|)
    + Put16(d, UDP_CSUM, UdpCsum(SegmentSum(src, dst, IPPROTO_UDP, d, UDP_CSUM)))
  }

  method WriteDatagram(a: array<byte>, at: nat, srcPort: uint16, dstPort: uint16, payload: seq<byte>)
    requires at + 8 + |payload| == a.Length
    requires a[at + 6] == 0 && a[at + 7] == 0
    modifies a
    ensures a[..] == old(a[..at]) + Datagram(srcPort, dstPort, payload)
  {
    Write16(a, at, srcPort);
    Write16(a, at + 2, dstPort);
    Write16(a, at + 4, Cut16(8 + |payload|));
    CopyInto(a, at + 8, payload);
  }

  method WriteHeader4(a: array<byte>, src: seq<byte>, dst: seq<byte>)
    requires |src| == |dst| == 4 && a.Length >= 20
    requires forall k :: 0 <= k < a.Length ==> a[k] == 0
    modifies a
    ensures a[..20] == Header4(src, dst, a.Length)
    ensures forall k :: 20 <= k < a.Length ==> a[k] == 0
  {
    a[0] := 0x45;
    a[1] := 0;
    Write16(a, 2, Cut16(a.Length));
    Write16(a, 4, 0x1234);
    Write16(a, 6, 0x4000);
    a[8] := 64;
    a[9] := IPPROTO_UDP;
    assert a[..12] == [0x45, 0] + Be16(Cut16(a.Length)) + [0x12, 0x34, 0x40, 0, 64, IPPROTO_UDP, 0, 0];
    CopyInto(a, 12, src);
    CopyInto(a, 16, dst);
  }

  /** `None` stands for an address that `To4` rejects. */
  method BuildIPv4UDPPacket(src: Option<seq<byte>>, dst: Option<seq<byte>>, srcPort: uint16, dstPort: uint16,
                            payload: seq<byte>) returns (r: Option<seq<byte>>)
    requires (src.Some? ==> |src.value| == 4) && (dst.Some? ==> |dst.value| == 4) && |payload| <= 0xffff
    ensures r.Some? <==> src.Some? && dst.Some?
    ensures r.Some? ==> r.value == Packet4(src.value, dst.value, srcPort, dstPort, payload)
  {
    hide HeaderSum, SegmentSum, Csum;
    if src.None? || dst.None? {
      return None;
    }
    var a := new byte[28 + |payload|](_ => 0);
    WriteHeader4(a, src.value, dst.value);
    ghost var h := Header4(src.value, dst.value, 28 + |payload|);
    var c := CalculateIPv4HeaderChecksum(a[..20]);
    Write16(a, 10, c);
    assert a[..20] == Put16(h, 10, Csum(HeaderSum(h)));
    WriteDatagram(a, 20, srcPort, dstPort, payload);
    ghost var d := Datagram(srcPort, dstPort, payload);
    assert a[20..] == d;
    var u := CalculateUDPChecksumIPv4(src.value, dst.value, a[20..]);
    Write16(a, 26, u);
    assert a[20..] == Put16(d, UDP_CSUM, u);
    assert a[..20] == Put16(h, 10, Csum(HeaderSum(h)));
    assert a[..] == a[..20] + a[20..];
    r := Some(a[..]);
  }

  method WriteHeader6(a: array<byte>, src: seq<byte>, dst: seq<byte>)
    requires |src| == |dst| == 16 && a.Length >= 40
    requires forall k :: 0 <= k < a.Length ==> a[k] == 0
    modifies a
    ensures a[..40] == Header6(src, dst, a.Length - 40)
    ensures forall k :: 40 <= k < a.Length ==> a[k] == 0
  {
    a[0] := 0x60;
    a[1], a[2], a[3] := 0, 0, 0;
    Write16(a, 4, Cut16(a.Length - 40));
    a[6] := IPPROTO_UDP;
    a[7] := 64;
    assert a[..8] == [0x60, 0, 0, 0] + Be16(Cut16(a.Length - 40)) + [IPPROTO_UDP, 64];
    CopyInto(a, 8, src);
    CopyInto(a, 24, dst);
  }

  method BuildIPv6UDPPacket(src: Option<seq<byte>>, dst: Option<seq<byte>>, srcPort: uint16, dstPort: uint16,
                            payload: seq<byte>) returns (r: Option<seq<byte>>)
    requires (src.Some? ==> |src.value| == 16) && (dst.Some? ==> |dst.value| == 16) && |payload| <= 0xffff
    ensures r.Some? <==> src.Some? && dst.Some?
    ensures r.Some? ==> r.value == Packet6(src.value, dst.value, srcPort, dstPort, payload)
  {
    hide SegmentSum, Csum;
    if src.None? || dst.None? {
      return None;
    }
    var a := new byte[48 + |payload|](_ => 0);
    WriteHeader6(a, src.value, dst.value);
    ghost var d, h := Datagram(srcPort, dstPort, payload), a[..40];
    WriteDatagram(a, 40, srcPort, dstPort, payload);
    assert a[40..] == d && a[..40] == h;
    var u := CalculateUDPChecksumIPv6(src.value, dst.value, a[40..]);
    Write16(a, 46, u);
    assert a[40..] == Put16(d, UDP_CSUM, u) && a[..40] == h;
    assert a[..] == a[..40] + a[40..];
    r := Some(a[..]);
  }

  // ---- Round trip through the parsers, and the receiver's checks

  /** What a receiver reads and verifies after the network header of `pkt`. */
  ghost predicate Delivers(pkt: seq<byte>, ihl: nat, src: seq<byte>, dst: seq<byte>,
                           srcPort: uint16, dstPort: uint16, payload: seq<byte>)
  {
    && |pkt| == ihl + 8 + |payload|
    && ParseUDPFast(pkt, ihl) == Ok(Udp(srcPort, dstPort, Cut16(8 + |payload|), ihl + 8))
    && pkt[ihl + 8..] == payload
    && U16(pkt, ihl + 6) != 0
    && Accepts(SegmentSum(src, dst, 17, pkt[ihl..], 6), U16(pkt, ihl + 6))
  }

  lemma DatagramFields(srcPort: uint16, dstPort: uint16, payload: seq<byte>, c: uint16)
    ensures var d := Put16(Datagram(srcPort, dstPort, payload), UDP_CSUM, c);
            && U16(d, 0) == srcPort && U16(d, 2) == dstPort && U16(d, 4) == Cut16(8 + |payload|)
            && U16(d, UDP_CSUM) == c && d[8..] == payload
            && Blank(d, UDP_CSUM) == Blank(Datagram(srcPort, dstPort, payload), UDP_CSUM)
  {
  }

  lemma DatagramDelivers(h: seq<byte>, src: seq<byte>, dst: seq<byte>,
                         srcPort: uint16, dstPort: uint16, payload: seq<byte>)
    ensures var d := Datagram(srcPort, dstPort, payload);
            Delivers(h + Put16(d, UDP_CSUM, UdpCsum(SegmentSum(src, dst, IPPROTO_UDP, d, UDP_CSUM))), |h|,
                     src, dst, srcPort, dstPort, payload)
  {
    var d := Datagram(srcPort, dstPort, payload);
    var s := SegmentSum(src, dst, IPPROTO_UDP, d, UDP_CSUM);
    var e := Put16(d, UDP_CSUM, UdpCsum(s));
    DatagramFields(srcPort, dstPort, payload, UdpCsum(s));
    UdpCsumAccepted(s);
    hide Datagram, UdpCsum, WordSum, Fold;
    assert (h + e)[|h|..] == e && (h + e)[|h| + 8..] == e[8..];
    assert forall i :: 0 <= i <= 6 ==> U16(h + e, |h| + i) == U16(e, i);
  }

  /** Main result for IPv4, for all addresses, ports and payloads. */
  lemma Packet4Delivers(src: seq<byte>, dst: seq<byte>, srcPort: uint16, dstPort: uint16, payload: seq<byte>)
    requires |src| == |dst| == 4
    ensures var pkt := Packet4(src, dst, srcPort, dstPort, payload);
            && ParseIPv4Fast(pkt) == Ok(Network(17, src, dst, 20))
            && Accepts(HeaderSum(pkt[..20]), U16(pkt, 10))
            && Delivers(pkt, 20, src, dst, srcPort, dstPort, payload)
            && U16(pkt, 2) == Cut16(28 + |payload|)
  {
    hide Datagram, HeaderSum, SegmentSum, Csum, Accepts, UdpCsum;
    var h := Header4(src, dst, 28 + |payload|);
    var g := Put16(h, 10, Csum(HeaderSum(h)));
    var pkt := Packet4(src, dst, srcPort, dstPort, payload);
    DatagramDelivers(g, src, dst, srcPort, dstPort, payload);
    Header4Fields(src, dst, 28 + |payload|);
    hide Delivers, Header4;
    HeaderPrefix(g, pkt[20..]);
    assert pkt == g + pkt[20..];
  }

  /** Exact limit: the length fields are true up to 65507 and 65527 payload bytes; a DoH answer may be longer. */
  lemma Packet4Lengths(src: seq<byte>, dst: seq<byte>, srcPort: uint16, dstPort: uint16, payload: seq<byte>)
    requires |src| == |dst| == 4
    ensures var pkt := Packet4(src, dst, srcPort, dstPort, payload);
            && (U16(pkt, 2) == |pkt| <==> |payload| <= 0xffff - 28)
            && (U16(pkt, 24) == 8 + |payload| <==> |payload| <= 0xffff - 8)
  {
    hide Packet4, SegmentSum, HeaderSum, Accepts;
    Packet4Delivers(src, dst, srcPort, dstPort, payload);
    LengthField(Packet4(src, dst, srcPort, dstPort, payload), 20, src, dst, srcPort, dstPort, payload);
    hide Delivers;
    CutExact(28 + |payload|);
    CutExact(8 + |payload|);
  }

  lemma LengthField(pkt: seq<byte>, ihl: nat, src: seq<byte>, dst: seq<byte>,
                    srcPort: uint16, dstPort: uint16, payload: seq<byte>)
    requires Delivers(pkt, ihl, src, dst, srcPort, dstPort, payload)
    ensures |pkt| == ihl + 8 + |payload| && U16(pkt, ihl + 4) == Cut16(8 + |payload|)
  {
  }

  lemma CutExact(n: nat)
    ensures Cut16(n) == n <==> n <= 0xffff
  {
  }

  lemma HeaderPrefix(g: seq<byte>, rest: seq<byte>)
    requires |g| == 20 && g[0] == 0x45
    ensures (g + rest)[..20] == g && ParseIPv4Fast(g + rest) == Ok(Network(g[9], g[12..16], g[16..20], 20))
    ensures U16(g + rest, 2) == U16(g, 2) && U16(g + rest, 10) == U16(g, 10)
  {
    assert (g + rest)[12..16] == g[12..16] && (g + rest)[16..20] == g[16..20];
  }

  lemma Header4Fields(src: seq<byte>, dst: seq<byte>, total: nat)
    requires |src| == |dst| == 4
    ensures var h := Header4(src, dst, total); var g := Put16(h, 10, Csum(HeaderSum(h)));
            && g[0] == 0x45 && g[9] == IPPROTO_UDP && g[12..16] == src && g[16..20] == dst
            && U16(g, 2) == Cut16(total) && Accepts(HeaderSum(g), U16(g, 10))
  {
    hide WordSum, Fold;
    var h := Header4(src, dst, total);
    var g := Put16(h, 10, Csum(HeaderSum(h)));
    assert Blank(g, 10) == Blank(h, 10);
    WordSumPut16(Blank(h, 10), 0, 0);
    assert U16(Blank(h, 10), 0) == 0x4500;
    CsumAccepted(HeaderSum(h));
  }

  /** Main result for IPv6; the length fields say the truth exactly up to 65527 bytes. */
  lemma Packet6Delivers(src: seq<byte>, dst: seq<byte>, srcPort: uint16, dstPort: uint16, payload: seq<byte>)
    requires |src| == |dst| == 16
    ensures var pkt := Packet6(src, dst, srcPort, dstPort, payload);
            && ParseIPv6Fast(pkt) == Ok(Network(17, src, dst, 40))
            && Delivers(pkt, 40, src, dst, srcPort, dstPort, payload)
            && (U16(pkt, 4) == U16(pkt, 44) == |pkt| - 40 <==> |payload| <= 0xffff - 8)
  {
    var h := Header6(src, dst, 8 + |payload|);
    var pkt := Packet6(src, dst, srcPort, dstPort, payload);
    DatagramDelivers(h, src, dst, srcPort, dstPort, payload);
    assert h[8..24] == src && h[24..40] == dst;
    assert h[0] == 0x60 && h[6] == IPPROTO_UDP && U16(h, 4) == Cut16(8 + |payload|);
    hide Datagram, Header6, SegmentSum;
    assert pkt[8..24] == h[8..24] && pkt[24..40] == h[24..40];
  }

  // ---- A whole datagram that routers pass on

  lemma Header4Rest(src: seq<byte>, dst: seq<byte>, srcPort: uint16, dstPort: uint16, payload: seq<byte>)
    requires |src| == |dst| == 4
    ensures var pkt := Packet4(src, dst, srcPort, dstPort, payload);
            && |pkt| == 28 + |payload| && pkt[0] == 0x45 && pkt[1] == 0 && U16(pkt, 4) == 0x1234
            && U16(pkt, 6) == 0x4000 && pkt[8] == 64
  {
    hide HeaderSum, SegmentSum, Csum, UdpCsum, Datagram;
    var h := Header4(src, dst, 28 + |payload|);
    assert h[0] == 0x45 && h[1] == 0 && h[4] == 0x12 && h[5] == 0x34 && h[6] == 0x40 && h[7] == 0 && h[8] == 64;
  }

  /**
    Main result: to the receiver a built IPv4 packet is a whole datagram, its payload at
    offset 0 and closed at its length; DF is set and it has 64 hops to go.
   */
  lemma Packet4IsWhole(src: seq<byte>, dst: seq<byte>, srcPort: uint16, dstPort: uint16, payload: seq<byte>)
    requires |src| == |dst| == 4
    ensures var pkt := Packet4(src, dst, srcPort, dstPort, payload);
            && F4.AllFit([pkt]) && F4.Reassemble([pkt]) == F4.AtOffset(pkt[20..], 0)
            && (forall n: nat :: F4.EndsAt([pkt], n) <==> n == 8 + |payload|)
            && (U16(pkt, 6) / 0x4000) % 2 == 1 && pkt[8] == 64 && pkt[1] == 0
  {
    Header4Rest(src, dst, srcPort, dstPort, payload);
    var pkt := Packet4(src, dst, srcPort, dstPort, payload);
    hide Packet4;
    assert F4.FragmentOffset(pkt) == 0 && !F4.MoreFragments(pkt) && F4.Payload(pkt) == pkt[20..];
    var one: seq<seq<byte>> := [pkt];
    assert one[..0] == [];
    assert F4.Reassemble(one) == F4.Place(map[], pkt);
    assert forall n: nat :: F4.EndsAt([pkt], n) <==> F4.Closes([pkt][0], n);
  }

  /** A built IPv6 packet has 64 hops to go, and no traffic class or flow label. */
  lemma Packet6Header(src: seq<byte>, dst: seq<byte>, srcPort: uint16, dstPort: uint16, payload: seq<byte>)
    requires |src| == |dst| == 16
    ensures var pkt := Packet6(src, dst, srcPort, dstPort, payload);
            |pkt| == 48 + |payload| && pkt[..4] == [0x60, 0, 0, 0] && pkt[7] == 64
  {
    hide SegmentSum, UdpCsum, Datagram;
    var h := Header6(src, dst, 8 + |payload|);
    assert h[0] == 0x60 && h[1] == 0 && h[2] == 0 && h[3] == 0 && h[7] == 64;
  }
}
