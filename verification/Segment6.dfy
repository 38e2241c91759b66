/**
  Re-segmentation of large IPv6 TCP packets, proved against the TCP sequence
  space (RFC 9293 section 3.4): which octet or control flag sits at which number.
 */
module Segment6 {
  import opened Bytes
  import opened Checksum

  const M := 0x1_0000_0000
  const TCP := 40
  const FLAGS := 53
  const CSUM := 56

  // ---- Reading a segment

  function TcpHeaderLength(p: seq<byte>): nat requires |p| >= 60 { (p[52] as int / 16) * 4 }
  function HeadersLength(p: seq<byte>): nat requires |p| >= 60 { TCP + TcpHeaderLength(p) }

  ghost predicate HeaderFits(p: seq<byte>) { |p| >= 60 && TcpHeaderLength(p) >= 20 && HeadersLength(p) <= |p| }

  function Data(p: seq<byte>): seq<byte> requires HeaderFits(p) { p[HeadersLength(p)..] }
  function Seq(p: seq<byte>): uint32 requires |p| >= 60 { U32(p, TCP + 4) }
  function Fin(p: seq<byte>): bool requires |p| >= 60 { p[FLAGS] % 2 == 1 }
  function Syn(p: seq<byte>): bool requires |p| >= 60 { (p[FLAGS] / 2) % 2 == 1 }
  function Psh(p: seq<byte>): bool requires |p| >= 60 { (p[FLAGS] / 8) % 2 == 1 }

  /** `flags &^ (TCP_PSH | TCP_FIN)` */
  function ClearPshFin(flags: byte): byte
  {
    flags - flags % 2 - ((flags / 8) % 2) * 8
  }

  // ---- The segments that the source builds

  function Headed(p: seq<byte>, offset: nat, end: nat): (r: seq<byte>)
    requires HeaderFits(p) && offset <= end <= |Data(p)|
    ensures |r| == HeadersLength(p) + end - offset
  {
    var raw := p[..HeadersLength(p)] + Data(p)[offset..end];
    var sized := Put16(raw, 4, (TcpHeaderLength(p) + end - offset) % 0x1_0000);
    var numbered := Put32(sized, TCP + 4, (Seq(p) + offset) % M);
    if end < |Data(p)| then numbered[FLAGS := ClearPshFin(p[FLAGS])] else numbered
  }

  /** The TCP sum of a segment, its checksum field left out. */
  function TcpSum(f: seq<byte>): nat
    requires |f| >= 60
  {
    SegmentSum(f[8..24], f[24..40], 6, f[TCP..], 16)
  }

  function Segment(p: seq<byte>, offset: nat, end: nat): (r: seq<byte>)
    requires HeaderFits(p) && offset <= end <= |Data(p)|
    ensures |r| == HeadersLength(p) + end - offset
  {
    Put16(Headed(p, offset, end), CSUM, Csum(TcpSum(Headed(p, offset, end))))
  }

  predicate Splits(p: seq<byte>, mtu: int)
  {
    && |p| >= 60 && p[0] / 16 == 6 && p[6] == IPPROTO_TCP && |p| > mtu
    && HeadersLength(p) < |p| && TcpHeaderLength(p) >= 20 && mtu - HeadersLength(p) > 0
  }

  function SegmentsFrom(p: seq<byte>, max: nat, offset: nat): seq<seq<byte>>
    requires HeaderFits(p) && max > 0
    decreases |p| - offset
  {
    if offset >= |Data(p)| then []
    else [Segment(p, offset, Min(offset + max, |Data(p)|))] + SegmentsFrom(p, max, offset + max)
  }

  function Segments(p: seq<byte>, mtu: int): seq<seq<byte>>
  {
    if Splits(p, mtu) then SegmentsFrom(p, mtu - HeadersLength(p), 0) else [p]
  }

  method BuildHeaded(p: seq<byte>, offset: nat, end: nat) returns (frag: array<byte>)
    requires HeaderFits(p) && offset <= end <= |Data(p)|
    ensures fresh(frag) && frag[..] == Headed(p, offset, end)
  {
    var total, data := HeadersLength(p), Data(p);
    frag := new byte[total + end - offset];
    CopyInto(frag, 0, p[..total]);
    CopyInto(frag, total, data[offset..end]);
    assert frag[..] == p[..total] + data[offset..end];
    Write16(frag, 4, (TcpHeaderLength(p) + end - offset) % 0x1_0000);
    Write32(frag, TCP + 4, (Seq(p) + offset) % M);
    if end < |data| {
      ghost var before := frag[..];
      frag[FLAGS] := ClearPshFin(p[FLAGS]);
      assert frag[..] == before[FLAGS := ClearPshFin(p[FLAGS])];
    }
  }

  /** Zero the checksum field, recompute, store. */
  method SealSegment(frag: array<byte>)
    requires 60 <= frag.Length <= 0xffff
    modifies frag
    ensures frag[..] == Put16(old(frag[..]), CSUM, Csum(TcpSum(old(frag[..]))))
  {
    hide WordSum, Fold;
    ghost var before := frag[..];
    Write16(frag, CSUM, 0);
    assert frag[8..24] == before[8..24] && frag[24..40] == before[24..40];
    assert frag[TCP..] == Blank(before[TCP..], TCP_CSUM);
    var c := CalculateTCPChecksumIPv6(frag[8..24], frag[24..40], frag[TCP..]);
    Write16(frag, CSUM, c);
  }

  method BuildSegment(p: seq<byte>, offset: nat, end: nat) returns (frag: array<byte>)
    requires HeaderFits(p) && offset <= end <= |Data(p)| && |p| <= 0xffff
    ensures fresh(frag) && frag[..] == Segment(p, offset, end)
  {
    hide Headed, TcpSum;
    frag := BuildHeaded(p, offset, end);
    SealSegment(frag);
  }

  /** `done` is what precedes the segments from `offset` on. */
  ghost predicate Emitted(p: seq<byte>, max: nat, offset: nat, done: seq<seq<byte>>)
    requires HeaderFits(p) && max > 0
  {
    done + SegmentsFrom(p, max, offset) == SegmentsFrom(p, max, 0)
  }

  lemma EmittedStart(p: seq<byte>, max: nat)
    requires HeaderFits(p) && max > 0
    ensures Emitted(p, max, 0, [])
  {
    hide SegmentsFrom;
  }

  lemma EmittedStep(p: seq<byte>, max: nat, offset: nat, done: seq<seq<byte>>)
    requires HeaderFits(p) && max > 0 && offset < |Data(p)| && Emitted(p, max, offset, done)
    ensures Emitted(p, max, offset + max, done + [Segment(p, offset, Min(offset + max, |Data(p)|))])
  {
    hide Segment, Data;
    var next := Segment(p, offset, Min(offset + max, |Data(p)|));
    SegmentsUnfold(p, max, offset);
    hide SegmentsFrom, Min;
    assert (done + [next]) + SegmentsFrom(p, max, offset + max) == done + ([next] + SegmentsFrom(p, max, offset + max));
  }

  lemma SegmentsUnfold(p: seq<byte>, max: nat, offset: nat)
    requires HeaderFits(p) && max > 0 && offset < |Data(p)|
    ensures SegmentsFrom(p, max, offset)
            == [Segment(p, offset, Min(offset + max, |Data(p)|))] + SegmentsFrom(p, max, offset + max)
  {
    hide Segment, Data;
  }

  lemma EmittedEnd(p: seq<byte>, max: nat, offset: nat, done: seq<seq<byte>>)
    requires HeaderFits(p) && max > 0 && offset >= |Data(p)| && Emitted(p, max, offset, done)
    ensures done == SegmentsFrom(p, max, 0)
  {
    assert SegmentsFrom(p, max, offset) == [];
  }

  method FragmentIPv6TCP(p: seq<byte>, mtu: int) returns (segments: seq<seq<byte>>)
    requires |p| <= 0xffff
    ensures segments == Segments(p, mtu)
  {
    hide Segment, SegmentsFrom, Emitted;
    if !Splits(p, mtu) {
      return [p];
    }
    var max, n := mtu - HeadersLength(p), |Data(p)|;
    segments := [];
    var offset := 0;
    EmittedStart(p, max);
    hide Splits, Data;
    while offset < n
      invariant 0 <= offset
      invariant Emitted(p, max, offset, segments)
      decreases n - offset
    {
      var frag := BuildSegment(p, offset, Min(offset + max, n));
      EmittedStep(p, max, offset, segments);
      segments := segments + [frag[..]];
      offset := offset + max;
    }
    EmittedEnd(p, max, offset, segments);
  }

  // ---- Every segment on its own

  /** `f` carries data bytes `offset..end` of `p` at their sequence numbers, with valid fields. */
  ghost predicate IsPiece(f: seq<byte>, p: seq<byte>, offset: nat, end: nat)
    requires HeaderFits(p) && offset <= end <= |Data(p)|
  {
    && HeaderFits(f) && HeadersLength(f) == HeadersLength(p)
    && U16(f, 4) == |f| - TCP && |f| == HeadersLength(p) + end - offset
    && Seq(f) == (Seq(p) + offset) % M && Data(f) == Data(p)[offset..end]
    && f[FLAGS] == (if end == |Data(p)| then p[FLAGS] else ClearPshFin(p[FLAGS]))
    && U16(f, CSUM) == Csum(TcpSum(f))
    && forall k :: 0 <= k < HeadersLength(p) && k !in {4, 5, 44, 45, 46, 47, 53, 56, 57} ==> f[k] == p[k]
  }

  lemma FlagBits(x: nat, hi: nat, psh: nat, mid: nat, fin: nat)
    requires psh < 2 && mid < 4 && fin < 2 && x == 16 * hi + 8 * psh + 2 * mid + fin
    ensures x / 16 == hi && (x / 8) % 2 == psh && (x / 2) % 4 == mid && x % 2 == fin
    ensures (x / 2) % 2 == mid % 2
  {
    assert x / 8 == 2 * hi + psh;
    assert x / 2 == 4 * (2 * hi + psh) + mid;
    assert x / 2 == 2 * (2 * (2 * hi + psh) + mid / 2) + mid % 2;
  }

  lemma ClearedFlags(flags: byte)
    ensures var c := ClearPshFin(flags);
            && c % 2 == 0 && (c / 8) % 2 == 0 && (c / 2) % 2 == (flags / 2) % 2
            && (c / 2) % 4 == (flags / 2) % 4 && c / 16 == flags / 16
  {
    var half, eighth := flags / 2, flags / 8;
    var hi, psh, mid, fin := eighth / 2, eighth % 2, half % 4, flags % 2;
    assert flags == 2 * half + fin && half == 4 * eighth + mid && eighth == 2 * hi + psh;
    FlagBits(flags, hi, psh, mid, fin);
    FlagBits(ClearPshFin(flags), hi, 0, mid, 0);
  }

  lemma HeadedFields(p: seq<byte>, offset: nat, end: nat)
    requires HeaderFits(p) && |p| <= 0xffff && offset <= end <= |Data(p)|
    ensures var h := Headed(p, offset, end);
            && U16(h, 4) == |h| - TCP && Seq(h) == (Seq(p) + offset) % M
            && h[HeadersLength(p)..] == Data(p)[offset..end]
            && h[FLAGS] == (if end == |Data(p)| then p[FLAGS] else ClearPshFin(p[FLAGS]))
            && forall k :: 0 <= k < HeadersLength(p) && k !in {4, 5, 44, 45, 46, 47, 53} ==> h[k] == p[k]
  {
    var h, raw := Headed(p, offset, end), p[..HeadersLength(p)] + Data(p)[offset..end];
    assert raw[HeadersLength(p)..] == Data(p)[offset..end];
    assert h[HeadersLength(p)..] == raw[HeadersLength(p)..];
  }

  lemma SealFields(h: seq<byte>, c: uint16)
    requires |h| >= 60
    ensures var f := Put16(h, CSUM, c);
            && U16(f, 4) == U16(h, 4) && Seq(f) == Seq(h) && f[FLAGS] == h[FLAGS] && f[52] == h[52]
            && TcpSum(f) == TcpSum(h)
  {
    hide WordSum;
    var f := Put16(h, CSUM, c);
    assert f[8..24] == h[8..24] && f[24..40] == h[24..40];
    assert Blank(f[TCP..], TCP_CSUM) == Blank(h[TCP..], TCP_CSUM);
  }

  lemma SegmentIsPiece(p: seq<byte>, offset: nat, end: nat)
    requires HeaderFits(p) && |p| <= 0xffff && offset <= end <= |Data(p)|
    ensures IsPiece(Segment(p, offset, end), p, offset, end)
  {
    hide Headed, TcpSum, Csum;
    var h, f := Headed(p, offset, end), Segment(p, offset, end);
    HeadedFields(p, offset, end);
    SealFields(h, Csum(TcpSum(h)));
    assert HeadersLength(f) == HeadersLength(p);
    assert Data(f) == h[HeadersLength(p)..];
  }

  // ---- The sequence space

  datatype Item = SynFlag | Octet(value: byte) | FinFlag

  /** `p` occupies sequence number `s` with `item`: SYN first, then the data, then FIN. */
  ghost predicate Occupies(p: seq<byte>, s: uint32, item: Item)
    requires HeaderFits(p)
  {
    var start := Seq(p) + if Syn(p) then 1 else 0;
    match item
    case SynFlag => Syn(p) && s == Seq(p)
    case Octet(b) => exists k :: 0 <= k < |Data(p)| && Data(p)[k] == b && s == (start + k) % M
    case FinFlag => Fin(p) && s == (start + |Data(p)|) % M
  }

  ghost predicate SomeOccupies(fs: seq<seq<byte>>, s: uint32, item: Item)
    requires forall i :: 0 <= i < |fs| ==> HeaderFits(fs[i])
  {
    exists i :: 0 <= i < |fs| && Occupies(fs[i], s, item)
  }

  /** The segments fill the sequence space exactly as `p` does. */
  ghost predicate SameSpace(fs: seq<seq<byte>>, p: seq<byte>)
    requires HeaderFits(p) && forall i :: 0 <= i < |fs| ==> HeaderFits(fs[i])
  {
    forall s: uint32, item: Item :: SomeOccupies(fs, s, item) <==> Occupies(p, s, item)
  }

  /** Contiguous pieces from `offset` to the end of the data, each within the MTU. */
  ghost predicate Chain(fs: seq<seq<byte>>, p: seq<byte>, mtu: int, offset: nat)
    requires HeaderFits(p)
  {
    if |fs| == 0 then offset == |Data(p)|
    else
      && HeaderFits(fs[0]) && |fs[0]| <= mtu
      && var end := offset + |Data(fs[0])|;
      && offset < end <= |Data(p)| && IsPiece(fs[0], p, offset, end)
      && Chain(fs[1..], p, mtu, end)
  }

  lemma PieceLength(f: seq<byte>, p: seq<byte>, offset: nat, end: nat)
    requires HeaderFits(p) && offset <= end <= |Data(p)| && IsPiece(f, p, offset, end)
    ensures HeaderFits(f) && |Data(f)| == end - offset && |f| == HeadersLength(p) + end - offset
  {
  }

  lemma {:induction false} SegmentsChain(p: seq<byte>, mtu: int, offset: nat)
    requires HeaderFits(p) && |p| <= 0xffff && mtu > HeadersLength(p) && offset < |Data(p)|
    ensures Chain(SegmentsFrom(p, mtu - HeadersLength(p), offset), p, mtu, offset)
    decreases |p| - offset
  {
    hide Segment, IsPiece;
    var max := mtu - HeadersLength(p);
    var fs, end := SegmentsFrom(p, max, offset), Min(offset + max, |Data(p)|);
    SegmentIsPiece(p, offset, end);
    PieceLength(fs[0], p, offset, end);
    assert fs[1..] == SegmentsFrom(p, max, offset + max);
    if end < |Data(p)| {
      SegmentsChain(p, mtu, end);
    }
  }

  /** `f` is some piece of `p` at or after `offset`. */
  ghost predicate PieceFrom(f: seq<byte>, p: seq<byte>, mtu: int, offset: nat, o: nat, e: nat)
    requires HeaderFits(p)
  {
    offset <= o < e <= |Data(p)| && |f| <= mtu && IsPiece(f, p, o, e)
  }

  lemma {:induction false} ChainPieces(fs: seq<seq<byte>>, p: seq<byte>, mtu: int, offset: nat, i: nat)
    returns (o: nat, e: nat)
    requires HeaderFits(p) && Chain(fs, p, mtu, offset) && i < |fs|
    ensures PieceFrom(fs[i], p, mtu, offset, o, e)
    ensures e == |Data(p)| <==> i == |fs| - 1
    ensures i > 0 ==> o > offset
  {
    hide IsPiece;
    var end := offset + |Data(fs[0])|;
    if i == 0 {
      o, e := offset, end;
    } else {
      o, e := ChainPieces(fs[1..], p, mtu, end, i - 1);
      assert fs[1..][i - 1] == fs[i];
    }
  }

  lemma {:induction false} ChainCovers(fs: seq<seq<byte>>, p: seq<byte>, mtu: int, offset: nat, k: nat)
    returns (i: nat, o: nat, e: nat)
    requires HeaderFits(p) && Chain(fs, p, mtu, offset) && offset <= k < |Data(p)|
    ensures i < |fs| && o <= k < e && PieceFrom(fs[i], p, mtu, offset, o, e)
  {
    hide IsPiece;
    var end := offset + |Data(fs[0])|;
    if k < end {
      i, o, e := 0, offset, end;
    } else {
      i, o, e := ChainCovers(fs[1..], p, mtu, end, k);
      assert fs[1..][i] == fs[i + 1];
      i := i + 1;
    }
  }

  lemma ModAdd(a: nat, b: nat)
    ensures (a % M + b) % M == (a + b) % M
  {
    var q := a / M;
    assert a + b == (a % M + b) + M * q;
  }

  /** Without SYN a piece occupies only what the packet does. */
  lemma PieceSound(f: seq<byte>, p: seq<byte>, o: nat, e: nat, s: uint32, item: Item)
    requires HeaderFits(p) && !Syn(p) && o < e <= |Data(p)| && IsPiece(f, p, o, e)
    requires Occupies(f, s, item)
    ensures Occupies(p, s, item)
  {
    PieceData(f, p, o, e);
    PieceFlags(f, p, o, e);
    hide IsPiece, HeaderFits, Data, U32, Syn, Fin, Psh;
    if item.Octet? {
      PieceOctet(f, p, o, s, item);
    } else {
      ModAdd(Seq(p) + o, |Data(f)|);
    }
  }

  lemma PieceOctet(f: seq<byte>, p: seq<byte>, o: nat, s: uint32, item: Item)
    requires HeaderFits(f) && HeaderFits(p) && !Syn(f) && !Syn(p) && item.Octet? && Occupies(f, s, item)
    requires Seq(f) == (Seq(p) + o) % M && o + |Data(f)| <= |Data(p)| && Data(f) == Data(p)[o..o + |Data(f)|]
    ensures Occupies(p, s, item)
  {
    hide Data, U32, Syn, Fin, Psh;
    var k :| 0 <= k < |Data(f)| && Data(f)[k] == item.value && s == (Seq(f) + k) % M;
    ModAdd(Seq(p) + o, k);
    assert Data(p)[o + k] == item.value;
  }

  lemma PieceData(f: seq<byte>, p: seq<byte>, o: nat, e: nat)
    requires HeaderFits(p) && o < e <= |Data(p)| && IsPiece(f, p, o, e)
    ensures HeaderFits(f) && Seq(f) == (Seq(p) + o) % M && Data(f) == Data(p)[o..e] && |Data(f)| == e - o
  {
  }

  /** SYN is copied to every piece; FIN and PSH reach only the last one. */
  lemma PieceFlags(f: seq<byte>, p: seq<byte>, o: nat, e: nat)
    requires HeaderFits(p) && o < e <= |Data(p)| && IsPiece(f, p, o, e)
    ensures (Syn(f) <==> Syn(p)) && (Fin(f) <==> Fin(p) && e == |Data(p)|) && (Psh(f) <==> Psh(p) && e == |Data(p)|)
  {
    ClearedFlags(p[FLAGS]);
    hide ClearPshFin, TcpSum;
  }

  /** Without SYN a piece occupies its share of what the packet does. */
  lemma PieceComplete(f: seq<byte>, p: seq<byte>, o: nat, e: nat, k: nat)
    requires HeaderFits(p) && !Syn(p) && o <= k < e <= |Data(p)| && IsPiece(f, p, o, e)
    ensures HeaderFits(f) && Occupies(f, (Seq(p) + k) % M, Octet(Data(p)[k]))
    ensures Fin(p) && e == |Data(p)| ==> Occupies(f, (Seq(p) + e) % M, FinFlag)
  {
    PieceData(f, p, o, e);
    PieceFlags(f, p, o, e);
    hide IsPiece, HeaderFits;
    ModAdd(Seq(p) + o, k - o);
    ModAdd(Seq(p) + o, e - o);
    assert Data(f)[k - o] == Data(p)[k];
  }

  lemma ByteComplete(fs: seq<seq<byte>>, p: seq<byte>, mtu: int, k: nat)
    requires HeaderFits(p) && !Syn(p) && Chain(fs, p, mtu, 0) && k < |Data(p)|
    requires forall i :: 0 <= i < |fs| ==> HeaderFits(fs[i])
    ensures SomeOccupies(fs, (Seq(p) + k) % M, Octet(Data(p)[k]))
    ensures k == |Data(p)| - 1 && Fin(p) ==> SomeOccupies(fs, (Seq(p) + |Data(p)|) % M, FinFlag)
  {
    hide IsPiece, HeaderFits, Chain, Occupies, Data, Syn, Fin, Seq;
    var i, o, e := ChainCovers(fs, p, mtu, 0, k);
    PieceComplete(fs[i], p, o, e, k);
  }

  /** Without SYN everything the packet occupies is in some piece. */
  lemma ChainComplete(fs: seq<seq<byte>>, p: seq<byte>, mtu: int, s: uint32, item: Item)
    requires HeaderFits(p) && !Syn(p) && |Data(p)| > 0 && Chain(fs, p, mtu, 0) && Occupies(p, s, item)
    requires forall i :: 0 <= i < |fs| ==> HeaderFits(fs[i])
    ensures SomeOccupies(fs, s, item)
  {
    hide SomeOccupies, Chain;
    if item.Octet? {
      var k :| 0 <= k < |Data(p)| && Data(p)[k] == item.value && s == (Seq(p) + k) % M;
      ByteComplete(fs, p, mtu, k);
    } else {
      ByteComplete(fs, p, mtu, |Data(p)| - 1);
    }
  }

  lemma AllPiecesFit(fs: seq<seq<byte>>, p: seq<byte>, mtu: int)
    requires HeaderFits(p) && Chain(fs, p, mtu, 0)
    ensures forall i :: 0 <= i < |fs| ==> HeaderFits(fs[i])
  {
    forall i | 0 <= i < |fs|
      ensures HeaderFits(fs[i])
    {
      var o, e := ChainPieces(fs, p, mtu, 0, i);
    }
  }

  /** With SYN the second segment repeats it at a number that holds data in the packet. */
  lemma SynRepeats(fs: seq<seq<byte>>, p: seq<byte>, mtu: int)
    requires HeaderFits(p) && Syn(p) && |p| <= 0xffff && Chain(fs, p, mtu, 0) && |fs| > 1
    requires forall i :: 0 <= i < |fs| ==> HeaderFits(fs[i])
    ensures !SameSpace(fs, p)
  {
    hide IsPiece;
    var o, e := ChainPieces(fs, p, mtu, 0, 1);
    PieceData(fs[1], p, o, e);
    PieceFlags(fs[1], p, o, e);
    var s := Seq(fs[1]);
    assert Occupies(fs[1], s, SynFlag);
    assert SomeOccupies(fs, s, SynFlag);
    assert s != Seq(p) by { ShiftMoves(Seq(p), o); }
    assert !Occupies(p, s, SynFlag);
  }

  lemma ShiftMoves(a: uint32, o: nat)
    requires 0 < o < M
    ensures (a + o) % M != a
  {
    if a + o < M {
    } else {
      assert (a + o) % M == a + o - M;
    }
  }

  /**
    Main result: the segments fill the TCP sequence space exactly as the original
    packet does, modulo 2^32, if and only if the packet does not carry SYN.
   */
  lemma SegmentsPreserveStream(p: seq<byte>, mtu: int)
    requires Splits(p, mtu) && |p| <= 0xffff
    ensures forall i :: 0 <= i < |Segments(p, mtu)| ==> HeaderFits(Segments(p, mtu)[i])
    ensures SameSpace(Segments(p, mtu), p) <==> !Syn(p)
  {
    var fs := Segments(p, mtu);
    hide SegmentsFrom;
    SegmentsChain(p, mtu, 0);
    AllPiecesFit(fs, p, mtu);
    AtLeastTwo(p, mtu);
    hide Segments, Chain, Occupies, HeaderFits, IsPiece, Splits, Syn, Data;
    if Syn(p) {
      SynRepeats(fs, p, mtu);
    } else {
      forall s: uint32, item: Item
        ensures SomeOccupies(fs, s, item) <==> Occupies(p, s, item)
      {
        if SomeOccupies(fs, s, item) {
          var i :| 0 <= i < |fs| && Occupies(fs[i], s, item);
          var o, e := ChainPieces(fs, p, mtu, 0, i);
          PieceSound(fs[i], p, o, e, s, item);
        }
        if Occupies(p, s, item) {
          ChainComplete(fs, p, mtu, s, item);
        }
      }
    }
  }

  lemma AtLeastTwo(p: seq<byte>, mtu: int)
    requires Splits(p, mtu)
    ensures |Segments(p, mtu)| > 1 && HeaderFits(p) && |Data(p)| > 0
  {
    var max := mtu - HeadersLength(p);
    assert SegmentsFrom(p, max, max) != [];
  }

  function TotalData(fs: seq<seq<byte>>): nat
    requires forall i :: 0 <= i < |fs| ==> HeaderFits(fs[i])
  {
    if fs == [] then 0 else |Data(fs[0])| + TotalData(fs[1..])
  }

  lemma {:induction false} ChainTotal(fs: seq<seq<byte>>, p: seq<byte>, mtu: int, offset: nat)
    requires HeaderFits(p) && Chain(fs, p, mtu, offset)
    requires forall i :: 0 <= i < |fs| ==> HeaderFits(fs[i])
    ensures offset + TotalData(fs) == |Data(p)|
  {
    if |fs| > 0 {
      ChainTotal(fs[1..], p, mtu, offset + |Data(fs[0])|);
    }
  }

  ghost predicate GoodSegment(f: seq<byte>, p: seq<byte>, mtu: int, last: bool)
    requires HeaderFits(p)
  {
    && HeaderFits(f) && |f| <= mtu && Accepts(TcpSum(f), U16(f, CSUM))
    && (Fin(f) <==> Fin(p) && last) && (Psh(f) <==> Psh(p) && last)
  }

  lemma PieceIsGood(f: seq<byte>, p: seq<byte>, mtu: int, o: nat, e: nat)
    requires HeaderFits(p) && PieceFrom(f, p, mtu, 0, o, e)
    ensures GoodSegment(f, p, mtu, e == |Data(p)|)
  {
    hide TcpSum, Csum, Accepts, ClearPshFin;
    PieceFlags(f, p, o, e);
    TcpSumPositive(f);
    CsumAccepted(TcpSum(f));
  }

  /**
    Each segment fits the MTU and its checksum verifies; FIN and PSH appear on the
    last segment only, and only if they were set; no octet is sent twice.
   */
  lemma SegmentsFit(p: seq<byte>, mtu: int)
    requires Splits(p, mtu) && |p| <= 0xffff
    ensures var fs := Segments(p, mtu);
            && Chain(fs, p, mtu, 0)
            && (forall i :: 0 <= i < |fs| ==> GoodSegment(fs[i], p, mtu, i == |fs| - 1) && HeaderFits(fs[i]))
            && TotalData(fs) == |Data(p)|
  {
    var fs := Segments(p, mtu);
    hide SegmentsFrom, IsPiece;
    SegmentsChain(p, mtu, 0);
    AllPiecesFit(fs, p, mtu);
    ChainTotal(fs, p, mtu, 0);
    hide Segments, Splits, Data, Chain, TotalData, GoodSegment, PieceFrom, HeaderFits;
    forall i | 0 <= i < |fs|
      ensures GoodSegment(fs[i], p, mtu, i == |fs| - 1)
    {
      var o, e := ChainPieces(fs, p, mtu, 0, i);
      PieceIsGood(fs[i], p, mtu, o, e);
    }
  }

  lemma TcpSumPositive(f: seq<byte>)
    requires |f| >= 60
    ensures TcpSum(f) > 0
  {
  }

  // ---- When a packet is split, and how far

  lemma {:induction false} SegmentsAreFull(p: seq<byte>, max: nat, offset: nat, i: nat)
    requires HeaderFits(p) && max > 0 && i + 1 < |SegmentsFrom(p, max, offset)|
    ensures |SegmentsFrom(p, max, offset)[i]| == HeadersLength(p) + max
    decreases i
  {
    hide Segment;
    var fs := SegmentsFrom(p, max, offset);
    assert fs[1..] == SegmentsFrom(p, max, offset + max);
    if i == 0 {
      assert offset + max < |Data(p)|;
    } else {
      SegmentsAreFull(p, max, offset + max, i - 1);
      assert fs[i] == fs[1..][i - 1];
    }
  }

  /** The length of the headers of an IPv6 TCP packet, from its data offset nibble. */
  function HeaderBytes(p: seq<byte>): nat requires |p| >= 60 { 40 + (p[52] as int / 16) * 4 }

  /**
    Main result, for every packet and MTU: what is sent fits the MTU if and only if the
    packet does, or is an IPv6 TCP packet with whole headers, data and room for some of
    it; what fits, or cannot be split, is sent as it is.
   */
  lemma SegmentsWithinMtu(p: seq<byte>, mtu: int)
    requires |p| <= 0xffff
    ensures var fs := Segments(p, mtu); var fit := forall i :: 0 <= i < |fs| ==> |fs[i]| <= mtu;
            && (fit <==> |p| <= mtu || (|p| >= 60 && p[0] / 16 == 6 && p[6] == 6 && 60 <= HeaderBytes(p) < |p|
                                        && HeaderBytes(p) < mtu))
            && (|p| <= mtu || !fit ==> fs == [p])
  {
    if Splits(p, mtu) {
      SegmentsFit(p, mtu);
    } else {
      assert Segments(p, mtu)[0] == p;
    }
  }

  /** A packet that is split is split no finer than it must: all but the last segment are as long as the MTU. */
  lemma SegmentsFillMtu(p: seq<byte>, mtu: int, i: nat)
    requires |p| <= 0xffff && i + 1 < |Segments(p, mtu)|
    ensures |Segments(p, mtu)[i]| == mtu
  {
    SegmentsAreFull(p, mtu - HeadersLength(p), 0, i);
  }
}
