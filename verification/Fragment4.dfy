/**
  IPv4 fragmentation of large-send packets, proved against reassembly at the
  receiver (RFC 791 section 3.2).
 */
module Fragment4 {
  import opened Bytes
  import opened Checksum
  import opened Headers

  const MF: uint16 := 0x2000

  // ---- Reading a fragment, as a receiver does

  function FragmentField(f: seq<byte>): uint16 requires |f| >= 20 { U16(f, 6) }
  function MoreFragments(f: seq<byte>): bool requires |f| >= 20 { (FragmentField(f) / MF) % 2 == 1 }
  function FragmentOffset(f: seq<byte>): nat requires |f| >= 20 { (FragmentField(f) % MF) * 8 }

  ghost predicate HeaderFits(f: seq<byte>) { 20 <= |f| && 20 <= Ihl(f) <= |f| }

  function Payload(f: seq<byte>): seq<byte>
    requires HeaderFits(f)
  {
    f[Ihl(f)..]
  }

  // ---- The fragments that the source builds

  function WithMore(field: uint16, more: bool): uint16
  {
    if more && (field / MF) % 2 == 0 then field + MF else field
  }

  function Fragment(p: seq<byte>, offset: nat, end: nat): (f: seq<byte>)
    requires HeaderFits(p) && offset <= end <= |Payload(p)|
    ensures |f| == Ihl(p) + end - offset
  {
    var raw := p[..Ihl(p)] + Payload(p)[offset..end];
    var sized := Put16(raw, 2, |raw| % 0x1_0000);
    var placed := Put16(sized, 6, WithMore((offset / 8) % 0x1_0000, end < |Payload(p)|));
    Put16(placed, 10, Csum(HeaderSum(placed[..Ihl(p)])))
  }

  /** `(mtu - ipHdrLen) &^ 7`: rounded down to whole 8-byte blocks. */
  function MaxPayload(p: seq<byte>, mtu: int): int
    requires |p| > 0
  {
    (mtu - Ihl(p)) / 8 * 8
  }

  predicate Splits(p: seq<byte>, mtu: int)
  {
    && |p| > 0 && p[0] / 16 == 4 && |p| > mtu
    && 20 <= Ihl(p) < |p| && MaxPayload(p, mtu) > 0
  }

  function FragmentsFrom(p: seq<byte>, max: nat, offset: nat): seq<seq<byte>>
    requires HeaderFits(p) && max > 0
    decreases |p| - offset
  {
    if offset >= |Payload(p)| then []
    else [Fragment(p, offset, Min(offset + max, |Payload(p)|))] + FragmentsFrom(p, max, offset + max)
  }

  function Fragments(p: seq<byte>, mtu: int): seq<seq<byte>>
  {
    if |p| == 0 then [] else if !Splits(p, mtu) then [p] else FragmentsFrom(p, MaxPayload(p, mtu), 0)
  }

  /** Zero the header checksum, sum the header, store the complement. */
  method SealHeader(a: array<byte>, hdrLen: nat)
    requires 20 <= hdrLen <= a.Length && hdrLen <= 60
    modifies a
    ensures a[..] == Put16(old(a[..]), 10, Csum(HeaderSum(old(a[..])[..hdrLen])))
  {
    hide WordSum, Fold;
    ghost var placed := a[..];
    Write16(a, 10, 0);
    assert a[..hdrLen] == Blank(placed[..hdrLen], 10);
    var sum := AddWords(0, a[..hdrLen], None);
    var folded := FoldLoop(sum);
    Write16(a, 10, Not16(folded));
  }

  method BuildFragment(p: seq<byte>, offset: nat, end: nat) returns (frag: array<byte>)
    requires HeaderFits(p) && offset <= end <= |Payload(p)|
    ensures fresh(frag) && frag[..] == Fragment(p, offset, end)
  {
    hide WordSum, Fold, HeaderSum;
    var hdrLen, payload := Ihl(p), Payload(p);
    frag := new byte[hdrLen + end - offset];
    CopyInto(frag, 0, p[..hdrLen]);
    CopyInto(frag, hdrLen, payload[offset..end]);
    assert frag[..] == p[..hdrLen] + payload[offset..end];
    Write16(frag, 2, frag.Length % 0x1_0000);
    Write16(frag, 6, WithMore((offset / 8) % 0x1_0000, end < |payload|));
    SealHeader(frag, hdrLen);
  }

  /** `done` is what precedes the fragments from `offset` on. */
  ghost predicate Emitted(p: seq<byte>, max: nat, offset: nat, done: seq<seq<byte>>)
    requires HeaderFits(p) && max > 0
  {
    done + FragmentsFrom(p, max, offset) == FragmentsFrom(p, max, 0)
  }

  lemma EmittedStep(p: seq<byte>, max: nat, offset: nat, done: seq<seq<byte>>)
    requires HeaderFits(p) && max > 0 && offset < |Payload(p)| && Emitted(p, max, offset, done)
    ensures Emitted(p, max, offset + max, done + [Fragment(p, offset, Min(offset + max, |Payload(p)|))])
  {
    hide Fragment, Payload;
    var next := Fragment(p, offset, Min(offset + max, |Payload(p)|));
    FragmentsUnfold(p, max, offset);
    hide FragmentsFrom, Min;
    assert (done + [next]) + FragmentsFrom(p, max, offset + max) == done + ([next] + FragmentsFrom(p, max, offset + max));
  }

  lemma FragmentsUnfold(p: seq<byte>, max: nat, offset: nat)
    requires HeaderFits(p) && max > 0 && offset < |Payload(p)|
    ensures FragmentsFrom(p, max, offset)
            == [Fragment(p, offset, Min(offset + max, |Payload(p)|))] + FragmentsFrom(p, max, offset + max)
  {
    hide Fragment, Payload;
  }

  lemma EmittedEnds(p: seq<byte>, max: nat, offset: nat, done: seq<seq<byte>>)
    requires HeaderFits(p) && max > 0
    ensures Emitted(p, max, 0, [])
    ensures offset >= |Payload(p)| && Emitted(p, max, offset, done) ==> done == FragmentsFrom(p, max, 0)
  {
    hide Fragment;
    if offset >= |Payload(p)| { assert FragmentsFrom(p, max, offset) == []; }
  }

  method SplitPayload(p: seq<byte>, max: nat) returns (fragments: seq<seq<byte>>)
    requires HeaderFits(p) && max > 0
    ensures fragments == FragmentsFrom(p, max, 0)
  {
    hide Fragment, Payload, FragmentsFrom, Emitted;
    fragments := [];
    var offset, n := 0, |Payload(p)|;
    EmittedEnds(p, max, 0, []);
    while offset < n
      invariant 0 <= offset
      invariant Emitted(p, max, offset, fragments)
      decreases n - offset
    {
      var frag := BuildFragment(p, offset, Min(offset + max, n));
      EmittedStep(p, max, offset, fragments);
      fragments := fragments + [frag[..]];
      offset := offset + max;
    }
    EmittedEnds(p, max, offset, fragments);
  }

  method FragmentIPv4(p: seq<byte>, mtu: int) returns (fragments: seq<seq<byte>>)
    ensures fragments == Fragments(p, mtu)
  {
    if |p| == 0 {
      return [];
    }
    if p[0] / 16 != 4 {
      return [p];
    }
    var hdrLen := Ihl(p);
    if |p| <= mtu || hdrLen >= |p| || hdrLen < 20 {
      return [p];
    }
    if MaxPayload(p, mtu) <= 0 {
      return [p];
    }
    fragments := SplitPayload(p, MaxPayload(p, mtu));
  }

  // ---- Every fragment on its own

  /** `f` is a well-formed piece of `p` that carries payload bytes `offset..end`. */
  ghost predicate IsPiece(f: seq<byte>, p: seq<byte>, offset: nat, end: nat)
    requires HeaderFits(p) && offset <= end <= |Payload(p)|
  {
    && HeaderFits(f) && Ihl(f) == Ihl(p)
    && U16(f, 2) == |f| == Ihl(p) + end - offset
    && FragmentOffset(f) == offset && (MoreFragments(f) <==> end < |Payload(p)|)
    && Payload(f) == Payload(p)[offset..end]
    && U16(f, 10) == Csum(HeaderSum(f[..Ihl(f)]))
    && forall k :: 0 <= k < Ihl(p) && k !in {2, 3, 6, 7, 10, 11} ==> f[k] == p[k]
  }

  lemma PieceLength(f: seq<byte>, p: seq<byte>, offset: nat, end: nat)
    requires HeaderFits(p) && offset <= end <= |Payload(p)| && IsPiece(f, p, offset, end)
    ensures HeaderFits(f) && |Payload(f)| == end - offset && |f| == Ihl(p) + end - offset
  {
  }

  /** The offset stays below the MF bit for every packet of at most 65535 bytes. */
  lemma FieldRoundTrip(offset: nat, more: bool)
    requires offset % 8 == 0 && offset < 0xffff
    ensures var field := WithMore((offset / 8) % 0x1_0000, more);
            field % MF * 8 == offset && ((field / MF) % 2 == 1 <==> more)
  {
  }

  lemma FragmentChecksum(p: seq<byte>, offset: nat, end: nat)
    requires HeaderFits(p) && offset <= end <= |Payload(p)|
    ensures var f := Fragment(p, offset, end);
            U16(f, 10) == Csum(HeaderSum(f[..Ihl(p)])) && f[Ihl(p)..] == Payload(p)[offset..end]
  {
    hide WordSum, Fold;
    var hl, f := Ihl(p), Fragment(p, offset, end);
    var raw := p[..hl] + Payload(p)[offset..end];
    var sized := Put16(raw, 2, |raw| % 0x1_0000);
    var placed := Put16(sized, 6, WithMore((offset / 8) % 0x1_0000, end < |Payload(p)|));
    assert Blank(f[..hl], 10) == Blank(placed[..hl], 10);
    assert f[hl..] == raw[hl..] == Payload(p)[offset..end];
  }

  lemma FragmentIsPiece(p: seq<byte>, offset: nat, end: nat)
    requires HeaderFits(p) && |p| <= 0xffff && offset % 8 == 0 && offset < end <= |Payload(p)|
    ensures IsPiece(Fragment(p, offset, end), p, offset, end)
  {
    hide Csum, HeaderSum;
    FragmentChecksum(p, offset, end);
    FieldRoundTrip(offset, end < |Payload(p)|);
    var f := Fragment(p, offset, end);
    assert f[0] == p[0];
  }

  // ---- The fragments together

  /** Contiguous from `offset` to the end, in 8-byte blocks, MF on all but the last, each within the MTU. */
  ghost predicate Chain(fs: seq<seq<byte>>, p: seq<byte>, mtu: int, offset: nat)
    requires HeaderFits(p)
  {
    if |fs| == 0 then offset == |Payload(p)|
    else
      && HeaderFits(fs[0]) && |fs[0]| <= mtu && offset % 8 == 0
      && var end := offset + |Payload(fs[0])|;
      && offset < end <= |Payload(p)| && IsPiece(fs[0], p, offset, end)
      && Chain(fs[1..], p, mtu, end)
  }

  lemma {:induction false} FragmentsChain(p: seq<byte>, mtu: int, max: nat, offset: nat)
    requires HeaderFits(p) && |p| <= 0xffff && max > 0 && max % 8 == 0 && Ihl(p) + max <= mtu
    requires offset % 8 == 0 && offset < |Payload(p)|
    ensures Chain(FragmentsFrom(p, max, offset), p, mtu, offset)
    decreases |p| - offset
  {
    hide Fragment, IsPiece;
    var fs, end := FragmentsFrom(p, max, offset), Min(offset + max, |Payload(p)|);
    FragmentIsPiece(p, offset, end);
    PieceLength(fs[0], p, offset, end);
    assert fs[1..] == FragmentsFrom(p, max, offset + max);
    if end < |Payload(p)| {
      FragmentsChain(p, mtu, max, end);
    }
  }

  // ---- Reassembly

  function ByteAt(data: seq<byte>, offset: nat, k: nat): byte
    requires offset <= k < offset + |data|
  {
    data[k - offset]
  }

  function AtOffset(data: seq<byte>, offset: nat): map<nat, byte>
  {
    map k: nat | offset <= k < offset + |data| :: ByteAt(data, offset, k)
  }

  /** The receive buffer after `f` has arrived: its payload at its offset. */
  function Place(buffer: map<nat, byte>, f: seq<byte>): map<nat, byte>
    requires HeaderFits(f)
  {
    buffer + AtOffset(Payload(f), FragmentOffset(f))
  }

  ghost predicate AllFit(fs: seq<seq<byte>>) { forall i :: 0 <= i < |fs| ==> HeaderFits(fs[i]) }

  function Reassemble(fs: seq<seq<byte>>): map<nat, byte>
    requires AllFit(fs)
  {
    if fs == [] then map[] else Place(Reassemble(fs[..|fs| - 1]), fs[|fs| - 1])
  }

  ghost predicate CoversByte(f: seq<byte>, k: nat)
    requires HeaderFits(f)
  {
    FragmentOffset(f) <= k < FragmentOffset(f) + |Payload(f)|
  }

  /** `f` carries the bytes that `data` has at its offset. */
  ghost predicate Agrees(f: seq<byte>, data: seq<byte>)
  {
    && HeaderFits(f) && FragmentOffset(f) + |Payload(f)| <= |data|
    && Payload(f) == data[FragmentOffset(f)..FragmentOffset(f) + |Payload(f)|]
  }

  lemma PlaceAt(buffer: map<nat, byte>, f: seq<byte>, data: seq<byte>, k: nat)
    requires Agrees(f, data)
    ensures k in Place(buffer, f) <==> k in buffer || CoversByte(f, k)
    ensures CoversByte(f, k) ==> k < |data| && Place(buffer, f)[k] == data[k]
    ensures k in buffer && !CoversByte(f, k) ==> Place(buffer, f)[k] == buffer[k]
  {
  }

  lemma {:induction false} ReassembleAt(fs: seq<seq<byte>>, data: seq<byte>, k: nat)
    requires AllFit(fs) && forall i :: 0 <= i < |fs| ==> Agrees(fs[i], data)
    ensures k in Reassemble(fs) <==> exists i :: 0 <= i < |fs| && CoversByte(fs[i], k)
    ensures k in Reassemble(fs) ==> k < |data| && Reassemble(fs)[k] == data[k]
  {
    hide Place, CoversByte, HeaderFits;
    if fs != [] {
      var last := |fs| - 1;
      var init := fs[..last];
      ReassembleAt(init, data, k);
      PlaceAt(Reassemble(init), fs[last], data, k);
      hide Agrees;
      if k in Reassemble(init) {
        var i :| 0 <= i < last && CoversByte(init[i], k);
        assert CoversByte(fs[i], k);
      }
      if i :| 0 <= i < last && CoversByte(fs[i], k) {
        assert CoversByte(init[i], k);
      }
    }
  }

  /** In a chain every later byte lies in exactly one fragment. */
  lemma {:induction false} ChainCovers(fs: seq<seq<byte>>, p: seq<byte>, mtu: int, offset: nat, k: nat)
    returns (i: nat)
    requires HeaderFits(p) && Chain(fs, p, mtu, offset) && offset <= k < |Payload(p)|
    ensures i < |fs| && HeaderFits(fs[i]) && CoversByte(fs[i], k)
    ensures forall j :: 0 <= j < |fs| && j != i ==> HeaderFits(fs[j]) && !CoversByte(fs[j], k)
  {
    var end := offset + |Payload(fs[0])|;
    if k < end {
      i := 0;
      ChainStarts(fs[1..], p, mtu, end);
      assert forall j :: 0 < j < |fs| ==> fs[j] == fs[1..][j - 1];
    } else {
      var i' := ChainCovers(fs[1..], p, mtu, end, k);
      i := i' + 1;
      assert forall j :: 0 < j < |fs| ==> fs[j] == fs[1..][j - 1];
    }
  }

  ghost predicate IsPieceOf(f: seq<byte>, p: seq<byte>, mtu: int)
    requires HeaderFits(p)
  {
    && Agrees(f, Payload(p)) && |f| <= mtu
    && IsPiece(f, p, FragmentOffset(f), FragmentOffset(f) + |Payload(f)|)
  }

  lemma {:induction false} ChainStarts(fs: seq<seq<byte>>, p: seq<byte>, mtu: int, offset: nat)
    requires HeaderFits(p) && Chain(fs, p, mtu, offset)
    ensures forall j :: 0 <= j < |fs| ==> IsPieceOf(fs[j], p, mtu) && FragmentOffset(fs[j]) >= offset
  {
    if |fs| > 0 {
      ChainStarts(fs[1..], p, mtu, offset + |Payload(fs[0])|);
      assert IsPieceOf(fs[0], p, mtu);
      hide IsPieceOf;
      assert forall j :: 0 < j < |fs| ==> fs[j] == fs[1..][j - 1];
    }
  }

  /** Some fragment tells the receiver that the datagram ends at `n`. */
  ghost predicate EndsAt(fs: seq<seq<byte>>, n: nat)
    requires AllFit(fs)
  {
    exists i :: 0 <= i < |fs| && Closes(fs[i], n)
  }

  ghost predicate Closes(f: seq<byte>, n: nat)
    requires HeaderFits(f)
  {
    !MoreFragments(f) && n == FragmentOffset(f) + |Payload(f)|
  }

  /** A piece closes the datagram exactly when it carries the end of the payload. */
  lemma PieceCloses(f: seq<byte>, p: seq<byte>, mtu: int, n: nat)
    requires HeaderFits(p) && IsPieceOf(f, p, mtu)
    ensures Closes(f, n) ==> n == |Payload(p)|
    ensures |Payload(p)| > 0 && CoversByte(f, |Payload(p)| - 1) ==> Closes(f, |Payload(p)|)
  {
  }

  /**
    Main result: whatever order the fragments arrive in, reassembly rebuilds the
    payload from offset 0 and is closed at its length.
   */
  lemma FragmentReassembly(p: seq<byte>, mtu: int, order: seq<seq<byte>>)
    requires Splits(p, mtu) && |p| <= 0xffff && multiset(order) == multiset(Fragments(p, mtu))
    ensures AllFit(order) && Reassemble(order) == AtOffset(Payload(p), 0)
    ensures forall n: nat :: EndsAt(order, n) <==> n == |Payload(p)|
  {
    FragmentBytes(p, mtu, order);
    forall n: nat
      ensures EndsAt(order, n) <==> n == |Payload(p)|
    {
      FragmentEnd(p, mtu, order, n);
    }
  }

  lemma FragmentEnd(p: seq<byte>, mtu: int, order: seq<seq<byte>>, n: nat)
    requires Splits(p, mtu) && |p| <= 0xffff && multiset(order) == multiset(Fragments(p, mtu)) && AllFit(order)
    ensures EndsAt(order, n) <==> n == |Payload(p)|
  {
    hide Fragment, IsPiece;
    var fs := Fragments(p, mtu);
    FragmentsChain(p, mtu, MaxPayload(p, mtu), 0);
    ChainStarts(fs, p, mtu, 0);
    var i := ChainCovers(fs, p, mtu, 0, |Payload(p)| - 1);
    PieceCloses(fs[i], p, mtu, n);
    SameElements(fs, order, fs[i]);
    hide Splits, FragmentsFrom, Fragments, HeaderFits, Payload, Closes, IsPieceOf, Chain;
    forall j | 0 <= j < |order| && Closes(order[j], n)
      ensures n == |Payload(p)|
    {
      SameElements(order, fs, order[j]);
      PieceCloses(order[j], p, mtu, n);
    }
  }

  lemma FragmentBytes(p: seq<byte>, mtu: int, order: seq<seq<byte>>)
    requires Splits(p, mtu) && |p| <= 0xffff && multiset(order) == multiset(Fragments(p, mtu))
    ensures AllFit(order) && Reassemble(order) == AtOffset(Payload(p), 0)
  {
    hide Fragment, Place, IsPiece;
    var fs := Fragments(p, mtu);
    FragmentsChain(p, mtu, MaxPayload(p, mtu), 0);
    ChainStarts(fs, p, mtu, 0);
    hide HeaderFits, Payload, FragmentsFrom;
    forall i | 0 <= i < |order|
      ensures Agrees(order[i], Payload(p))
    {
      SameElements(order, fs, order[i]);
    }
    forall k: nat
      ensures k in Reassemble(order) <==> k < |Payload(p)|
      ensures k in Reassemble(order) ==> Reassemble(order)[k] == Payload(p)[k]
    {
      ReassembleAt(order, Payload(p), k);
      if k < |Payload(p)| {
        var i := ChainCovers(fs, p, mtu, 0, k);
        SameElements(fs, order, fs[i]);
      }
    }
  }

  lemma SameElements(a: seq<seq<byte>>, b: seq<seq<byte>>, x: seq<byte>)
    requires multiset(a) == multiset(b) && x in a
    ensures x in b
  {
    assert x in multiset(a);
  }

  /** Every fragment fits, is a faithful piece with a verifying header, and no byte is sent twice. */
  lemma FragmentsFit(p: seq<byte>, mtu: int)
    requires Splits(p, mtu) && |p| <= 0xffff
    ensures var fs := Fragments(p, mtu);
            && Chain(fs, p, mtu, 0)
            && AllFit(fs)
            && (forall i :: 0 <= i < |fs| ==> |fs[i]| <= mtu && Accepts(HeaderSum(fs[i][..Ihl(fs[i])]), U16(fs[i], 10)))
            && (forall i, j, k: nat :: 0 <= i < |fs| && 0 <= j < |fs| && CoversByte(fs[i], k) && CoversByte(fs[j], k) ==> i == j)
  {
    var fs := Fragments(p, mtu);
    FragmentsChain(p, mtu, MaxPayload(p, mtu), 0);
    ChainStarts(fs, p, mtu, 0);
    hide Splits, FragmentsFrom, Fragments, Chain, IsPieceOf, HeaderFits, HeaderSum, Accepts, Payload, CoversByte;
    forall i | 0 <= i < |fs|
      ensures HeaderFits(fs[i]) && |fs[i]| <= mtu && Accepts(HeaderSum(fs[i][..Ihl(fs[i])]), U16(fs[i], 10))
    {
      PieceAccepted(fs[i], p, mtu);
    }
    forall i, j, k: nat | 0 <= i < |fs| && 0 <= j < |fs| && CoversByte(fs[i], k) && CoversByte(fs[j], k)
      ensures i == j
    {
      PieceInside(fs[i], p, mtu, k);
      var _ := ChainCovers(fs, p, mtu, 0, k);
    }
  }

  lemma PieceInside(f: seq<byte>, p: seq<byte>, mtu: int, k: nat)
    requires HeaderFits(p) && IsPieceOf(f, p, mtu) && CoversByte(f, k)
    ensures k < |Payload(p)|
  {
  }

  lemma PieceAccepted(f: seq<byte>, p: seq<byte>, mtu: int)
    requires HeaderFits(p) && p[0] > 0 && IsPieceOf(f, p, mtu)
    ensures HeaderFits(f) && |f| <= mtu && Accepts(HeaderSum(f[..Ihl(f)]), U16(f, 10))
  {
    hide HeaderSum, Accepts;
    HeaderSumPositive(f[..Ihl(f)]);
    CsumAccepted(HeaderSum(f[..Ihl(f)]));
  }

  lemma HeaderSumPositive(h: seq<byte>)
    requires |h| >= 20 && h[0] > 0
    ensures HeaderSum(h) > 0
  {
    WordSumPut16(Blank(h, 10), 0, 0);
  }

  /** The two bring the receiver to the same state: the same bytes at the same places, closed alike. */
  ghost predicate Equivalent(fs: seq<seq<byte>>, gs: seq<seq<byte>>)
    requires AllFit(fs) && AllFit(gs)
  {
    Reassemble(fs) == Reassemble(gs) && forall n: nat :: EndsAt(fs, n) <==> EndsAt(gs, n)
  }

  /**
    Exact limit: the fragments do what the packet itself would do at the receiver if
    and only if the packet was not itself a fragment. Offsets restart at 0, and the
    last piece goes out with MF clear.
   */
  lemma RefragmentationExact(p: seq<byte>, mtu: int)
    requires Splits(p, mtu) && |p| <= 0xffff
    ensures AllFit(Fragments(p, mtu)) && AllFit([p])
    ensures Equivalent(Fragments(p, mtu), [p]) <==> FragmentOffset(p) == 0 && !MoreFragments(p)
  {
    var fs := Fragments(p, mtu);
    FragmentReassembly(p, mtu, fs);
    hide Fragments, FragmentsFrom, Splits;
    var here := AtOffset(Payload(p), 0);
    var there := AtOffset(Payload(p), FragmentOffset(p));
    assert [p][..0] == [];
    assert Reassemble([p]) == Place(map[], p) == there;
    assert 0 in here;
    assert 0 in there <==> FragmentOffset(p) == 0;
    assert EndsAt(fs, |Payload(p)|);
    assert forall n: nat :: EndsAt([p], n) <==> Closes([p][0], n);
  }

  // ---- When a packet is split, and how far

  /** Every fragment but the last is as long as `max` allows. */
  lemma {:induction false} FragmentsAreFull(p: seq<byte>, max: nat, offset: nat, i: nat)
    requires HeaderFits(p) && max > 0 && i + 1 < |FragmentsFrom(p, max, offset)|
    ensures |FragmentsFrom(p, max, offset)[i]| == Ihl(p) + max
    decreases i
  {
    hide Fragment;
    var fs := FragmentsFrom(p, max, offset);
    assert fs[1..] == FragmentsFrom(p, max, offset + max);
    if i == 0 {
      assert offset + max < |Payload(p)|;
    } else {
      FragmentsAreFull(p, max, offset + max, i - 1);
      assert fs[i] == fs[1..][i - 1];
    }
  }

  /** The 8-byte rounding leaves room for a block exactly when the MTU does. */
  lemma Rounding(p: seq<byte>, mtu: int)
    requires |p| > 0
    ensures MaxPayload(p, mtu) > 0 <==> mtu >= Ihl(p) + 8
    ensures mtu - 8 < Ihl(p) + MaxPayload(p, mtu) <= mtu
  {
  }

  /**
    Main result, for every packet and MTU: what is sent fits the MTU if and only if the
    packet does, or is an IPv4 packet with a whole header, a payload and room for at
    least one 8-byte block; what fits, or cannot be split, is sent as it is.
   */
  lemma FragmentsWithinMtu(p: seq<byte>, mtu: int)
    requires 0 < |p| <= 0xffff
    ensures var fs := Fragments(p, mtu); var fit := forall i :: 0 <= i < |fs| ==> |fs[i]| <= mtu;
            && (fit <==> |p| <= mtu || (p[0] / 16 == 4 && 20 <= Ihl(p) < |p| && mtu >= Ihl(p) + 8))
            && (|p| <= mtu || !fit ==> fs == [p])
  {
    Rounding(p, mtu);
    if Splits(p, mtu) {
      FragmentsFit(p, mtu);
    } else {
      assert Fragments(p, mtu)[0] == p;
    }
  }

  /** A packet that is split is split no finer than it must: all but the last piece are within 8 bytes of the MTU. */
  lemma FragmentsFillMtu(p: seq<byte>, mtu: int, i: nat)
    requires 0 < |p| <= 0xffff && i + 1 < |Fragments(p, mtu)|
    ensures mtu - 8 < |Fragments(p, mtu)[i]| <= mtu
  {
    Rounding(p, mtu);
    FragmentsAreFull(p, MaxPayload(p, mtu), 0, i);
  }
}
