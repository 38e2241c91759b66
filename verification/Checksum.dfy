/**
  The Internet checksum. Sums are kept unfolded here, so that "the full
  recomputation" of a packet is one number and the incremental forms of
  RFC 1624 are compared with it.
 */
module Checksum {
  import opened Bytes

  /** Sum of the big-endian 16-bit words of `s`, an odd last byte padded with zero. */
  function WordSum(s: seq<byte>): nat
  {
    if |s| == 0 then 0
    else if |s| == 1 then s[0] * 0x100
    else U16(s, 0) + WordSum(s[2..])
  }

  /** End-around carry, as the `for sum > 0xffff` loops do it. */
  function Fold(s: nat): uint16
  {
    if s <= 0xffff then s else Fold(s / 0x1_0000 + s % 0x1_0000)
  }

  function Not16(x: uint16): uint16 { 0xffff - x }

  /** The checksum of a region whose other words add up to `s`. */
  function Csum(s: nat): uint16 { Not16(Fold(s)) }

  /** What a receiver computes: all words, checksum included, fold to all ones. */
  predicate Accepts(s: nat, c: uint16) { Fold(s + c) == 0xffff }

  method FoldLoop(start: uint32) returns (r: uint16)
    ensures r == Fold(start)
  {
    var sum: uint32 := start;
    while sum > 0xffff
      invariant Fold(sum) == Fold(start)
    {
      sum := sum / 0x1_0000 + sum % 0x1_0000;
    }
    r := sum;
  }

  // ---- Folding is reduction modulo 0xffff, with 0xffff for the nonzero multiples

  lemma {:induction false} FoldClosed(s: nat)
    ensures s == 0 ==> Fold(s) == 0
    ensures s > 0 ==> Fold(s) == (s - 1) % 0xffff + 1
    decreases s
  {
    if s > 0xffff {
      var t := s / 0x1_0000 + s % 0x1_0000;
      FoldClosed(t);
      assert s - 1 == (t - 1) + 0xffff * (s / 0x1_0000);
      ModShift(t - 1, s / 0x1_0000);
    }
  }

  lemma ModShift(a: nat, k: nat)
    ensures (a + 0xffff * k) % 0xffff == a % 0xffff
  {
  }

  lemma ModSucc(s: nat)
    requires s > 0
    ensures s % 0xffff == if (s - 1) % 0xffff == 0xfffe then 0 else (s - 1) % 0xffff + 1
  {
  }

  lemma FoldCongruent(s: nat, t: nat)
    requires s > 0 && t > 0
    ensures Fold(s) == Fold(t) <==> s % 0xffff == t % 0xffff
  {
    hide Fold;
    FoldClosed(s);
    FoldClosed(t);
    ModSucc(s);
    ModSucc(t);
  }

  /** A positive sum is accepted exactly when it is a multiple of 0xffff. */
  lemma AcceptsCongruence(s: nat, c: uint16)
    requires s > 0
    ensures Accepts(s, c) <==> (s + c) % 0xffff == 0
  {
    FoldClosed(s + c);
  }

  lemma CsumAccepted(s: nat)
    requires s > 0
    ensures Accepts(s, Csum(s))
  {
    FoldClosed(s);
    var q := (s - 1) / 0xffff;
    assert s + Csum(s) - 1 == 0xfffe + 0xffff * q;
    ModShift(0xfffe, q);
    FoldClosed(s + Csum(s));
  }

  // ---- Incremental update (RFC 1624, Eqn. 3), for any number of changed words

  /** HC' = ~(~HC + ~m + m') over `words` words that add up to `removed` and become `added`. */
  function Adjust(c: uint16, removed: nat, added: nat, words: nat): uint16
    requires removed <= 0xffff * words
  {
    Not16(Fold(Not16(c) + (0xffff * words - removed) + added))
  }

  /**
    The incremental checksum is the full one of the new words exactly when the
    new words are not all zero: there one side is +0 and the other -0.
   */
  lemma AdjustExact(s: nat, removed: nat, added: nat, words: nat)
    requires words > 0 && removed <= s && removed <= 0xffff * words
    ensures Adjust(Csum(s), removed, added, words) == Csum(s - removed + added)
            <==> s - removed + added > 0
  {
    var total := Fold(s) + (0xffff * words - removed) + added;
    var s' := s - removed + added;
    FoldClosed(s);
    var q := if s == 0 then 0 else (s - 1) / 0xffff;
    assert s == Fold(s) + 0xffff * q;
    assert total + 0xffff * q == s' + 0xffff * words;
    ModShift(total, q);
    ModShift(s', words);
    if s' > 0 {
      assert total > 0;
      FoldCongruent(total, s');
    } else {
      FoldClosed(total);
    }
  }

  /** An update neither repairs nor breaks a checksum, whatever it was before. */
  lemma AdjustKeepsAcceptance(s: nat, c: uint16, removed: nat, added: nat, words: nat)
    requires words > 0 && removed <= s && removed <= 0xffff * words
    requires s > 0 && s - removed + added > 0
    ensures Accepts(s - removed + added, Adjust(c, removed, added, words)) <==> Accepts(s, c)
  {
    var total := Not16(c) + (0xffff * words - removed) + added;
    var s' := s - removed + added;
    var c' := Adjust(c, removed, added, words);
    FoldClosed(total);
    var q := if total == 0 then 0 else (total - 1) / 0xffff;
    assert total == Fold(total) + 0xffff * q;
    assert s' + c' + 0xffff * words == s + c + 0xffff * q;
    ModShift(s' + c', words);
    ModShift(s + c, q);
    AcceptsCongruence(s, c);
    AcceptsCongruence(s', c');
  }

  /** Both at once, for sums that stay positive. */
  lemma AdjustSound(s: nat, c: uint16, removed: nat, added: nat, words: nat)
    requires words > 0 && removed <= s && removed <= 0xffff * words
    requires s > 0 && s - removed + added > 0
    ensures c == Csum(s) ==> Adjust(c, removed, added, words) == Csum(s - removed + added)
    ensures Accepts(s - removed + added, Adjust(c, removed, added, words)) <==> Accepts(s, c)
  {
    AdjustExact(s, removed, added, words);
    AdjustKeepsAcceptance(s, c, removed, added, words);
  }

  method UpdateChecksum16(oldCsum: uint16, oldVal: uint16, newVal: uint16) returns (r: uint16)
    ensures r == Adjust(oldCsum, oldVal, newVal, 1)
  {
    var f := FoldLoop(Not16(oldCsum) + Not16(oldVal) + newVal);
    r := Not16(f);
  }

  method UpdateChecksum32(oldCsum: uint16, oldVal: uint32, newVal: uint32) returns (r: uint16)
    ensures r == Adjust(oldCsum, oldVal / 0x1_0000 + oldVal % 0x1_0000,
                        newVal / 0x1_0000 + newVal % 0x1_0000, 2)
  {
    var oldHigh, oldLow := oldVal / 0x1_0000, oldVal % 0x1_0000;
    var newHigh, newLow := newVal / 0x1_0000, newVal % 0x1_0000;
    var f := FoldLoop(Not16(oldCsum) + Not16(oldHigh) + newHigh + Not16(oldLow) + newLow);
    r := Not16(f);
  }

  method UpdateChecksumIPv6Bytes(oldCsum: uint16, oldIP: seq<byte>, newIP: seq<byte>) returns (r: uint16)
    requires |oldIP| == |newIP| == 16
    ensures WordSum(oldIP) <= 0xffff * 8
    ensures r == Adjust(oldCsum, WordSum(oldIP), WordSum(newIP), 8)
  {
    var sum: uint32 := Not16(oldCsum);
    var i := 0;
    while i < 16
      invariant 0 <= i <= 16 && i % 2 == 0
      invariant WordSum(oldIP[..i]) <= 0xffff * (i / 2) && WordSum(newIP[..i]) <= 0xffff * (i / 2)
      invariant sum == Not16(oldCsum) + (0xffff * (i / 2) - WordSum(oldIP[..i])) + WordSum(newIP[..i])
    {
      WordSumStep(oldIP, i);
      WordSumStep(newIP, i);
      sum := sum + Not16(U16(oldIP, i)) + U16(newIP, i);
      i := i + 2;
    }
    assert oldIP[..16] == oldIP && newIP[..16] == newIP;
    var f := FoldLoop(sum);
    r := Not16(f);
  }

  // ---- How the word sum follows concatenation, prefixes and single-word edits

  lemma {:induction false} WordSumConcat(a: seq<byte>, b: seq<byte>)
    requires |a| % 2 == 0
    ensures WordSum(a + b) == WordSum(a) + WordSum(b)
  {
    if |a| == 0 {
      assert a + b == b;
    } else {
      assert (a + b)[2..] == a[2..] + b;
      WordSumConcat(a[2..], b);
    }
  }

  lemma WordSumShort(b: byte)
    ensures WordSum([]) == 0 && WordSum([b]) == b * 0x100
  {
  }

  lemma WordSumStep(s: seq<byte>, i: nat)
    requires i % 2 == 0 && i + 2 <= |s|
    ensures WordSum(s[..i + 2]) == WordSum(s[..i]) + U16(s, i)
  {
    assert s[..i + 2] == s[..i] + s[i..i + 2];
    WordSumConcat(s[..i], s[i..i + 2]);
    assert s[i..i + 2][2..] == [];
  }

  lemma {:induction false} WordSumPut16(s: seq<byte>, i: nat, v: uint16)
    requires i % 2 == 0 && i + 2 <= |s|
    ensures WordSum(s) >= U16(s, i)
    ensures WordSum(Put16(s, i, v)) == WordSum(s) - U16(s, i) + v
  {
    var t := Put16(s, i, v);
    assert s == s[..i] + s[i..] && t == t[..i] + t[i..];
    WordSumConcat(s[..i], s[i..]);
    WordSumConcat(t[..i], t[i..]);
    assert s[..i] == t[..i] && s[i..][2..] == t[i..][2..];
  }

  /** Replacing an even-aligned region moves the sum by the difference of the two regions. */
  lemma WordSumSplice(s: seq<byte>, i: nat, t: seq<byte>)
    requires i % 2 == 0 && |t| % 2 == 0 && i + |t| <= |s|
    ensures WordSum(s) >= WordSum(s[i..i + |t|])
    ensures WordSum(Splice(s, i, t)) == WordSum(s) - WordSum(s[i..i + |t|]) + WordSum(t)
  {
    hide WordSum;
    var j := i + |t|;
    Cut3(s, i, j);
    WordSum3(s[..i], s[i..j], s[j..]);
    WordSum3(s[..i], t, s[j..]);
  }

  lemma Cut3(s: seq<byte>, i: nat, j: nat)
    requires i <= j <= |s|
    ensures s == s[..i] + s[i..j] + s[j..]
  {
  }

  lemma WordSum3(a: seq<byte>, b: seq<byte>, c: seq<byte>)
    requires |a| % 2 == 0 && |b| % 2 == 0
    ensures WordSum(a + b + c) == WordSum(a) + WordSum(b) + WordSum(c)
  {
    WordSumConcat(a + b, c);
    WordSumConcat(a, b);
  }

  lemma {:induction false} WordSumBound(s: seq<byte>)
    ensures WordSum(s) <= 0xffff * ((|s| + 1) / 2)
  {
    if |s| >= 2 { WordSumBound(s[2..]); }
  }

  // ---- Full recomputation

  const IPPROTO_TCP: byte := 6
  const IPPROTO_UDP: byte := 17

  /** `s` with the checksum word at `at` taken as zero. */
  function Blank(s: seq<byte>, at: nat): seq<byte>
    requires at + 2 <= |s|
  {
    Put16(s, at, 0)
  }

  /** The words of an IPv4 header other than its checksum (RFC 791 section 3.1). */
  function HeaderSum(hdr: seq<byte>): nat
    requires |hdr| >= 12
  {
    WordSum(Blank(hdr, 10))
  }

  /** Addresses, upper-layer length and protocol: RFC 768 and RFC 8200 section 8.1. */
  function PseudoSum(src: seq<byte>, dst: seq<byte>, len: nat, proto: byte): nat
  {
    WordSum(src) + WordSum(dst) + len / 0x1_0000 + len % 0x1_0000 + proto
  }

  /** Pseudo-header plus the segment, whose checksum word at `at` counts as zero. */
  function SegmentSum(src: seq<byte>, dst: seq<byte>, proto: byte, seg: seq<byte>, at: nat): nat
    requires at + 2 <= |seg|
  {
    PseudoSum(src, dst, |seg|, proto) + WordSum(Blank(seg, at))
  }

  const TCP_CSUM := 16
  const UDP_CSUM := 6

  /** `s` as it is summed: without the word at `skip`, if any. */
  function Summed(s: seq<byte>, skip: Option<nat>): (t: seq<byte>)
    requires skip.Some? ==> skip.value + 2 <= |s|
    ensures |t| == |s|
  {
    if skip.Some? then Blank(s, skip.value) else s
  }

  lemma SummedStep(s: seq<byte>, skip: Option<nat>, i: nat)
    requires skip.Some? ==> skip.value % 2 == 0 && skip.value + 2 <= |s|
    requires i % 2 == 0 && i + 2 <= |s|
    ensures var t := Summed(s, skip);
            WordSum(t[..i + 2]) == WordSum(t[..i]) + if skip == Some(i) then 0 else U16(s, i)
  {
    WordSumStep(Summed(s, skip), i);
    hide WordSum;
  }

  lemma SummedEnd(s: seq<byte>, skip: Option<nat>, i: nat)
    requires skip.Some? ==> skip.value % 2 == 0 && skip.value + 2 <= |s|
    requires i % 2 == 0 && |s| - 1 <= i <= |s|
    ensures var t := Summed(s, skip);
            WordSum(t) == WordSum(t[..i]) + if i < |s| then (s[i] as int) * 0x100 else 0
  {
    var t := Summed(s, skip);
    if i < |s| {
      assert t == t[..i] + [s[i]];
      WordSumConcat(t[..i], [s[i]]);
      WordSumShort(s[i]);
    } else {
      assert t == t[..i];
    }
  }

  /** One pass over the words of `s` that leaves out the word at `skip`, if any. */
  method AddWords(start: uint32, s: seq<byte>, skip: Option<nat>) returns (sum: uint32)
    requires start + 0xffff * ((|s| + 1) / 2) < 0x1_0000_0000
    requires skip.Some? ==> skip.value % 2 == 0 && skip.value + 2 <= |s|
    ensures sum == start + WordSum(Summed(s, skip))
  {
    ghost var t := Summed(s, skip);
    sum := start;
    assert t[..0] == [];
    WordSumShort(0);
    hide WordSum, Summed, U16;
    var i := 0;
    while i < |s| - 1
      invariant 0 <= i <= |s| && i % 2 == 0
      invariant sum == start + WordSum(t[..i]) <= start + 0xffff * (i / 2)
    {
      SummedStep(s, skip, i);
      if skip != Some(i) {
        sum := sum + U16(s, i);
      }
      i := i + 2;
    }
    SummedEnd(s, skip, i);
    if |s| % 2 != 0 {
      sum := sum + (s[i] as int) * 0x100;
    }
  }

  method CalculateIPv4HeaderChecksum(hdr: seq<byte>) returns (r: uint16)
    requires 12 <= |hdr| <= 60 && |hdr| % 2 == 0
    ensures r == Csum(HeaderSum(hdr))
  {
    var sum := AddWords(0, hdr, Some(10));
    var f := FoldLoop(sum);
    r := Not16(f);
  }

  /** The TCP checksum over IPv6; the caller has zeroed the checksum field. */
  method CalculateTCPChecksumIPv6(src: seq<byte>, dst: seq<byte>, seg: seq<byte>) returns (r: uint16)
    requires |src| == |dst| == 16 && |seg| <= 0xffff
    ensures r == Csum(PseudoSum(src, dst, |seg|, IPPROTO_TCP) + WordSum(seg))
  {
    var sum := AddWords(0, src, None);
    WordSumBound(src);
    WordSumBound(dst);
    sum := AddWords(sum, dst, None);
    sum := sum + |seg| / 0x1_0000 + |seg| % 0x1_0000 + IPPROTO_TCP;
    sum := AddWords(sum, seg, None);
    var f := FoldLoop(sum);
    r := Not16(f);
  }

  /** RFC 768 and RFC 8200: a computed zero is sent as all ones. */
  function UdpCsum(s: nat): uint16
  {
    if Csum(s) == 0 then 0xffff else Csum(s)
  }

  /** The pseudo-header and segment loops that both UDP forms share; `len` is the length as added. */
  method SumUDP(src: seq<byte>, dst: seq<byte>, len: nat, seg: seq<byte>) returns (r: uint16)
    requires |src| == |dst| && |src| <= 16 && |src| % 2 == 0 && 8 <= |seg| <= 0x1_0007 && len <= |seg|
    ensures r == UdpCsum(WordSum(src) + WordSum(dst) + len + IPPROTO_UDP + WordSum(Blank(seg, UDP_CSUM)))
  {
    hide WordSum, Fold;
    var sum := AddWords(0, src, None);
    WordSumBound(src);
    WordSumBound(dst);
    sum := AddWords(sum, dst, None);
    sum := sum + len + IPPROTO_UDP;
    sum := AddWords(sum, seg, Some(UDP_CSUM));
    var f := FoldLoop(sum);
    r := Not16(f);
    if r == 0 {
      r := 0xffff;
    }
  }

  method CalculateUDPChecksumIPv6(src: seq<byte>, dst: seq<byte>, seg: seq<byte>) returns (r: uint16)
    requires |src| == |dst| == 16 && 8 <= |seg| <= 0x1_0007
    ensures r == UdpCsum(SegmentSum(src, dst, IPPROTO_UDP, seg, UDP_CSUM))
  {
    r := SumUDP(src, dst, |seg| / 0x1_0000 + |seg| % 0x1_0000, seg);
  }

  /** Adds the 32-bit length unsplit, which folds to the same checksum. */
  method CalculateUDPChecksumIPv4(src: seq<byte>, dst: seq<byte>, seg: seq<byte>) returns (r: uint16)
    requires |src| == |dst| == 4 && 8 <= |seg| <= 0x1_0007
    ensures r == UdpCsum(SegmentSum(src, dst, IPPROTO_UDP, seg, UDP_CSUM))
  {
    r := SumUDP(src, dst, |seg|, seg);
    hide WordSum, Fold;
    var s := SegmentSum(src, dst, IPPROTO_UDP, seg, UDP_CSUM);
    ModShift(s, |seg| / 0x1_0000);
    FoldCongruent(s, s + 0xffff * (|seg| / 0x1_0000));
  }

  /** The RFC 768 substitution is never zero and never costs the receiver's check. */
  lemma UdpCsumAccepted(s: nat)
    requires s > 0
    ensures UdpCsum(s) != 0 && Accepts(s, UdpCsum(s))
  {
    CsumAccepted(s);
    AcceptsCongruence(s, Csum(s));
    AcceptsCongruence(s, UdpCsum(s));
    ModShift(s, 1);
  }

  // ---- The pseudo-headers as bytes

  lemma WordsOf(v: uint16)
    ensures WordSum(Be16(v)) == v
  {
    assert Be16(v)[2..] == [];
  }

  /** The pseudo-header of RFC 8200 section 8.1: both addresses, a 32-bit length, three zero bytes, the protocol. */
  lemma PseudoHeader6(src: seq<byte>, dst: seq<byte>, len: uint32, proto: byte)
    requires |src| == |dst| == 16
    ensures PseudoSum(src, dst, len, proto)
            == WordSum(src + dst + (Be16(len / 0x1_0000) + Be16(len % 0x1_0000)) + ([0, 0] + [0, proto]))
  {
    hide WordSum;
    WordSum3(src + dst, Be16(len / 0x1_0000) + Be16(len % 0x1_0000), [0, 0] + [0, proto]);
    WordSumConcat(src, dst);
    WordSumConcat(Be16(len / 0x1_0000), Be16(len % 0x1_0000));
    WordSumConcat([0, 0], [0, proto]);
    WordsOf(len / 0x1_0000);
    WordsOf(len % 0x1_0000);
    WordsOf(0);
    WordsOf(proto);
    assert Be16(0) == [0, 0] && Be16(proto) == [0, proto];
  }

  /** The pseudo-header of RFC 768: both addresses, a zero byte, the protocol, a 16-bit length. */
  lemma PseudoHeader4(src: seq<byte>, dst: seq<byte>, len: uint16, proto: byte)
    requires |src| == |dst| == 4
    ensures PseudoSum(src, dst, len, proto) == WordSum(src + dst + [0, proto] + Be16(len))
  {
    hide WordSum;
    WordSum3(src + dst, [0, proto], Be16(len));
    WordSumConcat(src, dst);
    WordsOf(len);
    WordsOf(proto);
    assert Be16(proto) == [0, proto];
  }
}
