/** Fixed-width unsigned integers and big-endian access to byte strings and buffers. */
module Bytes {
  type byte = x: int | 0 <= x < 0x100
  type uint16 = x: int | 0 <= x < 0x1_0000
  type uint32 = x: int | 0 <= x < 0x1_0000_0000

  datatype Option<+T> = None | Some(value: T)

  function U16(b: seq<byte>, i: nat): uint16
    requires i + 2 <= |b|
  {
    (b[i] as int) * 0x100 + b[i + 1]
  }

  function U32(b: seq<byte>, i: nat): uint32
    requires i + 4 <= |b|
  {
    (U16(b, i) as int) * 0x1_0000 + U16(b, i + 2)
  }

  function Min(a: int, b: int): int { if a <= b then a else b }

  function Be16(v: uint16): (r: seq<byte>)
    ensures |r| == 2 && U16(r, 0) == v
  {
    [v / 0x100, v % 0x100]
  }

  function Put16(b: seq<byte>, i: nat, v: uint16): (r: seq<byte>)
    requires i + 2 <= |b|
    ensures |r| == |b| && U16(r, i) == v
    ensures forall k :: 0 <= k < |b| && k != i && k != i + 1 ==> r[k] == b[k]
  {
    b[i := v / 0x100][i + 1 := v % 0x100]
  }

  function Put32(b: seq<byte>, i: nat, v: uint32): (r: seq<byte>)
    requires i + 4 <= |b|
    ensures |r| == |b| && U32(r, i) == v
    ensures forall k :: 0 <= k < |b| && !(i <= k < i + 4) ==> r[k] == b[k]
  {
    Put16(Put16(b, i, v / 0x1_0000), i + 2, v % 0x1_0000)
  }

  /** `b` with `s` written over it from index `i`: Go's `copy(b[i:], s)`. */
  function Splice(b: seq<byte>, i: nat, s: seq<byte>): (r: seq<byte>)
    requires i + |s| <= |b|
    ensures |r| == |b| && r[i..i + |s|] == s
    ensures forall k :: 0 <= k < |b| && !(i <= k < i + |s|) ==> r[k] == b[k]
  {
    b[..i] + s + b[i + |s|..]
  }

  /** A byte string is determined by its big-endian words. */
  lemma SplitBytes(hi: byte, lo: byte, v: uint16)
    requires hi * 0x100 + lo == v
    ensures hi == v / 0x100 && lo == v % 0x100
  {
  }

  lemma SliceOfSlice(x: seq<byte>, lo: nat, hi: nat, i: nat, j: nat)
    requires lo <= hi <= |x| && i <= j <= hi - lo
    ensures x[lo..hi][i..j] == x[lo + i..lo + j]
  {
    var y := x[lo..hi];
    assert forall k :: 0 <= k < j - i ==> y[i..j][k] == y[i + k] == x[lo + (i + k)] == x[lo + i..lo + j][k];
  }

  method Write16(a: array<byte>, i: nat, v: uint16)
    requires i + 2 <= a.Length
    modifies a
    ensures a[..] == Put16(old(a[..]), i, v)
  {
    a[i] := v / 0x100;
    a[i + 1] := v % 0x100;
  }

  method Write32(a: array<byte>, i: nat, v: uint32)
    requires i + 4 <= a.Length
    modifies a
    ensures a[..] == Put32(old(a[..]), i, v)
  {
    Write16(a, i, v / 0x1_0000);
    Write16(a, i + 2, v % 0x1_0000);
  }

  method CopyInto(a: array<byte>, i: nat, s: seq<byte>)
    requires i + |s| <= a.Length
    modifies a
    ensures a[..] == Splice(old(a[..]), i, s)
  {
    var j := 0;
    while j < |s|
      invariant 0 <= j <= |s|
      invariant a[i..i + j] == s[..j]
      invariant forall k :: 0 <= k < a.Length && !(i <= k < i + j) ==> a[k] == old(a[k])
    {
      a[i + j] := s[j];
      j := j + 1;
    }
  }
}
