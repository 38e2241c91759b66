/** What several components share: the time unit, padded addresses, map sizes. */
module Common {
  import opened Bytes

  /** Durations are in nanoseconds. */
  const SECOND := 1_000_000_000

  /** Twelve zero bytes pad an IPv4 address to the width of an IPv6 address. */
  const ZERO12: seq<byte> := [0, 0, 0, 0, 0, 0, 0, 0, 0, 0, 0, 0]

  lemma RemoveOne<K, V>(m: map<K, V>, k: K)
    requires k in m
    ensures |m - {k}| == |m| - 1
  {
    assert (m - {k}).Keys == m.Keys - {k};
  }

  lemma PutOne<K, V>(m: map<K, V>, k: K, v: V)
    ensures |m[k := v]| == if k in m then |m| else |m| + 1
  {
    assert m[k := v].Keys == m.Keys + {k};
  }
}
