/** Raw memory: bytes, C's `memcpy` between two distinct buffers, and joining a list of byte runs. */
module Bytes {
  type byte = x: int | 0 <= x < 256

  function Min(a: int, b: int): int {
    if a > b then b else a
  }

  method MemCpy(dst: array<byte>, d: nat, src: array<byte>, s: nat, n: nat)
    requires dst != src
    requires d + n <= dst.Length && s + n <= src.Length
    modifies dst
    ensures forall k :: d <= k < d + n ==> dst[k] == src[k - d + s]
    ensures forall k :: 0 <= k < d || d + n <= k < dst.Length ==> dst[k] == old(dst[k])
  {
    for i := 0 to n
      invariant forall k :: d <= k < d + i ==> dst[k] == src[k - d + s]
      invariant forall k :: 0 <= k < d || d + i <= k < dst.Length ==> dst[k] == old(dst[k])
    {
      dst[d + i] := src[s + i];
    }
  }

  /** All runs of `parts`, one after the other. */
  function Join<T>(parts: seq<seq<T>>): seq<T> {
    if parts == [] then [] else Join(parts[..|parts| - 1]) + parts[|parts| - 1]
  }

  lemma JoinSnoc<T>(parts: seq<seq<T>>, last: seq<T>)
    ensures Join(parts + [last]) == Join(parts) + last
  {
  }

  lemma {:induction false} JoinUncons<T>(parts: seq<seq<T>>)
    requires parts != []
    ensures Join(parts) == parts[0] + Join(parts[1..])
  {
    var last := parts[|parts| - 1];
    if |parts| == 1 {
      assert parts[..0] == [] && parts[1..] == [];
    } else {
      var init := parts[..|parts| - 1];
      JoinUncons(init);
      assert init[1..] == parts[1..][..|parts| - 2];
      assert parts[0] + Join(init[1..]) + last == parts[0] + (Join(init[1..]) + last);
    }
  }
}
