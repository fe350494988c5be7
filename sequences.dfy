/**
 * Reversal of a sequence: the order in which a last-in, first-out chain
 * (the stack, or the persistent list built by `push`) hands back the
 * values pushed onto it.
 */
module Sequences {
  /** `vs` back to front. */
  function Reversed<T>(vs: seq<T>): (r: seq<T>)
    ensures |r| == |vs|
  {
    if vs == [] then [] else Reversed(vs[1..]) + [vs[0]]
  }

  /** Reversing a sequence with one more element at its end puts it first. */
  lemma {:induction false} ReversedSnoc<T>(vs: seq<T>, v: T)
    ensures Reversed(vs + [v]) == [v] + Reversed(vs)
  {
    if vs != [] {
      assert (vs + [v])[1..] == vs[1..] + [v];
      ReversedSnoc(vs[1..], v);
    }
  }

  /** Position `k` of the reversal is position `|vs| - 1 - k` of `vs`. */
  lemma {:induction false} ReversedAt<T>(vs: seq<T>, k: nat)
    requires k < |vs|
    ensures Reversed(vs)[k] == vs[|vs| - 1 - k]
  {
    if k < |vs| - 1 {
      ReversedAt(vs[1..], k);
    }
  }
}
