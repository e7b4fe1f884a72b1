/**
 * Renumbering: the position of each element in the combined order
 * `edgeIDs + faceIDs + volumeIDs`, looked up by Salome element ID through the
 * index array `invElemIDs`, and the density check that guards it.
 */
module Renumbering {
  import opened MeshData

  /** `max(s)`. */
  function Max(s: seq<int>): (r: int)
    requires |s| > 0
    ensures r in s
    ensures forall k :: 0 <= k < |s| ==> s[k] <= r
  {
    if |s| == 1 then s[0]
    else
      var r := Max(s[..|s| - 1]);
      assert forall k :: 0 <= k < |s| - 1 ==> s[k] == s[..|s| - 1][k];
      if s[|s| - 1] > r then s[|s| - 1] else r
  }

  /** The last position holding `v`, or -1 when `v` does not occur. */
  function LastPos(s: seq<int>, v: int): (r: int)
    ensures -1 <= r < |s|
    ensures r == -1 <==> v !in s
    ensures 0 <= r ==> s[r] == v && forall k :: r < k < |s| ==> s[k] != v
  {
    if |s| == 0 then -1
    else if s[|s| - 1] == v then |s| - 1
    else
      var r := LastPos(s[..|s| - 1], v);
      assert forall k :: 0 <= k < |s| - 1 ==> s[k] == s[..|s| - 1][k];
      assert v in s[..|s| - 1] ==> v in s;
      r
  }

  /**
   * The value the loop leaves in `invElemIDs[j]`: one plus the last position
   * of element ID j+1 in `ids`, or the initial value when j+1 is not listed.
   */
  function InverseEntry(ids: seq<int>, j: int, initial: int): int
  {
    var p := LastPos(ids, j + 1);
    if p < 0 then initial else p + 1
  }

  /** `inv` maps each listed element ID, minus one, to its 1-based position in `ids`. */
  predicate IsInverse(ids: seq<int>, inv: seq<int>)
  {
    |inv| == |ids| &&
    forall k :: 0 <= k < |ids| ==> 1 <= ids[k] <= |inv| && inv[ids[k] - 1] == k + 1
  }

  /** The renumbering loop `invElemIDs[elemIDs[el]-1] = el+1`, run in place. */
  method FillInverse(inv: array<int>, ids: seq<int>)
    requires |ids| == inv.Length
    requires forall k :: 0 <= k < |ids| ==> 1 <= ids[k] <= inv.Length
    modifies inv
    ensures forall j :: 0 <= j < inv.Length ==> inv[j] == InverseEntry(ids, j, old(inv[j]))
    ensures Distinct(ids) ==> IsInverse(ids, inv[..])
  {
    for el := 0 to |ids|
      invariant forall j :: 0 <= j < inv.Length ==> inv[j] == InverseEntry(ids[..el], j, old(inv[j]))
    {
      assert ids[..el + 1][..el] == ids[..el];
      inv[ids[el] - 1] := el + 1;
    }
    assert ids[..|ids|] == ids;
    if Distinct(ids) {
      forall k | 0 <= k < |ids|
        ensures inv[ids[k] - 1] == k + 1
      {
        PositionOfDistinct(ids, k);
      }
    }
  }

  /** In a sequence of distinct IDs, the last position of `ids[k]` is k. */
  lemma PositionOfDistinct(ids: seq<int>, k: nat)
    requires Distinct(ids) && k < |ids|
    ensures LastPos(ids, ids[k]) == k
  {
  }

  /** The integers 1..n. */
  function Range(n: nat): (r: set<int>)
    ensures forall x :: x in r <==> 1 <= x <= n
    ensures |r| == n
  {
    if n == 0 then {} else
      var r := Range(n - 1);
      assert n !in r;
      r + {n}
  }

  /** A sequence of distinct values drawn from a finite set is no longer than the set. */
  lemma {:induction false} DistinctWithin(s: seq<int>, a: set<int>)
    requires Distinct(s)
    requires forall k :: 0 <= k < |s| ==> s[k] in a
    ensures |s| <= |a|
  {
    if |s| > 0 {
      var rest := s[1..];
      assert forall k :: 0 <= k < |rest| ==> rest[k] == s[k + 1] && rest[k] != s[0];
      DistinctWithin(rest, a - {s[0]});
    }
  }

  /** Pigeonhole: N distinct IDs drawn from 1..N list every one of 1..N. */
  lemma EveryIdListed(ids: seq<int>, v: int)
    requires Distinct(ids)
    requires forall k :: 0 <= k < |ids| ==> 1 <= ids[k] <= |ids|
    requires 1 <= v <= |ids|
    ensures v in ids
  {
    if v !in ids {
      var a := Range(|ids|) - {v};
      assert forall k :: 0 <= k < |ids| ==> ids[k] in a;
      DistinctWithin(ids, a);
    }
  }

  /**
   * When the density check passes and the element IDs are distinct, the
   * combined ID list is a permutation of 1..N, and `invElemIDs` is its inverse:
   * a bijection of 1..N that undoes it on both sides.
   */
  lemma InverseIsBijection(ids: seq<int>, initial: int)
    requires Distinct(ids)
    requires forall k :: 0 <= k < |ids| ==> 1 <= ids[k] <= |ids|
    ensures forall k :: 0 <= k < |ids| ==> InverseEntry(ids, ids[k] - 1, initial) == k + 1
    ensures forall j :: 0 <= j < |ids| ==>
      1 <= InverseEntry(ids, j, initial) <= |ids| && ids[InverseEntry(ids, j, initial) - 1] == j + 1
  {
    forall k | 0 <= k < |ids| ensures InverseEntry(ids, ids[k] - 1, initial) == k + 1 {
      PositionOfDistinct(ids, k);
    }
    forall j | 0 <= j < |ids|
      ensures 1 <= InverseEntry(ids, j, initial) <= |ids| && ids[InverseEntry(ids, j, initial) - 1] == j + 1
    {
      EveryIdListed(ids, j + 1);
    }
  }
}
