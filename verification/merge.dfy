/** Forward coalescing: merging a free block with its free, address-adjacent
    successor, once or until no further merge applies. */
module Merge {
  import opened Sizes
  import opened Blocks

  /** Block `i` has a successor it can absorb. */
  predicate CanMerge(h: Heap, i: nat)
  {
    i + 1 < |h| && Mergeable(h[i], h[i + 1])
  }

  /** The heap after block `i` has absorbed its successor: its capacity grows
      by the whole size of the successor, whose header disappears from the list. */
  function MergeAt(h: Heap, i: nat): (r: Heap)
    requires CanMerge(h, i)
    ensures |r| == |h| - 1
    ensures r[i] == h[i].(cap := h[i].cap + SizeOf(h[i + 1]))
    ensures forall k {:trigger r[k]} :: 0 <= k < i ==> r[k] == h[k]
    ensures forall k {:trigger r[k]} :: i < k < |r| ==> r[k] == h[k + 1]
  {
    Splice(h, i, 2, [h[i].(cap := h[i].cap + SizeOf(h[i + 1]))])
  }

  /** Merging moves no byte, touches no used block and keeps the heap valid. */
  lemma MergeAtKeeps(h: Heap, i: nat)
    requires CanMerge(h, i)
    ensures Bytes(MergeAt(h, i)) == Bytes(h)
    ensures UsedBlocks(MergeAt(h, i)) == UsedBlocks(h)
    ensures Valid(h) ==> Valid(MergeAt(h, i))
    ensures forall x :: Avoids(h, x) ==> Avoids(MergeAt(h, i), x)
  {
    var m := h[i].(cap := h[i].cap + SizeOf(h[i + 1]));
    var r := MergeAt(h, i);
    BytesMergeTwo(h, i, m);
    UsedSplice(h, i, 2, [m]);
    if Valid(h) {
      forall k, j | 0 <= k < 1 && 0 <= j < |h| && !(i <= j < i + 2)
        ensures Disjoint([m][k], h[j])
      {
        DisjointUnion(h[i], h[i + 1], m, h[j]);
      }
      ValidSplice(h, i, 2, [m]);
    }
    forall x | Avoids(h, x)
      ensures Avoids(r, x)
    {
      DisjointUnion(h[i], h[i + 1], m, x);
      AvoidsSplice(h, i, 2, [m], x);
    }
  }

  /** One step of coalescing (try_merge_with_next): reports whether block `i`
      absorbed its successor, together with the resulting heap. */
  function TryMergeWithNext(h: Heap, i: nat): (r: (bool, Heap))
    requires i < |h|
    ensures r.0 <==> i + 1 < |h| && h[i].free && h[i + 1].free && h[i + 1].addr == BlockAfter(h[i])
    ensures !r.0 ==> r.1 == h
    ensures r.0 ==> |r.1| == |h| - 1
    ensures r.0 ==> r.1[i] == Block(h[i].addr, h[i].cap + h[i + 1].cap + H, true)
    ensures r.0 ==> BlockAfter(r.1[i]) == BlockAfter(h[i + 1])
    ensures r.0 ==> forall k :: 0 <= k < |r.1| && k != i ==> r.1[k] == h[if k < i then k else k + 1]
    ensures Bytes(r.1) == Bytes(h)
    ensures UsedBlocks(r.1) == UsedBlocks(h)
    ensures Valid(h) ==> Valid(r.1)
    ensures forall x :: Avoids(h, x) ==> Avoids(r.1, x)
  {
    if CanMerge(h, i) then
      MergeAtKeeps(h, i);
      var r := MergeAt(h, i);
      assert forall k :: i + 2 <= k < |h| ==> r[k - 1] == h[k];
      (true, r)
    else
      (false, h)
  }

  /** The loop `while (try_merge_with_next(block));`: block `i` absorbs its
      successors until the next one is absent, used or not adjacent. */
  function Coalesce(h: Heap, i: nat): (r: Heap)
    requires i < |h|
    ensures i < |r| <= |h|
    ensures forall k {:trigger r[k]} :: 0 <= k < i ==> r[k] == h[k]
    ensures r[i].addr == h[i].addr && r[i].free == h[i].free && r[i].cap >= h[i].cap
    ensures !CanMerge(r, i)
    decreases |h|
  {
    if CanMerge(h, i) then
      Coalesce(MergeAt(h, i), i)
    else
      h
  }

  /** Coalescing moves no byte, touches no used block and keeps the heap valid. */
  lemma {:induction false} CoalesceKeeps(h: Heap, i: nat)
    requires i < |h|
    ensures Bytes(Coalesce(h, i)) == Bytes(h)
    ensures UsedBlocks(Coalesce(h, i)) == UsedBlocks(h)
    ensures Valid(h) ==> Valid(Coalesce(h, i))
    ensures forall x :: Avoids(h, x) ==> Avoids(Coalesce(h, i), x)
    decreases |h|
  {
    if CanMerge(h, i) {
      MergeAtKeeps(h, i);
      CoalesceKeeps(MergeAt(h, i), i);
    }
  }

  /** The coalesced block ends where the last block it absorbed ended. */
  lemma {:induction false} CoalesceCovers(h: Heap, i: nat)
    requires i < |h|
    ensures BlockAfter(Coalesce(h, i)[i]) == BlockAfter(h[i + |h| - |Coalesce(h, i)|])
    decreases |h|
  {
    if CanMerge(h, i) {
      var next := MergeAt(h, i);
      CoalesceCovers(next, i);
      var d := |next| - |Coalesce(next, i)|;
      if d > 0 {
        assert next[i + d] == h[i + d + 1];
      }
    }
  }

  /** The blocks after the absorbed run are the old ones, in the old order. */
  lemma {:induction false} CoalesceKeepsTail(h: Heap, i: nat, k: nat)
    requires i < |h| && i < k < |Coalesce(h, i)|
    ensures Coalesce(h, i)[k] == h[k + |h| - |Coalesce(h, i)|]
    decreases |h|
  {
    if CanMerge(h, i) {
      var next := MergeAt(h, i);
      CoalesceKeepsTail(next, i, k);
    }
  }

  /** Coalescing is idempotent: once done, a second pass changes nothing. */
  lemma CoalesceIdempotent(h: Heap, i: nat)
    requires i < |h|
    ensures Coalesce(Coalesce(h, i), i) == Coalesce(h, i)
  {
  }
}
