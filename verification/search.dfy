/** First-fit search with lazy coalescing (find_good_or_last). */
module Searching {
  import opened Sizes
  import opened Blocks
  import opened Merge
  import opened Optional

  /** Outcome of a search: a block that fits, the last block of the list when
      none fits, or a heap the search cannot start on. */
  datatype SearchResult = Found(block: nat) | ReachedEnd(block: nat) | Corrupted

  datatype Searched = Searched(heap: Heap, result: SearchResult)

  /** Some block at or after `from` fits `sz`. */
  predicate AnyFits(h: Heap, from: nat, sz: nat)
  {
    exists k :: from <= k < |h| && Fits(h[k], sz)
  }

  /** Index one past the last block a search starting at `start` looked at
      and left behind. */
  function Scanned(s: Searched, start: nat): nat
  {
    match s.result
    case Found(b) => b
    case ReachedEnd(_) => |s.heap|
    case Corrupted => start
  }

  /** Merging at `i` keeps a fitting block at or after `i` available: the
      merged block is free and at least as large as either half. */
  lemma MergeKeepsAnyFits(h: Heap, i: nat, sz: nat)
    requires CanMerge(h, i)
    ensures AnyFits(h, i, sz) ==> AnyFits(MergeAt(h, i), i, sz)
  {
    if AnyFits(h, i, sz) {
      var k :| i <= k < |h| && Fits(h[k], sz);
      var r := MergeAt(h, i);
      if k <= i + 1 {
        assert Fits(r[i], sz);
      } else {
        assert r[k - 1] == h[k];
      }
    }
  }

  /** The search, as a reference definition: at block `i`, absorb the
      successor when the two are mergeable and return the block as soon as it
      fits; when nothing more can be absorbed, return it if it fits, and
      otherwise report it as the end of the list or move on. */
  function Search(h: Heap, i: nat, sz: nat): (s: Searched)
    ensures |s.heap| <= |h|
    ensures s.result.Corrupted? <==> i >= |h|
    ensures s.result.Corrupted? ==> s.heap == h
    ensures i < |h| ==> i < |s.heap| && s.heap[i].addr == h[i].addr && s.heap[i].free == h[i].free
    ensures forall k {:trigger s.heap[k]} :: 0 <= k < i && k < |h| ==> s.heap[k] == h[k]
    ensures s.result.Found? ==> i <= s.result.block < |s.heap| && Fits(s.heap[s.result.block], sz)
    ensures s.result.ReachedEnd? ==> i <= s.result.block && s.result.block + 1 == |s.heap|
    ensures forall k :: i <= k < Scanned(s, i) ==> !Fits(s.heap[k], sz)
    ensures forall k :: i <= k < Scanned(s, i) ==> !CanMerge(s.heap, k)
    ensures AnyFits(h, i, sz) ==> s.result.Found?
    decreases |h| - i
  {
    if i >= |h| then
      Searched(h, Corrupted)
    else if CanMerge(h, i) then
      var merged := MergeAt(h, i);
      if Fits(merged[i], sz) then
        Searched(merged, Found(i))
      else
        MergeKeepsAnyFits(h, i, sz);
        Search(merged, i, sz)
    else if Fits(h[i], sz) then
      Searched(h, Found(i))
    else if i + 1 == |h| then
      Searched(h, ReachedEnd(i))
    else
      Search(h, i + 1, sz)
  }

  /** The search moves no byte, touches no used block and keeps the heap valid. */
  lemma {:induction false} SearchKeeps(h: Heap, i: nat, sz: nat)
    ensures Bytes(Search(h, i, sz).heap) == Bytes(h)
    ensures UsedBlocks(Search(h, i, sz).heap) == UsedBlocks(h)
    ensures Valid(h) ==> Valid(Search(h, i, sz).heap)
    decreases |h| - i
  {
    if i < |h| {
      if CanMerge(h, i) {
        MergeAtKeeps(h, i);
        SearchKeeps(MergeAt(h, i), i, sz);
      } else if !Fits(h[i], sz) && i + 1 < |h| {
        SearchKeeps(h, i + 1, sz);
      }
    }
  }

  /** Every block before `b` is one a search from the start passes over:
      too small, and unable to absorb its successor. */
  predicate PassedOver(h: Heap, b: nat, sz: nat)
  {
    b < |h| && forall k :: 0 <= k < b ==> !Fits(h[k], sz) && !CanMerge(h, k)
  }

  /** Whether the blocks before `b` are passed over depends only on them and
      on where block `b` starts and whether it is free. */
  lemma PassedOverSameFront(h: Heap, g: Heap, b: nat, sz: nat)
    requires PassedOver(h, b, sz) && b < |g|
    requires forall k :: 0 <= k < b ==> g[k] == h[k]
    requires g[b].addr == h[b].addr && g[b].free == h[b].free
    ensures PassedOver(g, b, sz)
  {
    forall k | 0 <= k < b
      ensures !Fits(g[k], sz) && !CanMerge(g, k)
    {
      assert !CanMerge(h, k);
      if k + 1 < b {
        assert g[k + 1] == h[k + 1];
      }
    }
  }

  /** A search started at `i`, behind blocks it would pass over, leaves
      only passed-over blocks before the block it finds. */
  lemma SearchPassedOver(h: Heap, i: nat, sz: nat)
    requires i < |h|
    requires forall k :: 0 <= k < i ==> !Fits(h[k], sz) && !CanMerge(h, k)
    ensures Search(h, i, sz).result.Found? ==> PassedOver(Search(h, i, sz).heap, Search(h, i, sz).result.block, sz)
  {
    var s := Search(h, i, sz);
    if s.result.Found? {
      assert Scanned(s, i) == s.result.block;
      forall k | 0 <= k < s.result.block
        ensures !Fits(s.heap[k], sz) && !CanMerge(s.heap, k)
      {
        if k < i {
          assert s.heap[k] == h[k];
          assert !CanMerge(h, k);
          if k + 1 < i {
            assert s.heap[k + 1] == h[k + 1];
          }
        }
      }
    }
  }

  /** Conversely, on a heap where every block before `b` is too small and
      cannot absorb its successor, and `b` fits and cannot absorb its own,
      the search stops at `b` and changes nothing. */
  lemma {:induction false} SearchSkips(h: Heap, i: nat, b: nat, sz: nat)
    requires i <= b < |h|
    requires forall k :: i <= k < b ==> !Fits(h[k], sz) && !CanMerge(h, k)
    requires Fits(h[b], sz) && !CanMerge(h, b)
    ensures Search(h, i, sz) == Searched(h, Found(b))
    decreases b - i
  {
    if i < b {
      SearchSkips(h, i + 1, b, sz);
    }
  }

  /** One step of the search: a merge that does not yet fit keeps the search
      at the same block. */
  lemma SearchStepMerge(h: Heap, i: nat, sz: nat)
    requires CanMerge(h, i) && !Fits(MergeAt(h, i)[i], sz)
    ensures Search(h, i, sz) == Search(MergeAt(h, i), i, sz)
  {
  }

  /** One step of the search: a block that neither merges nor fits passes the
      search on to its successor. */
  lemma SearchStepNext(h: Heap, i: nat, sz: nat)
    requires i + 1 < |h| && !CanMerge(h, i) && !Fits(h[i], sz)
    ensures Search(h, i, sz) == Search(h, i + 1, sz)
  {
  }

  /** A found block is followed by the blocks of `h`'s tail, in order: what
      is left of the heap after the search merged blocks before it. */
  predicate TailKept(h: Heap, s: Searched)
  {
    s.result.Found? ==>
      |s.heap| <= |h| &&
      forall k {:trigger s.heap[k]} :: s.result.block < k < |s.heap| ==> s.heap[k] == h[k + |h| - |s.heap|]
  }

  /** A merge at `i` takes one block out of the tail after `i`, so a result
      past `i` that keeps the merged heap's tail keeps the original one. */
  lemma TailKeptMerge(h: Heap, i: nat, s: Searched)
    requires CanMerge(h, i)
    requires s.result.Found? ==> s.result.block >= i
    requires TailKept(MergeAt(h, i), s)
    ensures TailKept(h, s)
  {
    if s.result.Found? {
      var merged := MergeAt(h, i);
      forall k | s.result.block < k < |s.heap|
        ensures s.heap[k] == h[k + |h| - |s.heap|]
      {
        assert s.heap[k] == merged[k + |merged| - |s.heap|];
      }
    }
  }

  /** The steps at which the search stops: a block that fits after a merge
      or without one is found in the heap of that moment, and otherwise the
      search ends without finding anything. */
  lemma SearchStepStop(h: Heap, i: nat, sz: nat)
    ensures i < |h| && CanMerge(h, i) && Fits(MergeAt(h, i)[i], sz) ==>
      Search(h, i, sz) == Searched(MergeAt(h, i), Found(i))
    ensures i < |h| && !CanMerge(h, i) && Fits(h[i], sz) ==> Search(h, i, sz) == Searched(h, Found(i))
    ensures (i >= |h| || (!CanMerge(h, i) && !Fits(h[i], sz) && i + 1 == |h|)) ==>
      !Search(h, i, sz).result.Found?
  {
  }

  /** The search changes the heap only by merges: the blocks after the one
      it finds are the old ones, shifted down by the number absorbed. */
  lemma {:induction false} SearchKeepsTail(h: Heap, i: nat, sz: nat)
    ensures TailKept(h, Search(h, i, sz))
    decreases |h| - i
  {
    SearchStepStop(h, i, sz);
    if i < |h| && CanMerge(h, i) {
      var merged := MergeAt(h, i);
      if Fits(merged[i], sz) {
        TailKeptMerge(h, i, Searched(merged, Found(i)));
      } else {
        SearchStepMerge(h, i, sz);
        SearchKeepsTail(merged, i, sz);
        TailKeptMerge(h, i, Search(merged, i, sz));
      }
    } else if i + 1 < |h| && !Fits(h[i], sz) {
      SearchStepNext(h, i, sz);
      SearchKeepsTail(h, i + 1, sz);
    }
  }

  /** The searched heap stays clear of any block the original heap was clear of. */
  lemma {:induction false} SearchAvoids(h: Heap, i: nat, sz: nat, x: Block)
    requires Avoids(h, x)
    ensures Avoids(Search(h, i, sz).heap, x)
    decreases |h| - i
  {
    if i < |h| {
      if CanMerge(h, i) {
        MergeAtKeeps(h, i);
        SearchAvoids(MergeAt(h, i), i, sz, x);
      } else if !Fits(h[i], sz) && i + 1 < |h| {
        SearchAvoids(h, i + 1, sz, x);
      }
    }
  }

  /** find_good_or_last, written as a loop: one merge attempt per step, the
      block returned as soon as it fits, and the walk moved on only when no
      merge applies. */
  method FindGoodOrLast(h: Heap, start: nat, sz: nat) returns (heap: Heap, result: SearchResult)
    ensures Searched(heap, result) == Search(h, start, sz)
    ensures result.Found? ==> start <= result.block < |heap| && Fits(heap[result.block], sz)
    ensures result.Found? ==> forall k :: start <= k < result.block ==> !Fits(heap[k], sz)
    ensures result.ReachedEnd? ==> start <= result.block && result.block + 1 == |heap|
    ensures result.ReachedEnd? ==> forall k :: start <= k < |heap| ==> !Fits(heap[k], sz)
    ensures result.Corrupted? <==> start >= |h|
  {
    heap := h;
    if start >= |h| {
      return h, Corrupted;
    }
    var i := start;
    while true
      invariant start <= i < |heap|
      invariant Search(heap, i, sz) == Search(h, start, sz)
      decreases |heap| - i
    {
      var (merged, next) := TryMergeWithNext(heap, i);
      heap := next;
      if Fits(heap[i], sz) {
        return heap, Found(i);
      }
      if !merged {
        if i + 1 == |heap| {
          return heap, ReachedEnd(i);
        }
        i := i + 1;
      }
    }
  }

  /** What find_good_or_last as written can end in: a value from one of its
      two `return` statements, or falling off the end of the function (no
      value, so the caller reads an indeterminate result). */
  datatype AsWritten = AsWritten(heap: Heap, result: Option<SearchResult>)

  /** find_good_or_last as written. The loop runs only while a merge
      succeeds, so a block whose successor cannot be absorbed ends the
      function without a return; the recursive call on the successor has its
      result discarded, after which the loop tries to merge the same block
      again. */
  function FindAsWritten(h: Heap, i: nat, sz: nat): (s: AsWritten)
    requires i < |h|
    ensures i < |s.heap| <= |h|
    decreases |h|
  {
    var (merged, h1) := TryMergeWithNext(h, i);
    if !merged then
      AsWritten(h1, None)
    else if h1[i].free && h1[i].cap >= sz then
      AsWritten(h1, Some(Found(i)))
    else if i + 1 < |h1| then
      var discarded := FindAsWritten(h1, i + 1, sz);
      FindAsWritten(discarded.heap, i, sz)
    else
      AsWritten(h1, Some(ReachedEnd(i)))
  }

  /** The as-written search reports a found block only at the block it was
      called on: every result of the recursive call is discarded. So the
      as-written try_memalloc_existing, splitting its start block, splits the
      found one. */
  lemma {:induction false} FindAsWrittenFoundIsStart(h: Heap, i: nat, sz: nat)
    requires i < |h|
    ensures var r := FindAsWritten(h, i, sz).result;
      r.Some? && r.value.Found? ==> r.value.block == i
    decreases |h|
  {
    var (merged, h1) := TryMergeWithNext(h, i);
    if merged && !(h1[i].free && h1[i].cap >= sz) && i + 1 < |h1| {
      var discarded := FindAsWritten(h1, i + 1, sz);
      FindAsWrittenFoundIsStart(discarded.heap, i, sz);
    }
  }

  /** On a heap that is a single block, as right after initialisation, the
      as-written search returns nothing, whatever the request; the corrected
      search finds the block or reports it as the end. */
  lemma FreshHeapFallsOffEnd(b: Block, sz: nat)
    ensures FindAsWritten([b], 0, sz).result == None
    ensures Search([b], 0, sz).result == (if Fits(b, sz) then Found(0) else ReachedEnd(0))
  {
  }

  /** Four free blocks in two address-adjacent pairs; only the last block
      fits a request of 100 bytes. */
  const DiscardExample: Heap :=
    [Block(1000, 24, true), Block(1041, 24, true), Block(5000, 24, true), Block(5041, 100, true)]

  /** The example heap after its first pair is merged, and after its second. */
  const DiscardExampleOnce: Heap := [Block(1000, 65, true), Block(5000, 24, true), Block(5041, 100, true)]
  const DiscardExampleTwice: Heap := [Block(1000, 65, true), Block(5000, 141, true)]

  lemma DiscardExampleMerges()
    ensures TryMergeWithNext(DiscardExample, 0) == (true, DiscardExampleOnce)
    ensures TryMergeWithNext(DiscardExampleOnce, 1) == (true, DiscardExampleTwice)
    ensures TryMergeWithNext(DiscardExampleTwice, 0) == (false, DiscardExampleTwice)
  {
    var r1 := TryMergeWithNext(DiscardExample, 0).1;
    assert r1[0] == DiscardExampleOnce[0] && r1[1] == DiscardExampleOnce[1] && r1[2] == DiscardExampleOnce[2];
    assert r1 == DiscardExampleOnce;
    var r2 := TryMergeWithNext(DiscardExampleOnce, 1).1;
    assert r2[0] == DiscardExampleTwice[0] && r2[1] == DiscardExampleTwice[1];
    assert r2 == DiscardExampleTwice;
  }

  /** The recursive call finds a fitting block but its result is thrown
      away: on a valid heap the as-written search returns nothing although
      the block at index 1 of the heap it leaves fits. */
  lemma DiscardedResult()
    ensures Valid(DiscardExample)
    ensures FindAsWritten(DiscardExample, 0, 100) == AsWritten(DiscardExampleTwice, None)
    ensures Fits(DiscardExampleTwice[1], 100)
  {
    DiscardExampleMerges();
    assert FindAsWritten(DiscardExampleOnce, 1, 100) == AsWritten(DiscardExampleTwice, Some(Found(1)));
    assert FindAsWritten(DiscardExampleTwice, 0, 100) == AsWritten(DiscardExampleTwice, None);
  }

  /** On the same heap the corrected search merges the second pair and finds
      its block. */
  lemma DiscardedResultCorrected()
    ensures Search(DiscardExample, 0, 100) == Searched(DiscardExampleTwice, Found(1))
  {
    DiscardExampleMerges();
    assert Search(DiscardExample, 0, 100) == Search(DiscardExampleOnce, 0, 100);
    assert Search(DiscardExampleOnce, 0, 100) == Search(DiscardExampleOnce, 1, 100);
    assert Search(DiscardExampleOnce, 1, 100) == Search(DiscardExampleTwice, 1, 100);
  }
}
