/** Allocation: search the heap from its start, split the block found, grow
    the heap by a fresh region when nothing fits (try_memalloc_existing,
    grow_heap, memalloc, _malloc). */
module Alloc {
  import opened Optional
  import opened Sizes
  import opened Blocks
  import opened Merge
  import opened Split
  import opened Searching
  import opened Regions

  /** try_memalloc_existing, corrected: search from `start` and split the
      block the search found down to the query. */
  function TryMemallocExisting(h: Heap, start: nat, query: nat): (s: Searched)
    ensures s.result.Corrupted? <==> start >= |h|
    ensures s.result.Corrupted? ==> s.heap == h
    ensures start < |h| ==> start < |s.heap| && s.heap[start].addr == h[start].addr
    ensures s.result.Found? ==> start <= s.result.block < |s.heap| && Fits(s.heap[s.result.block], query)
    ensures s.result.Found? ==> var c := s.heap[s.result.block].cap;
      c == Max(BlockMinCapacity, query) || c < Max(BlockMinCapacity, query) + H + BlockMinCapacity
    ensures s.result.ReachedEnd? ==> start <= s.result.block && s.result.block + 1 == |s.heap|
    ensures s.result.ReachedEnd? ==> forall k :: start <= k < |s.heap| ==> !Fits(s.heap[k], query)
    ensures AnyFits(h, start, query) ==> s.result.Found?
    ensures s.result == Search(h, start, query).result
  {
    var found := Search(h, start, query);
    match found.result
    case Found(b) =>
      var (_, split) := SplitIfTooBig(found.heap, b, query);
      Searched(split, found.result)
    case _ => found
  }

  /** Allocating in place keeps every block before `start`. */
  lemma TryMemallocExistingKeepsFront(h: Heap, start: nat, query: nat)
    ensures var t := TryMemallocExisting(h, start, query);
      forall k {:trigger t.heap[k]} :: 0 <= k < start && k < |h| ==> t.heap[k] == h[k]
  {
    var found := Search(h, start, query);
    if found.result.Found? {
      var b := found.result.block;
      var (split, r) := SplitIfTooBig(found.heap, b, query);
      assert TryMemallocExisting(h, start, query) == Searched(r, found.result);
    }
  }

  /** Allocating in place changes the heap after the found block only by the
      search's merges and the split: first the split's remainder, if any,
      then the old blocks, shifted down by the number absorbed. */
  lemma TryMemallocExistingKeepsTail(h: Heap, start: nat, query: nat)
    ensures var t := TryMemallocExisting(h, start, query);
      t.result.Found? ==> (|t.heap| <= |h| + 1 &&
        forall k {:trigger t.heap[k]} :: t.result.block + 1 < k < |t.heap| ==> t.heap[k] == h[k + |h| - |t.heap|])
    ensures var t := TryMemallocExisting(h, start, query);
      t.result.Found? && t.result.block + 1 < |t.heap| && |t.heap| <= |h| + 1 ==>
        || t.heap[t.result.block + 1] == h[t.result.block + 1 + |h| - |t.heap|]
        || (t.heap[t.result.block + 1].free && BlocksContinuous(t.heap[t.result.block], t.heap[t.result.block + 1]))
  {
    var found := Search(h, start, query);
    if found.result.Found? {
      SearchKeepsTail(h, start, query);
      var b := found.result.block;
      var (split, r) := SplitIfTooBig(found.heap, b, query);
      assert TryMemallocExisting(h, start, query) == Searched(r, found.result);
      if split {
        forall k | b + 1 < k < |r|
          ensures r[k] == h[k + |h| - |r|]
        {
          assert r[k] == found.heap[k - 1];
        }
      }
    }
  }

  /** Allocating in place moves no byte, touches no used block and keeps the
      heap valid and clear of anything it was clear of. */
  lemma TryMemallocExistingKeeps(h: Heap, start: nat, query: nat, x: Block)
    ensures Bytes(TryMemallocExisting(h, start, query).heap) == Bytes(h)
    ensures UsedBlocks(TryMemallocExisting(h, start, query).heap) == UsedBlocks(h)
    ensures Valid(h) ==> Valid(TryMemallocExisting(h, start, query).heap)
    ensures Avoids(h, x) ==> Avoids(TryMemallocExisting(h, start, query).heap, x)
  {
    var found := Search(h, start, query);
    SearchKeeps(h, start, query);
    if Avoids(h, x) {
      SearchAvoids(h, start, query, x);
    }
    if found.result.Found? {
      SplitKeepsUsed(found.heap, found.result.block, query);
      if Valid(found.heap) {
        SplitKeepsValid(found.heap, found.result.block, query);
      }
      if Avoids(found.heap, x) {
        SplitAvoids(found.heap, found.result.block, query, x);
      }
    }
  }

  /** try_memalloc_existing as written: the split is applied to the block
      the search started from, not to the block it found. The found block
      is followed by its header, so its index moves if a block is inserted
      before it. */
  function TryMemallocExistingAsWritten(h: Heap, start: nat, query: nat): (s: Searched)
    ensures s.result.Corrupted? <==> start >= |h|
    ensures s.result.Found? ==> s.result.block < |s.heap|
  {
    var found := Search(h, start, query);
    match found.result
    case Found(b) =>
      var (split, r) := SplitIfTooBig(found.heap, start, query);
      Searched(r, Found(if split && b > start then b + 1 else b))
    case _ => found
  }

  /** The as-written version never splits a block found past the start: the
      start block is then either used or too small to split, so the heap is
      left as the search left it, however much larger than the query the
      found block is. */
  lemma AsWrittenLeavesFoundBlockWhole(h: Heap, start: nat, query: nat)
    requires Search(h, start, query).result.Found?
    requires Search(h, start, query).result.block > start
    ensures TryMemallocExistingAsWritten(h, start, query) == Search(h, start, query)
  {
    var found := Search(h, start, query);
    assert !Fits(found.heap[start], query);
  }

  /** A heap whose first block is in use and whose second is large: the
      as-written allocation hands out the large block whole, the corrected
      one splits it down to the query. */
  lemma AsWrittenSplitsWrongBlock()
    ensures var h := [Block(4096, 24, false), Block(4137, 1000, true)];
      && Valid(h)
      && TryMemallocExistingAsWritten(h, 0, 30) == Searched(h, Found(1))
      && TryMemallocExisting(h, 0, 30).heap[1].cap == 30
  {
    var h := [Block(4096, 24, false), Block(4137, 1000, true)];
    assert Search(h, 0, 30) == Search(h, 1, 30);
    assert Search(h, 1, 30) == Searched(h, Found(1));
  }

  /** The heap of the split example sends the as-written search off the end:
      its first block is in use, so the first merge fails and line 154 is
      never reached. The wrong-block split shows only once the search is
      corrected. */
  lemma AsWrittenSearchMissesSplitExample()
    ensures FindAsWritten([Block(4096, 24, false), Block(4137, 1000, true)], 0, 30).result == None
  {
  }

  /** grow_heap, on the corrected alloc_region: maps a region for `query`
      and links its block after `last`; on failure the heap is unchanged and
      no block is returned. */
  function GrowHeap(h: Heap, last: nat, query: nat, first: Option<nat>, second: Option<nat>): (g: (Heap, Option<nat>))
    requires last < |h|
    ensures g.1.None? <==> !MapOk(first) && !MapOk(second)
    ensures g.1.None? ==> g.0 == h
    ensures g.1.Some? ==> g.1.value == last + 1 && |g.0| == last + 2
    ensures g.1.Some? ==> forall k {:trigger g.0[k]} :: 0 <= k <= last ==> g.0[k] == h[k]
    ensures g.1.Some? ==> g.0[last + 1].addr == MappedAddr(first, second) && Fits(g.0[last + 1], query)
  {
    var region := AllocRegion(query, first, second);
    if RegionIsInvalid(region) then (h, None)
    else (h[..last + 1] + [RegionBlock(region)], Some(last + 1))
  }

  /** The block a successful grow_heap for `query` links in. */
  function GrownBlock(query: nat, first: Option<nat>, second: Option<nat>): (b: Block)
    requires MapOk(first) || MapOk(second)
    ensures b.addr == MappedAddr(first, second) && Fits(b, query)
  {
    RegionBlock(AllocRegion(query, first, second))
  }

  /** Growing at the last block adds the region's bytes, adds no used block
      and, when the region is clear of the heap, keeps the heap valid. */
  lemma GrowHeapKeeps(h: Heap, query: nat, first: Option<nat>, second: Option<nat>)
    requires |h| > 0 && (MapOk(first) || MapOk(second))
    ensures GrowHeap(h, |h| - 1, query, first, second).0 == h + [GrownBlock(query, first, second)]
    ensures Bytes(GrowHeap(h, |h| - 1, query, first, second).0) == Bytes(h) + AllocRegion(query, first, second).size
    ensures UsedBlocks(GrowHeap(h, |h| - 1, query, first, second).0) == UsedBlocks(h)
    ensures Valid(h) && Avoids(h, GrownBlock(query, first, second)) ==>
      Valid(GrowHeap(h, |h| - 1, query, first, second).0)
  {
    var x := GrownBlock(query, first, second);
    var g := h + [x];
    assert h[..|h|] == h;
    BytesAppend(h, [x]);
    BytesPair(x, x);
    assert g == Splice(h, |h|, 0, [x]);
    UsedSplice(h, |h|, 0, [x]);
    if Valid(h) && Avoids(h, x) {
      ValidSplice(h, |h|, 0, [x]);
    }
  }

  /** Outcome of memalloc: the heap afterwards and the index of the block
      handed out, if any. */
  datatype Allocated = Allocated(heap: Heap, block: Option<nat>)

  /** The tail of memalloc once the search has reached the end at `last`:
      grow the heap there and allocate again from `last`, which can absorb
      the new region when the two are adjacent. */
  function GrowAndRetry(h: Heap, last: nat, query: nat, first: Option<nat>, second: Option<nat>): (a: Allocated)
    requires last < |h|
    ensures a.block.Some? ==> last <= a.block.value < |a.heap| && !a.heap[a.block.value].free
    ensures a.block.Some? ==> a.heap[a.block.value].cap >= query
  {
    var (grown, region) := GrowHeap(h, last, query, first, second);
    if region.None? then
      Allocated(grown, None)
    else
      var again := TryMemallocExisting(grown, last, query);
      if again.result.Found? then
        Allocated(MarkUsed(again.heap, again.result.block), Some(again.result.block))
      else
        Allocated(again.heap, None)
  }

  /** memalloc, corrected: when the search reaches the end, grow the heap and
      allocate again instead of returning NULL. */
  function Memalloc(h: Heap, query: nat, first: Option<nat>, second: Option<nat>): (a: Allocated)
    ensures a.block.Some? ==> a.block.value < |a.heap| && !a.heap[a.block.value].free
    ensures a.block.Some? ==> a.heap[a.block.value].cap >= query
  {
    var s := TryMemallocExisting(h, 0, query);
    match s.result
    case Corrupted => Allocated(h, None)
    case Found(b) => Allocated(MarkUsed(s.heap, b), Some(b))
    case ReachedEnd(last) => GrowAndRetry(s.heap, last, query, first, second)
  }

  /** memalloc as written: when the search reaches the end it grows the heap
      and then returns NULL anyway. */
  function MemallocAsWritten(h: Heap, query: nat, first: Option<nat>, second: Option<nat>): (a: Allocated)
    ensures a.block.Some? ==> a.block.value < |a.heap| && !a.heap[a.block.value].free
  {
    var s := TryMemallocExisting(h, 0, query);
    match s.result
    case Corrupted => Allocated(h, None)
    case Found(b) => Allocated(MarkUsed(s.heap, b), Some(b))
    case ReachedEnd(last) => Allocated(GrowHeap(s.heap, last, query, first, second).0, None)
  }

  /** Growing and retrying fails exactly when both mapping attempts fail:
      the new region's block always fits the query. */
  lemma GrowAndRetryFails(h: Heap, last: nat, query: nat, first: Option<nat>, second: Option<nat>)
    requires last < |h|
    ensures GrowAndRetry(h, last, query, first, second).block.None? <==> !MapOk(first) && !MapOk(second)
  {
    if MapOk(first) || MapOk(second) {
      var grown := GrowHeap(h, last, query, first, second).0;
      assert Fits(grown[last + 1], query);
    }
  }

  /** memalloc fails exactly when the heap is empty, or when nothing in it can
      serve the query and both mapping attempts fail. */
  lemma MemallocFails(h: Heap, query: nat, first: Option<nat>, second: Option<nat>)
    ensures Memalloc(h, query, first, second).block.None? <==>
      |h| == 0 || (Search(h, 0, query).result.ReachedEnd? && !MapOk(first) && !MapOk(second))
  {
    var s := TryMemallocExisting(h, 0, query);
    if s.result.ReachedEnd? {
      GrowAndRetryFails(s.heap, s.result.block, query, first, second);
    }
  }

  /** The as-written memalloc returns NULL in every case where the corrected
      one had to grow the heap, although the heap did grow. */
  lemma MemallocAsWrittenDropsGrowth(h: Heap, query: nat, first: Option<nat>, second: Option<nat>)
    requires |h| > 0 && Search(h, 0, query).result.ReachedEnd?
    requires MapOk(first) || MapOk(second)
    ensures MemallocAsWritten(h, query, first, second).block.None?
    ensures |MemallocAsWritten(h, query, first, second).heap| == |Search(h, 0, query).heap| + 1
    ensures Memalloc(h, query, first, second).block.Some?
  {
    MemallocFails(h, query, first, second);
  }

  /** The grown region is clear of the heap: what the operating system
      guarantees of a fresh mapping, stated for the mapping outcome given. */
  predicate FreshRegion(h: Heap, query: nat, first: Option<nat>, second: Option<nat>)
  {
    (MapOk(first) || MapOk(second)) ==> Avoids(h, GrownBlock(query, first, second))
  }

  /** Growing at the last block and retrying adds exactly the region's bytes
      when the region is mapped, and none otherwise. */
  lemma GrowAndRetryBytes(h: Heap, query: nat, first: Option<nat>, second: Option<nat>)
    requires |h| > 0
    ensures Bytes(GrowAndRetry(h, |h| - 1, query, first, second).heap) ==
      Bytes(h) + (if MapOk(first) || MapOk(second) then AllocRegion(query, first, second).size else 0)
  {
    if MapOk(first) || MapOk(second) {
      var last := |h| - 1;
      GrowHeapKeeps(h, query, first, second);
      GrowAndRetryFails(h, last, query, first, second);
      var grown := GrowHeap(h, last, query, first, second).0;
      var again := TryMemallocExisting(grown, last, query);
      TryMemallocExistingKeeps(grown, last, query, Block(0, 0, true));
      MarkUsedKeeps(again.heap, again.result.block);
    }
  }

  /** memalloc moves no byte unless it grows the heap, and then adds exactly
      the region's bytes. */
  lemma MemallocBytes(h: Heap, query: nat, first: Option<nat>, second: Option<nat>)
    ensures var grew := |h| > 0 && Search(h, 0, query).result.ReachedEnd? && (MapOk(first) || MapOk(second));
      Bytes(Memalloc(h, query, first, second).heap) ==
        Bytes(h) + (if grew then AllocRegion(query, first, second).size else 0)
  {
    var t := TryMemallocExisting(h, 0, query);
    MemallocCases(h, query, first, second);
    TryMemallocExistingKeeps(h, 0, query, Block(0, 0, true));
    if t.result.Found? {
      MarkUsedKeeps(t.heap, t.result.block);
    } else if t.result.ReachedEnd? {
      GrowAndRetryBytes(t.heap, query, first, second);
    }
  }

  /** In a valid heap, handing out a free block adds a block no caller holds yet. */
  lemma MarkUsedFresh(h: Heap, i: nat)
    requires Valid(h) && i < |h| && h[i].free
    ensures UsedBlocks(MarkUsed(h, i)) == UsedBlocks(h) + {MarkUsed(h, i)[i]}
    ensures MarkUsed(h, i)[i] !in UsedBlocks(h)
    ensures Valid(MarkUsed(h, i))
  {
    MarkUsedUsed(h, i);
    MarkUsedKeeps(h, i);
  }

  /** What a caller of memalloc gets, given the blocks `used` before the
      call: on success one block no caller held before, on failure nothing. */
  predicate HandsOutOne(used: set<Block>, a: Allocated)
  {
    match a.block
    case None => UsedBlocks(a.heap) == used
    case Some(b) => b < |a.heap| && a.heap[b] !in used && UsedBlocks(a.heap) == used + {a.heap[b]}
  }

  /** Growing a valid heap by a region clear of it and retrying keeps the
      heap valid. */
  lemma GrowAndRetryValid(h: Heap, query: nat, first: Option<nat>, second: Option<nat>)
    requires |h| > 0 && Valid(h) && FreshRegion(h, query, first, second)
    ensures Valid(GrowAndRetry(h, |h| - 1, query, first, second).heap)
  {
    if MapOk(first) || MapOk(second) {
      var last := |h| - 1;
      var x := GrownBlock(query, first, second);
      GrowHeapKeeps(h, query, first, second);
      var grown := GrowHeap(h, last, query, first, second).0;
      var again := TryMemallocExisting(grown, last, query);
      TryMemallocExistingKeeps(grown, last, query, x);
      if again.result.Found? {
        MarkUsedKeeps(again.heap, again.result.block);
      }
    }
  }

  /** Growing a valid heap by a region clear of it and retrying hands out one
      block no caller held before. */
  lemma GrowAndRetryUsed(h: Heap, query: nat, first: Option<nat>, second: Option<nat>)
    requires |h| > 0 && Valid(h) && FreshRegion(h, query, first, second)
    ensures HandsOutOne(UsedBlocks(h), GrowAndRetry(h, |h| - 1, query, first, second))
  {
    if MapOk(first) || MapOk(second) {
      var last := |h| - 1;
      var x := GrownBlock(query, first, second);
      GrowHeapKeeps(h, query, first, second);
      GrowAndRetryFails(h, last, query, first, second);
      var grown := GrowHeap(h, last, query, first, second).0;
      var again := TryMemallocExisting(grown, last, query);
      TryMemallocExistingKeeps(grown, last, query, x);
      MarkUsedFresh(again.heap, again.result.block);
    }
  }

  /** When the region is mapped right after a free last block, the retry
      absorbs it into that block and hands out the block itself, at its old
      address: the case grow_heap marks as extending the heap. */
  lemma GrowAdjacentAbsorbs(h: Heap, last: nat, query: nat, first: Option<nat>, second: Option<nat>)
    requires last < |h| && h[last].free
    requires MapOk(first) || MapOk(second)
    requires MappedAddr(first, second) == BlockAfter(h[last])
    ensures GrowAndRetry(h, last, query, first, second).block == Some(last)
    ensures GrowAndRetry(h, last, query, first, second).heap[last].addr == h[last].addr
  {
    var grown := GrowHeap(h, last, query, first, second).0;
    assert CanMerge(grown, last);
    assert Fits(MergeAt(grown, last)[last], query);
  }

  /** Which branch of memalloc a heap and query take: the heap memalloc
      returns, told apart by what the search from the start reports. */
  lemma MemallocCases(h: Heap, query: nat, first: Option<nat>, second: Option<nat>)
    ensures var t := TryMemallocExisting(h, 0, query);
      t.result.Corrupted? ==> Memalloc(h, query, first, second) == Allocated(h, None)
    ensures var t := TryMemallocExisting(h, 0, query);
      t.result.Found? ==> Memalloc(h, query, first, second) == Allocated(MarkUsed(t.heap, t.result.block), Some(t.result.block))
    ensures var t := TryMemallocExisting(h, 0, query);
      t.result.ReachedEnd? ==> |t.heap| > 0 && Memalloc(h, query, first, second) == GrowAndRetry(t.heap, |t.heap| - 1, query, first, second)
  {
  }

  /** memalloc keeps the heap valid, given that a region it maps is clear of
      the heap. */
  lemma MemallocValid(h: Heap, query: nat, first: Option<nat>, second: Option<nat>)
    requires Valid(h) && FreshRegion(h, query, first, second)
    ensures Valid(Memalloc(h, query, first, second).heap)
  {
    var t := TryMemallocExisting(h, 0, query);
    MemallocCases(h, query, first, second);
    var x := if MapOk(first) || MapOk(second) then GrownBlock(query, first, second) else Block(0, 0, true);
    TryMemallocExistingKeeps(h, 0, query, x);
    if t.result.Found? {
      MarkUsedFresh(t.heap, t.result.block);
    } else if t.result.ReachedEnd? {
      GrowAndRetryValid(t.heap, query, first, second);
    }
  }

  lemma MemallocUsedFound(h: Heap, query: nat, first: Option<nat>, second: Option<nat>)
    requires Valid(h) && TryMemallocExisting(h, 0, query).result.Found?
    ensures HandsOutOne(UsedBlocks(h), Memalloc(h, query, first, second))
  {
    var t := TryMemallocExisting(h, 0, query);
    MemallocCases(h, query, first, second);
    TryMemallocExistingKeeps(h, 0, query, Block(0, 0, true));
    MarkUsedFresh(t.heap, t.result.block);
  }

  lemma MemallocUsedEnd(h: Heap, query: nat, first: Option<nat>, second: Option<nat>)
    requires Valid(h) && FreshRegion(h, query, first, second)
    requires TryMemallocExisting(h, 0, query).result.ReachedEnd?
    ensures HandsOutOne(UsedBlocks(h), Memalloc(h, query, first, second))
  {
    var t := TryMemallocExisting(h, 0, query);
    MemallocCases(h, query, first, second);
    var x := if MapOk(first) || MapOk(second) then GrownBlock(query, first, second) else Block(0, 0, true);
    TryMemallocExistingKeeps(h, 0, query, x);
    GrowAndRetryUsed(t.heap, query, first, second);
  }

  /** A successful memalloc hands out exactly one block no caller held
      before; a failed one hands out nothing. */
  lemma MemallocUsed(h: Heap, query: nat, first: Option<nat>, second: Option<nat>)
    requires Valid(h) && FreshRegion(h, query, first, second)
    ensures var a := Memalloc(h, query, first, second);
      a.block.None? ==> UsedBlocks(a.heap) == UsedBlocks(h)
    ensures var a := Memalloc(h, query, first, second);
      a.block.Some? ==> (a.heap[a.block.value] !in UsedBlocks(h) &&
        UsedBlocks(a.heap) == UsedBlocks(h) + {a.heap[a.block.value]})
  {
    var t := TryMemallocExisting(h, 0, query);
    if t.result.Found? {
      MemallocUsedFound(h, query, first, second);
    } else if t.result.ReachedEnd? {
      MemallocUsedEnd(h, query, first, second);
    } else {
      MemallocCases(h, query, first, second);
    }
  }

  /** When the search from the start finds a block, memalloc hands out that
      block: its index and its address are the ones the search reported. */
  lemma MemallocFound(h: Heap, query: nat, first: Option<nat>, second: Option<nat>)
    requires Search(h, 0, query).result.Found?
    ensures var s := Search(h, 0, query);
      Memalloc(h, query, first, second).block == Some(s.result.block)
    ensures var s := Search(h, 0, query);
      Malloc(h, query, first, second).1 == Contents(s.heap[s.result.block])
  {
    MemallocCases(h, query, first, second);
  }

  /** The search from the old last block of a grown heap finds a block, and
      every block before it is passed over, given that the whole heap before
      growth was passed over. */
  lemma GrownSearchPassedOver(h: Heap, query: nat, first: Option<nat>, second: Option<nat>)
    requires |h| > 0 && (MapOk(first) || MapOk(second))
    requires forall k :: 0 <= k < |h| ==> !Fits(h[k], query) && !CanMerge(h, k)
    ensures var s := Search(GrowHeap(h, |h| - 1, query, first, second).0, |h| - 1, query);
      s.result.Found? && PassedOver(s.heap, s.result.block, query)
  {
    var last := |h| - 1;
    var grown := GrowHeap(h, last, query, first, second).0;
    assert Fits(grown[last + 1], query);
    forall k | 0 <= k < last
      ensures !Fits(grown[k], query) && !CanMerge(grown, k)
    {
      assert grown[k] == h[k] && grown[k + 1] == h[k + 1];
    }
    SearchPassedOver(grown, last, query);
  }

  /** Once the region is mapped, the retry finds a block and hands it out:
      the outcome of GrowAndRetry unfolded. */
  lemma GrowAndRetryFound(h: Heap, query: nat, first: Option<nat>, second: Option<nat>)
    requires |h| > 0 && (MapOk(first) || MapOk(second))
    ensures var t := TryMemallocExisting(GrowHeap(h, |h| - 1, query, first, second).0, |h| - 1, query);
      && t.result.Found?
      && GrowAndRetry(h, |h| - 1, query, first, second) == Allocated(MarkUsed(t.heap, t.result.block), Some(t.result.block))
  {
    var grown := GrowHeap(h, |h| - 1, query, first, second).0;
    assert Fits(grown[|h|], query);
  }

  /** The block the retry after growth hands out is preceded only by blocks
      a search from the start passes over, given that the whole heap before
      growth was passed over. */
  lemma GrowAndRetryPassedOver(h: Heap, query: nat, first: Option<nat>, second: Option<nat>)
    requires |h| > 0
    requires forall k :: 0 <= k < |h| ==> !Fits(h[k], query) && !CanMerge(h, k)
    ensures var a := GrowAndRetry(h, |h| - 1, query, first, second);
      a.block.Some? ==> PassedOver(MarkFree(a.heap, a.block.value), a.block.value, query)
  {
    if MapOk(first) || MapOk(second) {
      var last := |h| - 1;
      var grown := GrowHeap(h, last, query, first, second).0;
      GrownSearchPassedOver(h, query, first, second);
      GrowAndRetryFound(h, query, first, second);
      var s2 := Search(grown, last, query);
      var j := s2.result.block;
      var t := TryMemallocExisting(grown, last, query);
      PassedOverSameFront(s2.heap, t.heap, j, query);
      assert MarkFree(MarkUsed(t.heap, j), j) == t.heap;
    }
  }

  lemma MemallocPassedOverFound(h: Heap, query: nat, first: Option<nat>, second: Option<nat>)
    requires Search(h, 0, query).result.Found?
    ensures var a := Memalloc(h, query, first, second);
      a.block.Some? && PassedOver(MarkFree(a.heap, a.block.value), a.block.value, query)
  {
    var s := Search(h, 0, query);
    var t := TryMemallocExisting(h, 0, query);
    var b := s.result.block;
    MemallocCases(h, query, first, second);
    assert Scanned(s, 0) == b;
    PassedOverSameFront(s.heap, t.heap, b, query);
    assert MarkFree(MarkUsed(t.heap, b), b) == t.heap;
  }

  lemma MemallocPassedOverEnd(h: Heap, query: nat, first: Option<nat>, second: Option<nat>)
    requires Search(h, 0, query).result.ReachedEnd?
    ensures var a := Memalloc(h, query, first, second);
      a.block.Some? ==> PassedOver(MarkFree(a.heap, a.block.value), a.block.value, query)
  {
    var s := Search(h, 0, query);
    var t := TryMemallocExisting(h, 0, query);
    MemallocCases(h, query, first, second);
    assert Scanned(s, 0) == |s.heap|;
    GrowAndRetryPassedOver(t.heap, query, first, second);
  }

  /** The block memalloc hands out is preceded only by blocks a search from
      the start passes over, once the block itself is given back. */
  lemma MemallocPassedOver(h: Heap, query: nat, first: Option<nat>, second: Option<nat>)
    ensures var a := Memalloc(h, query, first, second);
      a.block.Some? ==> PassedOver(MarkFree(a.heap, a.block.value), a.block.value, query)
  {
    var s := Search(h, 0, query);
    if s.result.Found? {
      MemallocPassedOverFound(h, query, first, second);
    } else if s.result.ReachedEnd? {
      MemallocPassedOverEnd(h, query, first, second);
    } else {
      MemallocCases(h, query, first, second);
    }
  }

  /** A heap fresh from heap_init (on the corrected alloc_region) serves a
      first request of up to its initial size from its own block, without
      growing: the contents address handed out is H bytes past the region's
      start. */
  lemma HeapInitServes(initial: nat, query: nat, first: Option<nat>, second: Option<nat>,
                       first2: Option<nat>, second2: Option<nat>)
    requires query <= initial && HeapInit(initial, first, second).0 != 0
    ensures Memalloc(HeapInit(initial, first, second).1, query, first2, second2).block == Some(0)
    ensures Malloc(HeapInit(initial, first, second).1, query, first2, second2).1 == HeapInit(initial, first, second).0 + H
  {
    var h := HeapInit(initial, first, second).1;
    assert Fits(h[0], query);
    MemallocFound(h, query, first2, second2);
  }

  /** Even a request for 0 bytes gets a block of at least BlockMinCapacity
      bytes, and every block handed out holds at least the query. */
  lemma MemallocMinCapacity(h: Heap, query: nat, first: Option<nat>, second: Option<nat>)
    requires Valid(h) && FreshRegion(h, query, first, second)
    ensures var a := Memalloc(h, query, first, second);
      a.block.Some? ==> a.heap[a.block.value].cap >= Max(BlockMinCapacity, query)
  {
    MemallocValid(h, query, first, second);
  }

  /** _malloc: the address of the handed-out block's contents, or 0 (NULL). */
  function Malloc(h: Heap, query: nat, first: Option<nat>, second: Option<nat>): (m: (Heap, nat))
    ensures m.0 == Memalloc(h, query, first, second).heap
    ensures m.1 == 0 <==> Memalloc(h, query, first, second).block.None?
    ensures m.1 != 0 ==> m.1 >= H
    ensures Memalloc(h, query, first, second).block.Some? ==>
      m.1 == Contents(m.0[Memalloc(h, query, first, second).block.value])
  {
    var a := Memalloc(h, query, first, second);
    match a.block
    case None => (a.heap, 0)
    case Some(b) => (a.heap, Contents(a.heap[b]))
  }
}
