/** Releasing a block (_free): find its header from the contents address,
    mark it free and coalesce it with the free blocks that follow it. */
module Release {
  import opened Optional
  import opened Sizes
  import opened Blocks
  import opened Merge
  import opened Searching
  import opened Alloc

  /** block_get_header: the header sits H bytes before the contents. */
  function BlockGetHeader(contents: nat): (addr: nat)
    requires contents >= H
    ensures addr + H == contents
  {
    contents - H
  }

  /** Header and contents addresses convert into each other. */
  lemma HeaderContentsRoundTrip(b: Block, contents: nat)
    requires contents >= H
    ensures BlockGetHeader(Contents(b)) == b.addr
    ensures Contents(b.(addr := BlockGetHeader(contents))) == contents
  {
  }

  /** The index of the first block at or after `from` whose header is at
      `addr`: how the model resolves a header pointer to a list position. */
  function FindHeaderFrom(h: Heap, addr: nat, from: nat): (r: Option<nat>)
    ensures r.Some? ==> from <= r.value < |h| && h[r.value].addr == addr
    ensures r.Some? ==> forall j :: from <= j < r.value ==> h[j].addr != addr
    ensures r.None? ==> forall j :: from <= j < |h| ==> h[j].addr != addr
    decreases |h| - from
  {
    if from >= |h| then None
    else if h[from].addr == addr then Some(from)
    else FindHeaderFrom(h, addr, from + 1)
  }

  function FindHeader(h: Heap, addr: nat): (r: Option<nat>)
    ensures r.Some? ==> r.value < |h| && h[r.value].addr == addr
    ensures r.None? <==> forall j :: 0 <= j < |h| ==> h[j].addr != addr
  {
    FindHeaderFrom(h, addr, 0)
  }

  /** In a valid heap no two blocks share an address, so a block's address
      resolves back to that block. */
  lemma FindHeaderValid(h: Heap, k: nat)
    requires Valid(h) && k < |h|
    ensures FindHeader(h, h[k].addr) == Some(k)
  {
    var r := FindHeader(h, h[k].addr);
    if r.value != k {
      assert false;
    }
  }

  /** The pointers _free accepts: NULL, or the contents address of a block
      of the heap. */
  predicate Freeable(h: Heap, mem: nat)
  {
    mem == 0 || (mem >= H && FindHeader(h, BlockGetHeader(mem)).Some?)
  }

  /** Index of the block `mem` points into. */
  function FreedIndex(h: Heap, mem: nat): (i: nat)
    requires mem != 0 && Freeable(h, mem)
    ensures i < |h| && Contents(h[i]) == mem
  {
    FindHeader(h, BlockGetHeader(mem)).value
  }

  /** _free: NULL is ignored; otherwise the block is marked free and absorbs
      every free, adjacent block that follows it. */
  function Free(h: Heap, mem: nat): (r: Heap)
    requires Freeable(h, mem)
    ensures mem == 0 ==> r == h
    ensures mem != 0 ==> var i := FreedIndex(h, mem);
      && i < |r| <= |h|
      && r[i].addr == h[i].addr && r[i].free && r[i].cap >= h[i].cap
      && !CanMerge(r, i)
      && forall k {:trigger r[k]} :: 0 <= k < i ==> r[k] == h[k]
  {
    if mem == 0 then h
    else
      var i := FreedIndex(h, mem);
      Coalesce(MarkFree(h, i), i)
  }

  /** In a valid heap, marking a block free removes exactly that block from
      the used ones. */
  lemma MarkFreeUsed(h: Heap, i: nat)
    requires Valid(h) && i < |h|
    ensures UsedBlocks(MarkFree(h, i)) == UsedBlocks(h) - {h[i]}
  {
    var r := MarkFree(h, i);
    forall b | b in UsedBlocks(r)
      ensures b in UsedBlocks(h) - {h[i]}
    {
      var k :| 0 <= k < |r| && r[k] == b;
      assert k != i && b == h[k];
      if b == h[i] {
        assert false;
      }
    }
    forall b | b in UsedBlocks(h) - {h[i]}
      ensures b in UsedBlocks(r)
    {
      var k :| 0 <= k < |h| && h[k] == b;
      assert r[k] == b;
    }
  }

  /** Freeing moves no byte, keeps the heap valid and, in a valid heap, takes
      exactly the freed block out of the used ones. */
  lemma FreeKeeps(h: Heap, mem: nat)
    requires Freeable(h, mem) && mem != 0
    ensures Bytes(Free(h, mem)) == Bytes(h)
    ensures Valid(h) ==> Valid(Free(h, mem))
    ensures Valid(h) ==> UsedBlocks(Free(h, mem)) == UsedBlocks(h) - {h[FreedIndex(h, mem)]}
  {
    var i := FreedIndex(h, mem);
    var marked := MarkFree(h, i);
    assert SameLayout(h, marked);
    SameLayoutKeeps(h, marked);
    CoalesceKeeps(marked, i);
    if Valid(h) {
      MarkFreeUsed(h, i);
    }
  }

  /** Freeing what _malloc returned gives the callers back exactly the blocks
      they held before, and leaves a valid heap. */
  lemma MallocFreeRoundTrip(h: Heap, query: nat, first: Option<nat>, second: Option<nat>)
    requires Valid(h) && FreshRegion(h, query, first, second)
    ensures var (h1, p) := Malloc(h, query, first, second);
      p != 0 ==> Freeable(h1, p) && UsedBlocks(Free(h1, p)) == UsedBlocks(h) && Valid(Free(h1, p))
  {
    var (h1, p) := Malloc(h, query, first, second);
    if p != 0 {
      var a := Memalloc(h, query, first, second);
      var b := a.block.value;
      MemallocValid(h, query, first, second);
      MemallocUsed(h, query, first, second);
      FindHeaderValid(h1, b);
      assert FreedIndex(h1, p) == b;
      FreeKeeps(h1, p);
    }
  }

  /** Freeing a block and asking again for the same size hands the same
      address back: the search passes over the same blocks as before, and the
      freed block is free again, at least as large, and coalesced. */
  lemma MallocFreeMallocReuse(h: Heap, query: nat, first: Option<nat>, second: Option<nat>,
                              first2: Option<nat>, second2: Option<nat>)
    requires Valid(h) && FreshRegion(h, query, first, second)
    ensures var (h1, p) := Malloc(h, query, first, second);
      p != 0 ==> Freeable(h1, p) && Malloc(Free(h1, p), query, first2, second2).1 == p
  {
    var a := Memalloc(h, query, first, second);
    if a.block.Some? {
      var b := a.block.value;
      var h1 := a.heap;
      MemallocValid(h, query, first, second);
      MemallocPassedOver(h, query, first, second);
      FindHeaderValid(h1, b);
      var p := Contents(h1[b]);
      assert FreedIndex(h1, p) == b;
      var h2 := Free(h1, p);
      PassedOverSameFront(MarkFree(h1, b), h2, b, query);
      SearchSkips(h2, 0, b, query);
      MemallocFound(h2, query, first2, second2);
    }
  }

  /** Freeing NULL changes nothing, and freeing a block that is already
      free and has no free neighbour after it changes nothing either. */
  lemma FreeIdle(h: Heap, mem: nat)
    requires Freeable(h, mem)
    requires mem != 0 ==> h[FreedIndex(h, mem)].free && !CanMerge(h, FreedIndex(h, mem))
    ensures Free(h, mem) == h
  {
    if mem != 0 {
      var i := FreedIndex(h, mem);
      assert MarkFree(h, i) == h;
    }
  }
}
