/** Splitting an oversized free block: the front keeps the requested capacity
    and the rest becomes a new free block linked right after it. */
module Split {
  import opened Sizes
  import opened Blocks
  import Merge

  function Max(a: nat, b: nat): nat
  {
    if a >= b then a else b
  }

  /** A block can give up `query` bytes and still leave room for another
      header and a minimum-capacity block. */
  predicate BlockSplittable(b: Block, query: nat)
  {
    b.free && query + H + BlockMinCapacity <= b.cap
  }

  /** split_if_too_big, corrected: the carved front block keeps capacity
      max(BlockMinCapacity, query), and the remainder starts right after it. */
  function SplitIfTooBig(h: Heap, i: nat, query: nat): (r: (bool, Heap))
    requires i < |h|
    ensures r.0 <==> h[i].free && Max(BlockMinCapacity, query) + H + BlockMinCapacity <= h[i].cap
    ensures !r.0 ==> r.1 == h
    ensures r.0 ==> |r.1| == |h| + 1
    ensures r.0 ==> r.1[i] == Block(h[i].addr, Max(BlockMinCapacity, query), true)
    ensures r.0 ==> r.1[i + 1].free && r.1[i + 1].cap >= BlockMinCapacity
    ensures r.0 ==> BlocksContinuous(r.1[i], r.1[i + 1]) && BlockAfter(r.1[i + 1]) == BlockAfter(h[i])
    ensures r.0 ==> SizeOf(r.1[i]) + SizeOf(r.1[i + 1]) == SizeOf(h[i])
    ensures r.0 ==> forall k {:trigger r.1[k]} :: 0 <= k < i ==> r.1[k] == h[k]
    ensures r.0 ==> forall k {:trigger r.1[k]} :: i + 1 < k < |r.1| ==> r.1[k] == h[k - 1]
    ensures h[i].cap >= query ==> r.1[i].cap >= query
    ensures Bytes(r.1) == Bytes(h)
  {
    var capacityQuery := Max(BlockMinCapacity, query);
    if BlockSplittable(h[i], capacityQuery) then
      var carved := h[i].(cap := capacityQuery);
      var rest := BlockInit(BlockAfter(carved), SizeOf(h[i]) - SizeOf(carved));
      BytesSplitOne(h, i, carved, rest);
      (true, Splice(h, i, 1, [carved, rest]))
    else
      (false, h)
  }

  /** Splitting touches no used block. */
  lemma SplitKeepsUsed(h: Heap, i: nat, query: nat)
    requires i < |h|
    ensures UsedBlocks(SplitIfTooBig(h, i, query).1) == UsedBlocks(h)
  {
    var capacityQuery := Max(BlockMinCapacity, query);
    if BlockSplittable(h[i], capacityQuery) {
      var carved := h[i].(cap := capacityQuery);
      var rest := BlockInit(BlockAfter(carved), SizeOf(h[i]) - SizeOf(carved));
      var mid := [carved, rest];
      assert SplitIfTooBig(h, i, query).1 == Splice(h, i, 1, mid);
      assert forall k :: 0 <= k < |mid| ==> mid[k].free;
      UsedSplice(h, i, 1, mid);
    }
  }

  /** Splitting keeps the heap valid. */
  lemma SplitKeepsValid(h: Heap, i: nat, query: nat)
    requires i < |h| && Valid(h)
    ensures Valid(SplitIfTooBig(h, i, query).1)
  {
    var (split, r) := SplitIfTooBig(h, i, query);
    if split {
      var mid := [r[i], r[i + 1]];
      assert r == Splice(h, i, 1, mid);
      assert Within(r[i], h[i]) && Within(r[i + 1], h[i]);
      forall k, j | 0 <= k < 2 && 0 <= j < |h| && !(i <= j < i + 1)
        ensures Disjoint(mid[k], h[j])
      {
        DisjointWithin(mid[k], h[i], h[j]);
      }
      ValidSplice(h, i, 1, mid);
    }
  }

  /** Splitting stays inside the split block's bytes, so the heap stays clear
      of any block it was clear of. */
  lemma SplitAvoids(h: Heap, i: nat, query: nat, x: Block)
    requires i < |h| && Avoids(h, x)
    ensures Avoids(SplitIfTooBig(h, i, query).1, x)
  {
    var (split, r) := SplitIfTooBig(h, i, query);
    if split {
      var mid := [r[i], r[i + 1]];
      assert r == Splice(h, i, 1, mid);
      assert Within(r[i], h[i]) && Within(r[i + 1], h[i]);
      DisjointWithin(r[i], h[i], x);
      DisjointWithin(r[i + 1], h[i], x);
      AvoidsSplice(h, i, 1, mid, x);
    }
  }

  /** Merging undoes a split: the two halves are free and adjacent, and
      absorbing the remainder gives back the original heap. */
  lemma SplitMergeRoundTrip(h: Heap, i: nat, query: nat)
    requires i < |h| && SplitIfTooBig(h, i, query).0
    ensures Merge.CanMerge(SplitIfTooBig(h, i, query).1, i)
    ensures Merge.MergeAt(SplitIfTooBig(h, i, query).1, i) == h
  {
    var r := SplitIfTooBig(h, i, query).1;
    var m := Merge.MergeAt(r, i);
    assert m[i] == h[i];
    forall k | 0 <= k < |h|
      ensures m[k] == h[k]
    {
      if k > i {
        assert m[k] == r[k + 1];
      }
    }
  }

  /** split_if_too_big as written: it tests the block against
      max(BlockMinCapacity, query) but computes the remainder from `query`,
      leaves the carved block's capacity unchanged, and writes the new header
      at the end of the unshrunk block. */
  function SplitAsWritten(h: Heap, i: nat, query: nat): (r: (bool, Heap))
    requires i < |h|
    ensures r.0 <==> h[i].free && Max(BlockMinCapacity, query) + H + BlockMinCapacity <= h[i].cap
    ensures !r.0 ==> r.1 == h
    ensures r.0 ==> |r.1| == |h| + 1
    ensures r.0 ==> r.1[i] == h[i] && r.1[i + 1] == Block(BlockAfter(h[i]), h[i].cap - query - H, true)
    ensures r.0 ==> forall k {:trigger r.1[k]} :: 0 <= k < i ==> r.1[k] == h[k]
    ensures r.0 ==> forall k {:trigger r.1[k]} :: i + 1 < k < |r.1| ==> r.1[k] == h[k - 1]
  {
    var capacityQuery := Max(BlockMinCapacity, query);
    if BlockSplittable(h[i], capacityQuery) then
      var occupied := query + H;
      var remaining := SizeOf(h[i]) - occupied;
      var next := BlockInit(BlockAfter(h[i]), remaining);
      (true, Splice(h, i + 1, 0, [next]))
    else
      (false, h)
  }

  /** Where the as-written split puts things, on every input it splits: the
      carved block keeps its whole capacity, and the new block starts past its
      end, on top of an address-adjacent successor when there is one. */
  lemma SplitAsWrittenMisplaces(h: Heap, i: nat, query: nat)
    requires i < |h|
    requires SplitAsWritten(h, i, query).0
    ensures SplitAsWritten(h, i, query).1[i] == h[i]
    ensures !Within(SplitAsWritten(h, i, query).1[i + 1], h[i])
    ensures i + 1 < |h| && BlocksContinuous(h[i], h[i + 1]) ==>
      SplitAsWritten(h, i, query).1[i + 1].addr == SplitAsWritten(h, i, query).1[i + 2].addr
  {
    var r := SplitAsWritten(h, i, query).1;
    if i + 1 < |h| {
      assert r[i + 2] == h[i + 1];
    }
  }

  /** What the as-written split claims, on every input it splits: the heap
      gains the remainder's bytes out of nowhere, and the remainder is sized
      as if the carved block kept `query` bytes, even below BlockMinCapacity. */
  lemma SplitAsWrittenGainsBytes(h: Heap, i: nat, query: nat)
    requires i < |h|
    requires SplitAsWritten(h, i, query).0
    ensures Bytes(SplitAsWritten(h, i, query).1) == Bytes(h) + SizeOf(h[i]) - (query + H)
    ensures SizeOf(h[i]) - SizeOf(SplitAsWritten(h, i, query).1[i + 1]) - H == query
  {
    var next := BlockInit(BlockAfter(h[i]), SizeOf(h[i]) - (query + H));
    BytesInsert(h, i + 1, next);
    assert SplitAsWritten(h, i, query).1 == Splice(h, i + 1, 0, [next]);
  }

  /** A valid two-block heap whose blocks are address-adjacent: the as-written
      split of the first block puts the new header on the second block's
      header, so the result is no longer free of overlaps, while the corrected
      split keeps it valid. */
  lemma SplitAsWrittenOverlaps()
    ensures var h := [Block(4096, 100, true), Block(4096 + H + 100, 100, false)];
      && Valid(h)
      && SplitAsWritten(h, 0, 10).0
      && !NoOverlap(SplitAsWritten(h, 0, 10).1)
      && SplitIfTooBig(h, 0, 10).0
      && Valid(SplitIfTooBig(h, 0, 10).1)
  {
    var h := [Block(4096, 100, true), Block(4096 + H + 100, 100, false)];
    var r := SplitAsWritten(h, 0, 10).1;
    assert !Disjoint(r[1], r[2]);
    SplitKeepsValid(h, 0, 10);
  }
}
