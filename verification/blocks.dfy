/** Block headers and the heap list they form.

    A heap is the sequence of blocks in list order; the successor of a block
    (its `next` pointer) is the following element of the sequence, and the
    last block's successor is NULL. List order need not agree with address
    order: two list neighbours are adjacent in memory only when the second
    starts where the first ends. */
module Blocks {
  import opened Sizes

  /** A block header at address `addr` offering `cap` content bytes. */
  datatype Block = Block(addr: nat, cap: nat, free: bool)

  type Heap = seq<Block>

  /** Bytes the block occupies, header included. */
  function SizeOf(b: Block): nat
  {
    SizeFromCapacity(b.cap)
  }

  /** Address of the block's contents, the pointer handed to callers. */
  function Contents(b: Block): nat
  {
    b.addr + H
  }

  /** First address past the block's contents. */
  function BlockAfter(b: Block): (end: nat)
    ensures end == b.addr + SizeOf(b)
  {
    Contents(b) + b.cap
  }

  /** `snd` starts exactly where `fst` ends. */
  predicate BlocksContinuous(fst: Block, snd: Block)
  {
    snd.addr == BlockAfter(fst)
  }

  /** Two blocks that may be coalesced into one. */
  predicate Mergeable(fst: Block, snd: Block)
  {
    fst.free && snd.free && BlocksContinuous(fst, snd)
  }

  /** A fresh free header written at `addr` for a block of `size` bytes. */
  function BlockInit(addr: nat, size: nat): (b: Block)
    requires size >= H
    ensures b.addr == addr && b.free
    ensures SizeOf(b) == size
  {
    Block(addr, CapacityFromSize(size), true)
  }

  /** A free block fits a request of `sz` bytes. */
  predicate Fits(b: Block, sz: nat)
  {
    b.free && b.cap >= sz
  }

  /** The byte ranges of two blocks do not intersect. */
  predicate Disjoint(a: Block, b: Block)
  {
    BlockAfter(a) <= b.addr || BlockAfter(b) <= a.addr
  }

  /** `inner` lies inside the byte range of `outer`. */
  predicate Within(inner: Block, outer: Block)
  {
    outer.addr <= inner.addr && BlockAfter(inner) <= BlockAfter(outer)
  }

  /** No two blocks of the heap share a byte. */
  predicate NoOverlap(h: Heap)
  {
    forall i, j :: 0 <= i < |h| && 0 <= j < |h| && i != j ==> Disjoint(h[i], h[j])
  }

  /** Every block has a non-NULL address and at least the minimum capacity. */
  predicate WellSized(h: Heap)
  {
    forall k :: 0 <= k < |h| ==> h[k].addr > 0 && h[k].cap >= BlockMinCapacity
  }

  /** The invariant every heap state keeps. */
  predicate Valid(h: Heap)
  {
    WellSized(h) && NoOverlap(h)
  }

  /** No block of the heap shares a byte with `x`. */
  predicate Avoids(h: Heap, x: Block)
  {
    forall k :: 0 <= k < |h| ==> Disjoint(h[k], x)
  }

  /** Total bytes the heap's blocks occupy, headers included. */
  function Bytes(h: Heap): nat
  {
    if |h| == 0 then 0 else SizeOf(h[0]) + Bytes(h[1..])
  }

  /** The blocks currently handed out to callers. */
  function UsedBlocks(h: Heap): set<Block>
  {
    set b | b in h && !b.free
  }

  /** The heap with `n` blocks from index `i` on replaced by `mid`. */
  function Splice(h: Heap, i: nat, n: nat, mid: Heap): (r: Heap)
    requires i + n <= |h|
    ensures |r| == |h| - n + |mid|
    ensures forall k {:trigger r[k]} :: 0 <= k < i ==> r[k] == h[k]
    ensures forall k {:trigger r[k]} :: i <= k < i + |mid| ==> r[k] == mid[k - i]
    ensures forall k {:trigger r[k]} :: i + |mid| <= k < |r| ==> r[k] == h[k + n - |mid|]
  {
    seq(|h| - n + |mid|, k requires 0 <= k < |h| - n + |mid| =>
      if k < i then h[k] else if k < i + |mid| then mid[k - i] else h[k + n - |mid|])
  }

  /** Splicing is replacing a slice. */
  lemma SpliceIsSlices(h: Heap, i: nat, n: nat, mid: Heap)
    requires i + n <= |h|
    ensures Splice(h, i, n, mid) == h[..i] + mid + h[i + n..]
  {
  }

  lemma {:induction false} BytesAppend(a: Heap, b: Heap)
    ensures Bytes(a + b) == Bytes(a) + Bytes(b)
  {
    if |a| > 0 {
      assert (a + b)[1..] == a[1..] + b;
      BytesAppend(a[1..], b);
    } else {
      assert a + b == b;
    }
  }

  lemma BytesPair(a: Block, b: Block)
    ensures Bytes([a]) == SizeOf(a)
    ensures Bytes([a, b]) == SizeOf(a) + SizeOf(b)
  {
    assert [a, b][1..] == [b];
    assert [b][1..] == [];
    assert [a][1..] == [];
  }

  /** Splicing changes the total by what was put in minus what was taken out. */
  lemma BytesSplice(h: Heap, i: nat, n: nat, mid: Heap)
    requires i + n <= |h|
    ensures Bytes(Splice(h, i, n, mid)) + Bytes(h[i..i + n]) == Bytes(h) + Bytes(mid)
  {
    SpliceIsSlices(h, i, n, mid);
    assert h == h[..i] + h[i..i + n] + h[i + n..];
    BytesAppend(h[..i] + h[i..i + n], h[i + n..]);
    BytesAppend(h[..i], h[i..i + n]);
    BytesAppend(h[..i] + mid, h[i + n..]);
    BytesAppend(h[..i], mid);
  }

  /** Replacing one block by two that share its size keeps the total. */
  lemma BytesSplitOne(h: Heap, i: nat, a: Block, b: Block)
    requires i < |h| && SizeOf(a) + SizeOf(b) == SizeOf(h[i])
    ensures Bytes(Splice(h, i, 1, [a, b])) == Bytes(h)
  {
    BytesSplice(h, i, 1, [a, b]);
    assert h[i..i + 1] == [h[i]];
    BytesPair(h[i], h[i]);
    BytesPair(a, b);
  }

  /** Inserting a block adds its size to the total. */
  lemma BytesInsert(h: Heap, i: nat, x: Block)
    requires i <= |h|
    ensures Bytes(Splice(h, i, 0, [x])) == Bytes(h) + SizeOf(x)
  {
    BytesSplice(h, i, 0, [x]);
    assert h[i..i] == [];
    BytesPair(x, x);
  }

  /** Replacing two blocks by one of their joint size keeps the total. */
  lemma BytesMergeTwo(h: Heap, i: nat, m: Block)
    requires i + 1 < |h| && SizeOf(m) == SizeOf(h[i]) + SizeOf(h[i + 1])
    ensures Bytes(Splice(h, i, 2, [m])) == Bytes(h)
  {
    BytesSplice(h, i, 2, [m]);
    assert h[i..i + 2] == [h[i], h[i + 1]];
    BytesPair(h[i], h[i + 1]);
    BytesPair(m, m);
  }

  /** Splicing free blocks in place of free blocks leaves the used blocks alone. */
  lemma UsedSplice(h: Heap, i: nat, n: nat, mid: Heap)
    requires i + n <= |h|
    requires forall k :: i <= k < i + n ==> h[k].free
    requires forall k :: 0 <= k < |mid| ==> mid[k].free
    ensures UsedBlocks(Splice(h, i, n, mid)) == UsedBlocks(h)
  {
    var r := Splice(h, i, n, mid);
    forall b | b in UsedBlocks(r)
      ensures b in UsedBlocks(h)
    {
      var k :| 0 <= k < |r| && r[k] == b;
      if k < i {
      } else if k < i + |mid| {
        assert false;
      } else {
        assert r[k] == h[k + n - |mid|];
      }
    }
    forall b | b in UsedBlocks(h)
      ensures b in UsedBlocks(r)
    {
      var k :| 0 <= k < |h| && h[k] == b;
      if k < i {
        assert r[k] == h[k];
      } else {
        var j := k - n + |mid|;
        assert r[j] == h[j + n - |mid|];
      }
    }
  }

  /** A block disjoint from both halves of an address-contiguous pair is
      disjoint from the block covering the pair. */
  lemma DisjointUnion(a: Block, b: Block, m: Block, x: Block)
    requires BlocksContinuous(a, b)
    requires m.addr == a.addr && BlockAfter(m) == BlockAfter(b)
    requires Disjoint(a, x) && Disjoint(b, x)
    ensures Disjoint(m, x)
  {
  }

  lemma DisjointWithin(inner: Block, outer: Block, x: Block)
    requires Within(inner, outer) && Disjoint(outer, x)
    ensures Disjoint(inner, x)
  {
  }

  /** Splicing in well-sized, pairwise disjoint blocks, each disjoint from every
      block kept, yields a valid heap. */
  lemma ValidSplice(h: Heap, i: nat, n: nat, mid: Heap)
    requires Valid(h) && i + n <= |h|
    requires Valid(mid)
    requires forall k, j :: 0 <= k < |mid| && 0 <= j < |h| && !(i <= j < i + n) ==> Disjoint(mid[k], h[j])
    ensures Valid(Splice(h, i, n, mid))
  {
    var r := Splice(h, i, n, mid);
    var m := |mid|;
    forall a, b | 0 <= a < |r| && 0 <= b < |r| && a != b
      ensures Disjoint(r[a], r[b])
    {
      var a' := if a < i then a else a - m + n;
      var b' := if b < i then b else b - m + n;
      if i <= a < i + m && i <= b < i + m {
        assert Disjoint(mid[a - i], mid[b - i]);
      } else if i <= a < i + m {
        assert r[b] == h[b'];
        assert Disjoint(mid[a - i], h[b']);
      } else if i <= b < i + m {
        assert r[a] == h[a'];
        assert Disjoint(mid[b - i], h[a']);
      } else {
        assert r[a] == h[a'] && r[b] == h[b'];
      }
    }
    forall k | 0 <= k < |r|
      ensures r[k].addr > 0 && r[k].cap >= BlockMinCapacity
    {
      if i <= k < i + m {
        assert r[k] == mid[k - i];
      } else if k >= i + m {
        assert r[k] == h[k - m + n];
      }
    }
  }

  /** Splicing in blocks that avoid `x` keeps the heap avoiding `x`. */
  lemma AvoidsSplice(h: Heap, i: nat, n: nat, mid: Heap, x: Block)
    requires Avoids(h, x) && Avoids(mid, x) && i + n <= |h|
    ensures Avoids(Splice(h, i, n, mid), x)
  {
    var r := Splice(h, i, n, mid);
    forall k | 0 <= k < |r|
      ensures Disjoint(r[k], x)
    {
      if i <= k < i + |mid| {
        assert r[k] == mid[k - i];
      } else if k >= i + |mid| {
        assert r[k] == h[k - |mid| + n];
      }
    }
  }

  /** The heap with block `i` handed out. */
  function MarkUsed(h: Heap, i: nat): (r: Heap)
    requires i < |h|
    ensures |r| == |h| && SameLayout(h, r) && !r[i].free
    ensures forall k {:trigger r[k]} :: 0 <= k < |h| && k != i ==> r[k] == h[k]
  {
    h[i := h[i].(free := false)]
  }

  /** The heap with block `i` given back. */
  function MarkFree(h: Heap, i: nat): (r: Heap)
    requires i < |h|
    ensures |r| == |h| && SameLayout(h, r) && r[i].free
    ensures forall k {:trigger r[k]} :: 0 <= k < |h| && k != i ==> r[k] == h[k]
  {
    h[i := h[i].(free := true)]
  }

  /** Handing out a free block adds exactly that block to the used ones. */
  lemma MarkUsedUsed(h: Heap, i: nat)
    requires i < |h| && h[i].free
    ensures UsedBlocks(MarkUsed(h, i)) == UsedBlocks(h) + {MarkUsed(h, i)[i]}
  {
    var r := MarkUsed(h, i);
    forall b | b in UsedBlocks(h)
      ensures b in UsedBlocks(r)
    {
      var k :| 0 <= k < |h| && h[k] == b;
      assert r[k] == b;
    }
  }

  /** Two heaps with the same blocks at the same places, free flags aside. */
  predicate SameLayout(a: Heap, b: Heap)
  {
    |a| == |b| && forall k :: 0 <= k < |a| ==> a[k].addr == b[k].addr && a[k].cap == b[k].cap
  }

  /** Free flags play no part in the byte count or in validity. */
  lemma {:induction false} SameLayoutKeeps(a: Heap, b: Heap)
    requires SameLayout(a, b)
    ensures Bytes(a) == Bytes(b)
    ensures Valid(a) ==> Valid(b)
    ensures forall x :: Avoids(a, x) ==> Avoids(b, x)
    decreases |a|
  {
    if |a| > 0 {
      SameLayoutKeeps(a[1..], b[1..]);
    }
    if Valid(a) {
      forall i, j | 0 <= i < |b| && 0 <= j < |b| && i != j
        ensures Disjoint(b[i], b[j])
      {
        assert Disjoint(a[i], a[j]);
      }
    }
  }

  /** Handing out a block moves no byte and keeps the heap valid. */
  lemma MarkUsedKeeps(h: Heap, i: nat)
    requires i < |h|
    ensures Bytes(MarkUsed(h, i)) == Bytes(h)
    ensures Valid(h) ==> Valid(MarkUsed(h, i))
    ensures forall x :: Avoids(h, x) ==> Avoids(MarkUsed(h, i), x)
  {
    SameLayoutKeeps(h, MarkUsed(h, i));
  }
}
