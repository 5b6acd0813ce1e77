/** Regions mapped from the operating system and the heap they start
    (alloc_region, heap_init). The operating system is not modelled: the
    outcome of each mmap call is a parameter. */
module Regions {
  import opened Optional
  import opened Sizes
  import opened Blocks

  /** A mapped region: its address, its size, and whether the first mapping
      attempt produced it. An address of 0 marks the invalid region. */
  datatype Region = Region(addr: nat, size: nat, firstTry: bool)

  const RegionInvalid: Region := Region(0, 0, false)

  predicate RegionIsInvalid(r: Region)
  {
    r.addr == 0
  }

  /** One mmap outcome: None is MAP_FAILED, Some(a) the address returned,
      which may be NULL. */
  predicate MapOk(m: Option<nat>)
  {
    m.Some? && m.value != 0
  }

  /** The address the region ends up at: the first mapping if it succeeded,
      else the retry's. Only meaningful when one of them succeeded. */
  function MappedAddr(first: Option<nat>, second: Option<nat>): nat
  {
    if MapOk(first) then first.value else if MapOk(second) then second.value else 0
  }

  /** The single free block a fresh region is initialised with. */
  function RegionBlock(r: Region): (b: Block)
    requires r.size >= H
    ensures b.addr == r.addr && b.free && SizeOf(b) == r.size
  {
    BlockInit(r.addr, r.size)
  }

  /** Maps `size` bytes, retrying once when the first mapping fails or
      returns NULL, and gives the invalid region when both do. */
  function MapRegion(size: nat, first: Option<nat>, second: Option<nat>): (r: Region)
    ensures RegionIsInvalid(r) <==> !MapOk(first) && !MapOk(second)
    ensures RegionIsInvalid(r) ==> r == RegionInvalid
    ensures !RegionIsInvalid(r) ==> r == Region(MappedAddr(first, second), size, MapOk(first))
  {
    if MapOk(first) then Region(first.value, size, true)
    else if MapOk(second) then Region(second.value, size, false)
    else RegionInvalid
  }

  /** alloc_region, corrected: the region is sized for a block of capacity
      `query`, so the block it is initialised with can serve the query. */
  function AllocRegion(query: nat, first: Option<nat>, second: Option<nat>): (r: Region)
    ensures RegionIsInvalid(r) <==> !MapOk(first) && !MapOk(second)
    ensures !RegionIsInvalid(r) ==> r.addr == MappedAddr(first, second) && r.firstTry == MapOk(first)
    ensures !RegionIsInvalid(r) ==> r.size >= query + H && r.size >= RegionMinSize && r.size % PageSize == 0
    ensures !RegionIsInvalid(r) ==> Fits(RegionBlock(r), query) && Valid([RegionBlock(r)])
  {
    MapRegion(RegionActualSize(SizeFromCapacity(query)), first, second)
  }

  /** No smaller region would do: the corrected size is the least page
      multiple that holds the header, `query` bytes and RegionMinSize. */
  lemma AllocRegionIsLeast(query: nat, first: Option<nat>, second: Option<nat>, k: nat)
    requires !RegionIsInvalid(AllocRegion(query, first, second))
    requires k * PageSize >= query + H && k * PageSize >= RegionMinSize
    ensures AllocRegion(query, first, second).size <= k * PageSize
  {
    RegionActualSizeIsLeast(query + H, k);
  }

  /** alloc_region as written: the region is sized for the header alone, so
      its size does not depend on `query` at all. */
  function AllocRegionAsWritten(query: nat, first: Option<nat>, second: Option<nat>): (r: Region)
    ensures RegionIsInvalid(r) <==> !MapOk(first) && !MapOk(second)
    ensures !RegionIsInvalid(r) ==> r.addr == MappedAddr(first, second) && r.firstTry == MapOk(first)
    ensures !RegionIsInvalid(r) ==> r.size == RegionMinSize
  {
    MapRegion(RegionActualSize(H), first, second)
  }

  /** Whatever the query, the as-written region is RegionMinSize bytes, so a
      query above RegionMinSize - H gets a block too small for it; the
      corrected region's block fits it. */
  lemma AllocRegionAsWrittenTooSmall(query: nat, first: Option<nat>, second: Option<nat>)
    requires MapOk(first) || MapOk(second)
    requires query > RegionMinSize - H
    ensures AllocRegionAsWritten(query, first, second).size == RegionMinSize
    ensures !Fits(RegionBlock(AllocRegionAsWritten(query, first, second)), query)
    ensures Fits(RegionBlock(AllocRegion(query, first, second)), query)
  {
  }

  /** heap_init, on the corrected alloc_region: maps the first region and
      returns its address, or 0 when mapping fails; the heap is then the
      region's single free block, sized to hold `initial` bytes. */
  function HeapInit(initial: nat, first: Option<nat>, second: Option<nat>): (r: (nat, Heap))
    ensures r.0 == 0 <==> !MapOk(first) && !MapOk(second)
    ensures r.0 == 0 ==> r.1 == []
    ensures r.0 != 0 ==> r.0 == MappedAddr(first, second) && |r.1| == 1 && r.1[0].addr == r.0
    ensures r.0 != 0 ==> Fits(r.1[0], initial) && Valid(r.1) && UsedBlocks(r.1) == {}
  {
    var region := AllocRegion(initial, first, second);
    if RegionIsInvalid(region) then (0, []) else (region.addr, [RegionBlock(region)])
  }
}
