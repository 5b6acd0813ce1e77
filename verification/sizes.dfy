/** Size arithmetic of the allocator: header overhead, the capacity/size
    conversions and the page rounding used to size regions. */
module Sizes {

  /** Bytes a block header occupies before the block's contents, i.e.
      offsetof(block_header, contents) for a header made of an 8-byte next
      pointer, an 8-byte capacity and a one-byte free flag. */
  const H: nat := 17

  /** Smallest capacity a block carved by a split may be left with. */
  const BlockMinCapacity: nat := 24

  /** Page size of the operating system (getpagesize()). */
  const PageSize: nat := 4096

  /** Smallest region ever requested from the operating system. */
  const RegionMinSize: nat := 2 * 4096

  /** Size of a block (header included) whose capacity is `cap`. */
  function SizeFromCapacity(cap: nat): (size: nat)
    ensures size >= H && CapacityFromSize(size) == cap
  {
    cap + H
  }

  /** Capacity of a block whose size (header included) is `size`. */
  function CapacityFromSize(size: nat): (cap: nat)
    requires size >= H
    ensures cap <= size && cap + H == size
  {
    size - H
  }

  /** The two conversions are inverse to each other. */
  lemma CapacitySizeRoundTrip(cap: nat, size: nat)
    requires size >= H
    ensures CapacityFromSize(SizeFromCapacity(cap)) == cap
    ensures SizeFromCapacity(CapacityFromSize(size)) == size
  {
  }

  /** Number of pages needed to hold `mem` bytes: the ceiling of mem / PageSize. */
  function PagesCount(mem: nat): (n: nat)
    ensures n * PageSize >= mem
    ensures n == 0 || (n - 1) * PageSize < mem
  {
    mem / PageSize + (if mem % PageSize > 0 then 1 else 0)
  }

  /** `mem` rounded up to a whole number of pages. */
  function RoundPages(mem: nat): (r: nat)
    ensures r % PageSize == 0
    ensures mem <= r < mem + PageSize
  {
    PageSize * PagesCount(mem)
  }

  /** The page rounding is the least multiple of the page size not below `mem`. */
  lemma RoundPagesIsLeast(mem: nat, k: nat)
    requires k * PageSize >= mem
    ensures RoundPages(mem) <= k * PageSize
  {
  }

  /** Size of the region requested for a query of `query` bytes: the page
      rounding of the query, but never less than RegionMinSize. */
  function RegionActualSize(query: nat): (size: nat)
    ensures size >= query && size >= RegionMinSize
    ensures size % PageSize == 0
    ensures size == RoundPages(query) || size == RegionMinSize
  {
    var rounded := RoundPages(query);
    if rounded >= RegionMinSize then rounded else RegionMinSize
  }

  /** The region size is the least page multiple that covers both the query
      and RegionMinSize. */
  lemma RegionActualSizeIsLeast(query: nat, k: nat)
    requires k * PageSize >= query && k * PageSize >= RegionMinSize
    ensures RegionActualSize(query) <= k * PageSize
  {
    RoundPagesIsLeast(query, k);
  }
}
