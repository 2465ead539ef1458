/** The whole pages inside a free chunk that can be discarded. */
module Pages {
  import opened Options
  import opened SizeT

  const TREE_CHUNK_BYTES := 32
  const FOUR_SIZE_T_BYTES := 16

  /** Margins at the start and the end of a chunk that stay resident. */
  const PREFIX := 2 * TREE_CHUNK_BYTES
  const SUFFIX := FOUR_SIZE_T_BYTES

  /** Free memory, header included. */
  datatype Free = Free(address: nat, size: nat)
  {
    function End(): nat { address + size }
  }

  datatype Range = Range(start: nat, end: nat)

  /** x & ~(page - 1) */
  function AlignDown(x: nat, page: nat): nat
    requires page > 0
  {
    x - x % page
  }

  predicate IsPowerOfTwo(n: nat) {
    n == 1 || (n > 1 && n % 2 == 0 && IsPowerOfTwo(n / 2))
  }

  predicate IsPageSize(page: nat) {
    page == 4096 || page == 8192 || page == 16384 || page == 32768 || page == 65536
  }

  /** The powers of two in range. */
  lemma PageSizes(page: nat)
    ensures IsPageSize(page) <==> 4096 <= page <= 65536 && IsPowerOfTwo(page)
  {
    PowerFrom(page, 4096);
  }

  lemma {:induction false} PowerFrom(n: nat, least: nat)
    requires least in {1, 2, 4, 8, 16, 32, 64, 128, 256, 512, 1024, 2048, 4096}
    ensures least <= n <= 16 * least && IsPowerOfTwo(n) <==>
              n == least || n == 2 * least || n == 4 * least || n == 8 * least || n == 16 * least
    decreases least
  {
    if least == 1 {
      assert IsPowerOfTwo(1) && IsPowerOfTwo(2) && IsPowerOfTwo(4) && IsPowerOfTwo(8) && IsPowerOfTwo(16);
      assert !IsPowerOfTwo(3) && !IsPowerOfTwo(5) && !IsPowerOfTwo(6) && !IsPowerOfTwo(7);
    } else {
      PowerFrom(n / 2, least / 2);
    }
  }

  predicate IsAddressable(c: Free) {
    0 < c.size && c.End() <= MAX_SIZE_T
  }

  function Minimum(page: nat): nat { PREFIX + SUFFIX + page }

  /** The arithmetic wraps around at the width of size_t. */
  function Payload(c: Free, page: nat): Option<Range>
    requires page > 0
  {
    if c.size < Minimum(page) then None
    else
      var start := AlignDown(WrapAdd(WrapAdd(c.address, PREFIX), page - 1), page);
      var end := AlignDown(WrapAdd(WrapAdd(c.address, c.size), -SUFFIX), page);
      if start < end then Some(Range(start, end)) else None
  }

  predicate IsWholePages(r: Range, page: nat)
    requires page > 0
  {
    r.start < r.end && r.start % page == 0 && r.end % page == 0
  }

  /** Clear of both margins. */
  predicate IsInside(r: Range, c: Free) {
    c.address + PREFIX <= r.start && r.end + SUFFIX <= c.End()
  }

  lemma AlignDownMeans(x: nat, page: nat)
    requires IsPageSize(page)
    ensures AlignDown(x, page) % page == 0 && AlignDown(x, page) <= x < AlignDown(x, page) + page
  {
  }

  /** No sum wraps around. */
  lemma PayloadIsExact(c: Free, page: nat)
    requires IsPageSize(page) && IsAddressable(c) && c.size >= Minimum(page)
    ensures WrapAdd(WrapAdd(c.address, PREFIX), page - 1) == c.address + PREFIX + page - 1
    ensures WrapAdd(WrapAdd(c.address, c.size), -SUFFIX) == c.End() - SUFFIX
  {
  }

  lemma PayloadIsInside(c: Free, page: nat)
    requires IsPageSize(page) && IsAddressable(c) && Payload(c, page).Some?
    ensures IsWholePages(Payload(c, page).value, page) && IsInside(Payload(c, page).value, c)
  {
    hide WrapAdd, AlignDown;
    PayloadIsExact(c, page);
    AlignDownMeans(c.address + PREFIX + page - 1, page);
    AlignDownMeans(c.End() - SUFFIX, page);
  }

  /** A page is discarded exactly if it lies between the margins of the chunk. */
  lemma PayloadHasPage(c: Free, page: nat, p: nat)
    requires IsPageSize(page) && IsAddressable(c) && p % page == 0
    ensures c.address + PREFIX <= p && p + page + SUFFIX <= c.End()
       <==> Payload(c, page).Some? && Payload(c, page).value.start <= p && p + page <= Payload(c, page).value.end
  {
    hide WrapAdd, AlignDown;
    if c.size >= Minimum(page) {
      PayloadIsExact(c, page);
      var low, high := c.address + PREFIX + page - 1, c.End() - SUFFIX;
      AlignDownMeans(low, page);
      AlignDownMeans(high, page);
      if c.address + PREFIX <= p && p + page <= high {
        NotBelow(AlignDown(low, page), p, low, page);
        NotBelow(p, p, p, page);
        NotBelow(p + page, AlignDown(high, page), high, page);
      }
    }
  }

  /** Of two aligned numbers, the one that cannot be a page below the other is not below it. */
  lemma NotBelow(a: nat, b: nat, x: nat, page: nat)
    requires IsPageSize(page) && a % page == 0 && b % page == 0
    requires a <= x && x < b + page
    ensures a <= b && (b + page) % page == 0
  {
  }
}
