/** The constants and rounding macros of heap.h and malloc.h, for x86-64. */
module Layout {

  const GRANULARITY: int := 8          // HEAP_GRANULARITY and MALLOC_ALIGNMENT
  const DESCRIPTOR: int := 24          // sizeof (struct heap_free_area)
  const MIN_SIZE: int := 24            // HEAP_MIN_SIZE
  const MIN_FREE_AREA: int := 56       // HEAP_MIN_FREE_AREA_SIZE
  const HEADER: int := 8               // MALLOC_HEADER_SIZE
  const REALLOC_MIN_FREE: int := 40    // MALLOC_REALLOC_MIN_FREE_SIZE
  const STATIC_SIZE: int := 256        // the static area behind malloc_init
  const WORD_LIMIT: int := 0x1_0000_0000_0000_0000
  const ADDRESS_LIMIT: int := 0x8000_0000_0000   // end of the user address space

  /** Machine addition on size_t: wraps at 2^64. */
  function Wrap(x: int): int { x % WORD_LIMIT }

  /** Addresses and sizes the allocator works with are multiples of 8. */
  predicate Granular(x: int) { x % GRANULARITY == 0 }

  predicate PowerOfTwo(n: int)
    decreases n
  {
    n == 1 || (n > 1 && n % 2 == 0 && PowerOfTwo(n / 2))
  }

  /** A page size the model accepts: a power of two of at least 4096 bytes. */
  predicate PageSize(p: int) { 4096 <= p && PowerOfTwo(p) }

  lemma PowerOfTwoIsGranular(n: int)
    requires PowerOfTwo(n) && n >= GRANULARITY
    ensures Granular(n)
  {
    var h, q := n / 2, n / 4;
    assert PowerOfTwo(h) && h / 2 == q;
    assert PowerOfTwo(q) && q % 2 == 0;
  }

  lemma GranularAdd(x: int, y: int)
    requires Granular(x) && Granular(y)
    ensures Granular(x + y) && Granular(x - y) && Granular(x + HEADER) && Granular(x - HEADER)
  {
  }

  /** MALLOC_ROUND_DOWN and MALLOC_ROUND_UP: for a power of two p, masking with
      ~(p - 1) clears exactly the remainder modulo p. */
  function RoundDown(x: int, p: int): int
    requires p > 0
  {
    x - x % p
  }

  function RoundUp(x: int, p: int): int
    requires p > 0
  {
    RoundDown(x + (p - 1), p)
  }

  /** HEAP_ADJUST_SIZE. */
  function AdjustSize(n: int): int { RoundUp(n, GRANULARITY) }

  /** The block size __heap_alloc and realloc work with: a multiple of the
      granularity that can hold a descriptor once the block is free again. */
  function RequestSize(n: int): int {
    if AdjustSize(n) < DESCRIPTOR then MIN_SIZE else AdjustSize(n)
  }

  lemma DivModProduct(q: int, p: int, r: int)
    requires p > 0 && 0 <= r < p
    ensures (q * p + r) / p == q && (q * p + r) % p == r
  {
    var x := q * p + r;
    assert x == (x / p) * p + x % p;
    var d := x / p - q;
    assert d * p == r - x % p;
    assert d >= 1 ==> d * p >= p;
    assert d <= -1 ==> d * p <= -p;
  }

  lemma RoundingBounds(x: int, p: int)
    requires p > 0
    ensures RoundDown(x, p) <= x < RoundDown(x, p) + p && RoundDown(x, p) % p == 0
    ensures x <= RoundUp(x, p) < x + p && RoundUp(x, p) % p == 0
  {
    MultipleOf(x / p, p);
    MultipleOf((x + (p - 1)) / p, p);
    assert RoundDown(x, p) == (x / p) * p;
    assert RoundUp(x, p) == ((x + (p - 1)) / p) * p;
  }

  lemma MultipleOf(q: int, p: int)
    requires p > 0
    ensures (q * p) % p == 0 && (q * p) / p == q
  {
    DivModProduct(q, p, 0);
  }

  /** Sums and differences of multiples are multiples. */
  lemma MultiplesAdd(x: int, y: int, p: int)
    requires p > 0 && x % p == 0 && y % p == 0
    ensures (x + y) % p == 0 && (x - y) % p == 0
  {
    assert x == (x / p) * p && y == (y / p) * p;
    MultipleOf(x / p + y / p, p);
    MultipleOf(x / p - y / p, p);
    assert x + y == (x / p + y / p) * p;
    assert x - y == (x / p - y / p) * p;
  }

  /** Distinct multiples of p are at least p apart. */
  lemma MultiplesApart(x: int, y: int, p: int)
    requires p > 0 && x % p == 0 && y % p == 0 && x < y
    ensures x + p <= y
  {
    var d := y / p - x / p;
    assert x == (x / p) * p && y == (y / p) * p;
    assert d * p == y - x;
    ProductSign(d, p);
  }

  lemma ProductSign(d: int, p: int)
    requires p > 0
    ensures (d <= 0 ==> d * p <= 0) && (d >= 1 ==> p <= d * p)
  {
    if d >= 1 {
      assert d * p == p + (d - 1) * p;
    } else {
      assert d * p == 0 - (0 - d) * p;
    }
  }

  /** Multiples of a granular p are granular. */
  lemma MultiplesGranular(x: int, p: int)
    requires p > 0 && Granular(p) && x % p == 0
    ensures Granular(x)
  {
    var k, q := p / GRANULARITY, x / p;
    assert x == q * p && p == k * GRANULARITY;
    assert x == (q * k) * GRANULARITY;
  }

  lemma RoundUpGranular(x: int, p: int)
    requires p > 0 && Granular(p)
    ensures Granular(RoundUp(x, p)) && Granular(RoundDown(x, p))
  {
    RoundingBounds(x, p);
    MultiplesGranular(RoundUp(x, p), p);
    MultiplesGranular(RoundDown(x, p), p);
  }

  /** Rounding a granular address up moves it by at most one granule less than p. */
  lemma RoundUpGranularBounds(x: int, p: int)
    requires p > 0 && Granular(p) && Granular(x)
    ensures x <= RoundUp(x, p) <= x + p - GRANULARITY
    ensures RoundUp(x, p) % p == 0 && Granular(RoundUp(x, p))
  {
    hide RoundUp;
    RoundingBounds(x, p);
    RoundUpGranular(x, p);
    MultiplesAdd(x, p, GRANULARITY);
    MultiplesApart(RoundUp(x, p), x + p, GRANULARITY);
  }

  /** Rounding up to a multiple is monotone against any multiple above x. */
  lemma RoundUpLeast(x: int, y: int, p: int)
    requires p > 0 && y % p == 0 && x <= y
    ensures RoundUp(x, p) <= y
  {
    RoundingBounds(x, p);
    if y < RoundUp(x, p) { MultiplesApart(y, RoundUp(x, p), p); }
  }

  lemma AdjustSizeBounds(n: int)
    ensures n <= AdjustSize(n) < n + GRANULARITY && Granular(AdjustSize(n))
    ensures n <= GRANULARITY <==> AdjustSize(n) <= GRANULARITY
    ensures n > GRANULARITY ==> 2 * GRANULARITY <= AdjustSize(n)
  {
  }

  lemma RequestSizeBounds(n: int)
    requires n >= 0
    ensures Granular(RequestSize(n)) && DESCRIPTOR <= RequestSize(n)
    ensures n <= RequestSize(n) && (n > 16 ==> RequestSize(n) < n + GRANULARITY)
    ensures n <= WORD_LIMIT - HEADER ==> RequestSize(n) <= WORD_LIMIT - HEADER
  {
  }

  /** The addresses from lo up to, but not including, hi. */
  function Range(lo: int, hi: int): (r: set<int>)
    ensures forall x :: x in r <==> lo <= x < hi
    decreases hi - lo
  {
    if lo >= hi then {} else {lo} + Range(lo + 1, hi)
  }
}
