/** malloc, free, realloc and memalign as transfers of ownership, and what every
    run of them keeps. System calls appear as their answers. */
module Allocation {
  import opened Layout
  import opened FreeList
  import opened Blocks

  const MAX_REQUEST: int := WORD_LIMIT - 2 * HEADER   // (unsigned long) (MALLOC_HEADER_SIZE * -2)

  /** A new state and the user address returned, 0 for failure. */
  datatype Outcome = Outcome(state: State, ptr: int)

  /** How much is requested from mmap for a block of `total` bytes; the rounding
      wraps at 2^64 like the macro. */
  function BlockLength(p: int, total: int): (len: int)
    requires p > 0
  {
    if total < p then p else RoundDown(Wrap(total + (p - 1)), p)
  }

  /** If mmap can answer at all, the length holds the block. */
  lemma BlockLengthSuffices(p: int, total: int)
    requires PageSize(p) && 0 < total < WORD_LIMIT && BlockLength(p, total) > 0
    ensures RequestSize(total) <= BlockLength(p, total)
  {
    hide RoundUp, PowerOfTwo, Granular;
    PowerOfTwoIsGranular(p);
    if total < p {
      AdjustLeast(total, p);
    } else {
      if total + (p - 1) >= WORD_LIMIT { WrappedLength(p, total); }
      UnwrappedLength(p, total);
      RoundingBounds(total, p);
      RoundUpGranular(total, p);
      AdjustLeast(total, RoundUp(total, p));
    }
  }

  lemma AdjustLeast(total: int, k: int)
    requires total <= k && Granular(k)
    ensures AdjustSize(total) <= k
  {
    RoundUpLeast(total, k, GRANULARITY);
  }

  lemma UnwrappedLength(p: int, total: int)
    requires 0 < p <= total && total + (p - 1) < WORD_LIMIT
    ensures BlockLength(p, total) == RoundUp(total, p)
  {
  }

  /** A rounding that wraps asks for nothing. */
  lemma WrappedLength(p: int, total: int)
    requires 0 < p <= total < WORD_LIMIT <= total + (p - 1)
    ensures BlockLength(p, total) == 0
  {
    DivModProduct(0, p, total + (p - 1) - WORD_LIMIT);
  }

  // ----- malloc

  function MallocOp(c: Site, st: State, size: int, answer: int): (r: Outcome)
    requires c.page > 0
  {
    if size == 0 || size > MAX_REQUEST then Outcome(st, 0)
    else
      var n := RequestSize(size + HEADER);
      var i := FirstFit(st.areas, n);
      if i < |st.areas| then
        Outcome(Grant(st, i, n), st.areas[i].start + HEADER)
      else if answer == -1 then
        Outcome(st, 0)
      else
        var st1 := Extend(st, answer, BlockLength(c.page, size + HEADER));
        var k := FirstFit(st1.areas, n);
        if k < |st1.areas| then Outcome(Grant(st1, k, n), st1.areas[k].start + HEADER)
        else Outcome(st1, 0)
  }

  /** Memory delivered by mmap always satisfies the request that asked for it. */
  lemma SecondTrySucceeds(c: Site, st: State, size: int, answer: int)
    requires Inv(c, st) && 0 < size <= MAX_REQUEST && answer != -1
    requires MmapAnswer(c, st.mapped, BlockLength(c.page, size + HEADER), answer)
    ensures var st1, n := Extend(st, answer, BlockLength(c.page, size + HEADER)), RequestSize(size + HEADER);
      Inv(c, st1) && FirstFit(st1.areas, n) < |st1.areas|
  {
    hide WellFormed, Covers, BlockLength, RequestSize, Insertable, Merged, MergeCount;
    var len := BlockLength(c.page, size + HEADER);
    BlockLengthSuffices(c.page, size + HEADER);
    ExtendKeeps(c, st, answer, len);
    var k := InsertReturnsMaximal(st.areas, answer, len);
    var a := Insert(st.areas, answer, len)[k];
    FirstFitIsLowest(Insert(st.areas, answer, len), RequestSize(size + HEADER), a);
  }

  /** A block was added at base b, and nothing else changed hands. */
  ghost predicate Added(live: map<int, int>, live': map<int, int>, b: int, room: int) {
    && b !in live && b in live' && live' == live[b := live'[b]]
    && 0 < b && Granular(b) && room <= live'[b]
  }

  lemma GrantAdds(c: Site, st: State, i: int, n: int, room: int)
    requires Inv(c, st) && Roomy(st.live) && room <= n
    requires 0 <= i < |st.areas| && DESCRIPTOR <= n <= st.areas[i].size && Granular(n)
    ensures Inv(c, Grant(st, i, n)) && Roomy(Grant(st, i, n).live)
    ensures st.areas[i].start > 0 && Added(st.live, Grant(st, i, n).live, st.areas[i].start, room)
  {
    GrantKeeps(c, st, i, n);
    assert Fits(st.areas[i]);
  }

  lemma MallocKeeps(c: Site, st: State, size: int, answer: int)
    requires Inv(c, st) && Roomy(st.live) && 0 <= size < WORD_LIMIT
    requires MmapAnswer(c, st.mapped, BlockLength(c.page, size + HEADER), answer)
    ensures var r := MallocOp(c, st, size, answer);
      && Inv(c, r.state) && Roomy(r.state.live)
      && (r.ptr == 0 ==> r.state == st)
      && (r.ptr != 0 ==> Added(st.live, r.state.live, r.ptr - HEADER, size + HEADER))
    ensures MallocOp(c, st, size, answer).ptr == 0 <==>
      || size == 0 || size > MAX_REQUEST
      || (answer == -1 && forall a :: a in st.areas ==> a.size < RequestSize(size + HEADER))
  {
    hide Inv, Roomy, Grant, Extend, BlockLength, RequestSize, MmapAnswer, Added;
    PagePositive(c, st);
    if 0 < size <= MAX_REQUEST {
      var n := RequestSize(size + HEADER);
      RequestSizeBounds(size + HEADER);
      var i := FirstFit(st.areas, n);
      if i < |st.areas| {
        GrantAdds(c, st, i, n, size + HEADER);
        assert st.areas[i] in st.areas;
      } else if answer != -1 {
        ExtendThenGrant(c, st, size, answer);
      }
    }
  }

  lemma ExtendThenGrant(c: Site, st: State, size: int, answer: int)
    requires Inv(c, st) && Roomy(st.live) && 0 < size <= MAX_REQUEST && answer != -1
    requires MmapAnswer(c, st.mapped, BlockLength(c.page, size + HEADER), answer)
    ensures var st1, n := Extend(st, answer, BlockLength(c.page, size + HEADER)), RequestSize(size + HEADER);
      var k := FirstFit(st1.areas, n);
      && k < |st1.areas| && st1.areas[k].start > 0
      && Inv(c, Grant(st1, k, n)) && Roomy(Grant(st1, k, n).live)
      && Added(st.live, Grant(st1, k, n).live, st1.areas[k].start, size + HEADER)
  {
    hide Inv, Roomy, Grant, BlockLength, RequestSize, MmapAnswer, Added, Insert;
    PagePositive(c, st);
    SecondTrySucceeds(c, st, size, answer);
    RequestSizeBounds(size + HEADER);
    var st1, n := Extend(st, answer, BlockLength(c.page, size + HEADER)), RequestSize(size + HEADER);
    GrantAdds(c, st1, FirstFit(st1.areas, n), n, size + HEADER);
  }

  // ----- free

  function FreeOp(c: Site, st: State, ptr: int): (st': State)
    requires c.page > 0 && (ptr == 0 || ptr - HEADER in st.live)
  {
    if ptr == 0 then st
    else
      var st1 := Release(st, ptr - HEADER);
      var k := Position(st.areas, ptr - HEADER);
      if st1.areas[k].size < 8 * c.page then st1 else GiveBack(c, st1, k, 0)
  }

  /** Exactly the freed block disappears; pages only go back. */
  lemma FreeKeeps(c: Site, st: State, ptr: int)
    requires Inv(c, st) && Roomy(st.live) && (ptr == 0 || ptr - HEADER in st.live)
    ensures var st' := FreeOp(c, st, ptr);
      && Inv(c, st') && Roomy(st'.live)
      && st'.live == st.live - (if ptr == 0 then {} else {ptr - HEADER})
      && st'.mapped <= st.mapped
  {
    assert c.page > 0;
    if ptr != 0 {
      var b := ptr - HEADER;
      ReleaseKeeps(c, st, b);
      var st1, k := Release(st, b), Position(st.areas, b);
      if st1.areas[k].size >= 8 * c.page {
        GiveBackKeeps(c, st1, k, 0);
      }
    }
  }

  // ----- realloc

  /** The length realloc's malloc would request from mmap. */
  function ReallocLength(c: Site, ptr: int, size: int): (len: int)
    requires c.page > 0
  {
    BlockLength(c.page, if ptr == 0 then size + HEADER else RequestSize(size + HEADER))
  }

  /** The free list starts with enough room right behind the block. */
  predicate CanGrow(st: State, b: int, n: int)
    requires b in st.live
  {
    && st.areas != [] && st.areas[0].start == b + st.live[b]
    && AdjustSize(n - st.live[b]) <= st.areas[0].size
  }

  function ReallocOp(c: Site, st: State, ptr: int, size: int, answer: int): (r: Outcome)
    requires c.page > 0 && (ptr == 0 || ptr - HEADER in st.live)
  {
    if size == 0 then Outcome(FreeOp(c, st, ptr), 0)
    else if ptr == 0 then MallocOp(c, st, size, answer)
    else if size > MAX_REQUEST then Outcome(st, 0)
    else
      var b, n := ptr - HEADER, RequestSize(size + HEADER);
      if n > st.live[b] then
        if CanGrow(st, b, n) then
          Outcome(Grow(st, b, AdjustSize(n - st.live[b])), ptr)
        else
          var r := MallocOp(c, st, n - HEADER, answer);
          if r.ptr == 0 || b !in r.state.live then r else Outcome(FreeOp(c, r.state, ptr), r.ptr)
      else if n + REALLOC_MIN_FREE <= st.live[b] then
        Outcome(Shrink(st, b, n), ptr)
      else
        Outcome(st, ptr)
  }

  /** The front of the first area is added to the end of block b. */
  function Grow(st: State, b: int, extra: int): (st': State)
    requires b in st.live && st.areas != []
  {
    var a := st.areas[0];
    State(Take(st.areas, 0, extra), st.live[b := st.live[b] + TakenSize(a.size, extra)], st.mapped)
  }

  lemma GrowKeeps(c: Site, st: State, b: int, extra: int)
    requires Inv(c, st) && b in st.live && st.areas != [] && st.areas[0].start == b + st.live[b]
    requires 0 < extra <= st.areas[0].size && Granular(extra)
    ensures Inv(c, Grow(st, b, extra)) && st.live[b] + extra <= Grow(st, b, extra).live[b]
  {
    var st1 := Grant(st, 0, extra);
    GrantKeeps(c, st, 0, extra);
    JoinKeeps(c, st1, b);
    assert Join(st1, b).live == Grow(st, b, extra).live;
  }

  /** All of block b beyond its first n bytes is freed. */
  function Shrink(st: State, b: int, n: int): (st': State)
    requires b in st.live
  {
    State(Insert(st.areas, b + n, st.live[b] - n), st.live[b := n], st.mapped)
  }

  lemma ShrinkKeeps(c: Site, st: State, b: int, n: int)
    requires Inv(c, st) && b in st.live && 0 < n && n + DESCRIPTOR <= st.live[b] && Granular(n)
    ensures Insertable(st.areas, b + n, st.live[b] - n) && Inv(c, Shrink(st, b, n))
  {
    SplitKeeps(c, st, b, n);
    ReleaseKeeps(c, Split(st, b, n), b + n);
    assert Release(Split(st, b, n), b + n).live == Shrink(st, b, n).live;
  }

  /** All cases of realloc: size 0 frees, a null pointer allocates, and any other
      call resizes the block, or leaves everything alone when it fails. */
  lemma ReallocKeeps(c: Site, st: State, ptr: int, size: int, answer: int)
    requires Inv(c, st) && Roomy(st.live) && 0 <= size < WORD_LIMIT && (ptr == 0 || ptr - HEADER in st.live)
    requires MmapAnswer(c, st.mapped, ReallocLength(c, ptr, size), answer)
    ensures var r := ReallocOp(c, st, ptr, size, answer);
      && Inv(c, r.state) && Roomy(r.state.live)
      && (size == 0 ==> r.ptr == 0 && r.state.live == st.live - (if ptr == 0 then {} else {ptr - HEADER}))
      && (size > 0 && ptr == 0 && r.ptr != 0 ==> Added(st.live, r.state.live, r.ptr - HEADER, size + HEADER))
      && (size > 0 && ptr == 0 && r.ptr == 0 ==> r.state == st)
      && (size > 0 && ptr != 0 ==> Resized(st, r, ptr, size))
  {
    hide RequestSize, AdjustSize, MallocOp, FreeOp, Inv, MmapAnswer, BlockLength, Grow, Shrink, CanGrow, Roomy,
         Added;
    PagePositive(c, st);
    if size == 0 {
      FreeKeeps(c, st, ptr);
    } else if ptr == 0 {
      MallocKeeps(c, st, size, answer);
    } else if size <= MAX_REQUEST {
      hide Resized;
      ReallocBlockKeeps(c, st, ptr, size, answer);
    }
  }

  /** What realloc of the block at ptr may do to the live blocks: nothing, resize
      it in place, or move it. */
  ghost predicate Resized(st: State, r: Outcome, ptr: int, size: int) {
    var b, d := ptr - HEADER, r.ptr - HEADER;
    if r.ptr == 0 then r.state == st
    else if r.ptr == ptr then
      && b in r.state.live && size + HEADER <= r.state.live[b]
      && r.state.live == st.live[b := r.state.live[b]]
    else
      && d !in st.live && d in r.state.live && size + HEADER <= r.state.live[d]
      && r.state.live == st.live[d := r.state.live[d]] - {b}
  }

  /** The three paths of realloc for an existing block: grow in place, move, shrink. */
  lemma ReallocBlockKeeps(c: Site, st: State, ptr: int, size: int, answer: int)
    requires Inv(c, st) && Roomy(st.live) && 0 < size <= MAX_REQUEST && ptr != 0 && ptr - HEADER in st.live
    requires MmapAnswer(c, st.mapped, BlockLength(c.page, RequestSize(size + HEADER)), answer)
    ensures var r := ReallocOp(c, st, ptr, size, answer);
      Inv(c, r.state) && Roomy(r.state.live) && Resized(st, r, ptr, size)
  {
    hide RequestSize, AdjustSize, MallocOp, FreeOp, Inv, MmapAnswer, BlockLength, Grow, Shrink, Resized, CanGrow,
         Roomy;
    PagePositive(c, st);
    var b, n := ptr - HEADER, RequestSize(size + HEADER);
    RequestSizeBounds(size + HEADER);
    if n > st.live[b] {
      if CanGrow(st, b, n) {
        GrowAmount(st, b, n);
        ReallocGrows(c, st, ptr, size, AdjustSize(n - st.live[b]));
      } else {
        ReallocMoves(c, st, ptr, size, n, answer);
      }
    } else if n + REALLOC_MIN_FREE <= st.live[b] {
      ReallocShrinks(c, st, ptr, size, n);
    } else {
      ReallocStays(st, ptr, size);
    }
  }

  lemma ReallocStays(st: State, ptr: int, size: int)
    requires ptr != 0 && ptr - HEADER in st.live && size + HEADER <= st.live[ptr - HEADER]
    ensures Resized(st, Outcome(st, ptr), ptr, size)
  {
  }

  lemma GrowAmount(st: State, b: int, n: int)
    requires b in st.live && n > st.live[b] && CanGrow(st, b, n)
    ensures var extra := AdjustSize(n - st.live[b]);
      && st.areas != [] && st.areas[0].start == b + st.live[b]
      && 0 < extra <= st.areas[0].size && Granular(extra) && n <= st.live[b] + extra
  {
    AdjustSizeBounds(n - st.live[b]);
  }

  lemma ReallocGrows(c: Site, st: State, ptr: int, size: int, extra: int)
    requires Inv(c, st) && Roomy(st.live) && ptr != 0 && ptr - HEADER in st.live && st.areas != []
    requires st.areas[0].start == ptr - HEADER + st.live[ptr - HEADER]
    requires 0 < extra <= st.areas[0].size && Granular(extra) && size + HEADER <= st.live[ptr - HEADER] + extra
    ensures var st' := Grow(st, ptr - HEADER, extra);
      Inv(c, st') && Roomy(st'.live) && Resized(st, Outcome(st', ptr), ptr, size)
  {
    hide Inv;
    GrowKeeps(c, st, ptr - HEADER, extra);
  }

  lemma FailedResized(st: State, ptr: int, size: int)
    ensures Resized(st, Outcome(st, 0), ptr, size)
  {
  }

  lemma AddedKeeps(st: State, r: Outcome, ptr: int, room: int)
    requires Added(st.live, r.state.live, r.ptr - HEADER, room) && ptr - HEADER in st.live
    ensures ptr - HEADER in r.state.live
  {
  }

  lemma MovedResized(st: State, r: Outcome, st': State, ptr: int, size: int, room: int)
    requires r.ptr != 0 && Added(st.live, r.state.live, r.ptr - HEADER, room) && size + HEADER <= room
    requires ptr - HEADER in st.live && st'.live == r.state.live - {ptr - HEADER}
    ensures ptr - HEADER in r.state.live && Resized(st, Outcome(st', r.ptr), ptr, size)
  {
  }

  lemma ReallocMoves(c: Site, st: State, ptr: int, size: int, n: int, answer: int)
    requires Inv(c, st) && Roomy(st.live) && ptr != 0 && ptr - HEADER in st.live
    requires size + HEADER <= n < WORD_LIMIT && DESCRIPTOR <= n
    requires MmapAnswer(c, st.mapped, BlockLength(c.page, n), answer)
    ensures c.page > 0
    ensures var r, b := MallocOp(c, st, n - HEADER, answer), ptr - HEADER;
      && Inv(c, r.state) && Roomy(r.state.live)
      && (r.ptr == 0 ==> Resized(st, r, ptr, size))
      && (r.ptr != 0 ==>
            && b in r.state.live
            && var st' := FreeOp(c, r.state, ptr);
               Inv(c, st') && Roomy(st'.live) && Resized(st, Outcome(st', r.ptr), ptr, size))
  {
    hide Inv, MallocOp, FreeOp, BlockLength, MmapAnswer, Roomy, Resized, RequestSize, Added;
    PagePositive(c, st);
    MallocKeeps(c, st, n - HEADER, answer);
    var r := MallocOp(c, st, n - HEADER, answer);
    if r.ptr != 0 {
      AddedKeeps(st, r, ptr, n);
      FreeKeeps(c, r.state, ptr);
      MovedResized(st, r, FreeOp(c, r.state, ptr), ptr, size, n);
    } else {
      FailedResized(st, ptr, size);
    }
  }

  lemma ReallocShrinks(c: Site, st: State, ptr: int, size: int, n: int)
    requires Inv(c, st) && Roomy(st.live) && ptr != 0 && ptr - HEADER in st.live
    requires size + HEADER <= n && DESCRIPTOR <= n && Granular(n)
    requires n + REALLOC_MIN_FREE <= st.live[ptr - HEADER]
    ensures var st' := Shrink(st, ptr - HEADER, n);
      Inv(c, st') && Roomy(st'.live) && Resized(st, Outcome(st', ptr), ptr, size)
  {
    hide Inv;
    ShrinkKeeps(c, st, ptr - HEADER, n);
  }

  // ----- memalign

  /** Where in an allocation that starts at user address `tot` the aligned block goes. */
  function CarveAddr(tot: int, alignment: int): (addr: int)
    requires alignment > 0
  {
    var addr := RoundUp(tot, alignment);
    if addr != tot && addr - tot < MIN_SIZE then RoundUp(tot + MIN_SIZE, alignment) else addr
  }

  /** Where the aligned block ends: the tail is given back unless it is small. */
  function CarveEnd(addr: int, n: int, totEnd: int): (end: int) {
    if addr + n + REALLOC_MIN_FREE < totEnd then addr + n else totEnd
  }

  lemma CarveAddrBounds(tot: int, alignment: int)
    requires Granular(alignment) && GRANULARITY <= alignment && Granular(tot)
    ensures var addr := CarveAddr(tot, alignment);
      && addr % alignment == 0 && Granular(addr)
      && (addr == tot || (tot + MIN_SIZE <= addr <= tot + alignment + 16 && 2 * GRANULARITY <= alignment))
  {
    hide RoundUp, RoundDown;
    RoundUpGranularBounds(tot, alignment);
    RoundUpGranularBounds(tot + MIN_SIZE, alignment);
    if RoundUp(tot, alignment) != tot { MultiplesApart(tot, RoundUp(tot, alignment), GRANULARITY); }
  }

  /** An over-allocation of twice the alignment leaves room for an aligned block,
      and the pieces around it can hold descriptors. */
  lemma CarveFits(tot: int, totEnd: int, alignment: int, n: int)
    requires PowerOfTwo(alignment) && GRANULARITY <= alignment
    requires Granular(tot) && Granular(totEnd) && Granular(n) && 0 <= n
    requires tot + n + 2 * alignment <= totEnd
    ensures var addr := CarveAddr(tot, alignment);
      var end := CarveEnd(addr, n, totEnd);
      && addr % alignment == 0 && Granular(addr) && Granular(end)
      && tot <= addr && addr + n <= end <= totEnd
      && (addr == tot || tot + MIN_SIZE <= addr)
      && (end == totEnd || end + REALLOC_MIN_FREE < totEnd)
      && (alignment >= 64 ==> end == addr + n)
  {
    hide CarveAddr, PowerOfTwo;
    PowerOfTwoIsGranular(alignment);
    CarveAddrBounds(tot, alignment);
    MultiplesAdd(CarveAddr(tot, alignment), n, GRANULARITY);
  }

  function MemalignOp(c: Site, st: State, alignment: int, size: int, answer: int): (r: Outcome)
    requires c.page > 0 && alignment > 0
  {
    var r := MallocOp(c, st, AdjustSize(size) + 2 * alignment, answer);
    if r.ptr == 0 || alignment < GRANULARITY || r.ptr - HEADER !in r.state.live then r
    else Carve(r, alignment, AdjustSize(size))
  }

  /** The fresh block is cut down to an aligned block of n bytes. */
  function Carve(r: Outcome, alignment: int, n: int): (r': Outcome)
    requires alignment > 0 && r.ptr - HEADER in r.state.live
  {
    var base := r.ptr - HEADER;
    var totEnd, addr := base + r.state.live[base], CarveAddr(r.ptr, alignment);
    var st1 := CutFront(r.state, base, addr - HEADER);
    Outcome(CutBack(st1, addr - HEADER, CarveEnd(addr, n, totEnd)), addr)
  }

  /** The part of block b before address d is freed. */
  function CutFront(st: State, b: int, d: int): (st': State)
    requires b in st.live
    ensures d in st'.live && d + st'.live[d] == b + st.live[b]
  {
    if d == b then st
    else State(Insert(st.areas, b, d - b), (st.live - {b})[d := b + st.live[b] - d], st.mapped)
  }

  /** The part of block b from address e on is freed. */
  function CutBack(st: State, b: int, e: int): (st': State)
    requires b in st.live
  {
    if e == b + st.live[b] then st else Shrink(st, b, e - b)
  }

  lemma CutFrontKeeps(c: Site, st: State, b: int, d: int)
    requires Inv(c, st) && b in st.live && Granular(d)
    requires d == b || b + DESCRIPTOR <= d < b + st.live[b]
    ensures d != b ==> Insertable(st.areas, b, d - b) && d !in st.live
    ensures Inv(c, CutFront(st, b, d)) && CutFront(st, b, d).live[d] == b + st.live[b] - d
  {
    hide Inv, Insert, Insertable;
    BlockAligned(c, st, b);
    if d != b {
      SplitKeeps(c, st, b, d - b);
      ReleaseKeeps(c, Split(st, b, d - b), b);
      assert Release(Split(st, b, d - b), b).live == CutFront(st, b, d).live;
    }
  }

  /** Cutting a fresh block down to [d, e) leaves a fresh block [d, e). */
  lemma CarveKeeps(c: Site, st: State, st1: State, b: int, d: int, e: int)
    requires Inv(c, st1) && Roomy(st.live) && Added(st.live, st1.live, b, HEADER)
    requires Granular(d) && Granular(e) && d + HEADER <= e <= b + st1.live[b]
    requires d == b || b + DESCRIPTOR <= d
    requires e == b + st1.live[b] || e + DESCRIPTOR <= b + st1.live[b]
    ensures var st2 := CutBack(CutFront(st1, b, d), d, e);
      && Inv(c, st2) && Added(st.live, st2.live, d, e - d) && st2.live[d] == e - d
      && (Roomy(st2.live) <==> DESCRIPTOR <= e - d)
  {
    hide Inv, Insert, Insertable;
    CutFrontKeeps(c, st1, b, d);
    var mid := CutFront(st1, b, d);
    if e != b + st1.live[b] { ShrinkKeeps(c, mid, d, e - d); }
    assert d !in st.live;
    assert CutBack(mid, d, e).live == st.live[d := e - d];
    RoomyAdded(st.live, d, e - d);
  }

  lemma RoomyAdded(live: map<int, int>, b: int, n: int)
    requires Roomy(live) && b !in live
    ensures Roomy(live[b := n]) <==> DESCRIPTOR <= n
  {
    assert b in live[b := n];
  }

  /** What memalign promises: a new block, aligned, with room for `size` bytes.
      It can be freed later exactly if it can hold a descriptor: always for more
      than 8 bytes, never for less from alignment 64 on. */
  ghost predicate Memaligned(st: State, r: Outcome, alignment: int, size: int)
    requires alignment > 0
  {
    if r.ptr == 0 then r.state == st
    else
      && Added(st.live, r.state.live, r.ptr - HEADER, size + HEADER)
      && (GRANULARITY <= alignment ==> r.ptr % alignment == 0)
      && (Roomy(r.state.live) <==> DESCRIPTOR <= r.state.live[r.ptr - HEADER])
      && (alignment < GRANULARITY || size > GRANULARITY ==> Roomy(r.state.live))
      && (64 <= alignment && size <= GRANULARITY ==> !Roomy(r.state.live))
  }

  lemma MemalignKeeps(c: Site, st: State, alignment: int, size: int, answer: int)
    requires Inv(c, st) && Roomy(st.live) && alignment > 0 && PowerOfTwo(alignment) && 0 <= size
    requires AdjustSize(size) + 2 * alignment < WORD_LIMIT
    requires MmapAnswer(c, st.mapped, BlockLength(c.page, AdjustSize(size) + 2 * alignment + HEADER), answer)
    ensures var r := MemalignOp(c, st, alignment, size, answer);
      Inv(c, r.state) && Memaligned(st, r, alignment, size)
  {
    hide MallocOp, AdjustSize, Carve, Inv, Roomy, Added, PowerOfTwo, Memaligned;
    OverAllocation(c, st, alignment, size, answer);
    var r := MallocOp(c, st, AdjustSize(size) + 2 * alignment, answer);
    if r.ptr == 0 {
      MemalignFailed(st, alignment, size);
    } else if alignment < GRANULARITY {
      MemalignSmallAlignment(st, r, alignment, size);
    } else {
      MemalignCarved(c, st, r, alignment, size);
    }
  }

  /** The malloc inside memalign. */
  lemma OverAllocation(c: Site, st: State, alignment: int, size: int, answer: int)
    requires Inv(c, st) && Roomy(st.live) && alignment > 0 && 0 <= size
    requires AdjustSize(size) + 2 * alignment < WORD_LIMIT
    requires MmapAnswer(c, st.mapped, BlockLength(c.page, AdjustSize(size) + 2 * alignment + HEADER), answer)
    ensures c.page > 0
    ensures var r := MallocOp(c, st, AdjustSize(size) + 2 * alignment, answer);
      && Inv(c, r.state) && Roomy(r.state.live)
      && (r.ptr == 0 ==> r.state == st)
      && (r.ptr != 0 ==>
            && Added(st.live, r.state.live, r.ptr - HEADER, AdjustSize(size) + 2 * alignment + HEADER)
            && r.ptr > HEADER && r.ptr - HEADER in r.state.live)
  {
    hide MallocOp, AdjustSize, MmapAnswer, BlockLength, Roomy, Inv, RequestSize, Granular;
    PagePositive(c, st);
    AdjustSizeBounds(size);
    MallocKeeps(c, st, AdjustSize(size) + 2 * alignment, answer);
  }

  lemma MemalignFailed(st: State, alignment: int, size: int)
    requires alignment > 0
    ensures Memaligned(st, Outcome(st, 0), alignment, size)
  {
  }

  lemma MemalignSmallAlignment(st: State, r: Outcome, alignment: int, size: int)
    requires 0 < alignment < GRANULARITY && r.ptr != 0
    requires Added(st.live, r.state.live, r.ptr - HEADER, AdjustSize(size) + 2 * alignment + HEADER)
    requires Roomy(r.state.live)
    ensures Memaligned(st, r, alignment, size)
  {
    hide AdjustSize;
    AdjustSizeBounds(size);
  }

  lemma MemalignCarved(c: Site, st: State, r: Outcome, alignment: int, size: int)
    requires Inv(c, r.state) && Roomy(st.live) && r.ptr > HEADER && alignment > 0
    requires PowerOfTwo(alignment) && GRANULARITY <= alignment && 0 <= size
    requires Added(st.live, r.state.live, r.ptr - HEADER, AdjustSize(size) + 2 * alignment + HEADER)
    ensures var r' := Carve(r, alignment, AdjustSize(size));
      Inv(c, r'.state) && Memaligned(st, r', alignment, size)
  {
    hide AdjustSize, PowerOfTwo, Roomy, CutFront, CutBack, CarveAddr, Inv, Granular;
    var n, b := AdjustSize(size), r.ptr - HEADER;
    var totEnd, addr := b + r.state.live[b], CarveAddr(r.ptr, alignment);
    AdjustSizeBounds(size);
    BlockAligned(c, r.state, b);
    GranularAdd(b, r.state.live[b]);
    GranularAdd(b, b);
    CarveFits(r.ptr, totEnd, alignment, n);
    GranularAdd(addr, b);
    CarveKeeps(c, st, r.state, b, addr - HEADER, CarveEnd(addr, n, totEnd));
  }

  /** The state whose free list malloc takes its block from. */
  function Searched(c: Site, st: State, size: int, answer: int): (st': State)
    requires c.page > 0
  {
    if FirstFit(st.areas, RequestSize(size + HEADER)) < |st.areas| || answer == -1 then st
    else Extend(st, answer, BlockLength(c.page, size + HEADER))
  }

  /** The block malloc hands out, in terms of the state before the call. */
  lemma MallocTakes(c: Site, st: State, size: int, answer: int)
    requires c.page > 0 && 0 < size <= MAX_REQUEST
    ensures var s, n := Searched(c, st, size, answer), RequestSize(size + HEADER);
      var i, r := FirstFit(s.areas, n), MallocOp(c, st, size, answer);
      if i < |s.areas| then r == Outcome(Grant(s, i, n), s.areas[i].start + HEADER) else r == Outcome(s, 0)
  {
    hide RequestSize, Grant, BlockLength;
  }

  /** What memalign cuts out of the k bytes at b: the header address and the size. */
  function Piece(b: int, k: int, alignment: int, n: int): (p: (int, int))
    requires alignment > 0
  {
    var addr := CarveAddr(b + HEADER, alignment);
    (addr - HEADER, CarveEnd(addr, n, b + k) - (addr - HEADER))
  }

  /** Exactly when memalign leaves a block that can be freed, from the state before
      the call: the area first fit takes, how much of it malloc hands out, and what
      remains of that between the header and the returned tail. */
  lemma MemalignFreeable(c: Site, st: State, alignment: int, size: int, answer: int)
    requires Inv(c, st) && Roomy(st.live) && PowerOfTwo(alignment) && GRANULARITY <= alignment && 0 <= size
    requires AdjustSize(size) + 2 * alignment <= MAX_REQUEST
    requires MmapAnswer(c, st.mapped, BlockLength(c.page, AdjustSize(size) + 2 * alignment + HEADER), answer)
    ensures c.page > 0
    ensures var total, r := AdjustSize(size) + 2 * alignment, MemalignOp(c, st, alignment, size, answer);
      var s, n := Searched(c, st, total, answer).areas, RequestSize(total + HEADER);
      var i := FirstFit(s, n);
      if i == |s| then r == Outcome(st, 0)
      else
        var (d, k) := Piece(s[i].start, TakenSize(s[i].size, n), alignment, AdjustSize(size));
        && r.ptr == d + HEADER && r.state.live == st.live[d := k] && (Roomy(r.state.live) <==> DESCRIPTOR <= k)
        && (alignment >= 64 ==> k == AdjustSize(size) + HEADER)
  {
    hide MallocOp, AdjustSize, Inv, Roomy, PowerOfTwo, MmapAnswer, BlockLength, RequestSize, CarveAddr, CarveEnd,
         Searched, Added, Carve;
    AdjustSizeBounds(size);
    var total := AdjustSize(size) + 2 * alignment;
    OverAllocation(c, st, alignment, size, answer);
    MallocTakes(c, st, total, answer);
    var r := MallocOp(c, st, total, answer);
    var s, n := Searched(c, st, total, answer), RequestSize(total + HEADER);
    var i := FirstFit(s.areas, n);
    if i < |s.areas| {
      GrantedBlock(s, i, n);
      StartPositive(c, st, s, total, answer, i);
      CarvedPiece(c, st, r, alignment, size);
    }
  }

  lemma GrantedBlock(st: State, i: int, n: int)
    requires 0 <= i < |st.areas|
    ensures var b := st.areas[i].start;
      b in Grant(st, i, n).live && Grant(st, i, n).live[b] == TakenSize(st.areas[i].size, n)
  {
  }

  lemma StartPositive(c: Site, st: State, s: State, size: int, answer: int, i: int)
    requires Inv(c, st) && 0 < size <= MAX_REQUEST && c.page > 0 && s == Searched(c, st, size, answer)
    requires MmapAnswer(c, st.mapped, BlockLength(c.page, size + HEADER), answer) && 0 <= i < |s.areas|
    ensures 0 < s.areas[i].start
  {
    hide MmapAnswer, BlockLength, RequestSize, Insert;
    if s != st { ExtendKeeps(c, st, answer, BlockLength(c.page, size + HEADER)); }
    assert Fits(s.areas[i]);
  }

  ghost predicate CarvedTo(live: map<int, int>, r: Outcome, d: int, k: int) {
    r.ptr == d + HEADER && r.state.live == live[d := k] && (Roomy(r.state.live) <==> DESCRIPTOR <= k)
  }

  lemma CarvedPiece(c: Site, st: State, r: Outcome, alignment: int, size: int)
    requires Inv(c, r.state) && Roomy(st.live) && r.ptr > HEADER && alignment > 0
    requires PowerOfTwo(alignment) && GRANULARITY <= alignment && 0 <= size
    requires Added(st.live, r.state.live, r.ptr - HEADER, AdjustSize(size) + 2 * alignment + HEADER)
    ensures var (d, k) := Piece(r.ptr - HEADER, r.state.live[r.ptr - HEADER], alignment, AdjustSize(size));
      CarvedTo(st.live, Carve(r, alignment, AdjustSize(size)), d, k)
        && (alignment >= 64 ==> k == AdjustSize(size) + HEADER)
  {
    hide AdjustSize, PowerOfTwo, Roomy, CutFront, CutBack, CarveAddr, Inv, Granular;
    var n, b := AdjustSize(size), r.ptr - HEADER;
    var totEnd, addr := b + r.state.live[b], CarveAddr(r.ptr, alignment);
    AdjustSizeBounds(size);
    BlockAligned(c, r.state, b);
    GranularAdd(b, r.state.live[b]);
    GranularAdd(b, b);
    CarveFits(r.ptr, totEnd, alignment, n);
    GranularAdd(addr, b);
    CarveKeeps(c, st, r.state, b, addr - HEADER, CarveEnd(addr, n, totEnd));
  }

  lemma BlockAligned(c: Site, st: State, b: int)
    requires Inv(c, st) && b in st.live
    ensures Granular(b) && Granular(st.live[b])
  {
  }

  lemma WholeRequest(k: int)
    requires DESCRIPTOR <= k && Granular(k)
    ensures RequestSize(k) == k
  {
  }
}
