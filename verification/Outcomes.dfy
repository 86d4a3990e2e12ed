/** What each call does, said of the state before it in the words of a caller:
    when it succeeds, where its block lies, how large it is, what the system gets. */
module Outcomes {
  import opened Layout
  import opened FreeList
  import opened Blocks
  import opened Allocation

  /** Some area holds n bytes. */
  ghost predicate HasRoom(s: seq<Area>, n: int) {
    exists a :: a in s && n <= a.size
  }

  /** The lowest area that holds n bytes. */
  ghost predicate LowestRoom(s: seq<Area>, n: int, a: Area) {
    a in s && n <= a.size && forall d :: d in s && n <= d.size ==> a.start <= d.start
  }

  /** A block of k bytes for a request of n from an area of `size` bytes: what stays
      behind is nothing, or at least a minimal free area, and nothing only then. */
  predicate CutFrom(size: int, n: int, k: int) {
    (k == n && MIN_FREE_AREA <= size - n) || (k == size && n <= size < n + MIN_FREE_AREA)
  }

  lemma TakenIsCut(size: int, n: int)
    requires n <= size
    ensures CutFrom(size, n, TakenSize(size, n))
  {
  }

  /** The adjusted request is the least multiple of 8 that holds the request and a descriptor. */
  lemma RequestSizeLeast(n: int, k: int)
    requires 0 <= n <= k && DESCRIPTOR <= k && Granular(k)
    ensures n <= RequestSize(n) <= k && DESCRIPTOR <= RequestSize(n) && Granular(RequestSize(n))
  {
    hide AdjustSize;
    RequestSizeBounds(n);
    AdjustLeast(n, k);
  }

  lemma FoundIsLowest(s: seq<Area>, n: int)
    requires WellFormed(s)
    ensures var i := FirstFit(s, n);
      if i < |s| then LowestRoom(s, n, s[i]) && HasRoom(s, n) else !HasRoom(s, n)
  {
    var i := FirstFit(s, n);
    hide WellFormed, FirstFit;
    if i < |s| {
      assert s[i] in s;
      forall d | d in s && n <= d.size ensures s[i].start <= d.start { FirstFitIsLowest(s, n, d); }
    } else {
      forall d | d in s ensures d.size < n {
        var k :| 0 <= k < |s| && s[k] == d;
      }
    }
  }

  // ----- malloc

  /** A new block of k bytes at b, cut from the lowest area that holds n. */
  ghost predicate Placed(st: State, r: Outcome, n: int, a: Area, k: int) {
    && LowestRoom(st.areas, n, a) && CutFrom(a.size, n, k)
    && r.ptr == a.start + HEADER && r.state.live == st.live[a.start := k]
  }

  /** malloc takes the lowest area that holds the adjusted request, and asks the
      system exactly if there is none; the block then comes out of the grown list. */
  lemma MallocOutcome(c: Site, st: State, size: int, answer: int) returns (a: Area, k: int)
    requires Inv(c, st) && Roomy(st.live) && c.page > 0 && 0 < size <= MAX_REQUEST
    requires MmapAnswer(c, st.mapped, BlockLength(c.page, size + HEADER), answer)
    ensures var r, n := MallocOp(c, st, size, answer), RequestSize(size + HEADER);
      var len := BlockLength(c.page, size + HEADER);
      if HasRoom(st.areas, n) then Placed(st, r, n, a, k) && r.state.mapped == st.mapped
      else if answer == -1 then r == Outcome(st, 0)
      else Placed(Extend(st, answer, len), r, n, a, k) && r.state.mapped == st.mapped + Range(answer, answer + len)
  {
    hide Inv, Roomy, MmapAnswer, BlockLength, RequestSize, Take, TakenSize, WellFormed, HasRoom, LowestRoom, CutFrom;
    var n := RequestSize(size + HEADER);
    ListsWellFormed(c, st);
    FoundIsLowest(st.areas, n);
    a, k := Area(0, 0), 0;
    var i := FirstFit(st.areas, n);
    if i < |st.areas| {
      a, k := st.areas[i], TakenSize(st.areas[i].size, n);
      TakenIsCut(a.size, n);
    } else if answer != -1 {
      var st1 := Extend(st, answer, BlockLength(c.page, size + HEADER));
      SecondTrySucceeds(c, st, size, answer);
      ListsWellFormed(c, st1);
      FoundIsLowest(st1.areas, n);
      var j := FirstFit(st1.areas, n);
      a, k := st1.areas[j], TakenSize(st1.areas[j].size, n);
      TakenIsCut(a.size, n);
    }
  }

  lemma ListsWellFormed(c: Site, st: State)
    requires Inv(c, st)
    ensures WellFormed(st.areas)
  {
  }

  // ----- free

  /** What may be unmapped of [start, end): whole pages, with ends that are empty
      or large enough to go back to the list. */
  predicate MayUnmap(p: int, start: int, end: int, lo: int, hi: int)
    requires p > 0
  {
    && lo % p == 0 && hi % p == 0 && start <= lo && hi <= end
    && (lo == start || start + MIN_FREE_AREA <= lo) && (hi == end || hi + MIN_FREE_AREA <= end)
  }

  /** The range that is unmapped is the largest there is. */
  lemma UnmapLargest(p: int, start: int, end: int, lo: int, hi: int)
    requires PageSize(p) && MayUnmap(p, start, end, lo, hi)
    ensures UnmapStart(p, start) <= lo && hi <= UnmapEnd(p, end)
  {
    hide RoundUp, RoundDown, PowerOfTwo;
    RoundingBounds(start, p);
    RoundingBounds(end, p);
    RoundUpLeast(start, lo, p);
    var u, v := RoundUp(start, p), RoundDown(end, p);
    if u < lo { MultiplesApart(u, lo, p); }
    if hi < v { MultiplesApart(hi, v, p); }
    NoMultipleBetween(end, hi, p);
  }

  lemma NoMultipleBetween(end: int, hi: int, p: int)
    requires p > 0 && hi % p == 0 && hi <= end
    ensures hi <= RoundDown(end, p)
  {
    hide RoundDown;
    RoundingBounds(end, p);
    var v := RoundDown(end, p);
    if v < hi { MultiplesApart(v, hi, p); }
  }

  /** free returns the block to the list; if the free area it ends up in reaches
      eight pages, the largest possible range of pages in it goes back to the system. */
  lemma FreeOutcome(c: Site, st: State, ptr: int) returns (a: Area, us: int, ue: int)
    requires Inv(c, st) && Roomy(st.live) && c.page > 0 && ptr != 0 && ptr - HEADER in st.live
    ensures var b, st', s := ptr - HEADER, FreeOp(c, st, ptr), Insert(st.areas, ptr - HEADER, st.live[ptr - HEADER]);
      && a in s && a.Has(b) && st'.live == st.live - {b}
      && if a.size < 8 * c.page then st'.areas == s && st'.mapped == st.mapped
         else
           && us < ue && MayUnmap(c.page, a.start, a.End(), us, ue)
           && (forall lo, hi :: MayUnmap(c.page, a.start, a.End(), lo, hi) ==> us <= lo && hi <= ue)
           && st'.mapped == st.mapped - Range(us, ue) && Range(us, ue) <= st.mapped
           && forall x :: Covers(st'.areas, x) <==> Covers(s, x) && !(us <= x < ue)
  {
    hide Inv, Roomy, GiveBack, Covers, Insertable, WellFormed, UnmapStart, UnmapEnd, MayUnmap, PowerOfTwo;
    var b := ptr - HEADER;
    var st1 := Release(st, b);
    RoomyOne(st.live, b);
    ReleaseKeeps(c, st, b);
    ListsWellFormed(c, st);
    var k := InsertReturnsMaximal(st.areas, b, st.live[b]);
    BlockPositive(c, st, b);
    a := st1.areas[k];
    us, ue := UnmapStart(c.page, a.start), UnmapEnd(c.page, a.End());
    if 8 * c.page <= a.size {
      GiveBackKeeps(c, st1, k, 0);
      GiveBackMapped(c, st1, k);
      UnmapsLargest(c, st1, a, us, ue);
    }
  }

  lemma RoomyOne(live: map<int, int>, b: int)
    requires Roomy(live) && b in live
    ensures DESCRIPTOR <= live[b]
  {
  }

  lemma BlockPositive(c: Site, st: State, b: int)
    requires Inv(c, st) && b in st.live
    ensures 0 < b && 0 < st.live[b]
  {
  }

  lemma GiveBackMapped(c: Site, st: State, k: int)
    requires c.page > 0 && 0 <= k < |st.areas|
    ensures var us, ue := UnmapStart(c.page, st.areas[k].start), UnmapEnd(c.page, st.areas[k].End());
      GiveBack(c, st, k, 0).mapped == st.mapped - Range(us, ue) && GiveBack(c, st, k, 0).live == st.live
  {
    hide UnmapStart, UnmapEnd;
  }

  lemma UnmapsLargest(c: Site, st: State, a: Area, us: int, ue: int)
    requires Inv(c, st) && c.page > 0 && a in st.areas && 8 * c.page <= a.size
    requires us == UnmapStart(c.page, a.start) && ue == UnmapEnd(c.page, a.End())
    ensures us < ue && MayUnmap(c.page, a.start, a.End(), us, ue)
    ensures forall lo, hi :: MayUnmap(c.page, a.start, a.End(), lo, hi) ==> us <= lo && hi <= ue
  {
    hide MayUnmap, UnmapStart, UnmapEnd, PowerOfTwo, Covers, LiveCovers, Owned, PageGranular, Granular;
    var i :| 0 <= i < |st.areas| && st.areas[i] == a;
    AreaInList(st.areas, i);
    RangeIsAllowed(c, a, us, ue);
    forall lo, hi | MayUnmap(c.page, a.start, a.End(), lo, hi) ensures us <= lo && hi <= ue {
      UnmapLargest(c.page, a.start, a.End(), lo, hi);
    }
  }

  lemma RangeIsAllowed(c: Site, a: Area, us: int, ue: int)
    requires ValidSite(c) && Fits(a) && c.page > 0 && 8 * c.page <= a.size
    requires us == UnmapStart(c.page, a.start) && ue == UnmapEnd(c.page, a.End())
    ensures us < ue && MayUnmap(c.page, a.start, a.End(), us, ue)
  {
    hide UnmapStart, UnmapEnd, PowerOfTwo, Granular;
    GiveBackAligned(c, a, 0);
  }

  // ----- realloc

  /** The first free area starts where block b ends, and has what is missing to n bytes. */
  predicate CanExtend(st: State, b: int, n: int)
    requires b in st.live
  {
    st.areas != [] && st.areas[0].start == b + st.live[b] && n - st.live[b] <= st.areas[0].size
  }

  lemma GrowsIffExtends(c: Site, st: State, b: int, n: int)
    requires Inv(c, st) && b in st.live && Granular(n) && st.live[b] < n
    ensures AdjustSize(n - st.live[b]) == n - st.live[b]
    ensures CanGrow(st, b, n) <==> CanExtend(st, b, n)
  {
    BlockAligned(c, st, b);
    GranularAdd(n, st.live[b]);
    WholeAdjust(n - st.live[b]);
  }

  lemma WholeAdjust(n: int)
    requires Granular(n)
    ensures AdjustSize(n) == n
  {
  }

  /** realloc of a block: it returns null exactly for a size above the guard, or if
      the block is too small, the first free area does not extend it, no area holds
      the whole request, and the system has no memory either. It returns the very
      pointer if the block suffices or can be extended. A block it shrinks or keeps
      is less than 40 bytes above the request, one it extends less than 56, and one
      it moves lies in the lowest area with room, or in memory from the system. */
  lemma ReallocOutcome(c: Site, st: State, ptr: int, size: int, answer: int) returns (a: Area, k: int)
    requires Inv(c, st) && Roomy(st.live) && c.page > 0 && 0 < size < WORD_LIMIT && ptr != 0 && ptr - HEADER in st.live
    requires MmapAnswer(c, st.mapped, ReallocLength(c, ptr, size), answer)
    ensures var r, b, n := ReallocOp(c, st, ptr, size, answer), ptr - HEADER, RequestSize(size + HEADER);
      && (r.ptr == 0 <==>
           || size > MAX_REQUEST
           || (st.live[b] < n && !CanExtend(st, b, n) && !HasRoom(st.areas, n) && answer == -1))
      && (r.ptr == 0 ==> r.state == st)
      && (size <= MAX_REQUEST ==>
           if n <= st.live[b] then
             && r.ptr == ptr && b in r.state.live && r.state.live == st.live[b := r.state.live[b]]
             && n <= r.state.live[b] < n + REALLOC_MIN_FREE && r.state.mapped == st.mapped
           else if CanExtend(st, b, n) then
             && r.ptr == ptr && r.state.live == st.live[b := st.live[b] + k]
             && CutFrom(st.areas[0].size, n - st.live[b], k) && r.state.mapped == st.mapped
           else if HasRoom(st.areas, n) then
             && LowestRoom(st.areas, n, a) && CutFrom(a.size, n, k)
             && r.ptr == a.start + HEADER && r.state.live == st.live[a.start := k] - {b}
           else if answer != -1 then
             && LowestRoom(Extend(st, answer, BlockLength(c.page, n)).areas, n, a) && CutFrom(a.size, n, k)
             && r.ptr == a.start + HEADER && r.state.live == st.live[a.start := k] - {b}
           else r == Outcome(st, 0))
  {
    hide Inv, Roomy, MmapAnswer, BlockLength, RequestSize, MallocOp, FreeOp, Grow, Shrink, CanGrow, CanExtend, HasRoom,
         LowestRoom, CutFrom, Granular, AdjustSize, Extend;
    a, k := Area(0, 0), 0;
    if size <= MAX_REQUEST {
      var b, n := ptr - HEADER, RequestSize(size + HEADER);
      RequestSizeBounds(size + HEADER);
      if st.live[b] < n {
        GrowsIffExtends(c, st, b, n);
        if CanExtend(st, b, n) {
          ExtensionFits(st, b, n);
          k := GrownBlock(st, b, n - st.live[b]);
        } else {
          a, k := MovedBlock(c, st, ptr, n, answer);
        }
      } else if n + REALLOC_MIN_FREE <= st.live[b] {
        ShrunkBlock(st, b, n);
      }
    }
  }

  lemma ExtensionFits(st: State, b: int, n: int)
    requires b in st.live && CanExtend(st, b, n)
    ensures st.areas != [] && n - st.live[b] <= st.areas[0].size
  {
  }

  lemma GrownBlock(st: State, b: int, extra: int) returns (k: int)
    requires b in st.live && st.areas != [] && extra <= st.areas[0].size
    ensures var st' := Grow(st, b, extra);
      st'.live == st.live[b := st.live[b] + k] && CutFrom(st.areas[0].size, extra, k) && st'.mapped == st.mapped
  {
    k := TakenSize(st.areas[0].size, extra);
    TakenIsCut(st.areas[0].size, extra);
  }

  lemma ShrunkBlock(st: State, b: int, n: int)
    requires b in st.live
    ensures var st' := Shrink(st, b, n); st'.live == st.live[b := n] && st'.mapped == st.mapped
  {
  }

  /** The path of realloc that allocates, copies and frees. */
  lemma MovedBlock(c: Site, st: State, ptr: int, n: int, answer: int) returns (a: Area, k: int)
    requires Inv(c, st) && Roomy(st.live) && c.page > 0 && ptr != 0 && ptr - HEADER in st.live
    requires DESCRIPTOR <= n <= WORD_LIMIT - HEADER && Granular(n)
    requires MmapAnswer(c, st.mapped, BlockLength(c.page, n), answer)
    ensures var m, b := MallocOp(c, st, n - HEADER, answer), ptr - HEADER;
      if HasRoom(st.areas, n) || answer != -1 then
        && m.ptr != 0 && b in m.state.live
        && LowestRoom((if HasRoom(st.areas, n) then st else Extend(st, answer, BlockLength(c.page, n))).areas, n, a)
        && CutFrom(a.size, n, k) && m.ptr == a.start + HEADER
        && FreeOp(c, m.state, ptr).live == st.live[a.start := k] - {b}
      else m == Outcome(st, 0)
  {
    hide Inv, Roomy, MmapAnswer, BlockLength, RequestSize, MallocOp, FreeOp, HasRoom, LowestRoom, CutFrom,
      Granular, Extend;
    WholeRequest(n);
    a, k := MallocOutcome(c, st, n - HEADER, answer);
    MallocKeeps(c, st, n - HEADER, answer);
    var m, b := MallocOp(c, st, n - HEADER, answer), ptr - HEADER;
    if m.ptr != 0 {
      AddedKeeps(st, m, ptr, n);
      FreeKeeps(c, m.state, ptr);
    }
    MallocFails(c, st, n - HEADER, answer);
  }

  lemma MallocFails(c: Site, st: State, size: int, answer: int)
    requires Inv(c, st) && Roomy(st.live) && c.page > 0 && 0 < size <= MAX_REQUEST
    requires MmapAnswer(c, st.mapped, BlockLength(c.page, size + HEADER), answer)
    ensures MallocOp(c, st, size, answer).ptr == 0 <==> !HasRoom(st.areas, RequestSize(size + HEADER)) && answer == -1
  {
    hide Inv, Roomy, MmapAnswer, BlockLength, RequestSize, MallocOp, Added;
    MallocKeeps(c, st, size, answer);
  }

  // ----- memalign

  /** memalign fails exactly when its over-allocation does. */
  lemma MemalignOutcome(c: Site, st: State, alignment: int, size: int, answer: int)
    requires Inv(c, st) && Roomy(st.live) && c.page > 0 && alignment > 0 && PowerOfTwo(alignment) && 0 <= size
    requires AdjustSize(size) + 2 * alignment <= MAX_REQUEST
    requires MmapAnswer(c, st.mapped, BlockLength(c.page, AdjustSize(size) + 2 * alignment + HEADER), answer)
    ensures MemalignOp(c, st, alignment, size, answer).ptr == 0 <==>
      !HasRoom(st.areas, RequestSize(AdjustSize(size) + 2 * alignment + HEADER)) && answer == -1
  {
    hide Inv, Roomy, MmapAnswer, BlockLength, RequestSize, MallocOp, Added, AdjustSize, PowerOfTwo, HasRoom, Carve;
    var total := AdjustSize(size) + 2 * alignment;
    AdjustSizeBounds(size);
    MallocFails(c, st, total, answer);
    OverAllocation(c, st, alignment, size, answer);
    var m := MallocOp(c, st, total, answer);
    if m.ptr != 0 && GRANULARITY <= alignment { CarvedAbove(m, alignment, AdjustSize(size)); }
  }

  lemma CarvedAbove(r: Outcome, alignment: int, n: int)
    requires alignment > 0 && r.ptr - HEADER in r.state.live && r.ptr > 0
    ensures Carve(r, alignment, n).ptr > 0
  {
    hide CutFront, CutBack, CarveEnd, RoundUp;
    RoundingBounds(r.ptr, alignment);
    RoundingBounds(r.ptr + MIN_SIZE, alignment);
  }

  /** The aligned address is the lowest one with nothing, or at least 24 bytes, before it. */
  lemma CarveAddrLeast(tot: int, alignment: int, x: int)
    requires alignment > 0 && x % alignment == 0 && (x == tot || tot + MIN_SIZE <= x)
    ensures CarveAddr(tot, alignment) <= x
  {
    hide RoundUp;
    RoundingBounds(tot, alignment);
    RoundUpLeast(tot, x, alignment);
    if tot + MIN_SIZE <= x { RoundUpLeast(tot + MIN_SIZE, x, alignment); }
  }

  /** What is kept behind the request is at most 40 bytes, and nothing if more was there. */
  lemma CarveEndTight(addr: int, n: int, totEnd: int)
    requires addr + n <= totEnd
    ensures var kept := CarveEnd(addr, n, totEnd) - (addr + n);
      kept == (if REALLOC_MIN_FREE < totEnd - (addr + n) then 0 else totEnd - (addr + n))
        && 0 <= kept <= REALLOC_MIN_FREE
  {
  }
}
