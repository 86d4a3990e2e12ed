/** For which arguments memalign can be relied on in every reachable state. */
module MemalignLimit {
  import opened Layout
  import opened FreeList
  import opened Blocks
  import opened Allocation
  import opened Runs
  import opened Returnable

  const LARGEST: int := 0x2000_0000_0000   // the largest alignment for which an over-allocation fits the address space

  ghost predicate Admissible(alignment: int, size: int) {
    PowerOfTwo(alignment) && 0 <= size && AdjustSize(size) + 2 * alignment < WORD_LIMIT
  }

  function Length(c: Site, alignment: int, size: int): (len: int)
    requires c.page > 0
  {
    BlockLength(c.page, AdjustSize(size) + 2 * alignment + HEADER)
  }

  /** The call is made, after a run from malloc_init, with an answer mmap may give. */
  ghost predicate Made(c: Site, ops: seq<Op>, answer: int, alignment: int, size: int)
    requires alignment > 0
  {
    && ValidSite(c) && c.page > 0 && ValidRun(c, Init(c), ops)
    && MmapAnswer(c, Final(c, Init(c), ops).mapped, Length(c, alignment, size), answer)
  }

  ghost function Result(c: Site, ops: seq<Op>, answer: int, alignment: int, size: int): (r: Outcome)
    requires alignment > 0 && Made(c, ops, answer, alignment, size)
  {
    MemalignOp(c, Final(c, Init(c), ops), alignment, size, answer)
  }

  /** The call succeeds, but its block cannot be freed after every further run. */
  ghost predicate Spoils(c: Site, ops: seq<Op>, answer: int, alignment: int, size: int)
    requires alignment > 0
  {
    Made(c, ops, answer, alignment, size) &&
    var r := Result(c, ops, answer, alignment, size);
    r.ptr != 0 && !StaysReturnable(c, r.state, r.ptr - HEADER)
  }

  /** The call leaves a block that cannot hold a descriptor. */
  ghost predicate LeavesSmall(c: Site, ops: seq<Op>, answer: int, alignment: int, size: int)
    requires alignment > 0
  {
    Made(c, ops, answer, alignment, size) && !Roomy(Result(c, ops, answer, alignment, size).state.live)
  }

  /** In every reachable state, whatever mmap answers, what the call returns can be
      freed at any later time: this holds exactly for alignments below 8, for more
      than 8 bytes, and for alignments that no address space can satisfy. */
  lemma AlwaysFreeable(alignment: int, size: int)
    requires 0 < alignment && Admissible(alignment, size)
    ensures (forall c, ops, answer :: !Spoils(c, ops, answer, alignment, size))
      <==> alignment < GRANULARITY || GRANULARITY < size || LARGEST < alignment
  {
    hide Spoils, Admissible, LeavesSmall;
    if alignment < GRANULARITY || GRANULARITY < size || LARGEST < alignment {
      forall c, ops, answer ensures !Spoils(c, ops, answer, alignment, size) {
        NeverSmall(c, ops, answer, alignment, size);
        SpoilsIffSmall(c, ops, answer, alignment, size);
      }
    } else {
      var c, ops, answer := Spoiler(alignment, size);
      SpoilsIffSmall(c, ops, answer, alignment, size);
      assert Spoils(c, ops, answer, alignment, size);
    }
  }

  /** The block can be freed at any later time exactly if it can hold a descriptor. */
  lemma SpoilsIffSmall(c: Site, ops: seq<Op>, answer: int, alignment: int, size: int)
    requires 0 < alignment && Admissible(alignment, size)
    ensures Spoils(c, ops, answer, alignment, size) <==> LeavesSmall(c, ops, answer, alignment, size)
  {
    hide MemalignOp, Inv, MmapAnswer, PowerOfTwo, AdjustSize, BlockLength, ValidRun, Final, Init, ValidSite, Roomy,
         StaysReturnable, Added;
    if Made(c, ops, answer, alignment, size) {
      InitHolds(c);
      RunKeeps(c, Init(c), ops);
      var st, r := Final(c, Init(c), ops), Result(c, ops, answer, alignment, size);
      MemalignKeeps(c, st, alignment, size, answer);
      if r.ptr != 0 {
        NewBlock(st.live, r.state.live, r.ptr - HEADER, size + HEADER);
        ReturnableForever(c, r.state, r.ptr - HEADER);
      }
    }
  }

  lemma NewBlock(live: map<int, int>, live': map<int, int>, b: int, room: int)
    requires Added(live, live', b, room)
    ensures b in live' && live' - {b} == live
  {
  }

  // ----- safe arguments

  lemma NeverSmall(c: Site, ops: seq<Op>, answer: int, alignment: int, size: int)
    requires 0 < alignment && Admissible(alignment, size)
    requires alignment < GRANULARITY || GRANULARITY < size || LARGEST < alignment
    ensures !LeavesSmall(c, ops, answer, alignment, size)
  {
    hide MemalignOp, Roomy, Inv, MmapAnswer, PowerOfTwo, AdjustSize, Added, BlockLength, ValidRun, Final, Init,
         ValidSite;
    if ValidSite(c) && c.page > 0 && ValidRun(c, Init(c), ops) {
      InitHolds(c);
      RunKeeps(c, Init(c), ops);
      var st := Final(c, Init(c), ops);
      if MmapAnswer(c, st.mapped, Length(c, alignment, size), answer) {
        MemalignKeeps(c, st, alignment, size, answer);
        if LARGEST < alignment { NoRoom(c, st, alignment, size, answer); }
      }
    }
  }

  /** Larger powers of two are at least twice as large. */
  lemma {:induction false} NextPower(m: int, n: int)
    requires PowerOfTwo(m) && PowerOfTwo(n) && m < n
    ensures 2 * m <= n
    decreases n
  {
    if m > 1 { NextPower(m / 2, n / 2); }
  }

  lemma LargestIsPower()
    ensures PowerOfTwo(LARGEST)
  {
    assert PowerOfTwo(2) && PowerOfTwo(16);
    PowerProduct(16, 16);
    PowerProduct(0x100, 0x100);
    PowerProduct(0x1_0000, 0x1_0000);
    PowerProduct(0x1_0000_0000, 0x100);
    PowerProduct(0x100_0000_0000, 16);
    PowerProduct(0x1000_0000_0000, 2);
  }

  lemma {:induction false} PowerProduct(m: int, n: int)
    requires PowerOfTwo(m) && PowerOfTwo(n)
    ensures PowerOfTwo(m * n)
    decreases m
  {
    if m > 1 {
      PowerProduct(m / 2, n);
      var half := m / 2 * n;
      assert m * n == 2 * half;
    }
  }

  lemma NoRoom(c: Site, st: State, alignment: int, size: int, answer: int)
    requires Inv(c, st) && Roomy(st.live) && alignment > 0 && Admissible(alignment, size) && LARGEST < alignment
      && c.page > 0
    requires MmapAnswer(c, st.mapped, Length(c, alignment, size), answer)
    ensures MemalignOp(c, st, alignment, size, answer) == Outcome(st, 0)
  {
    hide AdjustSize, PowerOfTwo, BlockLength, Inv, Roomy, MmapAnswer, MallocOp, MemalignOp, RequestSize, Added;
    var total := AdjustSize(size) + 2 * alignment;
    LargestIsPower();
    NextPower(LARGEST, alignment);
    AdjustSizeBounds(size);
    if total <= MAX_REQUEST {
      RequestSizeBounds(total + HEADER);
      forall a | a in st.areas ensures a.size < RequestSize(total + HEADER) { AreaBounded(c, st, a); }
      NoAnswer(c, st, total, answer);
    }
    MallocKeeps(c, st, total, answer);
    FailsTogether(c, st, alignment, size, answer);
  }

  lemma FailsTogether(c: Site, st: State, alignment: int, size: int, answer: int)
    requires c.page > 0 && alignment > 0
    ensures var r := MallocOp(c, st, AdjustSize(size) + 2 * alignment, answer);
      r.ptr == 0 ==> MemalignOp(c, st, alignment, size, answer) == r
  {
    hide MallocOp, AdjustSize, Carve;
  }

  lemma NoAnswer(c: Site, st: State, total: int, answer: int)
    requires Inv(c, st) && c.page > 0 && ADDRESS_LIMIT <= total <= MAX_REQUEST
    requires MmapAnswer(c, st.mapped, BlockLength(c.page, total + HEADER), answer)
    ensures answer == -1
  {
    hide PowerOfTwo, BlockLength, Owned, Tiled, WellFormed, RequestSize;
    RequestSizeBounds(total + HEADER);
    if 0 < BlockLength(c.page, total + HEADER) {
      BlockLengthSuffices(c.page, total + HEADER);
    }
  }

  // ----- the others

  lemma Spoiler(alignment: int, size: int) returns (c: Site, ops: seq<Op>, answer: int)
    requires 0 < alignment && Admissible(alignment, size)
    requires GRANULARITY <= alignment <= LARGEST && size <= GRANULARITY
    ensures LeavesSmall(c, ops, answer, alignment, size)
  {
    hide MmapAnswer, PowerOfTwo, Inv, Roomy, MemalignOp, Length, ValidSite, AdjustSize;
    if alignment >= 64 {
      c, ops, answer := Site(4096, 0x10008), [], 0x2_0000;
      SiteIsValid();
      InitHolds(c);
      LargeAnswer(c, answer, alignment, size);
      AlwaysSmall(c, Init(c), answer, alignment, size);
    } else {
      assert alignment == 8 || alignment == 16 || alignment == 32 by { SmallPowers(alignment); }
      var first := if alignment == 8 then 176 else 168;
      c, ops, answer := Site(4096, 0x10008), [Malloc(first, -1)], -1;
      BelowSixtyFour(c, first, alignment, size);
    }
  }

  lemma SmallPowers(n: int)
    requires PowerOfTwo(n) && 8 <= n < 64
    ensures n == 8 || n == 16 || n == 32
  {
    assert PowerOfTwo(n / 2) && PowerOfTwo(n / 2 / 2) && PowerOfTwo(n / 2 / 2 / 2);
  }

  lemma SiteIsValid()
    ensures ValidSite(Site(4096, 0x10008))
  {
  }

  /** From alignment 64 on, any call that mmap lets succeed will do. */
  lemma AlwaysSmall(c: Site, st: State, answer: int, alignment: int, size: int)
    requires Inv(c, st) && Roomy(st.live) && c.page > 0 && answer != -1 && Admissible(alignment, size)
    requires 64 <= alignment <= LARGEST && size <= GRANULARITY
    requires MmapAnswer(c, st.mapped, Length(c, alignment, size), answer)
    ensures !Roomy(MemalignOp(c, st, alignment, size, answer).state.live)
  {
    hide MmapAnswer, BlockLength, MallocOp, PowerOfTwo, Inv, Roomy, RequestSize, MemalignOp, Piece, Grant, Searched,
         TakenSize, AdjustSize;
    AdjustSizeBounds(size);
    var total := AdjustSize(size) + 2 * alignment;
    MallocKeeps(c, st, total, answer);
    MallocTakes(c, st, total, answer);
    MemalignFreeable(c, st, alignment, size, answer);
  }

  lemma LargeAnswer(c: Site, answer: int, alignment: int, size: int)
    requires c == Site(4096, 0x10008) && answer == 0x2_0000 && 64 <= alignment <= LARGEST && 0 <= size <= GRANULARITY
    ensures MmapAnswer(c, {}, Length(c, alignment, size), answer)
  {
    hide AdjustSize, RoundUp, RoundDown, BlockLength;
    AdjustSizeBounds(size);
    var total := AdjustSize(size) + 2 * alignment + HEADER;
    if total < c.page {
      ShortLength(c.page, total);
    } else {
      UnwrappedLength(c.page, total);
      RoundingBounds(total, c.page);
    }
  }

  lemma ShortLength(p: int, total: int)
    requires 0 < p && total < p
    ensures BlockLength(p, total) == p && p % p == 0
  {
    MultipleOf(1, p);
  }

  /** The state after one malloc that cuts `first` bytes and their header off the static area. */
  function AfterMalloc(c: Site, first: int): State {
    State([Area(c.base + first + HEADER, STATIC_SIZE - first - HEADER)], map[c.base := first + HEADER], {})
  }

  lemma FirstMalloc(c: Site, first: int)
    requires c == Site(4096, 0x10008) && (first == 168 || first == 176)
    ensures Step(c, Init(c), Malloc(first, -1)) == AfterMalloc(c, first)
    ensures ValidRun(c, Init(c), [Malloc(first, -1)]) && Final(c, Init(c), [Malloc(first, -1)]) == AfterMalloc(c, first)
  {
    var n, s := RequestSize(first + HEADER), Init(c).areas;
    assert n == first + HEADER;
    assert FirstFit(s, n) == 0;
    assert Take(s, 0, n) == AfterMalloc(c, first).areas;
    var ops, st := [Malloc(first, -1)], AfterMalloc(c, first);
    assert ops[0] == Malloc(first, -1) && ops[1..] == [];
    hide Step, Take, RequestSize, FirstFit;
    assert ValidRun(c, st, []);
  }

  /** Below 64 it takes a free area of 72 or 80 bytes, which malloc hands out whole. */
  lemma BelowSixtyFour(c: Site, first: int, alignment: int, size: int)
    requires c == Site(4096, 0x10008) && Admissible(alignment, size) && size <= GRANULARITY
    requires (alignment == 8 && first == 176) || ((alignment == 16 || alignment == 32) && first == 168)
    ensures LeavesSmall(c, [Malloc(first, -1)], -1, alignment, size)
  {
    hide MemalignOp, Inv, PowerOfTwo, BlockLength, MmapAnswer, ValidRun, Final, Step, Roomy, Init, Piece, TakenSize,
         AdjustSize, RequestSize, FirstFit;
    SmallAdjust(size);
    SiteIsValid();
    InitHolds(c);
    FirstMalloc(c, first);
    var st := AfterMalloc(c, first);
    NoMapping(c, st.mapped, Length(c, alignment, size));
    RunKeeps(c, Init(c), [Malloc(first, -1)]);
    MemalignFreeable(c, st, alignment, size, -1);
    SmallPiece(c, first, alignment, AdjustSize(size));
  }

  lemma NoMapping(c: Site, mapped: set<int>, len: int)
    requires c.page > 0
    ensures MmapAnswer(c, mapped, len, -1)
  {
  }

  lemma SmallAdjust(size: int)
    requires 0 <= size <= GRANULARITY
    ensures AdjustSize(size) == 0 || AdjustSize(size) == 8
  {
  }

  lemma AlreadyAligned(tot: int, alignment: int)
    requires alignment > 0 && tot % alignment == 0
    ensures CarveAddr(tot, alignment) == tot
  {
    hide RoundUp;
    RoundingBounds(tot, alignment);
    RoundUpLeast(tot, tot, alignment);
  }

  lemma SmallPiece(c: Site, first: int, alignment: int, n: int)
    requires c == Site(4096, 0x10008) && (n == 0 || n == 8)
    requires (alignment == 8 && first == 176) || ((alignment == 16 || alignment == 32) && first == 168)
    ensures var s, k := AfterMalloc(c, first).areas, RequestSize(n + 2 * alignment + HEADER);
      FirstFit(s, k) == 0 && Piece(s[0].start, TakenSize(s[0].size, k), alignment, n).1 < DESCRIPTOR
  {
    hide CarveAddr, AdjustSize;
    var s, k := AfterMalloc(c, first).areas, n + 2 * alignment + HEADER;
    assert RequestSize(k) == k by { WholeRequest(k); }
    assert (s[0].start + HEADER) % alignment == 0;
    AlreadyAligned(s[0].start + HEADER, alignment);
  }
}
