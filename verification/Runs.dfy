/** Runs of the allocator: any sequence of calls from malloc_init, with any
    admissible answers of the system. */
module Runs {
  import opened Layout
  import opened FreeList
  import opened Blocks
  import opened Allocation

  datatype Op =
    | Malloc(size: int, answer: int)
    | Free(ptr: int)
    | Realloc(ptr: int, size: int, answer: int)
    | Memalign(alignment: int, size: int, answer: int)

  /** What a caller owes: size_t arguments, pointers that are null or live, and
      for memalign a power of two, no wrap-around, and a block that can be freed. */
  predicate Legal(st: State, op: Op) {
    match op
    case Malloc(size, _) => 0 <= size < WORD_LIMIT
    case Free(ptr) => ptr == 0 || ptr - HEADER in st.live
    case Realloc(ptr, size, _) => 0 <= size < WORD_LIMIT && (ptr == 0 || ptr - HEADER in st.live)
    case Memalign(alignment, size, _) =>
      && 0 < alignment && PowerOfTwo(alignment) && 0 <= size
      && AdjustSize(size) + 2 * alignment < WORD_LIMIT
      && (alignment < GRANULARITY || GRANULARITY < size)
  }

  /** The system answers as mmap does. */
  ghost predicate Answered(c: Site, st: State, op: Op)
    requires c.page > 0
  {
    match op
    case Malloc(size, answer) => MmapAnswer(c, st.mapped, BlockLength(c.page, size + HEADER), answer)
    case Free(_) => true
    case Realloc(ptr, size, answer) => MmapAnswer(c, st.mapped, ReallocLength(c, ptr, size), answer)
    case Memalign(alignment, size, answer) =>
      MmapAnswer(c, st.mapped, BlockLength(c.page, AdjustSize(size) + 2 * alignment + HEADER), answer)
  }

  function Step(c: Site, st: State, op: Op): (st': State)
    requires c.page > 0 && Legal(st, op)
  {
    match op
    case Malloc(size, answer) => MallocOp(c, st, size, answer).state
    case Free(ptr) => FreeOp(c, st, ptr)
    case Realloc(ptr, size, answer) => ReallocOp(c, st, ptr, size, answer).state
    case Memalign(alignment, size, answer) => MemalignOp(c, st, alignment, size, answer).state
  }

  ghost predicate ValidRun(c: Site, st: State, ops: seq<Op>)
    requires c.page > 0
    decreases |ops|
  {
    ops == [] ||
    (Legal(st, ops[0]) && Answered(c, st, ops[0]) && ValidRun(c, Step(c, st, ops[0]), ops[1..]))
  }

  ghost function Final(c: Site, st: State, ops: seq<Op>): (st': State)
    requires c.page > 0 && ValidRun(c, st, ops)
    decreases |ops|
  {
    if ops == [] then st else Final(c, Step(c, st, ops[0]), ops[1..])
  }

  /** malloc_init. */
  function Init(c: Site): (st: State) {
    State([Area(c.base, STATIC_SIZE)], map[], {})
  }

  lemma InitHolds(c: Site)
    requires ValidSite(c)
    ensures Inv(c, Init(c)) && Roomy(Init(c).live)
  {
    var s := Init(c).areas;
    forall x ensures Covers(s, x) <==> Static(c, x) {
      assert s[0].Has(x) <==> Static(c, x);
    }
  }

  /** Every call keeps the tiling and leaves every other live block as it is. */
  lemma StepKeeps(c: Site, st: State, op: Op)
    requires Inv(c, st) && Roomy(st.live) && c.page > 0 && Legal(st, op) && Answered(c, st, op)
    ensures Inv(c, Step(c, st, op)) && Roomy(Step(c, st, op).live)
    ensures forall b :: b in st.live && !Changes(c, st, op, b + HEADER) ==>
      b in Step(c, st, op).live && Step(c, st, op).live[b] == st.live[b]
  {
    hide Inv, Roomy, MallocOp, FreeOp, ReallocOp, MemalignOp, BlockLength, MmapAnswer, PowerOfTwo, AdjustSize,
         RequestSize;
    match op {
      case Malloc(size, answer) => MallocKeeps(c, st, size, answer);
      case Free(ptr) => FreeKeeps(c, st, ptr);
      case Realloc(ptr, size, answer) => ReallocKeeps(c, st, ptr, size, answer);
      case Memalign(alignment, size, answer) => MemalignKeeps(c, st, alignment, size, answer);
    }
  }

  /** The call frees or resizes the block with this user address. A realloc that
      fails does neither. */
  predicate Changes(c: Site, st: State, op: Op, ptr: int)
    requires c.page > 0 && Legal(st, op)
  {
    match op
    case Free(p) => p == ptr
    case Realloc(p, size, answer) =>
      p == ptr && (size == 0 || ReallocOp(c, st, p, size, answer).ptr != 0)
    case _ => false
  }

  /** No call of the run changes block b. */
  ghost predicate Spared(c: Site, st: State, ops: seq<Op>, b: int)
    requires c.page > 0 && ValidRun(c, st, ops)
    decreases |ops|
  {
    ops == [] || (!Changes(c, st, ops[0], b + HEADER) && Spared(c, Step(c, st, ops[0]), ops[1..], b))
  }

  /** In every reachable state the free areas and the live blocks are disjoint,
      aligned, large enough, and make up exactly the static area and the bytes
      mapped and not unmapped; the free list satisfies __heap_check. */
  lemma {:induction false} RunKeeps(c: Site, st: State, ops: seq<Op>)
    requires Inv(c, st) && Roomy(st.live) && c.page > 0 && ValidRun(c, st, ops)
    ensures Inv(c, Final(c, st, ops)) && Roomy(Final(c, st, ops).live)
    decreases |ops|
  {
    hide Inv, Roomy, Legal, Answered, Step;
    if ops != [] {
      StepKeeps(c, st, ops[0]);
      RunKeeps(c, Step(c, st, ops[0]), ops[1..]);
    }
  }

  /** A block keeps its place and size through every run that does not free or
      resize it. */
  lemma {:induction false} BlockSurvives(c: Site, st: State, ops: seq<Op>, b: int)
    requires Inv(c, st) && Roomy(st.live) && c.page > 0 && ValidRun(c, st, ops)
    requires b in st.live && Spared(c, st, ops, b)
    ensures b in Final(c, st, ops).live && Final(c, st, ops).live[b] == st.live[b]
    decreases |ops|
  {
    hide Inv, Roomy, Legal, Answered, Step, Changes;
    if ops != [] {
      StepKeeps(c, st, ops[0]);
      BlockSurvives(c, Step(c, st, ops[0]), ops[1..], b);
    }
  }

  /** The free list has no memory of how it came about: any two runs that end
      with the same live blocks and the same mapped bytes end with the same list. */
  lemma NoHistory(c: Site, ops: seq<Op>, others: seq<Op>)
    requires ValidSite(c) && c.page > 0 && ValidRun(c, Init(c), ops) && ValidRun(c, Init(c), others)
    requires Final(c, Init(c), ops).live == Final(c, Init(c), others).live
    requires Final(c, Init(c), ops).mapped == Final(c, Init(c), others).mapped
    ensures Final(c, Init(c), ops).areas == Final(c, Init(c), others).areas
  {
    hide ValidSite, Init, ValidRun, Final;
    InitHolds(c);
    RunKeeps(c, Init(c), ops);
    RunKeeps(c, Init(c), others);
    SameOwnersSameList(c, Final(c, Init(c), ops), Final(c, Init(c), others));
  }

  lemma SameOwnersSameList(c: Site, st: State, st': State)
    requires Inv(c, st) && Inv(c, st') && st.live == st'.live && st.mapped == st'.mapped
    ensures st.areas == st'.areas
  {
    hide Covers, WellFormed, LiveCovers, Owned;
    Canonical(st.areas, st'.areas);
  }

  /** malloc followed by free restores the state exactly unless the area the
      block came from is large enough to be given back to the system. */
  lemma MallocThenFree(c: Site, st: State, size: int)
    requires Inv(c, st) && Roomy(st.live) && c.page > 0 && 0 < size <= MAX_REQUEST
    requires FirstFit(st.areas, RequestSize(size + HEADER)) < |st.areas|
    ensures var r, i := MallocOp(c, st, size, -1), FirstFit(st.areas, RequestSize(size + HEADER));
      && r.ptr - HEADER in r.state.live
      && (FreeOp(c, r.state, r.ptr) == st <==> st.areas[i].size < 8 * c.page)
  {
    hide RequestSize, Inv, Roomy, Grant, FreeOp, GiveBack, FirstFit;
    var n := RequestSize(size + HEADER);
    var i := FirstFit(st.areas, n);
    RequestSizeBounds(size + HEADER);
    FreeGranted(c, st, i, n);
    if st.areas[i].size >= 8 * c.page { GiveBackShrinks(c, st, i); }
  }

  lemma FreeGranted(c: Site, st: State, i: int, n: int)
    requires Inv(c, st) && c.page > 0
    requires 0 <= i < |st.areas| && DESCRIPTOR <= n <= st.areas[i].size && Granular(n)
    ensures var a, st1 := st.areas[i], Grant(st, i, n);
      && a.start > 0 && a.start in st1.live
      && FreeOp(c, st1, a.start + HEADER) == if a.size < 8 * c.page then st else GiveBack(c, st, i, 0)
  {
    hide Inv, Take, Release, GiveBack, Position;
    GrantThenRelease(c, st, i, n);
    ReleasedArea(c, st, i, n);
  }

  lemma GrantThenRelease(c: Site, st: State, i: int, n: int)
    requires Inv(c, st) && 0 <= i < |st.areas| && DESCRIPTOR <= n <= st.areas[i].size && Granular(n)
    ensures st.areas[i].start > 0 && st.areas[i].start in Grant(st, i, n).live
    ensures Release(Grant(st, i, n), st.areas[i].start) == st
  {
    hide Insert, Take, Covers;
    GrantKeeps(c, st, i, n);
    TakeThenInsertRestores(st.areas, i, n);
    assert Fits(st.areas[i]);
    assert st.live[st.areas[i].start := TakenSize(st.areas[i].size, n)] - {st.areas[i].start} == st.live;
  }

  /** The area that absorbs the freed block is the one it was taken from. */
  lemma ReleasedArea(c: Site, st: State, i: int, n: int)
    requires Inv(c, st) && 0 <= i < |st.areas| && DESCRIPTOR <= n <= st.areas[i].size && Granular(n)
    ensures Position(Take(st.areas, i, n), st.areas[i].start) == i
  {
    hide Granular, Covers;
    var s, t, m := st.areas, Take(st.areas, i, n), st.areas[i].start;
    TakeIsDifference(s, i, n);
    assert Fits(s[i]);
    forall k | 0 <= k < i ensures t[k].End() < m { assert t[k] == s[k]; }
    assert i < |t| ==> m <= t[i].End();
  }

  lemma GiveBackShrinks(c: Site, st: State, k: int)
    requires Inv(c, st) && 0 <= k < |st.areas| && 8 * c.page <= st.areas[k].size
    ensures GiveBack(c, st, k, 0) != st
  {
    hide UnmapStart, UnmapEnd, InsertIf;
    GiveBackKeeps(c, st, k, 0);
    var us := UnmapStart(c.page, st.areas[k].start);
    assert us in Range(us, UnmapEnd(c.page, st.areas[k].End()));
    assert us in st.mapped && us !in GiveBack(c, st, k, 0).mapped;
  }

  /** A memalign call that meets no stated condition of its own but leaves a block
      of 16 bytes, too small for the descriptor it must hold once freed. */
  lemma MemalignTooSmall()
    ensures var c := Site(4096, 0x10038);
      ValidSite(c) && !Roomy(MemalignOp(c, Init(c), 64, 8, -1).state.live)
  {
    var c := Site(4096, 0x10038);
    InitHolds(c);
    MemalignKeeps(c, Init(c), 64, 8, -1);
  }
}
