/** malloc, free, realloc and memalign over one word memory that holds the user
    data, the block headers and the descriptors of the free list. */
module Allocator {
  import opened Basics
  import opened Layout
  import opened FreeList
  import opened Links
  import opened Heap
  import opened Blocks
  import opened Allocation
  import opened Runs

  /** The memory is exactly the owned words. */
  ghost predicate MemoryOf(c: Site, mem: Memory, mapped: set<int>) {
    forall x :: x in mem <==> Granular(x) && Owned(c, mapped, x)
  }

  /** The header of each live block holds its size. */
  ghost predicate Headers(mem: Memory, live: map<int, int>) {
    forall b :: b in live ==> b in mem && mem[b] == live[b]
  }

  /** No word of these blocks, header or user data, has changed. */
  ghost predicate Untouched(mem: Memory, mem': Memory, live: map<int, int>) {
    forall x :: x in mem && LiveCovers(live, x) ==> x in mem' && mem'[x] == mem[x]
  }

  ghost predicate Sound(c: Site, mem: Memory, head: int, st: State) {
    && Represents(mem, head, st.areas) && Inv(c, st)
    && MemoryOf(c, mem, st.mapped) && Headers(mem, st.live)
  }

  /** A sound heap all of whose blocks can be freed. */
  ghost predicate Holds(c: Site, mem: Memory, head: int, st: State) {
    Sound(c, mem, head, st) && Roomy(st.live)
  }

  /** The representation of the list depends on free words only. */
  lemma RepresentsFrame(mem: Memory, mem': Memory, head: int, s: seq<Area>)
    requires Represents(mem, head, s)
    requires forall x :: x in mem && Covers(s, x) ==> x in mem' && mem'[x] == mem[x]
    ensures Represents(mem', head, s)
  {
    var ds := Descs(s);
    forall k | 0 <= k < |s|
      ensures LinksAt(mem', ds, k) && mem'[Desc(s[k])] == s[k].size
    {
      NodeAt(mem, head, s, k);
      DescCovered(s, k);
      hide Covers, WellFormed;
      assert LinksAt(mem, ds, k);
    }
  }

  lemma OwnBase(live: map<int, int>, b: int)
    requires AlignedBlocks(live) && b in live
    ensures LiveCovers(live, b)
  {
  }

  lemma FewerBlocksCover(live: map<int, int>, live': map<int, int>, x: int)
    requires forall b :: b in live' ==> b in live && live[b] == live'[b]
    requires LiveCovers(live', x)
    ensures LiveCovers(live, x)
  {
    var b :| b in live' && b <= x < b + live'[b];
    assert b in live && live[b] == live'[b];
  }

  /** After the list changed within its new bounds, and the header of block b was
      stored, the new state holds and no other live word changed. */
  lemma Settle(c: Site, mem: Memory, mem': Memory, head: int, head': int, st: State, st': State, b: int)
    requires Sound(c, mem, head, st)
    requires Represents(mem', head', st'.areas) && SameOutside(mem, mem', st'.areas)
    requires Inv(c, st') && st'.mapped == st.mapped && b in st'.live
    requires forall d :: d in st'.live && d != b ==> d in st.live && st.live[d] == st'.live[d]
    ensures b in mem'
    ensures Sound(c, mem'[b := st'.live[b]], head', st')
    ensures forall x :: x in mem && x != b && LiveCovers(st'.live, x) ==> mem'[b := st'.live[b]][x] == mem[x]
  {
    hide Covers, WellFormed, DisjointBlocks, PageGranular, ValidSite, Represents;
    OwnBase(st'.live, b);
    var mem2 := mem'[b := st'.live[b]];
    assert !Covers(st'.areas, b);
    assert Owned(c, st'.mapped, b);
    hide LiveCovers;
    assert b in mem';
    RepresentsFrame(mem', mem2, head', st'.areas);
    assert Headers(mem2, st'.live) by {
      forall d | d in st'.live && d != b ensures d in mem2 && mem2[d] == st'.live[d] {
        OwnBase(st'.live, d);
      }
    }
  }

  /** The same when blocks only disappeared. */
  lemma SettleFree(c: Site, mem: Memory, mem': Memory, head: int, head': int, st: State, st': State)
    requires Holds(c, mem, head, st)
    requires Represents(mem', head', st'.areas) && SameOutside(mem, mem', st'.areas)
    requires Inv(c, st') && Roomy(st'.live) && st'.mapped == st.mapped
    requires forall d :: d in st'.live ==> d in st.live && st.live[d] == st'.live[d]
    ensures Holds(c, mem', head', st') && Untouched(mem, mem', st'.live)
  {
    hide Covers, WellFormed, DisjointBlocks, PageGranular, ValidSite, Roomy, Represents, LiveCovers, Owned;
    assert Headers(mem', st'.live) by {
      forall d | d in st'.live ensures d in mem' && mem'[d] == st'.live[d] {
        OwnBase(st'.live, d);
      }
    }
  }

  // ----- each transfer, carried out in memory

  lemma GrantSettles(c: Site, mem: Memory, mem': Memory, head: int, head': int, st: State, i: int, n: int)
    requires Holds(c, mem, head, st)
    requires 0 <= i < |st.areas| && DESCRIPTOR <= n <= st.areas[i].size && Granular(n)
    requires Represents(mem', head', Take(st.areas, i, n)) && SameOutside(mem, mem', Take(st.areas, i, n))
    ensures var b, k := st.areas[i].start, TakenSize(st.areas[i].size, n);
      && b > 0 && b in mem' && Holds(c, mem'[b := k], head', Grant(st, i, n))
      && Untouched(mem, mem'[b := k], st.live)
  {
    hide Represents, Take, Covers, Inv, Roomy, MemoryOf, Headers, LiveCovers, TakenSize, Granular;
    GrantAdds(c, st, i, n, n);
    var b, st' := st.areas[i].start, Grant(st, i, n);
    Settle(c, mem, mem', head, head', st, st', b);
    NotMine(c, st, st', b);
    forall x | LiveCovers(st.live, x) ensures LiveCovers(st'.live, x) && x != b {
      FewerBlocksCover(st'.live, st.live, x);
    }
  }

  /** The base of a new block lies in no old block. */
  lemma NotMine(c: Site, st: State, st': State, b: int)
    requires Inv(c, st') && b in st'.live && b !in st.live
    requires forall d :: d in st.live ==> d in st'.live && st'.live[d] == st.live[d]
    ensures !LiveCovers(st.live, b)
  {
  }

  lemma ReleaseSettles(c: Site, mem: Memory, mem': Memory, head: int, head': int, st: State, b: int)
    requires Holds(c, mem, head, st) && b in st.live
    requires Represents(mem', head', Insert(st.areas, b, st.live[b]))
    requires SameOutside(mem, mem', Insert(st.areas, b, st.live[b]))
    ensures Holds(c, mem', head', Release(st, b)) && Untouched(mem, mem', Release(st, b).live)
  {
    hide Represents, Insert, Covers, Inv, MemoryOf, Headers, SameOutside, LiveCovers;
    ReleaseKeeps(c, st, b);
    SettleFree(c, mem, mem', head, head', st, Release(st, b));
  }

  /** A block resized in place keeps all words but its header. */
  lemma ResizeSettles(c: Site, mem: Memory, mem': Memory, head: int, head': int, st: State, st': State, b: int)
    requires Holds(c, mem, head, st) && b in st.live
    requires Inv(c, st') && Roomy(st'.live) && st'.mapped == st.mapped
    requires b in st'.live && st'.live == st.live[b := st'.live[b]]
    requires Represents(mem', head', st'.areas) && SameOutside(mem, mem', st'.areas)
    ensures b in mem' && Holds(c, mem'[b := st'.live[b]], head', st')
    ensures Untouched(mem, mem'[b := st'.live[b]], st.live - {b})
    ensures KeepsUserWords(mem, mem'[b := st'.live[b]], b, b, Min(st.live[b], st'.live[b]))
  {
    hide Represents, Covers, Inv, Roomy, MemoryOf, Headers, Granular;
    Settle(c, mem, mem', head, head', st, st', b);
    var rest := st.live - {b};
    forall x | LiveCovers(rest, x) ensures LiveCovers(st'.live, x) && x != b {
      FewerBlocksCover(st'.live, rest, x);
      BaseNotInRest(c, st, b);
    }
    forall k | HEADER <= k < Min(st.live[b], st'.live[b]) && Granular(k) && b + k in mem
      ensures mem'[b := st'.live[b]][b + k] == mem[b + k]
    {
      assert LiveCovers(st'.live, b + k);
    }
  }

  lemma BaseNotInRest(c: Site, st: State, b: int)
    requires Inv(c, st) && b in st.live
    ensures !LiveCovers(st.live - {b}, b)
  {
    LiveRemove(st.live, b, b);
  }

  /** The words behind the header at d are those that were behind the header at
      b, up to a total block size of n. */
  ghost predicate KeepsUserWords(mem: Memory, mem': Memory, b: int, d: int, n: int) {
    forall k :: HEADER <= k < n && Granular(k) && b + k in mem ==> d + k in mem' && mem'[d + k] == mem[b + k]
  }

  lemma ExtendSettles(c: Site, mem: Memory, mem': Memory, head: int, head': int, st: State, m: int, len: int)
    requires Holds(c, mem, head, st) && m != -1 && c.page > 0 && MmapAnswer(c, st.mapped, len, m)
    requires var grown := mem + ZeroWords(m, len);
      Represents(mem', head', Insert(st.areas, m, len)) && SameOutside(grown, mem', Insert(st.areas, m, len))
    ensures Holds(c, mem', head', Extend(st, m, len)) && Untouched(mem, mem', st.live)
  {
    hide Represents, Insert, Covers, Roomy, LiveCovers, WellFormed, PageGranular, MmapAnswer, Granular;
    ExtendKeeps(c, st, m, len);
    var st', grown := Extend(st, m, len), mem + ZeroWords(m, len);
    assert MemoryOf(c, mem', st'.mapped);
    forall x | x in mem && LiveCovers(st.live, x) ensures x in mem' && mem'[x] == mem[x] {
      assert x in grown;
      FreshElsewhere(c, st, m, len, x);
    }
    forall b | b in st.live ensures b in mem' && mem'[b] == st.live[b] { OwnBase(st.live, b); }
  }

  lemma FreshElsewhere(c: Site, st: State, m: int, len: int, x: int)
    requires Inv(c, st) && m != -1 && c.page > 0 && MmapAnswer(c, st.mapped, len, m) && LiveCovers(st.live, x)
    ensures !(m <= x < m + len)
  {
  }

  /** The zero-filled words of a new mapping. */
  function ZeroWords(m: int, len: int): (z: Memory)
    ensures forall x :: x in z <==> m <= x < m + len && Granular(x)
  {
    map x | m <= x < m + len && Granular(x) :: 0
  }

  /** The memory that is left after [lo, hi) was unmapped. */
  function WithoutRange(mem: Memory, lo: int, hi: int): (rest: Memory)
    ensures forall x :: x in rest <==> x in mem && !(lo <= x < hi)
    ensures forall x :: x in rest ==> rest[x] == mem[x]
  {
    map x | x in mem && !(lo <= x < hi) :: mem[x]
  }

  lemma UnmapSettles(c: Site, mem: Memory, mem': Memory, head: int, head': int, st: State, st': State, us: int, ue: int)
    requires Holds(c, mem, head, st) && Inv(c, st') && st'.live == st.live
    requires forall x :: Covers(st'.areas, x) <==> Covers(st.areas, x) && !(us <= x < ue)
    requires forall x :: us <= x < ue ==> Covers(st.areas, x)
    requires Represents(mem', head', st'.areas) && SameOutside(mem, mem', st.areas)
    ensures Holds(c, WithoutRange(mem', us, ue), head', st') && Untouched(mem, WithoutRange(mem', us, ue), st.live)
  {
    hide Represents, Covers, Roomy, LiveCovers, WellFormed, PageGranular, Granular, WithoutRange, Owned;
    var mem2 := WithoutRange(mem', us, ue);
    RepresentsFrame(mem', mem2, head', st'.areas);
    forall x ensures Owned(c, st'.mapped, x) <==> Owned(c, st.mapped, x) && !(us <= x < ue) {
      assert Owned(c, st.mapped, x) <==> Covers(st.areas, x) || LiveCovers(st.live, x);
      assert Covers(st.areas, x) ==> !LiveCovers(st.live, x);
    }
    forall b | b in st.live ensures LiveCovers(st.live, b) { OwnBase(st.live, b); }
    forall x | x in mem && LiveCovers(st.live, x) ensures x in mem2 && mem2[x] == mem[x] {
      assert !Covers(st.areas, x);
    }
  }

  lemma GiveBackSettles(c: Site, mem: Memory, mem': Memory, head: int, head': int, st: State, k: int)
    requires Holds(c, mem, head, st) && 0 <= k < |st.areas| && c.page > 0 && 8 * c.page <= st.areas[k].size
    requires Represents(mem', head', GiveBack(c, st, k, 0).areas) && SameOutside(mem, mem', st.areas)
    ensures var us, ue := UnmapStart(c.page, st.areas[k].start), UnmapEnd(c.page, st.areas[k].End());
      var mem2 := WithoutRange(mem', us, ue);
      us < ue && Holds(c, mem2, head', GiveBack(c, st, k, 0)) && Untouched(mem, mem2, st.live)
  {
    hide Represents, Covers, Roomy, LiveCovers, WellFormed, Inv, Granular, InsertIf, UnmapStart, UnmapEnd,
         WithoutRange, Without, SameOutside, MemoryOf, Headers, Untouched;
    GiveBackKeeps(c, st, k, 0);
    var us, ue := UnmapStart(c.page, st.areas[k].start), UnmapEnd(c.page, st.areas[k].End());
    UnmappedIsFree(c, st, k);
    UnmapSettles(c, mem, mem', head, head', st, GiveBack(c, st, k, 0), us, ue);
  }

  lemma UnmappedIsFree(c: Site, st: State, k: int)
    requires Inv(c, st) && 0 <= k < |st.areas| && c.page > 0 && 8 * c.page <= st.areas[k].size
    ensures forall x :: UnmapStart(c.page, st.areas[k].start) <= x < UnmapEnd(c.page, st.areas[k].End()) ==>
      Covers(st.areas, x)
  {
    hide Covers, UnmapStart, UnmapEnd, Granular;
    AreaInList(st.areas, k);
    GiveBackAligned(c, st.areas[k], 0);
  }

  lemma LiveInMemory(c: Site, mem: Memory, st: State, b: int)
    requires Inv(c, st) && MemoryOf(c, mem, st.mapped) && b in st.live
    ensures InMemory(mem, b, st.live[b])
  {
    forall x | b <= x < b + st.live[b] && Granular(x) ensures x in mem {
      assert LiveCovers(st.live, x);
    }
  }

  class Allocator {
    const site: Site
    const heap: Heap
    ghost var live: map<int, int>
    ghost var mapped: set<int>

    ghost function Owners(): State
      reads this, heap
    {
      State(heap.areas, live, mapped)
    }

    ghost predicate Valid()
      reads this, heap
    {
      Holds(site, heap.mem, heap.head, Owners())
    }

    /** malloc_init: the heap is the static area with its initialised descriptor. */
    constructor (c: Site, contents: Memory)
      requires ValidSite(c)
      requires forall x :: x in contents <==> Granular(x) && Static(c, x)
      requires var d := c.base + STATIC_SIZE - DESCRIPTOR;
        HasNode(contents, d) && contents[d] == STATIC_SIZE && contents[d + NEXT] == 0 && contents[d + PREV] == 0
      ensures site == c && Valid() && Owners() == Init(c) && fresh(heap)
    {
      InitRepresented(c, contents);
      site := c;
      heap := new Heap(contents, c.base + STATIC_SIZE - DESCRIPTOR, [Area(c.base, STATIC_SIZE)]);
      live, mapped := map[], {};
    }

    /** __heap_alloc followed by MALLOC_SETUP of the block it found. */
    method TakeBlock(total: int) returns (start: int)
      requires Valid() && 0 < total <= WORD_LIMIT - HEADER
      modifies this, heap
      ensures Valid() && Untouched(old(heap.mem), heap.mem, old(live))
      ensures var n := RequestSize(total);
        var i := FirstFit(old(heap.areas), n);
        if i < |old(heap.areas)| then
          start == old(heap.areas)[i].start > 0 && Owners() == Grant(old(Owners()), i, n)
        else start == 0 && Owners() == old(Owners())
    {
      hide Represents, Inv, Roomy, MemoryOf, Headers, RequestSize, Take, TakenSize, Untouched;
      ghost var st := Owners();
      RequestSizeBounds(total);
      var taken: int;
      start, taken := heap.HeapAlloc(total);
      ghost var n := RequestSize(total);
      ghost var i := FirstFit(st.areas, n);
      if i < |st.areas| {
        GrantSettles(site, old(heap.mem), heap.mem, old(heap.head), heap.head, st, i, n);
      } else {
        SettleFree(site, old(heap.mem), heap.mem, old(heap.head), heap.head, st, st);
      }
      if start != 0 {
        heap.mem := heap.mem[start := taken];
        live := live[start := taken];
      }
    }

    /** mmap delivered a block, which joins the heap. */
    method ExtendHeap(block: int, len: int)
      requires Valid() && site.page > 0 && block != -1 && MmapAnswer(site, mapped, len, block)
      modifies this, heap
      ensures Valid() && Untouched(old(heap.mem), heap.mem, old(live))
      ensures Owners() == Extend(old(Owners()), block, len)
    {
      hide Represents, Inv, Roomy, MemoryOf, Headers, Untouched, MmapAnswer, Insert, Insertable, ZeroWords;
      ghost var st := Owners();
      ExtendKeeps(site, st, block, len);
      heap.mem := heap.mem + ZeroWords(block, len);
      RepresentsGrown(site, old(heap.mem), heap.mem, heap.head, st, block, len);
      var fa := heap.HeapFree(block, len);
      mapped := mapped + Range(block, block + len);
      ExtendSettles(site, old(heap.mem), heap.mem, old(heap.head), heap.head, st, block, len);
    }

    /** malloc: the request, its guard, and the extension of the heap. `answer`
        is what mmap returns if it is called. */
    method Malloc(size: int, answer: int) returns (ptr: int)
      requires Valid() && site.page > 0 && 0 <= size < WORD_LIMIT
      requires MmapAnswer(site, mapped, BlockLength(site.page, size + HEADER), answer)
      modifies this, heap
      ensures Valid() && Untouched(old(heap.mem), heap.mem, old(live))
      ensures Outcome(Owners(), ptr) == MallocOp(site, old(Owners()), size, answer)
    {
      hide Holds, MmapAnswer, RequestSize, Grant, Wrap, RoundDown, LiveCovers;
      if size == 0 {
        return 0;
      }
      if size > MAX_REQUEST {
        return 0;
      }
      var total := size + HEADER;
      ghost var st := Owners();
      var start := TakeBlock(total);
      if start == 0 {
        var blockSize := if total < site.page then site.page else RoundDown(Wrap(total + (site.page - 1)), site.page);
        var block := answer;
        if block != -1 {
          ExtendHeap(block, blockSize);
          start := TakeBlock(total);
        }
      }
      if start != 0 {
        ptr := start + HEADER;
      } else {
        ptr := 0;
      }
    }

    /** The part of __free_to_heap that returns a large area to the system. The
        reserve branch is not entered: __heap_is_empty is applied to the address
        of the list head there, which is never null. */
    method GiveBackArea(fa: int, ghost k: int)
      requires Valid() && site.page > 0
      requires 0 <= k < |heap.areas| && fa == Desc(heap.areas[k]) && 8 * site.page <= heap.areas[k].size
      modifies this, heap
      ensures Valid() && Untouched(old(heap.mem), heap.mem, old(live))
      ensures Owners() == GiveBack(site, old(Owners()), k, 0)
    {
      hide Represents, Inv, Roomy, MemoryOf, Headers, Untouched, Insert, Insertable, Without, Covers, WellFormed,
           LiveCovers, Granular, Fits, LinksAt, Descs, WithoutRange, Range, Link;
      ghost var st, before := Owners(), heap.mem;
      StagesInMemory(site, heap.mem, heap.head, st, k);
      NodeAt(heap.mem, heap.head, heap.areas, k);
      var start, end := fa + DESCRIPTOR - heap.mem[fa], fa + DESCRIPTOR;
      heap.RemoveArea(fa, k);
      SameOutsideWidens(before, heap.mem, Without(st.areas, k), st.areas);
      hide SameOutside;
      var unmapStart, unmapEnd := ReturnEnds(start, end, st.areas, before);
      GiveBackSettles(site, before, heap.mem, old(heap.head), heap.head, st, k);
      if unmapEnd > unmapStart {
        heap.mem := WithoutRange(heap.mem, unmapStart, unmapEnd);
        mapped := mapped - Range(unmapStart, unmapEnd);
      }
    }

    /** Page-align the range to unmap and put the left-over ends back into the heap. */
    method ReturnEnds(start: int, end: int, ghost all: seq<Area>, ghost before: Memory)
      returns (unmapStart: int, unmapEnd: int)
      requires heap.Valid() && site.page > 0 && SameOutside(before, heap.mem, all)
      requires var us, ue := UnmapStart(site.page, start), UnmapEnd(site.page, end);
        var s1 := InsertIf(heap.areas, start, us);
        && (start < us ==> Insertable(heap.areas, start, us - start) && InMemory(heap.mem, start, us - start))
        && (ue < end ==> Insertable(s1, ue, end - ue) && InMemory(heap.mem, ue, end - ue))
        && (forall x :: Covers(s1, x) ==> Covers(all, x))
        && (forall x :: Covers(InsertIf(s1, ue, end), x) ==> Covers(all, x))
      modifies heap
      ensures heap.Valid() && SameOutside(before, heap.mem, all)
      ensures unmapStart == UnmapStart(site.page, start) && unmapEnd == UnmapEnd(site.page, end)
      ensures heap.areas == InsertIf(InsertIf(old(heap.areas), start, unmapStart), unmapEnd, end)
    {
      hide Represents, Insert, Insertable, Covers, Granular, RoundUp, RoundDown;
      RoundingBounds(start, site.page);
      RoundingBounds(end, site.page);
      unmapStart := RoundUp(start, site.page);
      unmapEnd := RoundDown(end, site.page);
      if unmapStart > start {
        if unmapStart - start < MIN_FREE_AREA {
          unmapStart := unmapStart + site.page;
        }
        ReturnEnd(start, unmapStart, all, before);
      }
      if end > unmapEnd {
        if end - unmapEnd < MIN_FREE_AREA {
          unmapEnd := unmapEnd - site.page;
        }
        ReturnEnd(unmapEnd, end, all, before);
      }
    }

    /** Put one end of an area that is being unmapped back into the heap. */
    method ReturnEnd(lo: int, hi: int, ghost all: seq<Area>, ghost before: Memory)
      requires heap.Valid() && lo < hi && Insertable(heap.areas, lo, hi - lo) && InMemory(heap.mem, lo, hi - lo)
      requires SameOutside(before, heap.mem, all)
      requires forall x :: Covers(InsertIf(heap.areas, lo, hi), x) ==> Covers(all, x)
      modifies heap
      ensures heap.Valid() && heap.areas == InsertIf(old(heap.areas), lo, hi)
      ensures SameOutside(before, heap.mem, all)
    {
      hide Represents, Insertable, Insert, Covers;
      var fa := heap.HeapFree(lo, hi - lo);
      SameOutsideChain(before, old(heap.mem), heap.mem, heap.areas, all);
    }

    /** free. */
    method Free(ptr: int)
      requires Valid() && site.page > 0 && (ptr == 0 || ptr - HEADER in live)
      modifies this, heap
      ensures Valid() && Owners() == FreeOp(site, old(Owners()), ptr)
      ensures live == old(live) - (if ptr == 0 then {} else {ptr - HEADER})
      ensures Untouched(old(heap.mem), heap.mem, live)
    {
      hide Represents, Inv, Roomy, MemoryOf, Insert, Insertable, InMemory, GiveBack, Release, LiveCovers;
      if ptr == 0 {
        return;
      }
      ghost var st := Owners();
      var base := ptr - HEADER;
      var size := heap.mem[base];
      BlockReturnable(site, heap.mem, heap.head, st, base);
      var fa := heap.HeapFree(base, size);
      ghost var k := Position(st.areas, base);
      ReleaseSettles(site, old(heap.mem), heap.mem, old(heap.head), heap.head, st, base);
      ReleaseFields(st, base);
      live := live - {base};
      hide Headers;
      NodeAt(heap.mem, heap.head, heap.areas, k);
      if heap.mem[fa] >= 8 * site.page {
        ghost var between := heap.mem;
        GiveBackFields(site, Owners(), k);
        GiveBackArea(fa, k);
        UntouchedChain(old(heap.mem), between, heap.mem, live);
      }
    }

    /** A store by the client into a block it holds. */
    method Store(addr: int, value: int, ghost b: int)
      requires Valid() && b in live && b + HEADER <= addr < b + live[b] && Granular(addr)
      modifies heap
      ensures Valid() && Owners() == old(Owners())
      ensures addr in old(heap.mem) && heap.mem == old(heap.mem)[addr := value]
    {
      hide Represents, Inv, Roomy, MemoryOf, Headers;
      UserWord(site, heap.mem, Owners(), b, addr);
      heap.mem := heap.mem[addr := value];
      UserWrites(site, old(heap.mem), heap.mem, heap.head, Owners(), b);
    }

    /** memcpy of n bytes between user areas, by words. */
    method Copy(dst: int, src: int, n: int, ghost b: int, ghost d: int)
      requires Valid() && b in live && d in live && b != d && src == b + HEADER && dst == d + HEADER
      requires 0 <= n && HEADER + n <= live[b] && HEADER + n <= live[d] && Granular(n)
      modifies heap
      ensures Valid() && Owners() == old(Owners())
      ensures Untouched(old(heap.mem), heap.mem, live - {d})
      ensures KeepsUserWords(old(heap.mem), heap.mem, b, d, HEADER + n)
    {
      hide Represents, Inv, Roomy, MemoryOf, Headers, LiveCovers, Granular, Untouched, KeepsUserWords;
      ghost var st := Owners();
      var k := 0;
      GranularZero();
      while k < n
        invariant 0 <= k <= n && Granular(k)
        invariant Valid() && Owners() == st
        invariant Copied(old(heap.mem), heap.mem, b, d, k)
      {
        CopyStep(site, heap.mem, heap.head, st, b, d, k);
        ghost var before := heap.mem;
        Store(dst + k, heap.mem[src + k], d);
        CopiedMore(old(heap.mem), before, heap.mem, b, d, k, n, st.live[d]);
        k := k + GRANULARITY;
      }
      CopyDone(site, old(heap.mem), heap.mem, heap.head, st, b, d, n);
    }

    /** realloc: grow in place, move, or shrink. */
    method Realloc(ptr: int, size: int, answer: int) returns (r: int)
      requires Valid() && site.page > 0 && 0 <= size < WORD_LIMIT && (ptr == 0 || ptr - HEADER in live)
      requires MmapAnswer(site, mapped, ReallocLength(site, ptr, size), answer)
      modifies this, heap
      ensures Valid() && Outcome(Owners(), r) == ReallocOp(site, old(Owners()), ptr, size, answer)
      ensures Untouched(old(heap.mem), heap.mem, old(live) - {ptr - HEADER})
      ensures r == 0 && ptr != 0 && size > 0 ==> Untouched(old(heap.mem), heap.mem, old(live))
      ensures r != 0 && ptr != 0 ==>
        && r - HEADER in live
        && KeepsUserWords(old(heap.mem), heap.mem, ptr - HEADER, r - HEADER,
          Min(old(live)[ptr - HEADER], live[r - HEADER]))
    {
      hide Holds, MallocOp, FreeOp, RequestSize, BlockLength, MmapAnswer, Grow, Shrink, LiveCovers, CanGrow,
           KeepsUserWords, AdjustSize, Granular;
      ghost var st := Owners();
      if size == 0 {
        Free(ptr);
        UntouchedFewer(old(heap.mem), heap.mem, live, st.live - {ptr - HEADER});
        return 0;
      }
      if ptr == 0 {
        r := Malloc(size, answer);
        UntouchedFewer(old(heap.mem), heap.mem, st.live, st.live - {ptr - HEADER});
        return;
      }
      if size > MAX_REQUEST {
        return 0;
      }
      r := Resize(ptr, size, answer);
    }

    /** The first try of a growing realloc: take the start of the area behind the block. */
    method GrowInPlace(base: int, oldSize: int, n: int, ghost size: int) returns (grown: bool)
      requires Valid() && base in live && oldSize == live[base] && n > oldSize && size + HEADER <= n
        && base + HEADER != 0
      modifies this, heap
      ensures Valid() && grown == CanGrow(old(Owners()), base, n)
      ensures if grown then Owners() == Grow(old(Owners()), base, AdjustSize(n - oldSize)) && base in live
              else Owners() == old(Owners()) && heap.mem == old(heap.mem)
      ensures grown ==> Untouched(old(heap.mem), heap.mem, old(live) - {base})
      ensures grown ==> KeepsUserWords(old(heap.mem), heap.mem, base, base, Min(oldSize, live[base]))
    {
      hide Inv, Roomy, Represents, MemoryOf, Headers, LiveCovers, KeepsUserWords, AdjustSize, Granular, Untouched,
           Take, TakenSize;
      ghost var st := Owners();
      var extra := heap.HeapAllocAt(base + oldSize, n - oldSize);
      grown := extra != 0;
      if grown {
        GrowSettles(site, old(heap.mem), heap.mem, old(heap.head), heap.head, st, base, n, size);
        heap.mem := heap.mem[base := oldSize + extra];
        live := live[base := oldSize + extra];
      }
    }

    /** The last resort of a growing realloc: allocate, copy, free. */
    method Move(ptr: int, oldSize: int, n: int, ghost size: int, answer: int) returns (r: int)
      requires Valid() && site.page > 0 && ptr - HEADER in live && oldSize == live[ptr - HEADER] && ptr != 0
      requires size + HEADER <= n && oldSize < n <= WORD_LIMIT - HEADER && DESCRIPTOR <= n
      requires MmapAnswer(site, mapped, BlockLength(site.page, n), answer)
      modifies this, heap
      ensures Valid()
      ensures var m := MallocOp(site, old(Owners()), n - HEADER, answer);
        && r == m.ptr
        && (if r == 0 then Owners() == m.state
            else ptr - HEADER in m.state.live && Owners() == FreeOp(site, m.state, ptr))
      ensures Untouched(old(heap.mem), heap.mem, old(live) - {ptr - HEADER})
      ensures r == 0 ==> Untouched(old(heap.mem), heap.mem, old(live))
      ensures r != 0 ==>
        && r - HEADER in live
        && KeepsUserWords(old(heap.mem), heap.mem, ptr - HEADER, r - HEADER, Min(oldSize, live[r - HEADER]))
    {
      hide Represents, MallocOp, FreeOp, BlockLength, MmapAnswer, MemoryOf, Headers, Roomy, LiveCovers,
           KeepsUserWords, Granular, Untouched, Inv, RequestSize;
      ghost var st, b := Owners(), ptr - HEADER;
      MallocKeeps(site, st, n - HEADER, answer);
      r := Malloc(n - HEADER, answer);
      ghost var d, mem1 := r - HEADER, heap.mem;
      UntouchedFewer(old(heap.mem), mem1, st.live, st.live - {b});
      if r != 0 {
        OldSizeGranular(site, st, b);
        Copy(r, ptr, oldSize - HEADER, b, d);
        ghost var mem2 := heap.mem;
        MovedLive(st.live, live, b, d);
        UntouchedFewer(mem1, mem2, live - {d}, st.live - {b});
        Free(ptr);
        MoveSettles(old(heap.mem), mem1, mem2, heap.mem, st.live, live, b, d);
      }
    }

    /** Free the end of a block that became smaller. */
    method ShrinkInPlace(base: int, oldSize: int, n: int, ghost size: int)
      requires Valid() && base in live && oldSize == live[base] && size + HEADER <= n && base + HEADER != 0
      requires DESCRIPTOR <= n && n + REALLOC_MIN_FREE <= oldSize && Granular(n)
      modifies this, heap
      ensures Valid() && Owners() == Shrink(old(Owners()), base, n) && base in live
      ensures Untouched(old(heap.mem), heap.mem, old(live) - {base})
      ensures KeepsUserWords(old(heap.mem), heap.mem, base, base, Min(oldSize, live[base]))
    {
      hide Inv, Roomy, Represents, MemoryOf, Headers, LiveCovers, KeepsUserWords, Granular, Untouched, Insert,
           Insertable, InMemory;
      ghost var st := Owners();
      TailReturnable(site, heap.mem, heap.head, st, base, n);
      var fa := heap.HeapFree(base + n, oldSize - n);
      ShrinkSettles(site, old(heap.mem), heap.mem, old(heap.head), heap.head, st, base, n, size);
      heap.mem := heap.mem[base := n];
      live := live[base := n];
    }

    /** realloc of an existing block. */
    method Resize(ptr: int, size: int, answer: int) returns (r: int)
      requires Valid() && site.page > 0 && 0 < size <= MAX_REQUEST && ptr != 0 && ptr - HEADER in live
      requires MmapAnswer(site, mapped, BlockLength(site.page, RequestSize(size + HEADER)), answer)
      modifies this, heap
      ensures Valid() && Outcome(Owners(), r) == ReallocOp(site, old(Owners()), ptr, size, answer)
      ensures Untouched(old(heap.mem), heap.mem, old(live) - {ptr - HEADER})
      ensures r == 0 ==> Untouched(old(heap.mem), heap.mem, old(live))
      ensures r != 0 ==>
        && r - HEADER in live
        && KeepsUserWords(old(heap.mem), heap.mem, ptr - HEADER, r - HEADER,
          Min(old(live)[ptr - HEADER], live[r - HEADER]))
    {
      hide Inv, Roomy, Represents, MemoryOf, MallocOp, FreeOp, BlockLength, MmapAnswer, Grow, Shrink, LiveCovers,
           CanGrow, KeepsUserWords, AdjustSize, Granular, Untouched;
      var base := ptr - HEADER;
      var oldSize := heap.mem[base];
      hide Headers;
      var n := AdjustSize(size + HEADER);
      if n < DESCRIPTOR {
        n := AdjustSize(DESCRIPTOR);
      }
      DescriptorAdjusted();
      RequestSizeBounds(size + HEADER);
      hide RequestSize;
      if n > oldSize {
        var grown := GrowInPlace(base, oldSize, n, size);
        if grown {
          r := ptr;
        } else {
          r := Move(ptr, oldSize, n, size, answer);
        }
      } else if n + REALLOC_MIN_FREE <= oldSize {
        ShrinkInPlace(base, oldSize, n, size);
        r := ptr;
      } else {
        r := ptr;
        StaysPut(heap.mem, live, base);
      }
    }

    /** memalign: over-allocate, then cut out an aligned block. */
    method Memalign(alignment: int, size: int, answer: int) returns (r: int)
      requires Valid() && site.page > 0 && alignment > 0 && PowerOfTwo(alignment) && 0 <= size
      requires AdjustSize(size) + 2 * alignment < WORD_LIMIT
      requires MmapAnswer(site, mapped, BlockLength(site.page, AdjustSize(size) + 2 * alignment + HEADER), answer)
      modifies this, heap
      ensures Sound(site, heap.mem, heap.head, Owners())
      ensures Outcome(Owners(), r) == MemalignOp(site, old(Owners()), alignment, size, answer)
      ensures Untouched(old(heap.mem), heap.mem, old(live))
      ensures alignment < GRANULARITY || GRANULARITY < size ==> Valid()
    {
      hide Represents, Inv, Roomy, MemoryOf, Headers, Untouched, MallocOp, BlockLength, MmapAnswer, AdjustSize,
           PowerOfTwo, Carve, LiveCovers, CarvePieces, CarveAddr, CarveEnd, CutFront, CutBack, Granular,
           RequestSize;
      ghost var st := Owners();
      AdjustSizeBounds(size);
      MemalignKeeps(site, st, alignment, size, answer);
      OverAllocation(site, st, alignment, size, answer);
      var m := Malloc(AdjustSize(size) + 2 * alignment, answer);
      if m == 0 {
        return 0;
      }
      if alignment < GRANULARITY {
        return m;
      }
      ghost var between := heap.mem;
      ghost var mid := Outcome(Owners(), m);
      FreshBlockRest(st.live, live, m - HEADER);
      CarvePlan(site, heap.mem, heap.head, Owners(), m, alignment, AdjustSize(size));
      CarveFields(mid, alignment, AdjustSize(size));
      ghost var d := CarveAddr(m, alignment) - HEADER;
      ghost var e := CarveEnd(d + HEADER, AdjustSize(size), m - HEADER + live[m - HEADER]);
      r := CarveBlock(m, alignment, AdjustSize(size), m - HEADER, d, e);
      UntouchedFewer(between, heap.mem, mid.state.live - {m - HEADER}, st.live);
      UntouchedChain(old(heap.mem), between, heap.mem, st.live);
    }

    /** Find the aligned address and return what lies before its header. */
    method FreeFront(m: int, alignment: int, ghost b: int, ghost d: int) returns (addr: int)
      requires heap.Valid() && alignment > 0 && b == m - HEADER && b in live && d == CarveAddr(m, alignment) - HEADER
      requires d != b ==> Insertable(heap.areas, b, d - b) && InMemory(heap.mem, b, d - b)
      modifies heap
      ensures heap.Valid() && addr == d + HEADER
      ensures State(heap.areas, live, mapped).areas == CutFront(old(Owners()), b, d).areas
      ensures SameOutside(old(heap.mem), heap.mem, heap.areas)
    {
      hide Represents, RoundUp, Insert, Insertable, InMemory, Covers;
      RoundingBounds(m + MIN_SIZE, alignment);
      var base := m - HEADER;
      addr := RoundUp(m, alignment);
      if addr != m {
        var initSize := addr - m;
        if initSize < MIN_SIZE {
          addr := RoundUp(m + MIN_SIZE, alignment);
          initSize := addr - m;
        }
        var fa := heap.HeapFree(base, initSize);
      }
    }

    /** Return what lies behind the aligned block, if that is worth it. */
    method FreeBack(addr: int, n: int, totEnd: int, ghost st: State, ghost before: Memory, ghost b: int,
        ghost d: int, ghost e: int)
      returns (endAddr: int)
      requires heap.Valid() && b in st.live && addr == d + HEADER && totEnd == b + st.live[b]
        && e == CarveEnd(addr, n, totEnd)
      requires CarvePieces(before, st, b, d, e)
      requires heap.areas == CutFront(st, b, d).areas && SameOutside(before, heap.mem, heap.areas)
      modifies heap
      ensures heap.Valid() && endAddr == e && heap.areas == CutBack(CutFront(st, b, d), d, e).areas
      ensures SameOutside(before, heap.mem, heap.areas)
    {
      hide Represents, Insert, Insertable, InMemory, Covers, Granular, CutFront;
      endAddr := addr + n;
      if endAddr + REALLOC_MIN_FREE < totEnd {
        MemoryStays(before, heap.mem, heap.areas, endAddr, totEnd - endAddr);
        var fa := heap.HeapFree(endAddr, totEnd - endAddr);
        SameOutsideGrows(before, old(heap.mem), heap.mem, old(heap.areas), heap.areas);
      } else {
        endAddr := totEnd;
      }
    }

    /** Return what lies before and behind the aligned block to the heap. */
    method CarveBlock(m: int, alignment: int, n: int, ghost b: int, ghost d: int, ghost e: int) returns (r: int)
      requires Valid() && alignment > 0 && b == m - HEADER && b in live
      requires d == CarveAddr(m, alignment) - HEADER && e == CarveEnd(d + HEADER, n, b + live[b])
      requires CarvePieces(heap.mem, Owners(), b, d, e)
      modifies this, heap
      ensures Sound(site, heap.mem, heap.head, Owners())
      ensures Owners() == CutBack(CutFront(old(Owners()), b, d), d, e) && r == d + HEADER
      ensures Untouched(old(heap.mem), heap.mem, old(live) - {b})
    {
      hide Represents, Inv, Roomy, MemoryOf, Untouched, CarveAddr, CarveEnd, Insert, Insertable, InMemory,
           LiveCovers, Covers, Granular;
      ghost var st, before := Owners(), heap.mem;
      var base := m - HEADER;
      var totEnd := base + heap.mem[base];
      hide Headers;
      var addr := FreeFront(m, alignment, b, d);
      base := addr - HEADER;
      var endAddr := FreeBack(addr, n, totEnd, st, before, b, d, e);
      CarveSettles(site, before, heap.mem, old(heap.head), heap.head, st, b, d, e);
      heap.mem := heap.mem[base := endAddr - base];
      live := CutBack(CutFront(st, b, d), d, e).live;
      r := base + HEADER;
    }
  }

  lemma MemoryStays(mem: Memory, mem': Memory, s: seq<Area>, m: int, n: int)
    requires SameOutside(mem, mem', s) && InMemory(mem, m, n)
    ensures InMemory(mem', m, n)
  {
  }

  lemma CarveFields(r: Outcome, alignment: int, n: int)
    requires alignment > 0 && r.ptr - HEADER in r.state.live
    ensures var b, d := r.ptr - HEADER, CarveAddr(r.ptr, alignment) - HEADER;
      var e := CarveEnd(d + HEADER, n, b + r.state.live[b]);
      Carve(r, alignment, n) == Outcome(CutBack(CutFront(r.state, b, d), d, e), d + HEADER)
  {
    hide CutFront, CutBack, CarveAddr, CarveEnd;
  }

  lemma FreshBlockRest(live: map<int, int>, live': map<int, int>, b: int)
    requires b !in live && b in live' && live' == live[b := live'[b]]
    ensures forall d :: d in live ==> d in live' - {b} && (live' - {b})[d] == live[d]
  {
  }

  lemma SameOutsideGrows(mem: Memory, mem1: Memory, mem2: Memory, s: seq<Area>, t: seq<Area>)
    requires SameOutside(mem, mem1, s) && SameOutside(mem1, mem2, t) && forall x :: Covers(s, x) ==> Covers(t, x)
    ensures SameOutside(mem, mem2, t)
  {
  }

  /** The pieces memalign returns are insertable memory, one after the other. */
  lemma CarvePlan(c: Site, mem: Memory, head: int, st: State, m: int, alignment: int, n: int)
    requires Holds(c, mem, head, st) && alignment > 0 && PowerOfTwo(alignment) && GRANULARITY <= alignment
    requires Granular(n) && 0 <= n
    requires m - HEADER in st.live && m + n + 2 * alignment <= m - HEADER + st.live[m - HEADER]
    ensures var b, addr := m - HEADER, CarveAddr(m, alignment);
      var end := b + st.live[b];
      var e := CarveEnd(addr, n, end);
      && CarvePieces(mem, st, b, addr - HEADER, e)
      && b <= addr - HEADER && addr + n <= e <= end
  {
    hide Represents, Inv, Roomy, MemoryOf, Headers, PowerOfTwo, CarveAddr, Granular, CutFront, CutBack;
    var b, addr := m - HEADER, CarveAddr(m, alignment);
    var end := b + st.live[b];
    var e := CarveEnd(addr, n, end);
    BlockAligned(c, st, b);
    GranularAdd(b, st.live[b]);
    GranularAdd(b, b);
    CarveFits(m, end, alignment, n);
    GranularAdd(addr, addr);
    CarvePiecesFit(c, mem, head, st, b, addr - HEADER, e);
  }

  ghost predicate CarvePieces(mem: Memory, st: State, b: int, d: int, e: int)
    requires b in st.live
  {
    var end := b + st.live[b];
    && Granular(d) && Granular(e)
    && (d == b || b + DESCRIPTOR <= d) && d + HEADER <= e <= end && (e == end || e + DESCRIPTOR <= end)
    && (d != b ==> Insertable(st.areas, b, d - b) && InMemory(mem, b, d - b))
    && (e != end ==> Insertable(CutFront(st, b, d).areas, e, end - e) && InMemory(mem, e, end - e))
    && (forall x :: Covers(CutFront(st, b, d).areas, x) ==> Covers(CutBack(CutFront(st, b, d), d, e).areas, x))
  }

  lemma CarvePiecesFit(c: Site, mem: Memory, head: int, st: State, b: int, d: int, e: int)
    requires Holds(c, mem, head, st) && b in st.live && Granular(d) && Granular(e)
    requires d == b || b + DESCRIPTOR <= d
    requires d + HEADER <= e <= b + st.live[b] && (e == b + st.live[b] || e + DESCRIPTOR <= b + st.live[b])
    ensures CarvePieces(mem, st, b, d, e)
  {
    hide Represents, Inv, Roomy, Headers, Granular, Insert, Insertable, Covers, MemoryOf;
    LiveInMemory(c, mem, st, b);
    CutFrontKeeps(c, st, b, d);
    var mid, end := CutFront(st, b, d), b + st.live[b];
    GranularAdd(e, d);
    if e != end {
      ShrinkKeeps(c, mid, d, e - d);
      InsertCovers(c, mid, e, end - e);
    }
  }

  lemma InsertCovers(c: Site, st: State, m: int, n: int)
    requires Inv(c, st) && Insertable(st.areas, m, n)
    ensures forall x :: Covers(st.areas, x) ==> Covers(Insert(st.areas, m, n), x)
  {
    hide Insert, Covers, WellFormed;
    InsertIsUnion(st.areas, m, n);
  }

  lemma CarveSettles(c: Site, mem: Memory, mem': Memory, head: int, head': int, st: State, b: int, d: int, e: int)
    requires Holds(c, mem, head, st) && b in st.live && CarvePieces(mem, st, b, d, e)
    requires var s := CutBack(CutFront(st, b, d), d, e).areas;
      Represents(mem', head', s) && SameOutside(mem, mem', s)
    ensures var st' := CutBack(CutFront(st, b, d), d, e);
      && d in mem' && d in st'.live && st'.live[d] == e - d && st'.mapped == st.mapped
      && Sound(c, mem'[d := e - d], head', st')
      && Untouched(mem, mem'[d := e - d], st.live - {b})
  {
    hide Represents, Inv, Roomy, MemoryOf, Headers, SameOutside, Granular, Insert, Insertable, Covers, LiveCovers,
         InMemory;
    var st', rest := CutBack(CutFront(st, b, d), d, e), st.live - {b};
    CarvedBlock(c, st, b, d, e);
    Settle(c, mem, mem', head, head', st, st', d);
    forall x | x in mem && LiveCovers(rest, x) ensures x in mem' && mem'[d := e - d][x] == mem[x] {
      FewerBlocksCover(st'.live, rest, x);
      RestApart(c, st, b, x);
      KeysKept(mem, mem', st'.areas);
    }
  }

  lemma KeysKept(mem: Memory, mem': Memory, s: seq<Area>)
    requires SameOutside(mem, mem', s)
    ensures mem.Keys == mem'.Keys
  {
  }

  lemma RestApart(c: Site, st: State, b: int, x: int)
    requires Inv(c, st) && b in st.live && LiveCovers(st.live - {b}, x)
    ensures !(b <= x < b + st.live[b])
  {
    LiveRemove(st.live, b, x);
  }

  lemma CarvedBlock(c: Site, st: State, b: int, d: int, e: int)
    requires Inv(c, st) && b in st.live && Granular(d) && Granular(e)
    requires d == b || b + DESCRIPTOR <= d
    requires d + HEADER <= e <= b + st.live[b] && (e == b + st.live[b] || e + DESCRIPTOR <= b + st.live[b])
    ensures var st' := CutBack(CutFront(st, b, d), d, e);
      && Inv(c, st') && st'.mapped == st.mapped
      && d in st'.live && st'.live[d] == e - d && st'.live == (st.live - {b})[d := e - d]
      && (d == b || d !in st.live)
  {
    hide Inv, Granular, Insert, Insertable;
    CutFrontKeeps(c, st, b, d);
    GranularAdd(e, d);
    var mid := CutFront(st, b, d);
    if e != b + st.live[b] { ShrinkKeeps(c, mid, d, e - d); }
    assert CutBack(mid, d, e).live == (st.live - {b})[d := e - d];
  }

  lemma GrowSettles(c: Site, mem: Memory, mem': Memory, head: int, head': int, st: State, b: int, n: int, size: int)
    requires Holds(c, mem, head, st) && b in st.live && n > st.live[b] && size + HEADER <= n
      && CanGrow(st, b, n) && b + HEADER != 0
    requires var extra := AdjustSize(n - st.live[b]);
      Represents(mem', head', Take(st.areas, 0, extra)) && SameOutside(mem, mem', Take(st.areas, 0, extra))
    ensures var st' := Grow(st, b, AdjustSize(n - st.live[b]));
      && b in mem' && b in st'.live && Holds(c, mem'[b := st'.live[b]], head', st')
      && Untouched(mem, mem'[b := st'.live[b]], st.live - {b})
      && KeepsUserWords(mem, mem'[b := st'.live[b]], b, b, Min(st.live[b], st'.live[b]))
  {
    hide Inv, Roomy, Represents, MemoryOf, Headers, LiveCovers, KeepsUserWords, SameOutside, AdjustSize, Granular,
         Untouched, Take, TakenSize;
    GrowAmount(st, b, n);
    ReallocGrows(c, st, b + HEADER, size, AdjustSize(n - st.live[b]));
    ResizeSettles(c, mem, mem', head, head', st, Grow(st, b, AdjustSize(n - st.live[b])), b);
  }

  lemma ShrinkSettles(c: Site, mem: Memory, mem': Memory, head: int, head': int, st: State, b: int, n: int, size: int)
    requires Holds(c, mem, head, st) && b in st.live && size + HEADER <= n && b + HEADER != 0
    requires DESCRIPTOR <= n && n + REALLOC_MIN_FREE <= st.live[b] && Granular(n)
    requires var s' := Insert(st.areas, b + n, st.live[b] - n);
      Represents(mem', head', s') && SameOutside(mem, mem', s')
    ensures var st' := Shrink(st, b, n);
      && b in mem' && Holds(c, mem'[b := n], head', st')
      && Untouched(mem, mem'[b := n], st.live - {b})
      && KeepsUserWords(mem, mem'[b := n], b, b, Min(st.live[b], n))
  {
    hide Inv, Roomy, Represents, MemoryOf, Headers, LiveCovers, KeepsUserWords, SameOutside, Granular, Untouched,
         Insert;
    ReallocShrinks(c, st, b + HEADER, size, n);
    ResizeSettles(c, mem, mem', head, head', st, Shrink(st, b, n), b);
  }

  lemma TailReturnable(c: Site, mem: Memory, head: int, st: State, b: int, n: int)
    requires Holds(c, mem, head, st) && b in st.live && 0 < n && n + DESCRIPTOR <= st.live[b] && Granular(n)
    ensures Insertable(st.areas, b + n, st.live[b] - n) && InMemory(mem, b + n, st.live[b] - n)
  {
    hide Insertable, Inv, Represents, MemoryOf, Granular;
    ShrinkKeeps(c, st, b, n);
    LiveInMemory(c, mem, st, b);
  }

  lemma OldSizeGranular(c: Site, st: State, b: int)
    requires Inv(c, st) && Roomy(st.live) && b in st.live
    ensures HEADER <= st.live[b] && Granular(st.live[b] - HEADER)
  {
  }

  lemma MovedLive(live: map<int, int>, live': map<int, int>, b: int, d: int)
    requires b in live && d in live' && d !in live && live' == live[d := live'[d]]
    ensures b in live' && b != d
    ensures forall x :: x in live - {b} ==> x in live' - {d} && (live' - {d})[x] == (live - {b})[x]
    ensures forall x :: x in live - {b} ==> x in live' - {b} && (live' - {b})[x] == (live - {b})[x]
    ensures d in live' - {b}
  {
  }

  /** Through allocation, copy and free, other blocks are untouched and the data
      arrives in the new block. */
  lemma MoveSettles(mem: Memory, mem1: Memory, mem2: Memory, mem3: Memory,
                    live: map<int, int>, live': map<int, int>, b: int, d: int)
    requires b in live && d in live' && b != d && 0 < live[b] <= live'[d]
    requires forall x :: x in live && x != b ==> x in live' && live'[x] == live[x] && x != d
    requires Untouched(mem, mem1, live) && Untouched(mem2, mem3, live')
    requires Untouched(mem1, mem2, live - {b})
    requires KeepsUserWords(mem1, mem2, b, d, live[b])
    ensures Untouched(mem, mem3, live - {b})
    ensures KeepsUserWords(mem, mem3, b, d, live[b])
  {
    var rest := live - {b};
    forall x | x in mem && LiveCovers(rest, x) ensures x in mem3 && mem3[x] == mem[x] {
      FewerBlocksCover(live, rest, x);
      FewerBlocksCover(live', rest, x);
    }
    forall k | HEADER <= k < live[b] && Granular(k) && b + k in mem
      ensures d + k in mem3 && mem3[d + k] == mem[b + k]
    {
      assert LiveCovers(live, b + k);
      assert LiveCovers(live', d + k);
    }
  }

  lemma DescriptorAdjusted()
    ensures AdjustSize(DESCRIPTOR) == MIN_SIZE
  {
  }

  lemma StaysPut(mem: Memory, live: map<int, int>, b: int)
    requires b in live
    ensures Untouched(mem, mem, live - {b}) && KeepsUserWords(mem, mem, b, b, Min(live[b], live[b]))
  {
  }

  lemma UntouchedFewer(mem: Memory, mem': Memory, live: map<int, int>, fewer: map<int, int>)
    requires Untouched(mem, mem', live) && forall b :: b in fewer ==> b in live && live[b] == fewer[b]
    ensures Untouched(mem, mem', fewer)
  {
    forall x | x in mem && LiveCovers(fewer, x) ensures x in mem' && mem'[x] == mem[x] {
      FewerBlocksCover(live, fewer, x);
    }
  }

  /** Two different user areas do not overlap. */
  lemma CopyStep(c: Site, mem: Memory, head: int, st: State, b: int, d: int, k: int)
    requires Holds(c, mem, head, st) && b in st.live && d in st.live && b != d
    requires 0 <= k < st.live[b] - HEADER && k < st.live[d] - HEADER && Granular(k)
    ensures Granular(d + HEADER + k) && b + HEADER + k in mem && d + HEADER + k in mem
    ensures !(d <= b + HEADER + k < d + st.live[d])
  {
    hide Represents, Roomy, Inv, MemoryOf, Headers, Granular;
    UserGranular(c, st, b, d, k);
    UserWord(c, mem, st, b, b + HEADER + k);
    UserWord(c, mem, st, d, d + HEADER + k);
  }

  lemma UserGranular(c: Site, st: State, b: int, d: int, k: int)
    requires Inv(c, st) && b in st.live && d in st.live && b != d && 0 <= k < st.live[b] - HEADER && Granular(k)
    ensures Granular(b + HEADER + k) && Granular(d + HEADER + k) && !(d <= b + HEADER + k < d + st.live[d])
  {
    hide Covers, LiveCovers, WellFormed, Granular, PageGranular;
    GranularAdd(b, k);
    GranularAdd(d, k);
    GranularAdd(b + k, k);
    GranularAdd(d + k, k);
    assert b < d || d < b;
  }

  /** The first k user bytes of block b have been copied to block d. */
  ghost predicate Copied(mem: Memory, mem': Memory, b: int, d: int, k: int) {
    && mem.Keys == mem'.Keys
    && (forall x :: x in mem && !(d + HEADER <= x < d + HEADER + k) ==> mem'[x] == mem[x])
    && (forall i :: HEADER <= i < HEADER + k && Granular(i) ==>
          b + i in mem && d + i in mem && mem'[d + i] == mem[b + i])
  }

  lemma GranularZero()
    ensures Granular(0)
  {
  }

  lemma CopiedMore(mem: Memory, mem1: Memory, mem2: Memory, b: int, d: int, k: int, n: int, room: int)
    requires Copied(mem, mem1, b, d, k) && 0 <= k < n && HEADER + n <= room && Granular(k) && Granular(n)
    requires b + HEADER + k in mem1 && d + HEADER + k in mem1 && !(d <= b + HEADER + k < d + room)
    requires mem2 == mem1[d + HEADER + k := mem1[b + HEADER + k]]
    ensures Copied(mem, mem2, b, d, k + GRANULARITY) && Granular(k + GRANULARITY) && k + GRANULARITY <= n
  {
    forall i | HEADER <= i < HEADER + k + GRANULARITY && Granular(i)
      ensures b + i in mem && d + i in mem && mem2[d + i] == mem[b + i]
    {
      assert i < HEADER + k || i == HEADER + k;
    }
  }

  lemma CopyDone(c: Site, mem: Memory, mem': Memory, head: int, st: State, b: int, d: int, n: int)
    requires Holds(c, mem', head, st) && d in st.live && HEADER + n <= st.live[d] && Copied(mem, mem', b, d, n)
    ensures Untouched(mem, mem', st.live - {d}) && KeepsUserWords(mem, mem', b, d, HEADER + n)
  {
    hide Represents, Inv, Roomy, MemoryOf, Headers, LiveCovers;
    OtherBlocksApart(c, mem', head, st, d);
  }

  lemma OtherBlocksApart(c: Site, mem: Memory, head: int, st: State, d: int)
    requires Holds(c, mem, head, st) && d in st.live
    ensures forall x :: LiveCovers(st.live - {d}, x) ==> !(d <= x < d + st.live[d])
  {
    forall x | LiveCovers(st.live - {d}, x) ensures !(d <= x < d + st.live[d]) {
      LiveRemove(st.live, d, x);
    }
  }

  lemma UserWord(c: Site, mem: Memory, st: State, b: int, x: int)
    requires Inv(c, st) && MemoryOf(c, mem, st.mapped) && b in st.live && b <= x < b + st.live[b]
    ensures Granular(x) ==> x in mem
  {
    assert LiveCovers(st.live, x);
  }

  /** A block covers no free word, and no header but its own. */
  lemma BlockIsElsewhere(c: Site, st: State, b: int)
    requires Inv(c, st) && b in st.live
    ensures forall x :: b <= x < b + st.live[b] ==> !Covers(st.areas, x)
    ensures forall d :: d in st.live ==> !(b + HEADER <= d < b + st.live[b])
  {
    hide Covers, Roomy, WellFormed, PageGranular, Granular, Owned;
    forall x | b <= x < b + st.live[b] ensures !Covers(st.areas, x) {
      assert LiveCovers(st.live, x);
    }
  }

  /** Words behind the header of a live block are the client's to change. */
  lemma UserWrites(c: Site, mem: Memory, mem': Memory, head: int, st: State, b: int)
    requires Holds(c, mem, head, st) && b in st.live && mem'.Keys == mem.Keys
    requires forall x :: x in mem && !(b + HEADER <= x < b + st.live[b]) ==> mem'[x] == mem[x]
    ensures Holds(c, mem', head, st)
  {
    hide Represents, Covers, Roomy, Inv, Granular, Owned;
    BlockIsElsewhere(c, st, b);
    RepresentsFrame(mem, mem', head, st.areas);
  }

  lemma ReleaseFields(st: State, b: int)
    requires b in st.live
    ensures Release(st, b) == State(Insert(st.areas, b, st.live[b]), st.live - {b}, st.mapped)
  {
  }

  lemma GiveBackFields(c: Site, st: State, k: int)
    requires c.page > 0 && 0 <= k < |st.areas|
    ensures GiveBack(c, st, k, 0).live == st.live
  {
  }

  lemma BlockReturnable(c: Site, mem: Memory, head: int, st: State, b: int)
    requires Holds(c, mem, head, st) && b in st.live
    ensures Insertable(st.areas, b, st.live[b]) && InMemory(mem, b, st.live[b])
    ensures b in mem && mem[b] == st.live[b]
  {
    hide Insertable, InMemory, Inv, Represents, MemoryOf;
    ReleaseKeeps(c, st, b);
    LiveInMemory(c, mem, st, b);
  }

  lemma UntouchedChain(mem: Memory, mem1: Memory, mem2: Memory, live: map<int, int>)
    requires Untouched(mem, mem1, live) && Untouched(mem1, mem2, live)
    ensures Untouched(mem, mem2, live)
  {
  }

  lemma SameOutsideWidens(mem: Memory, mem': Memory, s: seq<Area>, t: seq<Area>)
    requires SameOutside(mem, mem', s) && forall x :: Covers(s, x) ==> Covers(t, x)
    ensures SameOutside(mem, mem', t)
  {
  }

  lemma SameOutsideChain(mem: Memory, mem1: Memory, mem2: Memory, s: seq<Area>, t: seq<Area>)
    requires SameOutside(mem, mem1, t) && SameOutside(mem1, mem2, s) && forall x :: Covers(s, x) ==> Covers(t, x)
    ensures SameOutside(mem, mem2, t)
  {
  }

  /** While area k is given back, every block that returns to the list is
      insertable and is memory, and the list stays within the old free bytes. */
  lemma StagesInMemory(c: Site, mem: Memory, head: int, st: State, k: int)
    requires Holds(c, mem, head, st) && 0 <= k < |st.areas| && c.page > 0 && 8 * c.page <= st.areas[k].size
    ensures var a := st.areas[k];
      var us, ue := UnmapStart(c.page, a.start), UnmapEnd(c.page, a.End());
      var w := Without(st.areas, k);
      var s1 := InsertIf(w, a.start, us);
      var s2 := InsertIf(s1, ue, a.End());
      && (a.start < us ==> Insertable(w, a.start, us - a.start) && InMemory(mem, a.start, us - a.start))
      && (ue < a.End() ==> Insertable(s1, ue, a.End() - ue) && InMemory(mem, ue, a.End() - ue))
      && (forall x :: Covers(w, x) ==> Covers(st.areas, x))
      && (forall x :: Covers(s1, x) ==> Covers(st.areas, x))
      && (forall x :: Covers(s2, x) ==> Covers(st.areas, x))
  {
    hide Covers, UnmapStart, UnmapEnd, Granular, Without, WellFormed, Insertable, Represents, Inv, Roomy, MemoryOf,
         Headers, InMemory, Insert;
    var a := st.areas[k];
    ValidParts(c, mem, head, st);
    AreaInList(st.areas, k);
    GiveBackAligned(c, a, 0);
    GiveBackStages(c, st, k, 0);
    var us, ue := UnmapStart(c.page, a.start), UnmapEnd(c.page, a.End());
    PartInMemory(mem, st.areas, k, a.start, us - a.start);
    PartInMemory(mem, st.areas, k, ue, a.End() - ue);
  }

  lemma ValidParts(c: Site, mem: Memory, head: int, st: State)
    requires Holds(c, mem, head, st)
    ensures ValidSite(c) && WellFormed(st.areas) && Backed(mem, st.areas)
  {
  }

  lemma PartInMemory(mem: Memory, s: seq<Area>, k: int, lo: int, n: int)
    requires Backed(mem, s) && 0 <= k < |s| && s[k].start <= lo && lo + n <= s[k].End()
    ensures InMemory(mem, lo, n)
  {
    forall x | lo <= x < lo + n && Granular(x) ensures x in mem {
      assert s[k].Has(x);
      assert Covers(s, x);
    }
  }

  lemma RepresentsGrown(c: Site, mem: Memory, mem': Memory, head: int, st: State, m: int, len: int)
    requires Holds(c, mem, head, st) && c.page > 0 && m != -1 && MmapAnswer(c, st.mapped, len, m)
    requires mem' == mem + ZeroWords(m, len)
    ensures Represents(mem', head, st.areas) && InMemory(mem', m, len)
  {
    hide Represents, Covers, ZeroWords;
    RepresentsFrame(mem, mem', head, st.areas);
  }

  lemma InitRepresented(c: Site, contents: Memory)
    requires ValidSite(c)
    requires forall x :: x in contents <==> Granular(x) && Static(c, x)
    requires var d := c.base + STATIC_SIZE - DESCRIPTOR;
      HasNode(contents, d) && contents[d] == STATIC_SIZE && contents[d + NEXT] == 0 && contents[d + PREV] == 0
    ensures Holds(c, contents, c.base + STATIC_SIZE - DESCRIPTOR, Init(c))
  {
    InitHolds(c);
    var s := Init(c).areas;
    assert WellFormed(s);
    forall x | Covers(s, x) && Granular(x) ensures x in contents {
      assert s[0].Has(x);
    }
    assert LinksAt(contents, Descs(s), 0);
  }
}
