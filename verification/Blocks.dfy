/** Who owns which bytes: free areas, live blocks (headers included), and the
    pages obtained from the system. Six elementary transfers of ownership, each
    of which keeps the tiling. */
module Blocks {
  import opened Basics
  import opened Layout
  import opened FreeList

  /** The page size, and the address of the static area of malloc_init. */
  datatype Site = Site(page: int, base: int)

  ghost predicate ValidSite(c: Site) {
    && PageSize(c.page)
    && 0 < c.base && Granular(c.base) && c.base + STATIC_SIZE <= ADDRESS_LIMIT
  }

  /** `live` maps the base of each block to its total size; `mapped` holds the
      bytes obtained by mmap and not yet given back by munmap. */
  datatype State = State(areas: seq<Area>, live: map<int, int>, mapped: set<int>)

  ghost predicate LiveCovers(live: map<int, int>, x: int) {
    exists b :: b in live && b <= x < b + live[b]
  }

  ghost predicate Static(c: Site, x: int) { c.base <= x < c.base + STATIC_SIZE }

  ghost predicate Owned(c: Site, mapped: set<int>, x: int) {
    Static(c, x) || x in mapped
  }

  ghost predicate AlignedBlocks(live: map<int, int>) {
    forall b :: b in live ==>
      0 < b && Granular(b) && 0 < live[b] && Granular(live[b])
  }

  ghost predicate DisjointBlocks(live: map<int, int>) {
    forall b, d :: b in live && d in live && b < d ==> b + live[b] <= d
  }

  /** Every block can hold a descriptor once it is free. */
  ghost predicate Roomy(live: map<int, int>) {
    forall b :: b in live ==> DESCRIPTOR <= live[b]
  }

  /** Free areas and live blocks are disjoint and make up exactly the owned bytes. */
  ghost predicate Tiled(c: Site, st: State) {
    && (forall x :: Owned(c, st.mapped, x) <==> Covers(st.areas, x) || LiveCovers(st.live, x))
    && (forall x :: Covers(st.areas, x) ==> !LiveCovers(st.live, x))
  }

  predicate OnePage(p: int, x: int, y: int)
    requires p > 0
  {
    x / p == y / p
  }

  /** Mapped memory comes in whole pages, away from the static area. */
  ghost predicate PageGranular(c: Site, mapped: set<int>)
    requires c.page > 0
  {
    && (forall x, y {:trigger OnePage(c.page, x, y)} :: x in mapped && OnePage(c.page, x, y) ==> y in mapped)
    && (forall x :: x in mapped ==> 0 < x < ADDRESS_LIMIT && !Static(c, x))
  }

  ghost predicate Inv(c: Site, st: State) {
    && ValidSite(c)
    && WellFormed(st.areas)
    && AlignedBlocks(st.live) && DisjointBlocks(st.live)
    && Tiled(c, st)
    && PageGranular(c, st.mapped)
  }

  lemma PagePositive(c: Site, st: State)
    requires Inv(c, st)
    ensures c.page > 0
  {
  }

  // ----- coverage of the live blocks

  lemma LiveAdd(live: map<int, int>, b: int, n: int, x: int)
    requires b !in live
    ensures LiveCovers(live[b := n], x) <==> LiveCovers(live, x) || b <= x < b + n
  {
    var live' := live[b := n];
    if LiveCovers(live, x) {
      var d :| d in live && d <= x < d + live[d];
      assert d in live' && live'[d] == live[d];
    }
    if b <= x < b + n { assert b in live' && live'[b] == n; }
  }

  lemma LiveRemove(live: map<int, int>, b: int, x: int)
    requires DisjointBlocks(live) && b in live
    ensures LiveCovers(live - {b}, x) <==> LiveCovers(live, x) && !(b <= x < b + live[b])
  {
    var live' := live - {b};
    if LiveCovers(live, x) && !(b <= x < b + live[b]) {
      var d :| d in live && d <= x < d + live[d];
      assert d in live' && live'[d] == live[d];
    }
    if LiveCovers(live', x) {
      var d :| d in live' && d <= x < d + live'[d];
      assert d in live && live[d] == live'[d];
      assert d < b || b < d;
    }
  }

  /** A live block and the free list are apart. */
  lemma LiveApart(c: Site, st: State, b: int)
    requires Inv(c, st) && b in st.live
    ensures Apart(st.areas, b, st.live[b])
  {
    forall x | b <= x < b + st.live[b] ensures !Covers(st.areas, x) {
      assert LiveCovers(st.live, x);
    }
    ApartIffUncovered(st.areas, b, st.live[b]);
  }

  // ----- the transfers

  /** The front of area i becomes a live block. */
  function Grant(st: State, i: int, n: int): (st': State)
    requires 0 <= i < |st.areas|
  {
    var a := st.areas[i];
    State(Take(st.areas, i, n), st.live[a.start := TakenSize(a.size, n)], st.mapped)
  }

  lemma GrantKeeps(c: Site, st: State, i: int, n: int)
    requires Inv(c, st) && 0 <= i < |st.areas| && 0 < n <= st.areas[i].size && Granular(n)
    ensures Inv(c, Grant(st, i, n)) && st.areas[i].start !in st.live
  {
    var a, k := st.areas[i], TakenSize(st.areas[i].size, n);
    var st' := Grant(st, i, n);
    assert Fits(a);
    TakeIsDifference(st.areas, i, n);
    AreaOutsideLive(st.areas, st.live, i);
    assert DisjointBlocks(st'.live);
    forall x
      ensures LiveCovers(st'.live, x) <==> LiveCovers(st.live, x) || a.start <= x < a.start + k
    {
      LiveAdd(st.live, a.start, k, x);
    }
    forall x | a.start <= x < a.start + k ensures Covers(st.areas, x) { assert a.Has(x); }
  }

  /** Live blocks lie entirely before or after a free area. */
  lemma AreaOutsideLive(s: seq<Area>, live: map<int, int>, i: int)
    requires WellFormed(s) && 0 <= i < |s| && AlignedBlocks(live)
    requires forall x :: Covers(s, x) ==> !LiveCovers(live, x)
    ensures forall b :: b in live ==> b + live[b] <= s[i].start || s[i].End() <= b
  {
    assert Fits(s[i]);
    forall b | b in live
      ensures b + live[b] <= s[i].start || s[i].End() <= b
    {
      var x := if b < s[i].start then s[i].start else b;
      assert s[i].Has(x) ==> Covers(s, x);
      assert b <= x < b + live[b] ==> LiveCovers(live, x);
    }
  }

  /** A live block goes back to the free list. */
  function Release(st: State, b: int): (st': State)
    requires b in st.live
  {
    State(Insert(st.areas, b, st.live[b]), st.live - {b}, st.mapped)
  }

  lemma ReleaseKeeps(c: Site, st: State, b: int)
    requires Inv(c, st) && b in st.live && DESCRIPTOR <= st.live[b]
    ensures Insertable(st.areas, b, st.live[b])
    ensures Inv(c, Release(st, b))
  {
    var st', n := Release(st, b), st.live[b];
    LiveApart(c, st, b);
    InsertIsUnion(st.areas, b, n);
    forall x
      ensures LiveCovers(st'.live, x) <==> LiveCovers(st.live, x) && !(b <= x < b + n)
    {
      LiveRemove(st.live, b, x);
    }
    forall x | b <= x < b + n ensures LiveCovers(st.live, x) { }
  }

  /** A live block is cut in two. */
  function Split(st: State, b: int, k: int): (st': State)
    requires b in st.live
  {
    st.(live := st.live[b := k][b + k := st.live[b] - k])
  }

  lemma SplitCovers(live: map<int, int>, b: int, k: int, x: int)
    requires DisjointBlocks(live) && b in live && b + k !in live && 0 < k < live[b]
    ensures LiveCovers(live[b := k][b + k := live[b] - k], x) <==> LiveCovers(live, x)
  {
    var rest := live - {b};
    assert live[b := k][b + k := live[b] - k] == rest[b := k][b + k := live[b] - k];
    LiveRemove(live, b, x);
    LiveAdd(rest, b, k, x);
    LiveAdd(rest[b := k], b + k, live[b] - k, x);
    assert b <= x < b + live[b] ==> LiveCovers(live, x);
  }

  lemma SplitKeeps(c: Site, st: State, b: int, k: int)
    requires Inv(c, st) && b in st.live && 0 < k < st.live[b] && Granular(k)
    ensures Inv(c, Split(st, b, k)) && b + k !in st.live
  {
    hide LiveCovers, Covers, WellFormed, PageGranular, ValidSite, Owned;
    var live := st.live;
    assert b + k !in live;
    forall x
      ensures LiveCovers(Split(st, b, k).live, x) <==> LiveCovers(live, x)
    {
      SplitCovers(live, b, k, x);
    }
  }

  /** The live block at b absorbs the live block that starts where b ends. */
  function Join(st: State, b: int): (st': State)
    requires b in st.live && b + st.live[b] in st.live
  {
    var d := b + st.live[b];
    st.(live := (st.live - {d})[b := st.live[b] + st.live[d]])
  }

  lemma JoinCovers(live: map<int, int>, b: int, x: int)
    requires AlignedBlocks(live) && DisjointBlocks(live) && b in live && b + live[b] in live
    ensures var d := b + live[b];
      LiveCovers((live - {d})[b := live[b] + live[d]], x) <==> LiveCovers(live, x)
  {
    var d := b + live[b];
    var rest := live - {d} - {b};
    assert (live - {d})[b := live[b] + live[d]] == rest[b := live[b] + live[d]];
    LiveRemove(live, d, x);
    LiveRemove(live - {d}, b, x);
    LiveAdd(rest, b, live[b] + live[d], x);
    assert b <= x < b + live[b] ==> LiveCovers(live, x);
    assert d <= x < d + live[d] ==> LiveCovers(live, x);
  }

  lemma JoinKeeps(c: Site, st: State, b: int)
    requires Inv(c, st) && b in st.live && b + st.live[b] in st.live
    ensures Inv(c, Join(st, b))
  {
    hide LiveCovers, Covers, WellFormed, PageGranular, ValidSite, Owned;
    forall x
      ensures LiveCovers(Join(st, b).live, x) <==> LiveCovers(st.live, x)
    {
      JoinCovers(st.live, b, x);
    }
  }

  /** Fresh memory from the system joins the free list. */
  function Extend(st: State, m: int, len: int): (st': State) {
    State(Insert(st.areas, m, len), st.live, st.mapped + Range(m, m + len))
  }

  /** What mmap may answer to a request for len bytes: the failure value, or
      whole pages of user memory that the allocator does not own. */
  ghost predicate MmapAnswer(c: Site, mapped: set<int>, len: int, answer: int)
    requires c.page > 0
  {
    || answer == -1
    || (&& 0 < len && len % c.page == 0
        && 0 < answer && answer % c.page == 0 && answer + len <= ADDRESS_LIMIT
        && forall x :: answer <= x < answer + len ==> !Owned(c, mapped, x))
  }

  lemma ExtendKeeps(c: Site, st: State, m: int, len: int)
    requires Inv(c, st) && m != -1 && MmapAnswer(c, st.mapped, len, m)
    ensures Insertable(st.areas, m, len) && Inv(c, Extend(st, m, len))
  {
    PagesInsertable(c, st, m, len);
    hide WellFormed, LiveCovers, Covers, Insertable;
    InsertIsUnion(st.areas, m, len);
    PagesGranular(c, st.mapped, m, len);
  }

  lemma PagesInsertable(c: Site, st: State, m: int, len: int)
    requires Inv(c, st) && m != -1 && MmapAnswer(c, st.mapped, len, m)
    ensures Insertable(st.areas, m, len) && DESCRIPTOR <= c.page <= len
  {
    PowerOfTwoIsGranular(c.page);
    MultiplesGranular(m, c.page);
    MultiplesGranular(len, c.page);
    MultiplesApart(0, len, c.page);
    hide WellFormed, LiveCovers, Covers;
    assert forall x :: m <= x < m + len ==> !Owned(c, st.mapped, x) && !Covers(st.areas, x);
    ApartIffUncovered(st.areas, m, len);
  }

  lemma PagesGranular(c: Site, mapped: set<int>, m: int, len: int)
    requires c.page > 0 && PageGranular(c, mapped) && m != -1 && MmapAnswer(c, mapped, len, m)
    ensures PageGranular(c, mapped + Range(m, m + len))
  {
    var p, more := c.page, mapped + Range(m, m + len);
    forall x, y | x in more && OnePage(p, x, y)
      ensures y in more
    {
      if x in mapped { assert y in mapped; } else { SamePage(m, m + len, p, x, y); }
    }
    forall x | x in more
      ensures 0 < x < ADDRESS_LIMIT && !Static(c, x)
    {
      assert x !in mapped ==> !Owned(c, mapped, x);
    }
  }

  /** Page-aligned ranges hold whole pages. */
  lemma SamePage(lo: int, hi: int, p: int, x: int, y: int)
    requires p > 0 && lo % p == 0 && (hi - lo) % p == 0 && lo <= x < hi && OnePage(p, x, y)
    ensures lo <= y < hi
  {
    MultiplesAdd(lo, hi - lo, p);
    var q := x / p;
    assert x == q * p + x % p && y == q * p + y % p;
    MultipleOf(q, p);
    if q * p < lo { MultiplesApart(q * p, lo, p); }
    if q * p < hi { MultiplesApart(q * p, hi, p); }
  }

  /** An area goes back to the system, except for its two ends. */
  function UnmapStart(p: int, start: int): (u: int)
    requires p > 0
  {
    var u := RoundUp(start, p);
    if u > start && u - start < MIN_FREE_AREA then u + p else u
  }

  function UnmapEnd(p: int, end: int): (u: int)
    requires p > 0
  {
    var u := RoundDown(end, p);
    if end > u && end - u < MIN_FREE_AREA then u - p else u
  }

  /** For an area of six pages or more (eight, or eight less the two that the
      reserve branch would keep), the range to unmap is page-aligned and not
      empty, lies inside the area, and leaves ends that are absent or large
      enough to be free areas. */
  lemma UnmapRange(p: int, start: int, end: int)
    requires PageSize(p) && 0 < start && start + 6 * p <= end
    requires Granular(start) && Granular(end)
    ensures var us, ue := UnmapStart(p, start), UnmapEnd(p, end);
      && us % p == 0 && ue % p == 0 && Granular(us) && Granular(ue)
      && start <= us && us + p <= ue <= end
      && (us == start || start + MIN_FREE_AREA <= us)
      && (ue == end || ue + MIN_FREE_AREA <= end)
  {
    PowerOfTwoIsGranular(p);
    RoundingBounds(start, p);
    RoundingBounds(end, p);
    MultipleOf(1, p);
    MultiplesAdd(RoundUp(start, p), p, p);
    MultiplesAdd(RoundDown(end, p), p, p);
    MultiplesGranular(UnmapStart(p, start), p);
    MultiplesGranular(UnmapEnd(p, end), p);
  }

  /** Every byte of a free range of whole pages was mapped: the static area is
      smaller than a page, and mmap hands out pages. */
  lemma FreePagesAreMapped(c: Site, st: State, lo: int, hi: int)
    requires Inv(c, st) && lo % c.page == 0 && hi % c.page == 0
    requires forall x :: lo <= x < hi ==> Covers(st.areas, x)
    ensures Range(lo, hi) <= st.mapped
  {
    forall x | lo <= x < hi
      ensures x in st.mapped
    {
      assert Owned(c, st.mapped, x);
      var p := c.page;
      var q := x / p * p;
      MultiplesAdd(hi, lo, p);
      DivModProduct(x / p, p, 0);
      DivModProduct(x / p, p, p - 1);
      assert OnePage(p, x, q) && OnePage(p, x, q + p - 1);
      assert OnePage(p, q, x) && OnePage(p, q + p - 1, x);
      SamePage(lo, hi, p, x, q);
      SamePage(lo, hi, p, x, q + p - 1);
      assert Owned(c, st.mapped, q) && Owned(c, st.mapped, q + p - 1);
      assert Static(c, q) ==> !Static(c, q + p - 1);
    }
  }

  /** [lo, hi) goes back to the list unless it is empty. */
  function InsertIf(s: seq<Area>, lo: int, hi: int): (t: seq<Area>) {
    if lo < hi then Insert(s, lo, hi - lo) else s
  }

  lemma InsertIfIsUnion(s: seq<Area>, lo: int, hi: int)
    requires WellFormed(s) && 0 < lo && Granular(lo) && Granular(hi)
    requires lo >= hi || lo + DESCRIPTOR <= hi
    requires forall x :: lo <= x < hi ==> !Covers(s, x)
    ensures lo < hi ==> Insertable(s, lo, hi - lo)
    ensures WellFormed(InsertIf(s, lo, hi))
    ensures forall x :: Covers(InsertIf(s, lo, hi), x) <==> Covers(s, x) || lo <= x < hi
  {
    hide WellFormed, Covers, Insert, Apart;
    if lo < hi {
      ApartIffUncovered(s, lo, hi - lo);
      InsertIsUnion(s, lo, hi - lo);
    }
  }

  /** Area k leaves the list; its first `keep` bytes are reserved, the ends go
      back to the list, and the pages in between go back to the system. */
  function GiveBack(c: Site, st: State, k: int, keep: int): (st': State)
    requires c.page > 0 && 0 <= k < |st.areas|
  {
    var start, end := st.areas[k].start + keep, st.areas[k].End();
    var us, ue := UnmapStart(c.page, start), UnmapEnd(c.page, end);
    var s0 := InsertIf(Without(st.areas, k), st.areas[k].start, start);
    var s1 := InsertIf(s0, start, us);
    State(InsertIf(s1, ue, end), st.live, st.mapped - Range(us, ue))
  }

  /** The three stages of the list while memory is given back: each block that
      returns to it is insertable, and nothing but bytes of area k is added. */
  lemma GiveBackStages(c: Site, st: State, k: int, keep: int)
    requires ValidSite(c) && WellFormed(st.areas) && 0 <= k < |st.areas| && 8 * c.page <= st.areas[k].size
    requires keep == 0 || keep == c.page + c.page
    ensures var a := st.areas[k];
      var start, end := a.start + keep, a.End();
      var us, ue := UnmapStart(c.page, start), UnmapEnd(c.page, end);
      var w := Without(st.areas, k);
      var s0 := InsertIf(w, a.start, start);
      var s1 := InsertIf(s0, start, us);
      var s2 := InsertIf(s1, ue, end);
      && (start < us ==> Insertable(s0, start, us - start))
      && (ue < end ==> Insertable(s1, ue, end - ue))
      && WellFormed(w) && WellFormed(s0) && WellFormed(s1) && WellFormed(s2)
      && (forall x :: Covers(w, x) <==> Covers(st.areas, x) && !a.Has(x))
      && (forall x :: Covers(s0, x) <==> Covers(st.areas, x) && !(start <= x < end))
      && (forall x :: Covers(s1, x) <==> Covers(st.areas, x) && !(us <= x < end))
      && (forall x :: Covers(s2, x) <==> Covers(st.areas, x) && !(us <= x < ue))
  {
    hide WellFormed, Covers, UnmapStart, UnmapEnd, InsertIf, Without, Granular, Insertable, ValidSite;
    var a := st.areas[k];
    AreaInList(st.areas, k);
    GiveBackAligned(c, a, keep);
    var start, us, ue := a.start + keep, UnmapStart(c.page, a.start + keep), UnmapEnd(c.page, a.End());
    WithoutWellFormed(st.areas, k);
    forall x ensures Covers(Without(st.areas, k), x) <==> Covers(st.areas, x) && !a.Has(x) {
      WithoutCovers(st.areas, k, x);
    }
    InsertIfIsUnion(Without(st.areas, k), a.start, start);
    var s0 := InsertIf(Without(st.areas, k), a.start, start);
    InsertIfIsUnion(s0, start, us);
    InsertIfIsUnion(InsertIf(s0, start, us), ue, a.End());
  }

  /** Giving memory back keeps the tiling, whether or not two pages are kept,
      and every byte handed to munmap was mapped. */
  lemma GiveBackKeeps(c: Site, st: State, k: int, keep: int)
    requires Inv(c, st) && 0 <= k < |st.areas| && 8 * c.page <= st.areas[k].size
    requires keep == 0 || keep == c.page + c.page
    ensures Inv(c, GiveBack(c, st, k, keep))
    ensures var us, ue := UnmapStart(c.page, st.areas[k].start + keep), UnmapEnd(c.page, st.areas[k].End());
      && us % c.page == 0 && ue % c.page == 0 && us < ue
      && Range(us, ue) <= st.mapped
      && forall x :: Covers(GiveBack(c, st, k, keep).areas, x) <==> Covers(st.areas, x) && !(us <= x < ue)
  {
    hide WellFormed, Covers, LiveCovers, UnmapStart, UnmapEnd, InsertIf, Without, Granular, Insertable, ValidSite;
    PagePositive(c, st);
    var a, st' := st.areas[k], GiveBack(c, st, k, keep);
    var us, ue := UnmapStart(c.page, a.start + keep), UnmapEnd(c.page, a.End());
    AreaInList(st.areas, k);
    GiveBackAligned(c, a, keep);
    GiveBackStages(c, st, k, keep);
    FreePagesAreMapped(c, st, us, ue);
    UnmapGranular(c, st.mapped, us, ue);
    assert forall x :: Owned(c, st'.mapped, x) <==> Owned(c, st.mapped, x) && !(us <= x < ue);
  }

  lemma AreaInList(s: seq<Area>, k: int)
    requires WellFormed(s) && 0 <= k < |s|
    ensures Fits(s[k]) && forall x :: s[k].Has(x) ==> Covers(s, x)
  {
  }

  lemma GiveBackAligned(c: Site, a: Area, keep: int)
    requires ValidSite(c) && Fits(a) && 8 * c.page <= a.size && (keep == 0 || keep == c.page + c.page)
    ensures DESCRIPTOR <= c.page
    ensures var start, end := a.start + keep, a.End();
      var us, ue := UnmapStart(c.page, start), UnmapEnd(c.page, end);
      && Granular(start) && Granular(end) && 0 < start
      && us % c.page == 0 && ue % c.page == 0 && Granular(us) && Granular(ue)
      && a.start <= start <= us < ue <= end
      && (us == start || start + MIN_FREE_AREA <= us)
      && (ue == end || ue + MIN_FREE_AREA <= end)
  {
    hide UnmapStart, UnmapEnd, Granular, PowerOfTwo;
    PowerOfTwoIsGranular(c.page);
    GranularAdd(c.page, c.page);
    if keep > 0 { GranularAdd(a.start, keep); }
    GranularAdd(a.start, a.size);
    UnmapRange(c.page, a.start + keep, a.End());
  }

  lemma UnmapGranular(c: Site, mapped: set<int>, us: int, ue: int)
    requires c.page > 0 && PageGranular(c, mapped) && us % c.page == 0 && ue % c.page == 0
    ensures PageGranular(c, mapped - Range(us, ue))
  {
    var p, less := c.page, mapped - Range(us, ue);
    MultiplesAdd(ue, us, p);
    forall x, y | x in less && OnePage(p, x, y)
      ensures y in less
    {
      assert y in mapped;
      assert OnePage(p, y, x);
      if us <= y < ue { SamePage(us, ue, p, y, x); }
    }
  }
}
