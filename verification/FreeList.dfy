/** The free list as a sequence of address intervals: the layer between the
    descriptors in memory and the set of free bytes. */
module FreeList {
  import opened Basics
  import opened Layout

  datatype Area = Area(start: int, size: int) {
    function End(): int { start + size }
    predicate Has(x: int) { start <= x < start + size }
  }

  /** An aligned area that can hold its own descriptor. */
  predicate Fits(a: Area) {
    && 0 < a.start && Granular(a.start)
    && Granular(a.size) && DESCRIPTOR <= a.size
  }

  /** What __heap_check demands of the list: aligned areas in ascending order
      with a strict gap between neighbours. */
  ghost predicate WellFormed(s: seq<Area>) {
    && (forall i :: 0 <= i < |s| ==> Fits(s[i]))
    && (forall i, j :: 0 <= i < j < |s| ==> s[i].End() < s[j].start)
  }

  /** Byte x is free. */
  ghost predicate Covers(s: seq<Area>, x: int) {
    exists i :: 0 <= i < |s| && s[i].Has(x)
  }

  /** The interval [m, m+n) meets no area. */
  ghost predicate Apart(s: seq<Area>, m: int, n: int) {
    forall i :: 0 <= i < |s| ==> s[i].End() <= m || m + n <= s[i].start
  }

  /** The interval [m, m+n) borders on an area. */
  ghost predicate Touches(s: seq<Area>, m: int, n: int) {
    exists i :: 0 <= i < |s| && (s[i].End() == m || s[i].start == m + n)
  }

  /** What __heap_free may be handed: an aligned block of memory that is not
      free, and that can hold a descriptor unless a neighbour's serves. */
  ghost predicate Insertable(s: seq<Area>, m: int, n: int) {
    && 0 < m && Granular(m) && 0 < n && Granular(n)
    && Apart(s, m, n)
    && (DESCRIPTOR <= n || Touches(s, m, n))
  }

  /** The first area that ends at or after m. */
  function Position(s: seq<Area>, m: int): (i: int)
    ensures 0 <= i <= |s|
    ensures forall k :: 0 <= k < i ==> s[k].End() < m
    ensures i < |s| ==> m <= s[i].End()
  {
    if s == [] || m <= s[0].End() then 0 else 1 + Position(s[1..], m)
  }

  /** How many areas from position i on a block ending at e merges with. */
  function MergeCount(s: seq<Area>, i: int, e: int): (c: int)
    requires 0 <= i <= |s|
    ensures 0 <= c <= 2 && i + c <= |s|
  {
    if i == |s| || e < s[i].start then 0
    else if s[i].start != e && i + 1 < |s| && s[i + 1].start == e then 2
    else 1
  }

  /** The area that results from the block and the areas it merges with. */
  function Merged(s: seq<Area>, i: int, m: int, n: int): (a: Area)
    requires 0 <= i <= |s|
  {
    var c := MergeCount(s, i, m + n);
    if c == 0 then Area(m, n)
    else if c == 2 then Area(s[i].start, s[i].size + n + s[i + 1].size)
    else if s[i].start == m + n then Area(m, s[i].size + n)
    else Area(s[i].start, s[i].size + n)
  }

  /** Returning [m, m+n) to the list. */
  function Insert(s: seq<Area>, m: int, n: int): (t: seq<Area>)
    ensures Position(s, m) < |t| && t[Position(s, m)] == Merged(s, Position(s, m), m, n)
  {
    var i := Position(s, m);
    Splice(s, i, i + MergeCount(s, i, m + n), Merged(s, i, m, n))
  }

  /** The first area of at least n bytes, or |s|. */
  function FirstFit(s: seq<Area>, n: int): (i: int)
    ensures 0 <= i <= |s|
    ensures forall k :: 0 <= k < i ==> s[k].size < n
    ensures i < |s| ==> n <= s[i].size
  {
    if s == [] || n <= s[0].size then 0 else 1 + FirstFit(s[1..], n)
  }

  /** How much __heap_free_area_alloc hands out of an area of `size` bytes. */
  function TakenSize(size: int, n: int): (k: int) {
    if size < n + MIN_FREE_AREA then size else n
  }

  /** The list after n bytes were taken from the front of area i. */
  function Take(s: seq<Area>, i: int, n: int): (t: seq<Area>)
    requires 0 <= i < |s|
  {
    if s[i].size < n + MIN_FREE_AREA then Without(s, i)
    else Splice(s, i, i + 1, Area(s[i].start + n, s[i].size - n))
  }

  // ----- splicing

  lemma SpliceWellFormed(s: seq<Area>, i: int, j: int, a: Area)
    requires WellFormed(s) && 0 <= i <= j <= |s| && Fits(a)
    requires i > 0 ==> s[i - 1].End() < a.start
    requires j < |s| ==> a.End() < s[j].start
    ensures WellFormed(Splice(s, i, j, a))
  {
    var t := Splice(s, i, j, a);
    forall k, l | 0 <= k < l < |t|
      ensures t[k].End() < t[l].start
    {
      if k < i { assert t[k].End() < a.start; }
      if l > i { assert t[l] == s[l - 1 - i + j] && a.End() < t[l].start; }
    }
  }

  /** Byte x lies in one of the areas lo, ..., hi - 1. */
  ghost predicate CoversIn(s: seq<Area>, lo: int, hi: int, x: int)
    requires 0 <= lo <= hi <= |s|
  {
    exists k :: lo <= k < hi && s[k].Has(x)
  }

  lemma SpliceCovers(s: seq<Area>, i: int, j: int, a: Area, x: int)
    requires 0 <= i <= j <= |s|
    ensures Covers(Splice(s, i, j, a), x) <==> CoversIn(s, 0, i, x) || a.Has(x) || CoversIn(s, j, |s|, x)
  {
    var t := Splice(s, i, j, a);
    if a.Has(x) { assert t[i].Has(x); }
    if CoversIn(s, 0, i, x) {
      var k :| 0 <= k < i && s[k].Has(x);
      assert t[k].Has(x);
    }
    if CoversIn(s, j, |s|, x) {
      var k :| j <= k < |s| && s[k].Has(x);
      assert t[i + 1 + k - j].Has(x);
    }
    if Covers(t, x) {
      var k :| 0 <= k < |t| && t[k].Has(x);
      if k < i { assert s[k].Has(x); }
      if k > i { assert s[k - i - 1 + j].Has(x); }
    }
  }

  lemma WithoutCoversRest(s: seq<Area>, i: int, x: int)
    requires 0 <= i < |s|
    ensures Covers(Without(s, i), x) <==> CoversIn(s, 0, i, x) || CoversIn(s, i + 1, |s|, x)
  {
    var t := Without(s, i);
    if CoversIn(s, 0, i, x) {
      var k :| 0 <= k < i && s[k].Has(x);
      assert t[k].Has(x);
    }
    if CoversIn(s, i + 1, |s|, x) {
      var k :| i + 1 <= k < |s| && s[k].Has(x);
      assert t[k - 1].Has(x);
    }
    if Covers(t, x) {
      var k :| 0 <= k < |t| && t[k].Has(x);
      if k < i { assert s[k].Has(x); } else { assert s[k + 1].Has(x); }
    }
  }

  lemma WithoutCovers(s: seq<Area>, i: int, x: int)
    requires WellFormed(s) && 0 <= i < |s|
    ensures Covers(Without(s, i), x) <==> Covers(s, x) && !s[i].Has(x)
  {
    WithoutCoversRest(s, i, x);
    CoversInSplit(s, i, i + 1, x);
    if s[i].Has(x) { OneAreaPerByte(s, i, x); }
  }

  lemma WithoutWellFormed(s: seq<Area>, i: int)
    requires WellFormed(s) && 0 <= i < |s|
    ensures WellFormed(Without(s, i))
  {
    var t := Without(s, i);
    forall k, l | 0 <= k < l < |t|
      ensures t[k].End() < t[l].start
    {
      assert t[k] == s[if k < i then k else k + 1];
      assert t[l] == s[if l < i then l else l + 1];
    }
  }

  /** Two areas of a well-formed list never share a byte. */
  lemma OneAreaPerByte(s: seq<Area>, i: int, x: int)
    requires WellFormed(s) && 0 <= i < |s| && s[i].Has(x)
    ensures forall j :: 0 <= j < |s| && s[j].Has(x) ==> j == i
  {
  }

  /** Neighbours are never unmerged: the bytes just around an area are not free. */
  lemma AreaIsMaximal(s: seq<Area>, i: int)
    requires WellFormed(s) && 0 <= i < |s|
    ensures !Covers(s, s[i].start - 1) && !Covers(s, s[i].End())
  {
    forall k | 0 <= k < |s|
      ensures !s[k].Has(s[i].start - 1) && !s[k].Has(s[i].End())
    {
      assert k < i ==> s[k].End() < s[i].start;
      assert i < k ==> s[i].End() < s[k].start;
    }
  }

  /** No byte of the interval is free exactly when no area meets the interval. */
  lemma ApartIffUncovered(s: seq<Area>, m: int, n: int)
    requires WellFormed(s) && n > 0
    ensures Apart(s, m, n) <==> (forall x :: m <= x < m + n ==> !Covers(s, x))
  {
    if forall x :: m <= x < m + n ==> !Covers(s, x) {
      forall i | 0 <= i < |s|
        ensures s[i].End() <= m || m + n <= s[i].start
      {
        var x := if m <= s[i].start then s[i].start else m;
        assert Fits(s[i]);
        assert s[i].Has(x) ==> Covers(s, x);
      }
    }
  }

  // ----- canonicity

  /** Two well-formed free lists with the same free bytes are the same list. */
  lemma {:induction false} Canonical(s: seq<Area>, t: seq<Area>)
    requires WellFormed(s) && WellFormed(t)
    requires forall x :: Covers(s, x) <==> Covers(t, x)
    ensures s == t
  {
    if s != [] { HeadStartCovered(s); }
    if t != [] { HeadStartCovered(t); }
    if s != [] && t != [] {
      FirstAreaWithin(s, t);
      FirstAreaWithin(t, s);
      forall x
        ensures Covers(s[1..], x) <==> Covers(t[1..], x)
      {
        TailCovers(s, x);
        TailCovers(t, x);
      }
      Canonical(s[1..], t[1..]);
      assert s == [s[0]] + s[1..] && t == [t[0]] + t[1..];
    }
  }

  lemma HeadStartCovered(s: seq<Area>)
    requires WellFormed(s) && s != []
    ensures Covers(s, s[0].start)
  {
    assert Fits(s[0]) && s[0].Has(s[0].start);
  }

  /** The first area of s neither starts below nor ends beyond the first area of t. */
  lemma FirstAreaWithin(s: seq<Area>, t: seq<Area>)
    requires WellFormed(s) && WellFormed(t) && s != [] && t != []
    requires forall x :: Covers(s, x) <==> Covers(t, x)
    ensures t[0].start <= s[0].start
    ensures t[0].start == s[0].start ==> s[0].End() <= t[0].End()
  {
    assert Fits(s[0]) && Fits(t[0]);
    var x := s[0].start;
    assert s[0].Has(x);
    assert Covers(s, x);
    assert Covers(t, x);
    var k :| 0 <= k < |t| && t[k].Has(x);
    assert t[0].start <= t[k].start;
    if t[0].start == s[0].start {
      AreaIsMaximal(t, 0);
      assert !Covers(t, t[0].End());
      assert !Covers(s, t[0].End());
      assert !s[0].Has(t[0].End());
    }
  }

  lemma TailCovers(s: seq<Area>, x: int)
    requires WellFormed(s) && s != []
    ensures WellFormed(s[1..])
    ensures Covers(s[1..], x) <==> Covers(s, x) && !s[0].Has(x)
  {
    assert s[1..] == Without(s, 0);
    WithoutCovers(s, 0, x);
    WithoutWellFormed(s, 0);
  }

  // ----- returning memory: set union

  lemma GrownFits(a: Area, start: int, n: int)
    requires Fits(a) && 0 < start && Granular(start) && 0 <= n && Granular(n)
    ensures Fits(Area(start, a.size + n))
  {
  }

  lemma SmallBlockMerges(s: seq<Area>, m: int, n: int)
    requires WellFormed(s) && Insertable(s, m, n) && n < DESCRIPTOR
    ensures MergeCount(s, Position(s, m), m + n) > 0
  {
    hide Granular;
    var i := Position(s, m);
    var k :| 0 <= k < |s| && (s[k].End() == m || s[k].start == m + n);
    assert Fits(s[k]);
    assert i < k ==> s[i].End() < s[k].start;
  }

  /** The merged area is aligned, and can hold a descriptor. */
  lemma MergedFits(s: seq<Area>, m: int, n: int)
    requires WellFormed(s) && Insertable(s, m, n)
    ensures Fits(Merged(s, Position(s, m), m, n))
  {
    hide Granular, Position, Merged, MergeCount, Fits;
    var i := Position(s, m);
    if n < DESCRIPTOR { SmallBlockMerges(s, m, n); }
    MergedFitsCases(s, i, m, n);
  }

  lemma MergedFitsCases(s: seq<Area>, i: int, m: int, n: int)
    requires 0 <= i <= |s| && 0 < m && Granular(m) && 0 < n && Granular(n)
    requires (i < |s| ==> Fits(s[i])) && (i + 1 < |s| ==> Fits(s[i + 1]))
    requires DESCRIPTOR <= n || MergeCount(s, i, m + n) > 0
    ensures Fits(Merged(s, i, m, n))
  {
    hide Granular;
    var c := MergeCount(s, i, m + n);
    if c > 0 {
      var a := s[i];
      GrownFits(a, a.start, n);
      GrownFits(a, m, n);
      if c == 2 { GrownFits(Area(a.start, a.size + n), a.start, s[i + 1].size); }
    }
  }

  /** The merged area keeps a gap to the areas it does not absorb. */
  lemma MergedGaps(s: seq<Area>, m: int, n: int)
    requires WellFormed(s) && Insertable(s, m, n)
    ensures var i := Position(s, m);
      var j, a := i + MergeCount(s, i, m + n), Merged(s, i, m, n);
      && (i > 0 ==> s[i - 1].End() < a.start)
      && (j < |s| ==> a.End() < s[j].start)
  {
    hide Granular, Position;
    var i := Position(s, m);
    var c := MergeCount(s, i, m + n);
    assert i < |s| ==> Fits(s[i]);
    assert c == 2 ==> Fits(s[i + 1]);
    assert i > 0 ==> s[i - 1].End() < m;
  }

  /** The merged area is the block together with the areas it absorbs. */
  lemma MergedHas(s: seq<Area>, m: int, n: int, x: int)
    requires WellFormed(s) && Insertable(s, m, n)
    ensures var i := Position(s, m);
      Merged(s, i, m, n).Has(x) <==> m <= x < m + n || CoversIn(s, i, i + MergeCount(s, i, m + n), x)
  {
    hide Granular, Position, Merged, MergeCount, CoversIn;
    var i := Position(s, m);
    if i == |s| {
      MergedHasLast(s, m, n, x);
    } else {
      assert Fits(s[i]);
      assert s[i].End() <= m || m + n <= s[i].start;
      if i + 1 < |s| {
        assert Fits(s[i + 1]) && s[i].End() < s[i + 1].start;
        MergedHasCases(s, i, m, n, x);
      } else {
        MergedHasCases(s, i, m, n, x);
      }
    }
  }

  lemma MergedHasLast(s: seq<Area>, m: int, n: int, x: int)
    ensures Merged(s, |s|, m, n).Has(x) <==> m <= x < m + n || CoversIn(s, |s|, |s| + MergeCount(s, |s|, m + n), x)
  {
  }

  lemma MergedHasCases(s: seq<Area>, i: int, m: int, n: int, x: int)
    requires 0 <= i < |s| && 0 < s[i].size && 0 < n && m <= s[i].End()
    requires s[i].End() <= m || m + n <= s[i].start
    requires i + 1 < |s| ==> s[i].End() < s[i + 1].start && 0 < s[i + 1].size
    ensures Merged(s, i, m, n).Has(x) <==> m <= x < m + n || CoversIn(s, i, i + MergeCount(s, i, m + n), x)
  {
    assert CoversIn(s, i, i + 1, x) <==> s[i].Has(x);
    if i + 1 < |s| {
      assert CoversIn(s, i, i + 2, x) <==> s[i].Has(x) || s[i + 1].Has(x);
    }
  }

  lemma InsertWellFormed(s: seq<Area>, m: int, n: int)
    requires WellFormed(s) && Insertable(s, m, n)
    ensures WellFormed(Insert(s, m, n))
  {
    hide WellFormed, Insertable, Fits, Merged, MergeCount, Position, Splice;
    var i := Position(s, m);
    MergedFits(s, m, n);
    MergedGaps(s, m, n);
    SpliceWellFormed(s, i, i + MergeCount(s, i, m + n), Merged(s, i, m, n));
  }

  /** Insert keeps the list well-formed and adds exactly the bytes of [m, m+n). */
  lemma InsertIsUnion(s: seq<Area>, m: int, n: int)
    requires WellFormed(s) && Insertable(s, m, n)
    ensures WellFormed(Insert(s, m, n))
    ensures forall x :: Covers(Insert(s, m, n), x) <==> Covers(s, x) || m <= x < m + n
  {
    hide WellFormed, Insertable, Merged, MergeCount, Position, Splice, Covers, CoversIn;
    InsertWellFormed(s, m, n);
    var i := Position(s, m);
    var j := i + MergeCount(s, i, m + n);
    forall x
      ensures Covers(Insert(s, m, n), x) <==> Covers(s, x) || m <= x < m + n
    {
      SpliceCovers(s, i, j, Merged(s, i, m, n), x);
      MergedHas(s, m, n, x);
      CoversInSplit(s, i, j, x);
    }
  }

  lemma CoversInSplit(s: seq<Area>, i: int, j: int, x: int)
    requires 0 <= i <= j <= |s|
    ensures Covers(s, x) <==> CoversIn(s, 0, i, x) || CoversIn(s, i, j, x) || CoversIn(s, j, |s|, x)
  {
  }

  /** An area with a gap to the returned block stays in the list as it was. */
  lemma InsertKeepsOthers(s: seq<Area>, m: int, n: int, a: Area)
    requires WellFormed(s) && Insertable(s, m, n) && a in s
    requires a.End() < m || m + n < a.start
    ensures a in Insert(s, m, n)
  {
    hide Granular, Merged, Splice, Position;
    var i := Position(s, m);
    var j, t := i + MergeCount(s, i, m + n), Insert(s, m, n);
    var k :| 0 <= k < |s| && s[k] == a;
    assert Fits(a);
    if k < i { assert t[k] == a; } else { assert k >= j && t[k - j + i + 1] == a; }
  }

  /** Returning a sequence of blocks one after the other. */
  function InsertAll(s: seq<Area>, bs: seq<Area>): (t: seq<Area>)
    decreases |bs|
  {
    if bs == [] then s else InsertAll(Insert(s, bs[0].start, bs[0].size), bs[1..])
  }

  ghost predicate Returnable(s: seq<Area>, bs: seq<Area>) {
    && (forall k :: 0 <= k < |bs| ==> Fits(bs[k]) && Apart(s, bs[k].start, bs[k].size))
    && (forall k, l :: 0 <= k < l < |bs| ==> bs[k].End() <= bs[l].start || bs[l].End() <= bs[k].start)
  }

  /** Once the first block is back, the others are still returnable. */
  lemma ReturnableAfterFirst(s: seq<Area>, bs: seq<Area>)
    requires WellFormed(s) && Returnable(s, bs) && bs != []
    ensures Insertable(s, bs[0].start, bs[0].size)
    ensures Returnable(Insert(s, bs[0].start, bs[0].size), bs[1..])
  {
    var b := bs[0];
    var t := Insert(s, b.start, b.size);
    assert Fits(b) && Apart(s, b.start, b.size);
    InsertIsUnion(s, b.start, b.size);
    forall k | 1 <= k < |bs|
      ensures Apart(t, bs[k].start, bs[k].size)
    {
      var c := bs[k];
      assert Fits(c) && Apart(s, c.start, c.size);
      assert b.End() <= c.start || c.End() <= b.start;
      ApartIffUncovered(s, c.start, c.size);
      ApartIffUncovered(t, c.start, c.size);
    }
  }

  lemma HeadCovers(s: seq<Area>, x: int)
    requires s != []
    ensures Covers(s, x) <==> s[0].Has(x) || Covers(s[1..], x)
  {
    assert s == Splice(s[1..], 0, 0, s[0]);
    SpliceCovers(s[1..], 0, 0, s[0], x);
  }

  lemma {:induction false} InsertAllIsUnion(s: seq<Area>, bs: seq<Area>)
    requires WellFormed(s) && Returnable(s, bs)
    ensures WellFormed(InsertAll(s, bs))
    ensures forall x :: Covers(InsertAll(s, bs), x) <==> Covers(s, x) || Covers(bs, x)
    decreases |bs|
  {
    if bs != [] {
      ReturnableAfterFirst(s, bs);
      InsertIsUnion(s, bs[0].start, bs[0].size);
      InsertAllIsUnion(Insert(s, bs[0].start, bs[0].size), bs[1..]);
      forall x ensures Covers(InsertAll(s, bs), x) <==> Covers(s, x) || Covers(bs, x) {
        HeadCovers(bs, x);
      }
    }
  }

  /** The order in which disjoint blocks are returned does not show in the list. */
  lemma InsertOrderIrrelevant(s: seq<Area>, bs: seq<Area>, cs: seq<Area>)
    requires WellFormed(s) && Returnable(s, bs) && Returnable(s, cs)
    requires multiset(bs) == multiset(cs)
    ensures InsertAll(s, bs) == InsertAll(s, cs)
  {
    InsertAllIsUnion(s, bs);
    InsertAllIsUnion(s, cs);
    forall x ensures Covers(bs, x) <==> Covers(cs, x) {
      if Covers(bs, x) { SameElementsCover(bs, cs, x); }
      if Covers(cs, x) { SameElementsCover(cs, bs, x); }
    }
    Canonical(InsertAll(s, bs), InsertAll(s, cs));
  }

  lemma SameElementsCover(bs: seq<Area>, cs: seq<Area>, x: int)
    requires multiset(bs) == multiset(cs) && Covers(bs, x)
    ensures Covers(cs, x)
  {
    var k :| 0 <= k < |bs| && bs[k].Has(x);
    assert bs[k] in multiset(bs);
    assert bs[k] in cs;
    var l :| 0 <= l < |cs| && cs[l] == bs[k];
    assert cs[l].Has(x);
  }

  // ----- taking memory: set difference

  /** Taking n bytes from area i removes exactly the bytes handed out, and the
      amount handed out exceeds the request by less than a minimal free area. */
  lemma TakeIsDifference(s: seq<Area>, i: int, n: int)
    requires WellFormed(s) && 0 <= i < |s| && 0 < n <= s[i].size && Granular(n)
    ensures WellFormed(Take(s, i, n))
    ensures var k := TakenSize(s[i].size, n);
      && n <= k <= s[i].size && k < n + MIN_FREE_AREA && Granular(k)
      && forall x :: Covers(Take(s, i, n), x) <==> Covers(s, x) && !(s[i].start <= x < s[i].start + k)
  {
    var k := TakenSize(s[i].size, n);
    assert Fits(s[i]);
    if s[i].size < n + MIN_FREE_AREA {
      WithoutWellFormed(s, i);
    } else {
      SpliceWellFormed(s, i, i + 1, Area(s[i].start + n, s[i].size - n));
    }
    forall x
      ensures Covers(Take(s, i, n), x) <==> Covers(s, x) && !(s[i].start <= x < s[i].start + k)
    {
      TakeCovers(s, i, n, x);
    }
  }

  lemma TakeCovers(s: seq<Area>, i: int, n: int, x: int)
    requires WellFormed(s) && 0 <= i < |s| && 0 < n <= s[i].size
    ensures Covers(Take(s, i, n), x) <==> Covers(s, x) && !(s[i].start <= x < s[i].start + TakenSize(s[i].size, n))
  {
    if s[i].size < n + MIN_FREE_AREA {
      WithoutCovers(s, i, x);
    } else {
      SpliceCovers(s, i, i + 1, Area(s[i].start + n, s[i].size - n), x);
      CoversInSplit(s, i, i + 1, x);
      if s[i].Has(x) { OneAreaPerByte(s, i, x); }
    }
  }

  /** First fit takes the lowest area that is large enough, and fails only if
      there is none. */
  lemma FirstFitIsLowest(s: seq<Area>, n: int, a: Area)
    requires WellFormed(s) && a in s && n <= a.size
    ensures FirstFit(s, n) < |s| && s[FirstFit(s, n)].start <= a.start
  {
    var k :| 0 <= k < |s| && s[k] == a;
    var i := FirstFit(s, n);
    assert i <= k;
    assert i < k ==> Fits(s[i]) && s[i].End() < s[k].start;
  }

  /** Handing memory out and returning it restores the very same list. */
  lemma TakeThenInsertRestores(s: seq<Area>, i: int, n: int)
    requires WellFormed(s) && 0 <= i < |s| && 0 < n <= s[i].size && Granular(n)
    ensures Insertable(Take(s, i, n), s[i].start, TakenSize(s[i].size, n))
    ensures Insert(Take(s, i, n), s[i].start, TakenSize(s[i].size, n)) == s
  {
    var t, m, k := Take(s, i, n), s[i].start, TakenSize(s[i].size, n);
    TakeIsDifference(s, i, n);
    assert Fits(s[i]);
    ApartIffUncovered(t, m, k);
    if k < DESCRIPTOR { assert t[i].start == m + k; }
    InsertIsUnion(t, m, k);
    forall x ensures Covers(Insert(t, m, k), x) <==> Covers(s, x) {
      assert m <= x < m + k ==> s[i].Has(x);
    }
    Canonical(Insert(t, m, k), s);
  }

  /** The area that absorbed a returned block contains it, and is as large as
      the free bytes around the block allow. */
  lemma InsertReturnsMaximal(s: seq<Area>, m: int, n: int) returns (k: int)
    requires WellFormed(s) && Insertable(s, m, n)
    ensures 0 <= k < |Insert(s, m, n)| && k == Position(s, m)
    ensures var a := Insert(s, m, n)[k];
      && a.start <= m && m + n <= a.End()
      && !Covers(Insert(s, m, n), a.start - 1) && !Covers(Insert(s, m, n), a.End())
  {
    k := Position(s, m);
    InsertWellFormed(s, m, n);
    assert k < |s| ==> Fits(s[k]);
    assert k + 1 < |s| ==> Fits(s[k + 1]);
    AreaIsMaximal(Insert(s, m, n), k);
  }
}
