/** The heap of heap.h: free areas whose descriptors are stored in the memory
    they describe, at the end of each area, linked in address order. */
module Heap {
  import opened Basics
  import opened Layout
  import opened FreeList
  import opened Links

  /** The address of the descriptor of an area. */
  function Desc(a: Area): int { a.End() - DESCRIPTOR }

  function Descs(s: seq<Area>): (ds: seq<int>)
    ensures |ds| == |s| && forall k :: 0 <= k < |s| ==> ds[k] == Desc(s[k])
  {
    seq(|s|, k requires 0 <= k < |s| => Desc(s[k]))
  }

  /** Each descriptor holds the size of its area. */
  ghost predicate Sized(mem: Memory, s: seq<Area>) {
    forall k :: 0 <= k < |s| ==> Desc(s[k]) in mem && mem[Desc(s[k])] == s[k].size
  }

  /** Every free word is memory. */
  ghost predicate Backed(mem: Memory, s: seq<Area>) {
    forall x :: Covers(s, x) && Granular(x) ==> x in mem
  }

  ghost predicate InMemory(mem: Memory, m: int, n: int) {
    forall x :: m <= x < m + n && Granular(x) ==> x in mem
  }

  /** Only free words differ. */
  ghost predicate SameOutside(mem: Memory, mem': Memory, s: seq<Area>) {
    mem.Keys == mem'.Keys && forall x :: x in mem && !Covers(s, x) ==> mem'[x] == mem[x]
  }

  ghost predicate Represents(mem: Memory, head: int, s: seq<Area>) {
    WellFormed(s) && Backed(mem, s) && Sized(mem, s) && Linked(mem, head, Descs(s))
  }

  // ----- descriptors

  lemma DescsSpread(s: seq<Area>)
    requires WellFormed(s)
    ensures Spread(Descs(s))
  {
    var ds := Descs(s);
    forall k, l | 0 <= k < l < |ds|
      ensures ds[k] + NODE <= ds[l]
    {
      assert Fits(s[k]) && Fits(s[l]) && s[k].End() < s[l].start;
    }
    forall k | 0 <= k < |ds| ensures 0 < ds[k] { assert Fits(s[k]); }
  }

  lemma DescCovered(s: seq<Area>, k: int)
    requires WellFormed(s) && 0 <= k < |s|
    ensures var d := Desc(s[k]);
      && Granular(d)
      && Covers(s, d) && Covers(s, d + NEXT) && Covers(s, d + PREV)
  {
    var d := Desc(s[k]);
    assert Fits(s[k]);
    assert s[k].Has(d) && s[k].Has(d + NEXT) && s[k].Has(d + PREV);
  }

  lemma SpliceDescs(s: seq<Area>, i: int, j: int, a: Area)
    requires 0 <= i <= j <= |s|
    ensures Descs(Splice(s, i, j, a)) == Splice(Descs(s), i, j, Desc(a))
  {
    var t, es := Splice(s, i, j, a), Splice(Descs(s), i, j, Desc(a));
    forall k | 0 <= k < |t| ensures Desc(t[k]) == es[k] { }
  }

  lemma WithoutDescs(s: seq<Area>, i: int)
    requires 0 <= i < |s|
    ensures Descs(Without(s, i)) == Without(Descs(s), i)
  {
    var t, es := Without(s, i), Without(Descs(s), i);
    forall k | 0 <= k < |t| ensures Desc(t[k]) == es[k] { }
  }

  /** The words a splice writes lie in the areas of the new list. */
  lemma ReplaceWordsCovered(s: seq<Area>, i: int, j: int, a: Area, x: int)
    requires 0 <= i <= j <= |s| && WellFormed(Splice(s, i, j, a))
    requires x in ReplaceWords(Descs(s), i, j, Desc(a)) + {Desc(a)}
    ensures Covers(Splice(s, i, j, a), x)
  {
    var t, d := Splice(s, i, j, a), Desc(a);
    if x == d || x == d + NEXT || x == d + PREV {
      DescCovered(t, i);
    } else if i > 0 && x == Descs(s)[i - 1] + NEXT {
      DescCovered(t, i - 1);
    } else {
      assert j < |s| && x == Descs(s)[j] + PREV;
      DescCovered(t, i + 1);
    }
  }

  /** New links and one new size word turn a representation of s into one of
      the spliced list. */
  lemma SpliceRepresented(mem: Memory, mem': Memory, head': int, s: seq<Area>, i: int, j: int, a: Area)
    requires 0 <= i <= j <= |s| && WellFormed(Splice(s, i, j, a)) && Sized(mem, s)
    requires Linked(mem', head', Splice(Descs(s), i, j, Desc(a)))
    requires SameExcept(mem, mem', ReplaceWords(Descs(s), i, j, Desc(a)) + {Desc(a)})
    requires Desc(a) in mem' && mem'[Desc(a)] == a.size
    requires Backed(mem, Splice(s, i, j, a))
    ensures Represents(mem', head', Splice(s, i, j, a))
    ensures SameOutside(mem, mem', Splice(s, i, j, a))
  {
    var t := Splice(s, i, j, a);
    SpliceDescs(s, i, j, a);
    DescsSpread(t);
    forall k | 0 <= k < |t|
      ensures Desc(t[k]) in mem' && mem'[Desc(t[k])] == t[k].size
    {
      SizeWordsKept(Descs(s), i, j, Desc(a), k);
      assert Descs(t)[k] == Desc(t[k]);
      if k < i {
        assert t[k] == s[k];
      } else if k > i {
        assert t[k] == s[k - i - 1 + j];
      }
      assert k < i ==> Descs(t)[k] + NODE <= Descs(t)[i];
      assert i < k ==> Descs(t)[i] + NODE <= Descs(t)[k];
    }
    forall x | x in mem && !Covers(t, x)
      ensures mem'[x] == mem[x]
    {
      if x in ReplaceWords(Descs(s), i, j, Desc(a)) + {Desc(a)} {
        ReplaceWordsCovered(s, i, j, a, x);
      }
    }
  }

  /** Unlinking node i turns a representation of s into one of the shorter list. */
  lemma WithoutRepresented(mem: Memory, mem': Memory, head': int, s: seq<Area>, i: int)
    requires 0 <= i < |s| && WellFormed(s) && Sized(mem, s) && Backed(mem, s)
    requires Linked(mem', head', Without(Descs(s), i))
    requires SameExcept(mem, mem', NeighbourWords(Descs(s), i, i + 1))
    ensures Represents(mem', head', Without(s, i))
    ensures SameOutside(mem, mem', Without(s, i))
  {
    var t, ds := Without(s, i), Descs(s);
    WithoutDescs(s, i);
    WithoutWellFormed(s, i);
    DescsSpread(s);
    forall k | 0 <= k < |t|
      ensures Desc(t[k]) in mem' && mem'[Desc(t[k])] == t[k].size
    {
      NeighbourWordsAvoidSizes(ds, i, if k < i then k else k + 1);
    }
    forall x | Covers(t, x) && Granular(x) ensures x in mem' { WithoutCovers(s, i, x); }
    forall x | x in mem && !Covers(t, x)
      ensures mem'[x] == mem[x]
    {
      if x in NeighbourWords(ds, i, i + 1) { NeighbourWordsCovered(s, i, x); }
    }
  }

  lemma NeighbourWordsCovered(s: seq<Area>, i: int, x: int)
    requires 0 <= i < |s| && WellFormed(s) && x in NeighbourWords(Descs(s), i, i + 1)
    ensures Covers(Without(s, i), x)
  {
    hide WellFormed, Covers, Without, Fits;
    WithoutWellFormed(s, i);
    if i > 0 && x == Descs(s)[i - 1] + NEXT {
      DescCovered(Without(s, i), i - 1);
    } else {
      DescCovered(Without(s, i), i);
    }
  }

  /** What the descriptor of the i-th area says, and what the end of the list looks like. */
  lemma NodeAt(mem: Memory, head: int, s: seq<Area>, i: int)
    requires Represents(mem, head, s) && 0 <= i <= |s|
    ensures head == Link(Descs(s), 0) && (Link(Descs(s), i) == 0 <==> i == |s|)
    ensures i < |s| ==>
      && LinksAt(mem, Descs(s), i) && Fits(s[i])
      && Desc(s[i]) in mem && mem[Desc(s[i])] == s[i].size
      && (forall k :: 0 <= k < i ==> s[k].End() < s[i].start)
  {
    hide Backed;
  }

  /** What the descriptors around the insertion point say. */
  ghost predicate Surroundings(mem: Memory, s: seq<Area>, ds: seq<int>, i: int, start: int, size: int) {
    && 0 <= i <= |s| == |ds| && Spread(ds)
    && (i > 0 ==> ds[i - 1] + DESCRIPTOR < start)
    && (i < |s| ==> s[i].End() == start || start + size <= s[i].start)
    && (i < |s| ==> LinksAt(mem, ds, i) && mem[ds[i]] == s[i].size && 0 < ds[i] == Desc(s[i]))
    && (i + 1 < |s| ==> LinksAt(mem, ds, i + 1) && mem[ds[i + 1]] == s[i + 1].size
                        && 0 < ds[i + 1] == Desc(s[i + 1]))
  }

  lemma SurroundingsOf(mem: Memory, head: int, s: seq<Area>, start: int, size: int)
    requires Represents(mem, head, s) && Apart(s, start, size)
    ensures Surroundings(mem, s, Descs(s), Position(s, start), start, size)
  {
    var i, ds := Position(s, start), Descs(s);
    DescsSpread(s);
    hide WellFormed, Backed;
    assert i < |s| ==> LinksAt(mem, ds, i);
    assert i + 1 < |s| ==> LinksAt(mem, ds, i + 1);
  }

  /** The new descriptor is memory, and apart from the others. */
  lemma InsertedDescriptor(mem: Memory, s: seq<Area>, start: int, size: int)
    requires WellFormed(s) && Insertable(s, start, size) && Backed(mem, s) && InMemory(mem, start, size)
    ensures var i := Position(s, start);
      var j, a := i + MergeCount(s, i, start + size), Merged(s, i, start, size);
      && Insert(s, start, size) == Splice(s, i, j, a)
      && WellFormed(Splice(s, i, j, a)) && Backed(mem, Splice(s, i, j, a))
      && Spread(Splice(Descs(s), i, j, Desc(a))) && HasNode(mem, Desc(a))
  {
    hide WellFormed, Insertable, Merged, MergeCount, Covers, Spread, Position;
    var i := Position(s, start);
    var j, a := i + MergeCount(s, i, start + size), Merged(s, i, start, size);
    InsertIsUnion(s, start, size);
    SpliceDescs(s, i, j, a);
    DescsSpread(Splice(s, i, j, a));
    DescCovered(Splice(s, i, j, a), i);
  }

  lemma TakeBacked(mem: Memory, s: seq<Area>, i: int, n: int)
    requires WellFormed(s) && Backed(mem, s)
    requires 0 <= i < |s| && 0 < n <= s[i].size && Granular(n)
    ensures WellFormed(Take(s, i, n)) && Backed(mem, Take(s, i, n))
  {
    hide Take, WellFormed, Covers;
    TakeIsDifference(s, i, n);
  }

  /** Lowering the size word of an area turns its front over to the caller. */
  lemma ShrinkRepresented(mem: Memory, mem': Memory, head: int, s: seq<Area>, i: int, n: int)
    requires Represents(mem, head, s) && 0 <= i < |s|
    requires 0 < n && n + MIN_FREE_AREA <= s[i].size && Granular(n)
    requires Desc(s[i]) in mem && mem' == mem[Desc(s[i]) := s[i].size - n]
    ensures var t := Splice(s, i, i + 1, Area(s[i].start + n, s[i].size - n));
      Represents(mem', head, t) && SameOutside(mem, mem', t)
  {
    hide WellFormed, Linked, Spread, Splice, Sized, Backed, NeighbourWords, SameOutside;
    var a, ds := Area(s[i].start + n, s[i].size - n), Descs(s);
    TakeBacked(mem, s, i, n);
    DescsSpread(s);
    NodeAt(mem, head, s, i);
    SizeWriteInList(mem, mem', head, ds, i);
    ReplaceSelf(ds, i);
    SpliceRepresented(mem, mem', head, s, i, i + 1, a);
  }

  class Heap {
    var mem: Memory
    var head: int
    ghost var areas: seq<Area>

    ghost predicate Valid()
      reads this
    {
      Represents(mem, head, areas)
    }

    constructor (mem: Memory, head: int, ghost areas: seq<Area>)
      requires Represents(mem, head, areas)
      ensures Valid() && this.mem == mem && this.head == head && this.areas == areas
    {
      this.mem, this.head, this.areas := mem, head, areas;
    }

    /** __heap_delete: unlink node i. */
    method Delete(fa: int, ghost ds: seq<int>, ghost i: int)
      requires Linked(mem, head, ds) && Spread(ds) && 0 <= i < |ds| && fa == ds[i]
      modifies this`mem, this`head
      ensures Linked(mem, head, Without(ds, i))
      ensures SameExcept(old(mem), mem, NeighbourWords(ds, i, i + 1))
    {
      assert LinksAt(mem, ds, i);
      assert i > 0 ==> LinksAt(mem, ds, i - 1);
      assert i + 1 < |ds| ==> LinksAt(mem, ds, i + 1);
      if mem[fa + NEXT] != 0 {
        mem := mem[mem[fa + NEXT] + PREV := mem[fa + PREV]];
      }
      if mem[fa + PREV] != 0 {
        mem := mem[mem[fa + PREV] + NEXT := mem[fa + NEXT]];
      } else {
        head := mem[fa + NEXT];
      }
      RemoveLinked(old(mem), mem, old(head), head, ds, i);
    }

    /** __heap_link_free_area: fa takes the place of nodes i, ..., j - 1. */
    method LinkFreeArea(fa: int, prev: int, next: int, ghost ds: seq<int>, ghost i: int, ghost j: int)
      requires Linked(mem, head, ds) && 0 <= i <= j <= |ds| && Spread(Splice(ds, i, j, fa))
      requires prev == Link(ds, i - 1) && next == Link(ds, j) && HasNode(mem, fa)
      modifies this`mem, this`head
      ensures Linked(mem, head, Splice(ds, i, j, fa))
      ensures SameExcept(old(mem), mem, ReplaceWords(ds, i, j, fa))
    {
      hide Spread, Splice, Linked, LinksAt;
      ReplaceSpacing(mem, head, ds, i, j, fa);
      mem := mem[fa + NEXT := next];
      mem := mem[fa + PREV := prev];
      if prev != 0 {
        mem := mem[prev + NEXT := fa];
      } else {
        head := fa;
      }
      if next != 0 {
        mem := mem[next + PREV := fa];
      }
      ReplaceLinked(old(mem), mem, old(head), head, ds, i, j, fa);
    }

    /** __heap_link_free_area_after: node j follows node i - 1 directly. */
    method LinkFreeAreaAfter(fa: int, prev: int, ghost ds: seq<int>, ghost i: int, ghost j: int)
      requires Linked(mem, head, ds) && Spread(ds) && 0 <= i <= j < |ds|
      requires fa == ds[j] && prev == Link(ds, i - 1)
      modifies this`mem, this`head
      ensures Linked(mem, head, Splice(ds, i, j + 1, fa))
      ensures SameExcept(old(mem), mem, ReplaceWords(ds, i, j + 1, fa))
    {
      assert LinksAt(mem, ds, j);
      assert i > 0 ==> LinksAt(mem, ds, i - 1) && ds[i - 1] + NODE <= fa;
      if prev != 0 {
        mem := mem[prev + NEXT := fa];
      } else {
        head := fa;
      }
      mem := mem[fa + PREV := prev];
      SkipLinked(old(mem), mem, old(head), head, ds, i, j);
    }

    /** __heap_delete at the level of areas. */
    method RemoveArea(fa: int, ghost i: int)
      requires Valid() && 0 <= i < |areas| && fa == Desc(areas[i])
      modifies this
      ensures Valid() && areas == Without(old(areas), i)
      ensures SameOutside(old(mem), mem, areas)
    {
      hide WellFormed, Linked, Spread, Without, Sized, Backed;
      ghost var s, ds := areas, Descs(areas);
      DescsSpread(s);
      Delete(fa, ds, i);
      areas := Without(s, i);
      WithoutRepresented(old(mem), mem, head, s, i);
    }

    /** __heap_add_free_area: a new area [start, start+size) before node i. */
    method AddFreeArea(start: int, size: int, prev: int, next: int, ghost ds: seq<int>, ghost i: int)
      returns (fa: int)
      requires Linked(mem, head, ds) && 0 <= i <= |ds| && Spread(Splice(ds, i, i, start + size - DESCRIPTOR))
      requires prev == Link(ds, i - 1) && next == Link(ds, i) && HasNode(mem, start + size - DESCRIPTOR)
      modifies this`mem, this`head
      ensures fa == start + size - DESCRIPTOR
      ensures Linked(mem, head, Splice(ds, i, i, fa))
      ensures SameExcept(old(mem), mem, ReplaceWords(ds, i, i, fa) + {fa})
      ensures mem[fa] == size
    {
      fa := start + size - DESCRIPTOR;
      mem := mem[fa := size];
      SizeWriteKeepsLinks(old(mem), mem, head, ds, i, fa);
      LinkFreeArea(fa, prev, next, ds, i, i);
      SizeWordsKept(ds, i, i, fa, i);
    }

    /** The assignment to fa->size that closes a merge. */
    method StoreSize(fa: int, size: int, ghost ds: seq<int>, ghost i: int, ghost j: int, ghost before: Memory)
      requires 0 <= i <= j <= |ds| && Linked(mem, head, Splice(ds, i, j, fa)) && Spread(Splice(ds, i, j, fa))
      requires SameExcept(before, mem, ReplaceWords(ds, i, j, fa)) && HasNode(mem, fa)
      modifies this`mem
      ensures mem == old(mem)[fa := size]
      ensures Linked(mem, head, Splice(ds, i, j, fa))
      ensures SameExcept(before, mem, ReplaceWords(ds, i, j, fa) + {fa})
    {
      mem := mem[fa := size];
      SizeWriteInList(old(mem), mem, head, Splice(ds, i, j, fa), i);
    }

    /** The search loop of __heap_free. */
    method Search(start: int) returns (prev: int, fa: int, ghost i: int)
      requires Valid()
      ensures i == Position(areas, start)
      ensures fa == Link(Descs(areas), i) && prev == Link(Descs(areas), i - 1)
    {
      hide WellFormed, Backed, Sized, Linked;
      ghost var ds := Descs(areas);
      NodeAt(mem, head, areas, 0);
      prev, fa, i := 0, head, 0;
      while fa != 0
        invariant 0 <= i <= |areas| && fa == Link(ds, i) && prev == Link(ds, i - 1)
        invariant forall k :: 0 <= k < i ==> areas[k].End() < start
        decreases |areas| - i
      {
        NodeAt(mem, head, areas, i);
        if fa + DESCRIPTOR >= start { break; }
        prev, fa, i := fa, mem[fa + NEXT], i + 1;
      }
      NodeAt(mem, head, areas, i);
    }

    /** The branch of __heap_free that merges with the area at fa. */
    method Merge(start: int, size: int, prev: int, at: int, ghost s: seq<Area>, ghost ds: seq<int>, ghost i: int)
      returns (fa: int)
      requires Linked(mem, head, ds) && Surroundings(mem, s, ds, i, start, size)
      requires MergeCount(s, i, start + size) > 0
      requires at == ds[i] && prev == Link(ds, i - 1)
      requires var a, j := Merged(s, i, start, size), i + MergeCount(s, i, start + size);
        Spread(Splice(ds, i, j, Desc(a))) && HasNode(mem, Desc(a))
      modifies this`mem, this`head
      ensures var a, j := Merged(s, i, start, size), i + MergeCount(s, i, start + size);
        && fa == Desc(a) && fa in mem && mem[fa] == a.size
        && Linked(mem, head, Splice(ds, i, j, fa))
        && SameExcept(old(mem), mem, ReplaceWords(ds, i, j, fa) + {fa})
    {
      hide Linked, Spread, Splice, ReplaceWords;
      fa := at;
      var end := start + size;
      var faSize := mem[fa] + size;
      if fa + DESCRIPTOR - mem[fa] == end {
        if prev != 0 && start == prev + DESCRIPTOR {
          assert false;   // the search stopped at the first area that reaches start
        }
        ReplaceSelf(ds, i);
      } else {
        var next := mem[fa + NEXT];
        if next != 0 && end == next + DESCRIPTOR - mem[next] {
          faSize := faSize + mem[next];
          LinkFreeAreaAfter(next, prev, ds, i, i + 1);
          fa := next;
        } else {
          fa := fa + size;
          LinkFreeArea(fa, prev, next, ds, i, i + 1);
        }
      }
      StoreSize(fa, faSize, ds, i, i + MergeCount(s, i, end), old(mem));
    }

    /** __heap_free: return the memory [start, start+size) to the heap. */
    method HeapFree(start: int, size: int) returns (fa: int)
      requires Valid() && Insertable(areas, start, size) && InMemory(mem, start, size)
      modifies this
      ensures Valid() && areas == Insert(old(areas), start, size)
      ensures SameOutside(old(mem), mem, areas)
      ensures Position(old(areas), start) < |areas| && fa == Desc(areas[Position(old(areas), start)])
    {
      hide WellFormed, Backed, Linked, InMemory, Spread, Insert, Position, Splice, ReplaceWords, Sized,
           Covers;
      ghost var s, ds := areas, Descs(areas);
      var prev, at, i := Search(start);
      ghost var j, a := i + MergeCount(s, i, start + size), Merged(s, i, start, size);
      SurroundingsOf(mem, head, s, start, size);
      InsertedDescriptor(mem, s, start, size);
      if at != 0 && at + DESCRIPTOR - mem[at] <= start + size {
        fa := Merge(start, size, prev, at, s, ds, i);
      } else {
        fa := AddFreeArea(start, size, prev, at, ds, i);
      }
      areas := Splice(s, i, j, a);
      SpliceRepresented(old(mem), mem, head, s, i, j, a);
    }

    /** __heap_free_area_alloc: hand out the front of area i. */
    method FreeAreaAlloc(fa: int, size: int, ghost i: int) returns (taken: int)
      requires Valid() && 0 <= i < |areas| && fa == Desc(areas[i])
      requires 0 < size <= areas[i].size && Granular(size)
      modifies this
      ensures Valid() && areas == Take(old(areas), i, size)
      ensures taken == TakenSize(old(areas)[i].size, size)
      ensures SameOutside(old(mem), mem, areas)
    {
      hide WellFormed, Linked, Spread, Splice, Without, Sized, Backed;
      ghost var s := areas;
      NodeAt(mem, head, s, i);
      var faSize := mem[fa];
      taken := size;
      if faSize < size + MIN_FREE_AREA {
        RemoveArea(fa, i);
        taken := faSize;
      } else {
        mem := mem[fa := faSize - size];
        areas := Splice(s, i, i + 1, Area(s[i].start + size, s[i].size - size));
        ShrinkRepresented(old(mem), mem, head, s, i, size);
      }
    }

    /** The search loop of __heap_alloc. */
    method FindFit(n: int) returns (fa: int, ghost i: int)
      requires Valid()
      ensures i == FirstFit(areas, n) && fa == Link(Descs(areas), i)
      ensures if i < |areas| then fa == Desc(areas[i]) != 0 && fa in mem && mem[fa] == areas[i].size else fa == 0
    {
      hide WellFormed, Backed, Sized, Linked;
      ghost var ds := Descs(areas);
      NodeAt(mem, head, areas, 0);
      fa, i := head, 0;
      while fa != 0
        invariant 0 <= i <= |areas| && fa == Link(ds, i)
        invariant forall k :: 0 <= k < i ==> areas[k].size < n
        decreases |areas| - i
      {
        NodeAt(mem, head, areas, i);
        if mem[fa] >= n { break; }
        fa, i := mem[fa + NEXT], i + 1;
      }
      NodeAt(mem, head, areas, i);
    }

    /** __heap_alloc: at least `size` bytes from the first area that has them. */
    method HeapAlloc(size: int) returns (start: int, taken: int)
      requires Valid() && 0 <= size
      modifies this
      ensures Valid() && SameOutside(old(mem), mem, areas)
      ensures var n := RequestSize(size);
        var i := FirstFit(old(areas), n);
        if i < |old(areas)| then
          && start == old(areas)[i].start && taken == TakenSize(old(areas)[i].size, n)
          && areas == Take(old(areas), i, n)
        else start == 0 && taken == size && areas == old(areas) && mem == old(mem) && head == old(head)
    {
      var n := AdjustSize(size);
      if n < DESCRIPTOR {
        n := AdjustSize(DESCRIPTOR);
      }
      RequestSizeBounds(size);
      start, taken := 0, size;
      var fa, i := FindFit(n);
      if fa != 0 {
        start := fa + DESCRIPTOR - mem[fa];
        taken := FreeAreaAlloc(fa, n, i);
      }
    }

    /** __heap_alloc_at: `size` bytes at the address `start`; 0 when that fails.
        The loop stops at the first area that starts at or below `start`. */
    method HeapAllocAt(start: int, size: int) returns (taken: int)
      requires Valid() && 0 < size
      modifies this
      ensures Valid() && SameOutside(old(mem), mem, areas)
      ensures var n := AdjustSize(size);
        if old(areas) != [] && old(areas)[0].start == start && n <= old(areas)[0].size then
          && taken == TakenSize(old(areas)[0].size, n) > 0
          && areas == Take(old(areas), 0, n)
        else taken == 0 && areas == old(areas) && mem == old(mem) && head == old(head)
    {
      hide WellFormed, Backed, Sized, Linked, Take, AdjustSize;
      AdjustSizeBounds(size);
      var n := AdjustSize(size);
      ghost var ds, i := Descs(areas), 0;
      NodeAt(mem, head, areas, 0);
      taken := 0;
      var fa := head;
      while fa != 0
        invariant 0 <= i <= |areas| && fa == Link(ds, i)
        invariant Valid() && mem == old(mem) && areas == old(areas) && head == old(head)
        invariant forall k :: 0 <= k < i ==> start < areas[k].start
        decreases |areas| - i
      {
        NodeAt(mem, head, areas, i);
        NodeAt(mem, head, areas, 0);
        var faMem := fa + DESCRIPTOR - mem[fa];
        if faMem <= start {
          assert i == 0;
          if faMem == start && mem[fa] >= n {
            taken := FreeAreaAlloc(fa, n, 0);
          }
          return;
        }
        fa, i := mem[fa + NEXT], i + 1;
      }
      NodeAt(mem, head, areas, i);
    }

    /** __heap_check, with its failure reports folded into one answer. */
    method HeapCheck(ghost ds: seq<int>) returns (ok: bool)
      requires Chained(mem, head, ds)
      ensures ok <==> Checked(mem, ds)
    {
      hide Granular;
      ghost var i := 0;
      ok := head == 0 || mem[head + PREV] == 0;
      var prev, fa := 0, head;
      ghost var first := ok;
      while fa != 0
        invariant 0 <= i <= |ds| && fa == Link(ds, i) && prev == Link(ds, i - 1)
        invariant ok <==> first && CheckedUpTo(mem, ds, i)
        decreases |ds| - i
      {
        assert HasNode(mem, ds[i]) && mem[ds[i] + NEXT] == Link(ds, i + 1);
        ghost var before := ok;
        ok := ok && Granular(fa + DESCRIPTOR) && Granular(mem[fa]);
        ok := ok && mem[fa + PREV] == prev;
        if prev != 0 {
          var start, prevEnd := fa + DESCRIPTOR - mem[fa], prev + DESCRIPTOR;
          ok := ok && prevEnd < start;
        }
        assert ok <==> before && CheckedAt(mem, ds, i);
        prev, fa, i := fa, mem[fa + NEXT], i + 1;
      }
      assert !first ==> ds != [] && !CheckedAt(mem, ds, 0);
    }
  }

  // ----- what __heap_check accepts

  /** Nodes linked by their next pointers; nothing is said of the other words. */
  ghost predicate Chained(mem: Memory, head: int, ds: seq<int>) {
    && head == Link(ds, 0)
    && forall k :: 0 <= k < |ds| ==> ds[k] != 0 && HasNode(mem, ds[k]) && mem[ds[k] + NEXT] == Link(ds, k + 1)
  }

  /** The conditions of __heap_check on the k-th node. */
  predicate CheckedAt(mem: Memory, ds: seq<int>, k: int)
    requires 0 <= k < |ds| && HasNode(mem, ds[k])
  {
    && Granular(ds[k] + DESCRIPTOR) && Granular(mem[ds[k]])
    && mem[ds[k] + PREV] == Link(ds, k - 1)
    && (k > 0 ==> ds[k - 1] + DESCRIPTOR < ds[k] + DESCRIPTOR - mem[ds[k]])
  }

  ghost predicate CheckedUpTo(mem: Memory, ds: seq<int>, n: int)
    requires n <= |ds|
  {
    forall k :: 0 <= k < n ==> HasNode(mem, ds[k]) && CheckedAt(mem, ds, k)
  }

  ghost predicate Checked(mem: Memory, ds: seq<int>) { CheckedUpTo(mem, ds, |ds|) }

  /** The areas that the nodes describe. */
  function AreasOf(mem: Memory, ds: seq<int>): (s: seq<Area>)
    requires forall k :: 0 <= k < |ds| ==> ds[k] in mem
    ensures |s| == |ds| && forall k :: 0 <= k < |s| ==> s[k] == Area(ds[k] + DESCRIPTOR - mem[ds[k]], mem[ds[k]])
  {
    seq(|ds|, k requires 0 <= k < |ds| => Area(ds[k] + DESCRIPTOR - mem[ds[k]], mem[ds[k]]))
  }

  /** Gaps between neighbours put all areas in ascending order. */
  lemma {:induction false} NeighboursOrdered(s: seq<Area>, i: int, j: int)
    requires forall k :: 0 <= k < |s| ==> Fits(s[k])
    requires forall k :: 0 < k < |s| ==> s[k - 1].End() < s[k].start
    requires 0 <= i < j < |s|
    ensures s[i].End() < s[j].start
    decreases j
  {
    if i + 1 < j {
      NeighboursOrdered(s, i, j - 1);
      assert Fits(s[j - 1]);
    }
  }

  /** On areas that can hold their descriptors, __heap_check accepts exactly the lists this model calls well-formed. */
  lemma CheckedIffRepresents(mem: Memory, head: int, ds: seq<int>)
    requires Chained(mem, head, ds)
    requires forall k :: 0 <= k < |ds| ==> DESCRIPTOR <= mem[ds[k]] < ds[k] + DESCRIPTOR
    requires Backed(mem, AreasOf(mem, ds))
    ensures Checked(mem, ds) <==> Represents(mem, head, AreasOf(mem, ds))
  {
    hide Backed, WellFormed, Linked, Checked, Sized;
    var s := AreasOf(mem, ds);
    AreasOfNodes(mem, ds);
    if Checked(mem, ds) {
      CheckedIsWellFormed(mem, head, ds);
    }
    if Represents(mem, head, s) {
      RepresentedIsChecked(mem, head, s);
    }
  }

  lemma AreasOfNodes(mem: Memory, ds: seq<int>)
    requires forall k :: 0 <= k < |ds| ==> ds[k] in mem
    ensures Descs(AreasOf(mem, ds)) == ds && Sized(mem, AreasOf(mem, ds))
  {
    assert Descs(AreasOf(mem, ds)) == ds;
  }

  lemma CheckedIsWellFormed(mem: Memory, head: int, ds: seq<int>)
    requires Chained(mem, head, ds) && Checked(mem, ds)
    requires forall k :: 0 <= k < |ds| ==> DESCRIPTOR <= mem[ds[k]] < ds[k] + DESCRIPTOR
    ensures WellFormed(AreasOf(mem, ds)) && Linked(mem, head, ds)
  {
    var s := AreasOf(mem, ds);
    hide Checked, AreasOf, Fits, LinksAt, WellFormed;
    forall k | 0 <= k < |ds| ensures Separate(s, k) && LinksAt(mem, ds, k) {
      NodeChecked(mem, head, ds, k);
    }
    SeparateIsWellFormed(s);
  }

  predicate Separate(s: seq<Area>, k: int)
    requires 0 <= k < |s|
  {
    Fits(s[k]) && (k > 0 ==> s[k - 1].End() < s[k].start)
  }

  lemma SeparateIsWellFormed(s: seq<Area>)
    requires forall k :: 0 <= k < |s| ==> Separate(s, k)
    ensures WellFormed(s)
  {
    hide Fits;
    forall k | 0 <= k < |s| ensures Fits(s[k]) && (k > 0 ==> s[k - 1].End() < s[k].start) {
      assert Separate(s, k);
    }
    forall i, j | 0 <= i < j < |s| ensures s[i].End() < s[j].start {
      NeighboursOrdered(s, i, j);
    }
  }

  lemma NodeChecked(mem: Memory, head: int, ds: seq<int>, k: int)
    requires Chained(mem, head, ds) && Checked(mem, ds) && 0 <= k < |ds|
    requires DESCRIPTOR <= mem[ds[k]] < ds[k] + DESCRIPTOR
    ensures var s := AreasOf(mem, ds);
      Separate(s, k) && LinksAt(mem, ds, k)
  {
    hide Granular;
    assert HasNode(mem, ds[k]) && CheckedAt(mem, ds, k);
    assert mem[ds[k] + NEXT] == Link(ds, k + 1);
    GranularAdd(ds[k] + DESCRIPTOR, mem[ds[k]]);
  }

  /** In particular it finds nothing to report on a heap in a valid state. */
  lemma RepresentedIsChecked(mem: Memory, head: int, s: seq<Area>)
    requires Represents(mem, head, s)
    ensures Chained(mem, head, Descs(s)) && Checked(mem, Descs(s))
  {
    hide Backed, WellFormed;
    var ds := Descs(s);
    forall k | 0 <= k < |ds|
      ensures ds[k] != 0 && HasNode(mem, ds[k]) && mem[ds[k] + NEXT] == Link(ds, k + 1) && CheckedAt(mem, ds, k)
    {
      NodeAt(mem, head, s, k);
      GranularAdd(s[k].start, s[k].size);
    }
  }
}
