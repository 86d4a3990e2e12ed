/** Doubly linked nodes of three words (size, next, prev) in a word memory. A
    list is the sequence of its node addresses. */
module Links {
  import opened Basics

  /** Memory by aligned 8-byte words: every store of the allocator is one. */
  type Memory = map<int, int>

  const NODE: int := 24
  const NEXT: int := 8
  const PREV: int := 16

  predicate HasNode(mem: Memory, d: int) { d in mem && d + NEXT in mem && d + PREV in mem }

  /** Nodes in ascending order that do not overlap. */
  ghost predicate Spread(ds: seq<int>) {
    && (forall k :: 0 <= k < |ds| ==> 0 < ds[k])
    && (forall k, l :: 0 <= k < l < |ds| ==> ds[k] + NODE <= ds[l])
  }

  /** The address of the k-th node; 0 outside the list. */
  function Link(ds: seq<int>, k: int): int {
    if 0 <= k < |ds| then ds[k] else 0
  }

  predicate LinksAt(mem: Memory, ds: seq<int>, k: int)
    requires 0 <= k < |ds|
  {
    HasNode(mem, ds[k]) && mem[ds[k] + NEXT] == Link(ds, k + 1) && mem[ds[k] + PREV] == Link(ds, k - 1)
  }

  /** The words at the nodes spell the list, in both directions. */
  ghost predicate Linked(mem: Memory, head: int, ds: seq<int>) {
    head == Link(ds, 0) && forall k :: 0 <= k < |ds| ==> LinksAt(mem, ds, k)
  }

  /** Only the words in w may differ. */
  ghost predicate SameExcept(mem: Memory, mem': Memory, w: set<int>) {
    mem.Keys == mem'.Keys && forall x :: x in mem && x !in w ==> mem'[x] == mem[x]
  }

  lemma ReplaceSelf(ds: seq<int>, i: int)
    requires 0 <= i < |ds|
    ensures Splice(ds, i, i + 1, ds[i]) == ds
  {
  }

  /** The link words written when d replaces nodes i, ..., j - 1. */
  function ReplaceWords(ds: seq<int>, i: int, j: int, d: int): set<int> {
    {d + NEXT, d + PREV} + NeighbourWords(ds, i, j)
  }

  function NeighbourWords(ds: seq<int>, i: int, j: int): set<int> {
    (if 0 < i <= |ds| then {ds[i - 1] + NEXT} else {}) + (if 0 <= j < |ds| then {ds[j] + PREV} else {})
  }

  /** The new node lies between its neighbours, apart from both. */
  lemma ReplaceSpacing(mem: Memory, head: int, ds: seq<int>, i: int, j: int, d: int)
    requires Linked(mem, head, ds) && 0 <= i <= j <= |ds| && Spread(Splice(ds, i, j, d))
    ensures 0 < d && (i > 0 ==> 0 < ds[i - 1]) && (j < |ds| ==> 0 < ds[j])
    ensures i > 0 ==> ds[i - 1] + NODE <= d && HasNode(mem, ds[i - 1])
    ensures j < |ds| ==> d + NODE <= ds[j] && HasNode(mem, ds[j])
    ensures i > 0 && j < |ds| ==> ds[i - 1] + NODE <= ds[j]
  {
    var es := Splice(ds, i, j, d);
    assert i > 0 ==> LinksAt(mem, ds, i - 1) && es[i - 1] == ds[i - 1];
    assert j < |ds| ==> LinksAt(mem, ds, j) && es[i + 1] == ds[j];
  }

  /** Writing d's own links and the neighbours' links to d replaces the nodes. */
  lemma ReplaceLinked(mem: Memory, mem': Memory, head: int, head': int, ds: seq<int>, i: int, j: int, d: int)
    requires 0 <= i <= j <= |ds| && Spread(Splice(ds, i, j, d))
    requires Linked(mem, head, ds)
    requires SameExcept(mem, mem', ReplaceWords(ds, i, j, d))
    requires HasNode(mem', d) && mem'[d + NEXT] == Link(ds, j) && mem'[d + PREV] == Link(ds, i - 1)
    requires i > 0 ==> HasNode(mem', ds[i - 1]) && mem'[ds[i - 1] + NEXT] == d
    requires j < |ds| ==> HasNode(mem', ds[j]) && mem'[ds[j] + PREV] == d
    requires head' == if i == 0 then d else head
    ensures Linked(mem', head', Splice(ds, i, j, d))
  {
    var es := Splice(ds, i, j, d);
    forall k | 0 <= k < |es|
      ensures LinksAt(mem', es, k)
    {
      if k < i {
        ReplaceLinksBelow(mem, mem', ds, i, j, d, k);
      } else if k > i {
        ReplaceLinksAbove(mem, mem', ds, i, j, d, k);
      }
    }
  }

  lemma ReplaceLinksBelow(mem: Memory, mem': Memory, ds: seq<int>, i: int, j: int, d: int, k: int)
    requires 0 <= k < i <= j <= |ds| && Spread(Splice(ds, i, j, d)) && LinksAt(mem, ds, k)
    requires SameExcept(mem, mem', ReplaceWords(ds, i, j, d))
    requires HasNode(mem', ds[i - 1]) && mem'[ds[i - 1] + NEXT] == d
    ensures LinksAt(mem', Splice(ds, i, j, d), k)
  {
    var es := Splice(ds, i, j, d);
    var x := ds[k];
    assert es[k] == x && x + NODE <= d;
    assert k < i - 1 ==> x + NODE <= es[i - 1] == ds[i - 1];
    assert j < |ds| ==> x + NODE <= es[i + 1] == ds[j];
    assert x + PREV !in ReplaceWords(ds, i, j, d);
    if k < i - 1 { assert x + NEXT !in ReplaceWords(ds, i, j, d); }
  }

  lemma ReplaceLinksAbove(mem: Memory, mem': Memory, ds: seq<int>, i: int, j: int, d: int, k: int)
    requires 0 <= i <= j <= |ds| && Spread(Splice(ds, i, j, d)) && i < k < |Splice(ds, i, j, d)|
    requires LinksAt(mem, ds, k - i - 1 + j)
    requires SameExcept(mem, mem', ReplaceWords(ds, i, j, d))
    requires j < |ds| ==> HasNode(mem', ds[j]) && mem'[ds[j] + PREV] == d
    ensures LinksAt(mem', Splice(ds, i, j, d), k)
  {
    var es := Splice(ds, i, j, d);
    var x := es[k];
    assert d + NODE <= x;
    assert i > 0 ==> ds[i - 1] == es[i - 1] && ds[i - 1] + NODE <= x;
    assert k > i + 1 ==> ds[j] == es[i + 1] && ds[j] + NODE <= x;
    assert x + NEXT !in ReplaceWords(ds, i, j, d);
    if k > i + 1 { assert x + PREV !in ReplaceWords(ds, i, j, d); }
  }

  /** Linking the neighbours of node i with each other removes it. */
  lemma RemoveLinked(mem: Memory, mem': Memory, head: int, head': int, ds: seq<int>, i: int)
    requires 0 <= i < |ds| && Spread(ds) && Linked(mem, head, ds)
    requires SameExcept(mem, mem', NeighbourWords(ds, i, i + 1))
    requires i > 0 ==> HasNode(mem', ds[i - 1]) && mem'[ds[i - 1] + NEXT] == Link(ds, i + 1)
    requires i + 1 < |ds| ==> HasNode(mem', ds[i + 1]) && mem'[ds[i + 1] + PREV] == Link(ds, i - 1)
    requires head' == if i == 0 then Link(ds, 1) else head
    ensures Linked(mem', head', Without(ds, i))
  {
    var es := Without(ds, i);
    forall k | 0 <= k < |es|
      ensures LinksAt(mem', es, k)
    {
      if k < i {
        assert LinksAt(mem, ds, k);
        RemoveLinksBelow(mem, mem', ds, i, k);
      } else {
        assert LinksAt(mem, ds, k + 1);
        RemoveLinksAbove(mem, mem', ds, i, k + 1);
      }
    }
  }

  lemma RemoveLinksBelow(mem: Memory, mem': Memory, ds: seq<int>, i: int, l: int)
    requires 0 <= l < i < |ds| && Spread(ds) && LinksAt(mem, ds, l)
    requires SameExcept(mem, mem', NeighbourWords(ds, i, i + 1))
    requires HasNode(mem', ds[i - 1]) && mem'[ds[i - 1] + NEXT] == Link(ds, i + 1)
    ensures LinksAt(mem', Without(ds, i), l)
  {
    var x, w := ds[l], NeighbourWords(ds, i, i + 1);
    assert l < i - 1 ==> x + NODE <= ds[i - 1];
    assert i + 1 < |ds| ==> x + NODE <= ds[i + 1];
    assert x + PREV !in w;
    if l < i - 1 { assert x + NEXT !in w; }
  }

  lemma RemoveLinksAbove(mem: Memory, mem': Memory, ds: seq<int>, i: int, l: int)
    requires 0 <= i < l < |ds| && Spread(ds) && LinksAt(mem, ds, l)
    requires SameExcept(mem, mem', NeighbourWords(ds, i, i + 1))
    requires HasNode(mem', ds[i + 1]) && mem'[ds[i + 1] + PREV] == Link(ds, i - 1)
    ensures LinksAt(mem', Without(ds, i), l - 1)
  {
    var x, w := ds[l], NeighbourWords(ds, i, i + 1);
    assert i > 0 ==> ds[i - 1] + NODE <= x;
    assert l > i + 1 ==> ds[i + 1] + NODE <= x;
    assert x + NEXT !in w;
    if l > i + 1 { assert x + PREV !in w; }
  }

  /** The size word of a node is none of the link words a replacement writes. */
  lemma SizeWordsKept(ds: seq<int>, i: int, j: int, d: int, k: int)
    requires 0 <= i <= j <= |ds| && Spread(Splice(ds, i, j, d)) && 0 <= k < |Splice(ds, i, j, d)|
    ensures Splice(ds, i, j, d)[k] !in ReplaceWords(ds, i, j, d)
  {
    var es := Splice(ds, i, j, d);
    var x := es[k];
    assert x + NODE <= d || d + NODE <= x || k == i;
    assert i > 0 ==> es[i - 1] == ds[i - 1] && (x + NODE <= es[i - 1] || es[i - 1] + NODE <= x || k == i - 1);
    assert j < |ds| ==> es[i + 1] == ds[j] && (x + NODE <= es[i + 1] || es[i + 1] + NODE <= x || k == i + 1);
  }

  lemma SkipLinked(mem: Memory, mem': Memory, head: int, head': int, ds: seq<int>, i: int, j: int)
    requires 0 <= i <= j < |ds| && Spread(ds) && Linked(mem, head, ds)
    requires SameExcept(mem, mem', NeighbourWords(ds, i, j))
    requires HasNode(mem', ds[j]) && mem'[ds[j] + PREV] == Link(ds, i - 1)
    requires i > 0 ==> HasNode(mem', ds[i - 1]) && mem'[ds[i - 1] + NEXT] == ds[j]
    requires head' == if i == 0 then ds[j] else head
    ensures Linked(mem', head', Splice(ds, i, j + 1, ds[j]))
    ensures SameExcept(mem, mem', ReplaceWords(ds, i, j + 1, ds[j]))
  {
    hide Splice, ReplaceWords, NeighbourWords, Spread, Linked, SameExcept, LinksAt;
    ReplaceSpread(ds, i, j);
    SkipWords(ds, i, j);
    SameExceptMore(mem, mem', NeighbourWords(ds, i, j), ReplaceWords(ds, i, j + 1, ds[j]));
    SkippedOver(mem, mem', head, ds, i, j);
    ReplaceLinked(mem, mem', head, head', ds, i, j + 1, ds[j]);
  }

  lemma SameExceptMore(mem: Memory, mem': Memory, w: set<int>, more: set<int>)
    requires SameExcept(mem, mem', w) && w <= more
    ensures SameExcept(mem, mem', more)
  {
  }

  /** The links behind node j are as they were. */
  lemma SkippedOver(mem: Memory, mem': Memory, head: int, ds: seq<int>, i: int, j: int)
    requires 0 <= i <= j < |ds| && Spread(ds) && Linked(mem, head, ds)
    requires SameExcept(mem, mem', NeighbourWords(ds, i, j)) && HasNode(mem', ds[j])
    ensures mem'[ds[j] + NEXT] == Link(ds, j + 1)
    ensures j + 1 < |ds| ==> HasNode(mem', ds[j + 1]) && mem'[ds[j + 1] + PREV] == ds[j]
  {
    SkipWords(ds, i, j);
    hide NeighbourWords, Spread;
    assert LinksAt(mem, ds, j);
    assert j + 1 < |ds| ==> LinksAt(mem, ds, j + 1);
  }

  lemma SkipWords(ds: seq<int>, i: int, j: int)
    requires 0 <= i <= j < |ds| && Spread(ds)
    ensures NeighbourWords(ds, i, j) <= ReplaceWords(ds, i, j + 1, ds[j])
    ensures ds[j] + NEXT !in NeighbourWords(ds, i, j)
    ensures j + 1 < |ds| ==> ds[j + 1] + PREV !in NeighbourWords(ds, i, j)
  {
    assert i > 0 ==> ds[i - 1] + NODE <= ds[j];
    assert j + 1 < |ds| ==> ds[j] + NODE <= ds[j + 1];
    assert i > 0 && j + 1 < |ds| ==> ds[i - 1] + NODE <= ds[j + 1];
  }

  lemma ReplaceSpread(ds: seq<int>, i: int, j: int)
    requires Spread(ds) && 0 <= i <= j < |ds|
    ensures Spread(Splice(ds, i, j + 1, ds[j]))
  {
    var es := Splice(ds, i, j + 1, ds[j]);
    forall k, l | 0 <= k < l < |es|
      ensures es[k] + NODE <= es[l]
    {
      assert es[k] == ds[if k < i then k else k - i + j];
      assert es[l] == ds[if l < i then l else l - i + j];
    }
  }

  /** Storing the size of a node that is yet to be linked disturbs no link. */
  lemma SizeWriteKeepsLinks(mem: Memory, mem': Memory, head: int, ds: seq<int>, i: int, d: int)
    requires Linked(mem, head, ds) && 0 <= i <= |ds| && Spread(Splice(ds, i, i, d))
    requires SameExcept(mem, mem', {d})
    ensures Linked(mem', head, ds)
  {
    var es := Splice(ds, i, i, d);
    forall k | 0 <= k < |ds|
      ensures LinksAt(mem', ds, k)
    {
      assert LinksAt(mem, ds, k);
      if k < i {
        assert es[k] == ds[k] && es[k] + NODE <= d;
      } else {
        assert es[k + 1] == ds[k] && d + NODE <= es[k + 1];
      }
    }
  }

  lemma SizeWriteInList(mem: Memory, mem': Memory, head: int, ds: seq<int>, i: int)
    requires Linked(mem, head, ds) && 0 <= i < |ds| && Spread(ds) && SameExcept(mem, mem', {ds[i]})
    ensures Linked(mem', head, ds)
  {
    forall k | 0 <= k < |ds|
      ensures LinksAt(mem', ds, k)
    {
      assert LinksAt(mem, ds, k);
      assert k < i ==> ds[k] + NODE <= ds[i];
      assert i < k ==> ds[i] + NODE <= ds[k];
    }
  }

  lemma NeighbourWordsAvoidSizes(ds: seq<int>, i: int, k: int)
    requires Spread(ds) && 0 <= i < |ds| && 0 <= k < |ds| && k != i
    ensures ds[k] !in NeighbourWords(ds, i, i + 1)
  {
    assert i > 0 ==> k == i - 1 || ds[k] + NODE <= ds[i - 1] || ds[i - 1] + NODE <= ds[k];
    assert i + 1 < |ds| ==> k == i + 1 || ds[k] + NODE <= ds[i + 1] || ds[i + 1] + NODE <= ds[k];
  }
}
