/** Which live blocks can be freed at any later time. */
module Returnable {
  import opened Basics
  import opened Layout
  import opened FreeList
  import opened Blocks
  import opened Allocation
  import opened Runs

  /** After every run that leaves block b alone it can still be handed to __heap_free. */
  ghost predicate StaysReturnable(c: Site, st: State, b: int)
    requires c.page > 0
  {
    forall ops :: ValidRun(c, st, ops) && Spared(c, st, ops, b) ==> ReturnableAfter(c, st, ops, b)
  }

  ghost predicate ReturnableAfter(c: Site, st: State, ops: seq<Op>, b: int)
    requires c.page > 0 && ValidRun(c, st, ops)
  {
    var st' := Final(c, st, ops);
    b in st'.live && Insertable(st'.areas, b, st'.live[b])
  }

  /** Among blocks that can hold a descriptor, block b can be freed at any later
      time exactly if it can hold one too. */
  lemma ReturnableForever(c: Site, st: State, b: int)
    requires Inv(c, st) && c.page > 0 && b in st.live && Roomy(st.live - {b})
    ensures StaysReturnable(c, st, b) <==> DESCRIPTOR <= st.live[b]
  {
    hide Inv, Insertable, ValidRun, Final, Spared, ReturnableAfter;
    if DESCRIPTOR <= st.live[b] {
      RoomyWhole(st.live, b);
      hide Roomy;
      forall ops | ValidRun(c, st, ops) && Spared(c, st, ops, b) ensures ReturnableAfter(c, st, ops, b) {
        LargeReturnable(c, st, ops, b);
      }
    } else {
      var ops := Drain(c, st, b);
      assert !ReturnableAfter(c, st, ops, b);
    }
  }

  lemma RoomyWhole(live: map<int, int>, b: int)
    requires b in live && DESCRIPTOR <= live[b] && Roomy(live - {b})
    ensures Roomy(live)
  {
    forall d | d in live ensures DESCRIPTOR <= live[d] {
      assert d != b ==> d in live - {b};
    }
  }

  lemma LargeReturnable(c: Site, st: State, ops: seq<Op>, b: int)
    requires Inv(c, st) && Roomy(st.live) && c.page > 0 && ValidRun(c, st, ops)
    requires b in st.live && DESCRIPTOR <= st.live[b] && Spared(c, st, ops, b)
    ensures ReturnableAfter(c, st, ops, b)
  {
    hide Inv, Roomy, Insertable, ValidRun, Final, Spared;
    RunKeeps(c, st, ops);
    BlockSurvives(c, st, ops, b);
    ReleaseKeeps(c, Final(c, st, ops), b);
  }

  /** A call of malloc for all of the first area leaves the rest of the list. */
  function TakeFirst(st: State): (op: Op)
    requires st.areas != []
  {
    Malloc(st.areas[0].size - HEADER, -1)
  }

  lemma FirstTaken(c: Site, st: State)
    requires Inv(c, st) && c.page > 0 && st.areas != []
    ensures Legal(st, TakeFirst(st)) && Answered(c, st, TakeFirst(st))
    ensures var st' := Step(c, st, TakeFirst(st));
      && Inv(c, st') && st'.areas == Without(st.areas, 0)
      && st.areas[0].start !in st.live && st'.live == st.live[st.areas[0].start := st.areas[0].size]
  {
    var s, n := st.areas, st.areas[0].size;
    AreaBounded(c, st, s[0]);
    assert Fits(s[0]);
    hide Inv;
    WholeRequest(n);
    assert FirstFit(s, n) == 0;
    GrantKeeps(c, st, 0, n);
    assert Step(c, st, TakeFirst(st)) == Grant(st, 0, n);
  }

  lemma AreaBounded(c: Site, st: State, a: Area)
    requires Inv(c, st) && a in st.areas
    ensures a.size < ADDRESS_LIMIT
  {
    hide LiveCovers;
    assert Fits(a);
    assert a.Has(a.End() - 1);
    assert Covers(st.areas, a.End() - 1);
    assert Owned(c, st.mapped, a.End() - 1);
  }

  /** A run of mallocs that leaves no area to merge with. With nothing to touch, a
      block smaller than a descriptor cannot be freed any more. */
  lemma {:induction false} Drain(c: Site, st: State, b: int) returns (ops: seq<Op>)
    requires Inv(c, st) && c.page > 0 && b in st.live && st.live[b] < DESCRIPTOR
    ensures ValidRun(c, st, ops) && Spared(c, st, ops, b) && !ReturnableAfter(c, st, ops, b)
    decreases |st.areas|
  {
    if st.areas == [] {
      ops := [];
    } else {
      var op := TakeFirst(st);
      FirstTaken(c, st);
      var next := Step(c, st, op);
      hide Inv, Step, Insertable;
      var rest := Drain(c, next, b);
      ops := [op] + rest;
      assert ops[0] == op && ops[1..] == rest;
    }
  }

  /** What would happen then: with no area to merge with, __heap_free would place
      the descriptor at the end of the block, so that it starts below the block,
      over a byte that is not free. */
  lemma DescriptorOutside(c: Site, st: State, b: int)
    requires Inv(c, st) && b in st.live && !Insertable(st.areas, b, st.live[b])
    ensures st.live[b] < DESCRIPTOR && b + st.live[b] - DESCRIPTOR <= b - 1
    ensures !Covers(st.areas, b - 1) && !Covers(st.areas, b + st.live[b])
    ensures Insert(st.areas, b, st.live[b])[Position(st.areas, b)] == Area(b, st.live[b])
  {
    LiveApart(c, st, b);
    var s, n := st.areas, st.live[b];
    BlockAligned(c, st, b);
    assert !Touches(s, b, n);
    forall k | 0 <= k < |s| ensures s[k].End() < b || b + n < s[k].start {
      assert s[k].End() != b && s[k].start != b + n;
    }
  }
}
