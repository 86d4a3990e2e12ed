/** Whole programs against the allocator in memory. */
module Program {
  import opened Basics
  import opened Layout
  import opened Links
  import opened Blocks
  import opened Allocation
  import opened Runs
  import opened Allocator

  /** Block b is still live with the same size, and none of its words changed. */
  ghost predicate Kept(mem: Memory, mem': Memory, live: map<int, int>, live': map<int, int>, b: int)
    requires b in live
  {
    && b in live' && live'[b] == live[b]
    && forall x :: x in mem && b <= x < b + live[b] ==> x in mem' && mem'[x] == mem[x]
  }

  lemma UntouchedKept(mem: Memory, mem': Memory, some: map<int, int>, live: map<int, int>, live': map<int, int>, b: int)
    requires Untouched(mem, mem', some) && b in some && b in live && some[b] == live[b]
    requires b in live' && live'[b] == live[b]
    ensures Kept(mem, mem', live, live', b)
  {
    forall x | x in mem && b <= x < b + live[b] ensures x in mem' && mem'[x] == mem[x] {
      assert LiveCovers(some, x);
    }
  }

  /** One call. It changes hands as Step says, and touches no word of a block that
      it does not free or resize; a realloc that fails touches none at all. */
  method Perform(a: Allocator, op: Op)
    requires a.Valid() && a.site.page > 0 && Legal(a.Owners(), op) && Answered(a.site, a.Owners(), op)
    modifies a, a.heap
    ensures a.Valid() && a.Owners() == Step(a.site, old(a.Owners()), op)
    ensures forall b :: b in old(a.live) && !Changes(a.site, old(a.Owners()), op, b + HEADER) ==>
      Kept(old(a.heap.mem), a.heap.mem, old(a.live), a.live, b)
  {
    hide Holds, MallocOp, FreeOp, ReallocOp, MemalignOp, BlockLength, MmapAnswer, PowerOfTwo, AdjustSize,
         RequestSize, LiveCovers, Kept, Untouched, Min;
    ghost var st, mem := a.Owners(), a.heap.mem;
    OwnersKept(a.site, mem, a.heap.head, st, op);
    NullIsNoBlock(a.site, mem, a.heap.head, st);
    ghost var some := st.live;
    match op {
      case Malloc(size, answer) =>
        var r := a.Malloc(size, answer);
      case Free(ptr) =>
        a.Free(ptr);
        some := a.live;
      case Realloc(ptr, size, answer) =>
        var r := a.Realloc(ptr, size, answer);
        if !(r == 0 && ptr != 0 && size > 0) { some := st.live - {ptr - HEADER}; }
      case Memalign(alignment, size, answer) =>
        var r := a.Memalign(alignment, size, answer);
    }
    forall b | b in st.live && !Changes(a.site, st, op, b + HEADER)
      ensures Kept(mem, a.heap.mem, st.live, a.live, b)
    {
      UntouchedKept(mem, a.heap.mem, some, st.live, a.live, b);
    }
  }

  lemma NullIsNoBlock(c: Site, mem: Memory, head: int, st: State)
    requires Holds(c, mem, head, st)
    ensures 0 - HEADER !in st.live
  {
  }

  lemma OwnersKept(c: Site, mem: Memory, head: int, st: State, op: Op)
    requires Holds(c, mem, head, st) && c.page > 0 && Legal(st, op) && Answered(c, st, op)
    ensures forall b :: b in st.live && !Changes(c, st, op, b + HEADER) ==>
      b in Step(c, st, op).live && Step(c, st, op).live[b] == st.live[b]
  {
    hide Step, Legal, Answered, Changes;
    StepKeeps(c, st, op);
  }

  // ----- executions: calls and the client's own stores

  /** A call, or a store by the client into a block it holds. */
  datatype Event =
    | Call(op: Op)
    | Write(addr: int, value: int, block: int)

  ghost predicate Allowed(c: Site, st: State, e: Event)
    requires c.page > 0
  {
    match e
    case Call(op) => Legal(st, op) && Answered(c, st, op)
    case Write(addr, _, b) => b in st.live && b + HEADER <= addr < b + st.live[b] && Granular(addr)
  }

  ghost function NextState(c: Site, st: State, e: Event): (st': State)
    requires c.page > 0 && Allowed(c, st, e)
  {
    if e.Call? then Step(c, st, e.op) else st
  }

  ghost predicate ValidTrace(c: Site, st: State, es: seq<Event>)
    requires c.page > 0
    decreases |es|
  {
    es == [] || (Allowed(c, st, es[0]) && ValidTrace(c, NextState(c, st, es[0]), es[1..]))
  }

  /** The calls of an execution. */
  function Calls(es: seq<Event>): (ops: seq<Op>)
    decreases |es|
  {
    if es == [] then [] else (if es[0].Call? then [es[0].op] else []) + Calls(es[1..])
  }

  /** Stores do not matter for who owns what. */
  lemma {:induction false} TraceRuns(c: Site, st: State, es: seq<Event>)
    requires c.page > 0 && ValidTrace(c, st, es)
    ensures ValidRun(c, st, Calls(es))
    decreases |es|
  {
    hide Legal, Answered, Step;
    if es != [] {
      TraceRuns(c, NextState(c, st, es[0]), es[1..]);
      var ops := Calls(es);
      if es[0].Call? {
        assert ops[0] == es[0].op && ops[1..] == Calls(es[1..]);
      } else {
        assert ops == Calls(es[1..]);
      }
    }
  }

  lemma FinalNext(c: Site, st: State, es: seq<Event>)
    requires c.page > 0 && es != [] && ValidTrace(c, st, es)
    ensures ValidRun(c, st, Calls(es)) && ValidRun(c, NextState(c, st, es[0]), Calls(es[1..]))
    ensures Final(c, st, Calls(es)) == Final(c, NextState(c, st, es[0]), Calls(es[1..]))
  {
    hide Legal, Answered, Step;
    TraceRuns(c, st, es);
    TraceRuns(c, NextState(c, st, es[0]), es[1..]);
    var ops := Calls(es);
    if es[0].Call? {
      assert ops[0] == es[0].op && ops[1..] == Calls(es[1..]);
    } else {
      assert ops == Calls(es[1..]);
    }
  }

  /** What the client's stores make of a word that held v: the last value stored. */
  function Stored(es: seq<Event>, x: int, v: int): (w: int) {
    if es == [] then v
    else
      var last := es[|es| - 1];
      if last.Write? && last.addr == x then last.value else Stored(es[..|es| - 1], x, v)
  }

  /** Block b is still live with the same size, and each of its words, header and
      user data alike, holds what the client stored there last. */
  ghost predicate Private(mem: Memory, mem': Memory, live: map<int, int>, live': map<int, int>, b: int, es: seq<Event>)
    requires b in live
  {
    && b in live' && live'[b] == live[b]
    && forall x :: x in mem && b <= x < b + live[b] ==> x in mem' && mem'[x] == Stored(es, x, mem[x])
  }

  lemma PrivateAtFirst(mem: Memory, live: map<int, int>, b: int)
    requires b in live
    ensures Private(mem, mem, live, live, b, [])
  {
  }

  lemma PrivateAfterCall(mem: Memory, mem1: Memory, mem2: Memory, live: map<int, int>, live1: map<int, int>,
                         live2: map<int, int>, b: int, es: seq<Event>, op: Op)
    requires b in live && Private(mem, mem1, live, live1, b, es) && Kept(mem1, mem2, live1, live2, b)
    ensures Private(mem, mem2, live, live2, b, es + [Call(op)])
  {
    assert (es + [Call(op)])[..|es|] == es;
  }

  lemma PrivateAfterWrite(mem: Memory, mem1: Memory, live: map<int, int>, live1: map<int, int>,
                          b: int, es: seq<Event>, addr: int, value: int, block: int)
    requires b in live && Private(mem, mem1, live, live1, b, es)
    ensures Private(mem, mem1[addr := value], live, live1, b, es + [Write(addr, value, block)])
  {
    assert (es + [Write(addr, value, block)])[..|es|] == es;
  }

  /** One event of an execution. */
  method Happen(a: Allocator, e: Event)
    requires a.Valid() && a.site.page > 0 && Allowed(a.site, a.Owners(), e)
    modifies a, a.heap
    ensures a.Valid() && a.Owners() == NextState(a.site, old(a.Owners()), e)
    ensures e.Call? ==> forall b :: b in old(a.live) && !Changes(a.site, old(a.Owners()), e.op, b + HEADER) ==>
      Kept(old(a.heap.mem), a.heap.mem, old(a.live), a.live, b)
    ensures e.Write? ==> a.heap.mem == old(a.heap.mem)[e.addr := e.value] && a.live == old(a.live)
  {
    hide Holds, Legal, Answered, Step, Changes, Kept;
    match e {
      case Call(op) => Perform(a, op);
      case Write(addr, value, b) => a.Store(addr, value, b);
    }
  }

  /** What one event leaves of a block that is private so far. */
  lemma PrivateNext(mem: Memory, mem1: Memory, mem2: Memory, live: map<int, int>, live1: map<int, int>,
                    live2: map<int, int>, b: int, es: seq<Event>, e: Event)
    requires b in live && Private(mem, mem1, live, live1, b, es)
    requires e.Call? ==> b in live1 && Kept(mem1, mem2, live1, live2, b)
    requires e.Write? ==> mem2 == mem1[e.addr := e.value] && live2 == live1
    ensures Private(mem, mem2, live, live2, b, es + [e])
  {
    hide Stored;
    if e.Call? {
      PrivateAfterCall(mem, mem1, mem2, live, live1, live2, b, es, e.op);
    } else {
      PrivateAfterWrite(mem, mem1, live, live1, b, es, e.addr, e.value, e.block);
    }
  }

  lemma SparedNext(c: Site, st: State, es: seq<Event>, b: int)
    requires c.page > 0 && es != [] && ValidTrace(c, st, es) && ValidRun(c, st, Calls(es))
    requires Spared(c, st, Calls(es), b)
    ensures ValidRun(c, NextState(c, st, es[0]), Calls(es[1..]))
    ensures Spared(c, NextState(c, st, es[0]), Calls(es[1..]), b)
    ensures es[0].Call? ==> !Changes(c, st, es[0].op, b + HEADER)
  {
    hide Legal, Answered, Step, Changes;
    FinalNext(c, st, es);
    var ops := Calls(es);
    if es[0].Call? {
      assert ops[0] == es[0].op && ops[1..] == Calls(es[1..]);
    } else {
      assert ops == Calls(es[1..]);
    }
  }

  lemma PrivateStays(mem: Memory, mem': Memory, live: map<int, int>, live': map<int, int>, b: int, es: seq<Event>)
    requires b in live && Private(mem, mem', live, live', b, es)
    ensures b in live' && live'[b] == live[b]
  {
  }

  /** A whole execution: the memory follows the run of the ownership states, and a
      block that no call names is private memory: a word of it holds what the
      client stored there last, or what it held at first. */
  method Execute(a: Allocator, es: seq<Event>)
    requires a.Valid() && a.site.page > 0 && ValidTrace(a.site, a.Owners(), es)
    modifies a, a.heap
    ensures a.Valid()
    ensures ValidRun(a.site, old(a.Owners()), Calls(es)) && a.Owners() == Final(a.site, old(a.Owners()), Calls(es))
    ensures forall b :: b in old(a.live) && Spared(a.site, old(a.Owners()), Calls(es), b) ==>
      Private(old(a.heap.mem), a.heap.mem, old(a.live), a.live, b, es)
  {
    hide Holds, Allowed, NextState, Changes, Kept, Private, Spared, Final, ValidRun, ValidTrace;
    ghost var c, st, mem := a.site, a.Owners(), a.heap.mem;
    forall b | b in st.live ensures Private(mem, mem, st.live, st.live, b, []) { PrivateAtFirst(mem, st.live, b); }
    TraceRuns(c, st, es);
    var i := 0;
    assert es[0..] == es && es[..0] == [];
    while i < |es|
      invariant 0 <= i <= |es| && a.Valid()
      invariant ValidTrace(c, a.Owners(), es[i..]) && ValidRun(c, a.Owners(), Calls(es[i..]))
      invariant Final(c, a.Owners(), Calls(es[i..])) == Final(c, st, Calls(es))
      invariant forall b :: b in st.live && Spared(c, st, Calls(es), b) ==>
        Spared(c, a.Owners(), Calls(es[i..]), b) && Private(mem, a.heap.mem, st.live, a.live, b, es[..i])
    {
      ghost var st1, mem1, past, rest := a.Owners(), a.heap.mem, es[..i], es[i..];
      assert rest[0] == es[i] && rest[1..] == es[i + 1..] && es[..i + 1] == past + [es[i]];
      FinalNext(c, st1, rest);
      TraceNext(c, st1, rest);
      Happen(a, es[i]);
      forall b | b in st.live && Spared(c, st, Calls(es), b)
        ensures Spared(c, a.Owners(), Calls(es[i + 1..]), b)
        ensures Private(mem, a.heap.mem, st.live, a.live, b, es[..i + 1])
      {
        SparedNext(c, st1, rest, b);
        PrivateStays(mem, mem1, st.live, st1.live, b, past);
        PrivateNext(mem, mem1, a.heap.mem, st.live, st1.live, a.live, b, past, es[i]);
      }
      i := i + 1;
    }
    assert es[i..] == [] && es[..i] == es;
    NoCalls(c, a.Owners());
  }

  lemma TraceNext(c: Site, st: State, es: seq<Event>)
    requires c.page > 0 && es != [] && ValidTrace(c, st, es)
    ensures Allowed(c, st, es[0]) && ValidTrace(c, NextState(c, st, es[0]), es[1..])
  {
  }

  lemma NoCalls(c: Site, st: State)
    requires c.page > 0
    ensures ValidRun(c, st, Calls([])) && Final(c, st, Calls([])) == st
  {
  }
}
