/** Lazy binding: calls through the procedure linkage tables after relocation. */
module LazyBinding {
  import opened SymbolLookup
  import opened Relocation

  // ----- objects and their handles

  /** The addresses of the link maps: no two objects share one. */
  ghost predicate DistinctHandles(p: Program) {
    forall o, o' :: 0 <= o < |p.objects| && 0 <= o' < |p.objects| && p.handle(o) == p.handle(o') ==> o == o'
  }

  predicate IsHandle(p: Program, l: int) {
    exists o :: 0 <= o < |p.objects| && p.handle(o) == l
  }

  /** The object a handle points to. */
  function ObjectAt(p: Program, l: int): (o: int)
    requires DistinctHandles(p) && IsHandle(p, l)
    ensures 0 <= o < |p.objects| && p.handle(o) == l
  {
    var o :| 0 <= o < |p.objects| && p.handle(o) == l;
    o
  }

  // ----- the procedure linkage tables

  /** A PLT entry of the program: entry k of object o. */
  predicate IsPlt(p: Program, o: int, k: int) {
    && 0 <= o < |p.objects| && p.objects[o].hasGot && 0 <= k < |p.objects[o].jmprel|
    && p.objects[o].jmprel[k].kind.JumpSlot?
  }

  function Slot(p: Program, o: int, k: int): (a: int)
    requires IsPlt(p, o, k)
  {
    p.objects[o].loaded.address + p.objects[o].jmprel[k].offset
  }

  /** The stub of an entry: the word in the file, moved to the load address. */
  function Stub(p: Program, start: Words, o: int, k: int): (a: int)
    requires IsPlt(p, o, k)
  {
    (Read(start, Slot(p, o, k)) + p.objects[o].loaded.address) % WORDS
  }

  /** The symbol of the entry, as lookup answers it. */
  ghost function Callee(p: Program, o: int, k: int): (f: Found)
    requires Answers(p) && IsPlt(p, o, k)
    ensures f.Found? ==> 0 <= f.at < |p.objects| && 0 < f.symbol < |p.objects[f.at].loaded.symtab|
    ensures f.NotFound? <==> Unbound(p, o, k)
  {
    var f := p.find(-1, p.objects[o].jmprel[k].name);
    assert IsAnswer(Namespace(p), -1, p.objects[o].jmprel[k].name, f);
    f
  }

  /** No loaded object defines the symbol of the entry. */
  ghost predicate Unbound(p: Program, o: int, k: int)
    requires IsPlt(p, o, k)
  {
    Missing(p, -1, p.objects[o].jmprel[k].name)
  }

  /** Where calls through the entry belong: in the first object of the namespace
      that defines its symbol, at a matching definition. */
  ghost predicate Reaches(p: Program, o: int, k: int, dest: int)
    requires IsPlt(p, o, k)
  {
    IsAddress(p, -1, p.objects[o].jmprel[k].name, dest)
  }

  // ----- the state the program starts in

  ghost predicate SlotsDistinct(p: Program) {
    forall o, k, o', k' :: IsPlt(p, o, k) && IsPlt(p, o', k') && (o != o' || k != k') ==>
      Slot(p, o, k) != Slot(p, o', k')
  }

  /** No slot is one of the two words the loader keeps in a global offset table. */
  ghost predicate SlotsApart(p: Program) {
    forall o, k, x :: IsPlt(p, o, k) && x in p.objects && x.hasGot ==>
      Slot(p, o, k) != x.got + 8 && Slot(p, o, k) != x.got + 16
  }

  /** Every slot holds its stub or the address of its symbol. */
  ghost predicate SlotsBound(p: Program, start: Words, mem: Words)
    requires Answers(p)
  {
    forall o, k :: IsPlt(p, o, k) ==> SlotBound(p, start, mem, o, k)
  }

  ghost predicate SlotBound(p: Program, start: Words, mem: Words, o: int, k: int)
    requires Answers(p) && IsPlt(p, o, k)
  {
    || Read(mem, Slot(p, o, k)) == Stub(p, start, o, k)
    || (Callee(p, o, k).Found? && Read(mem, Slot(p, o, k)) == AddressOf(p, Callee(p, o, k)))
  }

  /** Each global offset table leads to the resolver, with its own object. */
  ghost predicate GotsReady(p: Program, mem: Words) {
    forall o :: 0 <= o < |p.objects| && p.objects[o].hasGot ==> GotReady(p, mem, o)
  }

  predicate GotReady(p: Program, mem: Words, o: int)
    requires 0 <= o < |p.objects|
  {
    Read(mem, p.objects[o].got + 8) == p.handle(o) && Read(mem, p.objects[o].got + 16) == p.resolver
  }

  lemma JumpSlotUpdate(p: Program, o: int, k: int)
    requires Answers(p) && IsPlt(p, o, k)
    ensures var j := |p.objects[o].rela| + k;
      j < |ObjectUpdates(p, o)| && ObjectUpdates(p, o)[j] == Add(Slot(p, o, k), p.objects[o].loaded.address)
  {
    var x := p.objects[o];
    assert ObjectUpdates(p, o)[|x.rela| + k] == UpdatesOf(p, o, x.jmprel)[k] == UpdateOf(p, o, x.jmprel[k]);
  }

  lemma GotUpdates(p: Program, o: int)
    requires Answers(p) && 0 <= o < |p.objects| && p.objects[o].hasGot
    ensures var x := p.objects[o];
      var j := |x.rela| + |x.jmprel|;
      && |ObjectUpdates(p, o)| == j + 2
      && ObjectUpdates(p, o)[j] == Put(x.got + 8, p.handle(o))
      && ObjectUpdates(p, o)[j + 1] == Put(x.got + 16, p.resolver)
  {
  }

  /** Updates at different places write different words. */
  lemma TargetsDiffer(p: Program, o: int, j: int, o': int, j': int)
    requires Answers(p) && DistinctTargets(Schedule(p, |p.objects|))
    requires 0 <= o < |p.objects| && 0 <= j < |ObjectUpdates(p, o)|
    requires 0 <= o' < |p.objects| && 0 <= j' < |ObjectUpdates(p, o')| && (o != o' || j != j')
    ensures ObjectUpdates(p, o)[j].target != ObjectUpdates(p, o')[j'].target
  {
    hide Answers, ObjectUpdates, Schedule;
    InSchedule(p, o, j);
    InSchedule(p, o', j');
    if o < o' {
      PlacesDiffer(p, o, j, o', j');
    } else if o' < o {
      PlacesDiffer(p, o', j', o, j);
    }
  }

  lemma SlotsNeverMeet(p: Program)
    requires Answers(p) && DistinctTargets(Schedule(p, |p.objects|))
    ensures SlotsDistinct(p) && SlotsApart(p)
  {
    hide Answers, ObjectUpdates, Schedule, DistinctTargets, Slot;
    forall o, k, o', k' | IsPlt(p, o, k) && IsPlt(p, o', k') && (o != o' || k != k')
      ensures Slot(p, o, k) != Slot(p, o', k')
    {
      JumpSlotUpdate(p, o, k);
      JumpSlotUpdate(p, o', k');
      TargetsDiffer(p, o, |p.objects[o].rela| + k, o', |p.objects[o'].rela| + k');
    }
    forall o, k, x | IsPlt(p, o, k) && x in p.objects && x.hasGot
      ensures Slot(p, o, k) != x.got + 8 && Slot(p, o, k) != x.got + 16
    {
      var o' :| 0 <= o' < |p.objects| && p.objects[o'] == x;
      JumpSlotUpdate(p, o, k);
      GotUpdates(p, o');
      TargetsDiffer(p, o, |p.objects[o].rela| + k, o', |x.rela| + |x.jmprel|);
      TargetsDiffer(p, o, |p.objects[o].rela| + k, o', |x.rela| + |x.jmprel| + 1);
    }
  }

  /** reloc_all leaves every slot at its stub and every table leading to the resolver. */
  lemma RelocationPrepares(p: Program, start: Words, mem: Words)
    requires Relocated(p, start, mem) && DistinctTargets(Schedule(p, |p.objects|))
    ensures forall o, k :: IsPlt(p, o, k) ==> Read(mem, Slot(p, o, k)) == Stub(p, start, o, k)
    ensures SlotsBound(p, start, mem) && GotsReady(p, mem)
  {
    hide Answers, ObjectUpdates, Schedule, DistinctTargets, ApplyAll, Slot, IsPlt;
    forall o, k | IsPlt(p, o, k) ensures Read(mem, Slot(p, o, k)) == Stub(p, start, o, k) {
      SlotPrepared(p, start, mem, o, k);
    }
    forall o | 0 <= o < |p.objects| && p.objects[o].hasGot ensures GotReady(p, mem, o) {
      GotPrepared(p, start, mem, o);
    }
  }

  lemma SlotPrepared(p: Program, start: Words, mem: Words, o: int, k: int)
    requires Relocated(p, start, mem) && DistinctTargets(Schedule(p, |p.objects|)) && IsPlt(p, o, k)
    ensures Read(mem, Slot(p, o, k)) == Stub(p, start, o, k)
  {
    hide ObjectUpdates, Schedule, DistinctTargets, ApplyAll;
    JumpSlotUpdate(p, o, k);
    hide Answers;
    EntryAppliedOnce(p, start, mem, o, |p.objects[o].rela| + k);
  }

  lemma GotPrepared(p: Program, start: Words, mem: Words, o: int)
    requires Relocated(p, start, mem) && DistinctTargets(Schedule(p, |p.objects|))
    requires 0 <= o < |p.objects| && p.objects[o].hasGot
    ensures GotReady(p, mem, o)
  {
    hide ObjectUpdates, Schedule, DistinctTargets, ApplyAll;
    GotUpdates(p, o);
    hide Answers;
    var j := |p.objects[o].rela| + |p.objects[o].jmprel|;
    var before := UpdateActsOnce(p, start, mem, o, j);
    var between := UpdateActsOnce(p, start, mem, o, j + 1);
  }

  // ----- calls

  datatype PltCall = PltCall(obj: int, entry: int)

  /** What becomes of a call: it reaches an address, ends the program because the
      symbol is missing, or runs astray through a damaged table. */
  datatype Jump = Reached(dest: int) | NoSymbol | Astray

  ghost predicate Ready(p: Program, start: Words, mem: Words) {
    && Answers(p) && DistinctHandles(p) && SlotsDistinct(p) && SlotsApart(p)
    && SlotsBound(p, start, mem) && GotsReady(p, mem)
  }

  ghost predicate RightJump(p: Program, o: int, k: int, j: Jump)
    requires IsPlt(p, o, k)
  {
    match j
    case Reached(dest) => Reaches(p, o, k, dest)
    case NoSymbol => Unbound(p, o, k)
    case Astray => false
  }

  /** Only slots of the program have changed. */
  ghost predicate SameButSlots(p: Program, mem: Words, mem': Words) {
    forall a :: (forall o, k :: IsPlt(p, o, k) ==> Slot(p, o, k) != a) ==> Read(mem', a) == Read(mem, a)
  }

  /** Storing the address of its symbol into a slot keeps everything ready. */
  lemma BindingKeeps(p: Program, start: Words, mem: Words, o: int, k: int, jmp: int)
    requires Ready(p, start, mem) && IsPlt(p, o, k) && Callee(p, o, k).Found?
    requires jmp == AddressOf(p, Callee(p, o, k))
    ensures Ready(p, start, mem[Slot(p, o, k) := jmp])
    ensures SameButSlots(p, mem, mem[Slot(p, o, k) := jmp])
  {
    hide Answers, AddressOf, Slot, IsPlt;
    var mem' := mem[Slot(p, o, k) := jmp];
    forall o', k' | IsPlt(p, o', k') ensures SlotBound(p, start, mem', o', k') {
      assert SlotBound(p, start, mem, o', k');
      assert (o' == o && k' == k) || Slot(p, o', k') != Slot(p, o, k);
    }
    forall o' | 0 <= o' < |p.objects| && p.objects[o'].hasGot ensures GotReady(p, mem', o') {
      assert GotReady(p, mem, o') && p.objects[o'] in p.objects;
    }
  }

  lemma AddressReaches(p: Program, o: int, k: int)
    requires Answers(p) && IsPlt(p, o, k) && Callee(p, o, k).Found?
    ensures Reaches(p, o, k, AddressOf(p, Callee(p, o, k)))
  {
    assert IsAnswer(Namespace(p), -1, p.objects[o].jmprel[k].name, Callee(p, o, k));
  }

  class Process {
    const p: Program
    const start: Words   // the words of the program files, before relocation
    var mem: Words

    /** The program as reloc_all leaves it. */
    constructor (p: Program, start: Words, mem: Words)
      requires Relocated(p, start, mem) && DistinctTargets(Schedule(p, |p.objects|)) && DistinctHandles(p)
      ensures this.p == p && this.start == start && this.mem == mem && Ready(p, start, mem)
    {
      SlotsNeverMeet(p);
      RelocationPrepares(p, start, mem);
      this.p, this.start, this.mem := p, start, mem;
    }

    /** got_fixup: find the object behind the handle, look the symbol of its k-th
        entry up, and store the address into the slot. */
    method GotFixup(l: int, k: int) returns (died: bool, jmp: int)
      requires Answers(p) && DistinctHandles(p) && IsHandle(p, l) && IsPlt(p, ObjectAt(p, l), k)
      modifies this`mem
      ensures var o := ObjectAt(p, l);
        && (died <==> Unbound(p, o, k))
        && (if died then mem == old(mem) else Reaches(p, o, k, jmp) && mem == old(mem)[Slot(p, o, k) := jmp])
        && (!died ==> Callee(p, o, k).Found? && jmp == AddressOf(p, Callee(p, o, k)))
    {
      var o := ObjectAt(p, l);
      ghost var callee := Callee(p, o, k);
      var rela := p.objects[o].jmprel[k];
      var slot := p.objects[o].loaded.address + rela.offset;
      var f := p.find(-1, rela.name);
      assert f == callee;
      if f.NotFound? {
        return true, 0;
      }
      AddressReaches(p, o, k);
      jmp := AddressOf(p, f);
      mem := mem[slot := jmp];
      died := false;
    }

    /** A call through the PLT: a jump through the slot. The stub jumps through the
        third word of the table of its object, and hands the second word and its own
        number on to got_fixup. */
    method Call(o: int, k: int) returns (j: Jump)
      requires Ready(p, start, mem) && IsPlt(p, o, k)
      modifies this`mem
      ensures Ready(p, start, mem) && RightJump(p, o, k, j)
      ensures SameButSlots(p, old(mem), mem)
    {
      hide Answers, AddressOf, Slot, Stub, Reaches, Unbound, SlotsDistinct, SlotsApart;
      var slot := Slot(p, o, k);
      var there := Read(mem, slot);
      assert SlotBound(p, start, mem, o, k);
      if there != Stub(p, start, o, k) {
        AddressReaches(p, o, k);
        return Reached(there);
      }
      assert GotReady(p, mem, o);
      var got := p.objects[o].got;
      var l, target := Read(mem, got + 8), Read(mem, got + 16);
      if target != p.resolver || !IsHandle(p, l) {
        return Astray;
      }
      var died, jmp := GotFixup(l, k);
      if died {
        return NoSymbol;
      }
      BindingKeeps(p, start, old(mem), o, k, jmp);
      return Reached(jmp);
    }

    /** Any sequence of calls: each reaches its definition, up to the first whose
        symbol no object defines. */
    method CallAll(calls: seq<PltCall>) returns (dests: seq<int>)
      requires Ready(p, start, mem)
      requires forall i :: 0 <= i < |calls| ==> IsPlt(p, calls[i].obj, calls[i].entry)
      modifies this`mem
      ensures Ready(p, start, mem) && SameButSlots(p, old(mem), mem)
      ensures Served(p, calls, dests)
    {
      hide Ready, Reaches, Unbound, SameButSlots;
      SameButSlotsChain(p, mem, mem, mem);
      dests := [];
      var i := 0;
      while i < |calls|
        invariant 0 <= i == |dests| <= |calls| && Ready(p, start, mem) && SameButSlots(p, old(mem), mem)
        invariant forall j :: 0 <= j < i ==> Reaches(p, calls[j].obj, calls[j].entry, dests[j])
      {
        ghost var before := mem;
        var j := Call(calls[i].obj, calls[i].entry);
        SameButSlotsChain(p, old(mem), before, mem);
        if !j.Reached? {
          return;
        }
        dests := dests + [j.dest];
        i := i + 1;
      }
    }
  }

  lemma SameButSlotsChain(p: Program, mem: Words, mem1: Words, mem2: Words)
    ensures SameButSlots(p, mem, mem)
    ensures SameButSlots(p, mem, mem1) && SameButSlots(p, mem1, mem2) ==> SameButSlots(p, mem, mem2)
  {
    hide IsPlt, Slot, Read;
  }

  ghost predicate Served(p: Program, calls: seq<PltCall>, dests: seq<int>)
    requires forall i :: 0 <= i < |calls| ==> IsPlt(p, calls[i].obj, calls[i].entry)
  {
    && |dests| <= |calls|
    && (forall i :: 0 <= i < |dests| ==> Reaches(p, calls[i].obj, calls[i].entry, dests[i]))
    && (|dests| < |calls| ==> Unbound(p, calls[|dests|].obj, calls[|dests|].entry))
  }

  /** A program from its files on: relocation, and then any sequence of calls. */
  method Launch(p: Program, start: Words, calls: seq<PltCall>) returns (died: bool, dests: seq<int>)
    requires Answers(p) && p.objects != [] && DistinctTargets(Schedule(p, |p.objects|)) && DistinctHandles(p)
    requires forall i :: 0 <= i < |calls| ==> IsPlt(p, calls[i].obj, calls[i].entry)
    ensures died <==> HasUnresolvable(p, |p.objects|)
    ensures !died ==> Served(p, calls, dests)
  {
    hide Answers, DistinctTargets, DistinctHandles, Schedule, HasUnresolvable, Served, IsPlt, Ready;
    dests := [];
    var relocator := new Relocator(p, start);
    died := relocator.RelocAll();
    if died {
      return;
    }
    var process := new Process(p, start, relocator.mem);
    dests := process.CallAll(calls);
  }
}
