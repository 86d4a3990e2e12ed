/** Relocation of the loaded objects in reverse load order. */
module Relocation {
  import opened ElfHash
  import opened SymbolLookup

  const WORDS: int := 0x1_0000_0000_0000_0000

  /** Words by words; a word that is not mapped reads as zero here. */
  type Words = map<int, int>

  function Read(mem: Words, a: int): int { if a in mem then mem[a] else 0 }

  datatype RelocType = Relative | Abs64 | JumpSlot | GlobDat | Copy | Unknown

  /** An Elf64_Rela entry, with the name of its symbol. */
  datatype Rela = Rela(kind: RelocType, offset: int, name: Name, addend: int)

  /** An object of the namespace: its symbols and load address, its DT_RELA and
      DT_JMPREL entries, and the address of its global offset table, if any. */
  datatype Object = Object(loaded: Loaded, rela: seq<Rela>, hasGot: bool, got: int, jmprel: seq<Rela>)

  /** The program: the namespace in load order, what lookup answers, and the two
      words the loader puts into each global offset table. */
  datatype Program = Program(objects: seq<Object>, find: (int, Name) -> Found, resolver: int, handle: int -> int)

  ghost function Namespace(p: Program): (ns: seq<Loaded>)
    ensures |ns| == |p.objects| && forall i :: 0 <= i < |ns| ==> ns[i] == p.objects[i].loaded
  {
    seq(|p.objects|, i requires 0 <= i < |p.objects| => p.objects[i].loaded)
  }

  /** `find` answers as lookup_symbol does. */
  ghost predicate Answers(p: Program) {
    forall skip, name :: IsAnswer(Namespace(p), skip, name, p.find(skip, name))
  }

  /** Whatever the objects, there is such a `find`. */
  lemma SomeAnswers(p: Program)
    ensures Answers(p.(find := (skip, name) => ScanAnswer(Namespace(p), skip, name)))
  {
    var q := p.(find := (skip, name) => ScanAnswer(Namespace(p), skip, name));
    assert Namespace(q) == Namespace(p);
  }

  /** No object other than `skip` defines the name. */
  ghost predicate Missing(p: Program, skip: int, name: Name) {
    FirstDefiner(Namespace(p), skip, name, 0) == |p.objects|
  }

  /** The run-time address of a definition. */
  function AddressOf(p: Program, f: Found): (a: int)
    requires f.Found? && 0 <= f.at < |p.objects| && 0 <= f.symbol < |p.objects[f.at].loaded.symtab|
  {
    var l := p.objects[f.at].loaded;
    l.address + l.symtab[f.symbol].value
  }

  // ----- what relocation does, as a list of word updates

  datatype Update =
    | Add(target: int, increment: int)
    | CopyFrom(target: int, source: int)
    | Put(target: int, value: int)
    | Fail(target: int)   // an unknown type or symbol, which ends the program

  /** One turn of the switch in reloc_rela, for an entry of object o. */
  function UpdateOf(p: Program, o: int, e: Rela): (u: Update)
    requires 0 <= o < |p.objects| && Answers(p)
    ensures u.target == p.objects[o].loaded.address + e.offset
  {
    var base := p.objects[o].loaded.address;
    var target := base + e.offset;
    match e.kind
    case Relative => Add(target, base + e.addend)
    case JumpSlot => Add(target, base)
    case Abs64 => (var f := p.find(-1, e.name); if f.Found? then Add(target, AddressOf(p, f)) else Fail(target))
    case GlobDat => (var f := p.find(-1, e.name); if f.Found? then Add(target, AddressOf(p, f)) else Fail(target))
    case Copy => (var f := p.find(o, e.name); if f.Found? then CopyFrom(target, AddressOf(p, f)) else Fail(target))
    case Unknown => Fail(target)
  }

  function UpdatesOf(p: Program, o: int, es: seq<Rela>): (us: seq<Update>)
    requires 0 <= o < |p.objects| && Answers(p)
    ensures |us| == |es| && forall k :: 0 <= k < |es| ==> us[k] == UpdateOf(p, o, es[k])
  {
    if es == [] then [] else UpdatesOf(p, o, es[..|es| - 1]) + [UpdateOf(p, o, es[|es| - 1])]
  }

  /** Everything relocate_object writes for object o, in order. */
  function ObjectUpdates(p: Program, o: int): (us: seq<Update>)
    requires 0 <= o < |p.objects| && Answers(p)
  {
    var x := p.objects[o];
    UpdatesOf(p, o, x.rela) +
    (if x.hasGot then UpdatesOf(p, o, x.jmprel) + [Put(x.got + 8, p.handle(o)), Put(x.got + 16, p.resolver)] else [])
  }

  /** Objects n - 1, ..., 0, each once. */
  function Schedule(p: Program, n: int): (us: seq<Update>)
    requires 0 <= n <= |p.objects| && Answers(p)
  {
    if n == 0 then [] else ObjectUpdates(p, n - 1) + Schedule(p, n - 1)
  }

  datatype Result = Died | Done(mem: Words)

  function Apply(mem: Words, u: Update): (r: Result) {
    match u
    case Add(t, i) => Done(mem[t := (Read(mem, t) + i) % WORDS])
    case CopyFrom(t, s) => Done(mem[t := Read(mem, s)])
    case Put(t, v) => Done(mem[t := v])
    case Fail(_) => Died
  }

  function ApplyAll(mem: Words, us: seq<Update>): (r: Result)
    decreases |us|
  {
    if us == [] then Done(mem)
    else
      var r := Apply(mem, us[0]);
      if r.Died? then Died else ApplyAll(r.mem, us[1..])
  }

  lemma {:induction false} ApplyAppend(mem: Words, us: seq<Update>, vs: seq<Update>)
    ensures ApplyAll(mem, us + vs) == var r := ApplyAll(mem, us); if r.Died? then Died else ApplyAll(r.mem, vs)
    decreases |us|
  {
    if us == [] {
      assert us + vs == vs;
    } else {
      assert (us + vs)[1..] == us[1..] + vs;
      var r := Apply(mem, us[0]);
      if r.Done? { ApplyAppend(r.mem, us[1..], vs); }
    }
  }

  /** Words that are no targets keep their values. */
  lemma {:induction false} OthersKept(mem: Words, us: seq<Update>, a: int)
    requires ApplyAll(mem, us).Done? && forall k :: 0 <= k < |us| ==> us[k].target != a
    ensures Read(ApplyAll(mem, us).mem, a) == Read(mem, a)
    decreases |us|
  {
    if us != [] {
      assert us[0].target != a;
      OthersKept(Apply(mem, us[0]).mem, us[1..], a);
    }
  }

  ghost predicate DistinctTargets(us: seq<Update>) {
    forall j, k :: 0 <= j < k < |us| ==> us[j].target != us[k].target
  }

  /** With distinct targets, the k-th update sees its own word as it was at first,
      and its effect is final. */
  lemma EffectOnce(mem: Words, us: seq<Update>, k: int) returns (before: Words)
    requires ApplyAll(mem, us).Done? && DistinctTargets(us) && 0 <= k < |us|
    ensures ApplyAll(mem, us[..k]) == Done(before) && Apply(before, us[k]).Done?
    ensures Read(before, us[k].target) == Read(mem, us[k].target)
    ensures Read(ApplyAll(mem, us).mem, us[k].target) == Read(Apply(before, us[k]).mem, us[k].target)
    ensures ApplyAll(before, us[k..]) == ApplyAll(mem, us)
  {
    var t := us[k].target;
    assert us == us[..k] + us[k..];
    ApplyAppend(mem, us[..k], us[k..]);
    before := ApplyAll(mem, us[..k]).mem;
    OthersKept(mem, us[..k], t);
    assert us[k..][0] == us[k] && us[k..][1..] == us[k + 1..];
    var rest := us[k + 1..];
    assert forall j :: 0 <= j < |rest| ==> rest[j].target != t;
    OthersKept(Apply(before, us[k]).mem, rest, t);
  }

  /** Each word a RELATIVE, 64, GLOB_DAT or JUMP_SLOT entry names receives its
      increment exactly once, over the whole of reloc_all. */
  lemma IncrementedOnce(mem: Words, us: seq<Update>, k: int)
    requires ApplyAll(mem, us).Done? && DistinctTargets(us) && 0 <= k < |us| && us[k].Add?
    ensures Read(ApplyAll(mem, us).mem, us[k].target) == (Read(mem, us[k].target) + us[k].increment) % WORDS
  {
    var before := EffectOnce(mem, us, k);
  }

  /** A copied word ends up equal to the final value of its source, provided no
      update from the copy on writes the source. */
  lemma CopyReadsFinal(mem: Words, us: seq<Update>, k: int)
    requires ApplyAll(mem, us).Done? && DistinctTargets(us) && 0 <= k < |us| && us[k].CopyFrom?
    requires forall j :: k <= j < |us| ==> us[j].target != us[k].source
    ensures Read(ApplyAll(mem, us).mem, us[k].target) == Read(ApplyAll(mem, us).mem, us[k].source)
  {
    var before := EffectOnce(mem, us, k);
    var s := us[k].source;
    var rest := us[k..];
    assert forall j :: 0 <= j < |rest| ==> rest[j].target != s;
    OthersKept(before, rest, s);
  }

  // ----- over the whole namespace

  /** Where the j-th update of object o stands in the schedule: the updates of the
      objects o, ..., 0 are its end. */
  function At(p: Program, o: int, j: int): (k: int)
    requires 0 <= o < |p.objects| && Answers(p)
  {
    |Schedule(p, |p.objects|)| - |Schedule(p, o + 1)| + j
  }

  lemma {:induction false} ScheduleEndsWith(p: Program, n: int, m: int)
    requires Answers(p) && 0 <= m <= n <= |p.objects|
    ensures |Schedule(p, m)| <= |Schedule(p, n)|
    ensures Schedule(p, n)[|Schedule(p, n)| - |Schedule(p, m)|..] == Schedule(p, m)
    decreases n
  {
    hide ObjectUpdates, Answers;
    if m < n {
      ScheduleEndsWith(p, n - 1, m);
      var first, rest := ObjectUpdates(p, n - 1), Schedule(p, n - 1);
      var d := |rest| - |Schedule(p, m)|;
      assert (first + rest)[|first| + d..] == rest[d..];
    }
  }

  lemma InSchedule(p: Program, o: int, j: int)
    requires Answers(p) && 0 <= o < |p.objects| && 0 <= j < |ObjectUpdates(p, o)|
    ensures var all, k := Schedule(p, |p.objects|), At(p, o, j);
      j <= k < |all| && all[k] == ObjectUpdates(p, o)[j] && all[k - j..] == Schedule(p, o + 1)
  {
    hide ObjectUpdates, Answers;
    ScheduleEndsWith(p, |p.objects|, o + 1);
    var all, tail := Schedule(p, |p.objects|), Schedule(p, o + 1);
    assert tail == ObjectUpdates(p, o) + Schedule(p, o);
    assert all[At(p, o, j)] == all[At(p, o, 0)..][j];
  }

  /** Different updates stand at different places. */
  lemma PlacesDiffer(p: Program, o: int, j: int, o': int, j': int)
    requires Answers(p) && 0 <= o < o' < |p.objects| && 0 <= j && 0 <= j' < |ObjectUpdates(p, o')|
    ensures At(p, o', j') < At(p, o, j)
  {
    hide ObjectUpdates, Answers;
    ScheduleEndsWith(p, o', o + 1);
    assert Schedule(p, o' + 1) == ObjectUpdates(p, o') + Schedule(p, o');
  }

  // ----- when relocation dies

  /** The entries relocate_object goes through. */
  function Entries(x: Object): (es: seq<Rela>) {
    x.rela + if x.hasGot then x.jmprel else []
  }

  /** An entry of an unknown type, or for a symbol that no object defines. */
  ghost predicate Unresolvable(p: Program, o: int, e: Rela) {
    match e.kind
    case Relative => false
    case JumpSlot => false
    case Abs64 => Missing(p, -1, e.name)
    case GlobDat => Missing(p, -1, e.name)
    case Copy => Missing(p, o, e.name)
    case Unknown => true
  }

  ghost predicate HasUnresolvable(p: Program, n: int)
    requires n <= |p.objects|
  {
    exists o, e :: 0 <= o < n && e in Entries(p.objects[o]) && Unresolvable(p, o, e)
  }

  lemma FailsIffUnresolvable(p: Program, o: int, e: Rela)
    requires Answers(p) && 0 <= o < |p.objects|
    ensures UpdateOf(p, o, e).Fail? <==> Unresolvable(p, o, e)
  {
    var f, g := p.find(-1, e.name), p.find(o, e.name);
    assert IsAnswer(Namespace(p), -1, e.name, f) && IsAnswer(Namespace(p), o, e.name, g);
  }

  lemma {:induction false} DiesIffFails(mem: Words, us: seq<Update>)
    ensures ApplyAll(mem, us).Died? <==> exists u :: u in us && u.Fail?
    decreases |us|
  {
    if us != [] {
      var r := Apply(mem, us[0]);
      assert us == [us[0]] + us[1..];
      if r.Done? { DiesIffFails(r.mem, us[1..]); } else { assert us[0] in us; }
    }
  }

  lemma ObjectFails(p: Program, o: int)
    requires Answers(p) && 0 <= o < |p.objects|
    ensures (exists u :: u in ObjectUpdates(p, o) && u.Fail?) <==>
            (exists e :: e in Entries(p.objects[o]) && Unresolvable(p, o, e))
  {
    var x, us := p.objects[o], ObjectUpdates(p, o);
    hide Answers, UpdateOf, Unresolvable;
    var es := Entries(x);
    forall k | 0 <= k < |es| ensures us[k] == UpdateOf(p, o, es[k]) {
      if k >= |x.rela| { assert us[k] == UpdatesOf(p, o, x.jmprel)[k - |x.rela|]; }
    }
    if u :| u in us && u.Fail? {
      var k :| 0 <= k < |us| && us[k] == u;
      FailsIffUnresolvable(p, o, es[k]);
      assert es[k] in es;
    }
    if e :| e in es && Unresolvable(p, o, e) {
      var k :| 0 <= k < |es| && es[k] == e;
      FailsIffUnresolvable(p, o, e);
      assert us[k] in us;
    }
  }

  lemma {:induction false} ScheduleFails(p: Program, n: int)
    requires Answers(p) && 0 <= n <= |p.objects|
    ensures (exists u :: u in Schedule(p, n) && u.Fail?) <==> HasUnresolvable(p, n)
  {
    hide ObjectUpdates, Answers, Unresolvable, Entries;
    if n > 0 {
      ScheduleFails(p, n - 1);
      ObjectFails(p, n - 1);
      assert forall u :: u in Schedule(p, n) <==> u in ObjectUpdates(p, n - 1) || u in Schedule(p, n - 1);
      if o, e :| 0 <= o < n && e in Entries(p.objects[o]) && Unresolvable(p, o, e) {
        assert o == n - 1 || HasUnresolvable(p, n - 1);
      }
    }
  }

  ghost predicate Relocated(p: Program, mem: Words, mem': Words) {
    Answers(p) && ApplyAll(mem, Schedule(p, |p.objects|)) == Done(mem')
  }

  /** Each update of each object acts once, on the word as the program file has it,
      and its effect is final. */
  lemma UpdateActsOnce(p: Program, mem: Words, mem': Words, o: int, j: int) returns (before: Words)
    requires Relocated(p, mem, mem') && DistinctTargets(Schedule(p, |p.objects|))
    requires 0 <= o < |p.objects| && 0 <= j < |ObjectUpdates(p, o)|
    ensures 0 <= At(p, o, j) <= |Schedule(p, |p.objects|)|
    ensures ApplyAll(mem, Schedule(p, |p.objects|)[..At(p, o, j)]) == Done(before)
    ensures var u := ObjectUpdates(p, o)[j];
      && Apply(before, u).Done? && Read(before, u.target) == Read(mem, u.target)
      && Read(mem', u.target) == Read(Apply(before, u).mem, u.target)
  {
    hide ObjectUpdates, Schedule, Answers, ApplyAll, DistinctTargets, At, Apply;
    InSchedule(p, o, j);
    before := EffectOnce(mem, Schedule(p, |p.objects|), At(p, o, j));
  }

  /** After reloc_all every non-COPY entry of every object, in DT_RELA or DT_JMPREL,
      has added its increment to its word, once. */
  lemma EntryAppliedOnce(p: Program, mem: Words, mem': Words, o: int, j: int)
    requires Relocated(p, mem, mem') && DistinctTargets(Schedule(p, |p.objects|))
    requires 0 <= o < |p.objects| && 0 <= j < |ObjectUpdates(p, o)| && ObjectUpdates(p, o)[j].Add?
    ensures var u := ObjectUpdates(p, o)[j];
      Read(mem', u.target) == (Read(mem, u.target) + u.increment) % WORDS
  {
    hide ObjectUpdates, Schedule, Answers, ApplyAll, DistinctTargets, At;
    InSchedule(p, o, j);
    IncrementedOnce(mem, Schedule(p, |p.objects|), At(p, o, j));
  }

  // ----- entry by entry

  /** The address a lies in the first object, other than `skip`, that defines the
      name, at a matching definition. */
  ghost predicate IsAddress(p: Program, skip: int, name: Name, a: int) {
    var i := FirstDefiner(Namespace(p), skip, name, 0);
    i < |p.objects| &&
    var l := p.objects[i].loaded;
    exists s :: 0 < s < |l.symtab| && Matches(l.symtab[s], name) && a == l.address + l.symtab[s].value
  }

  /** The address that lookup gives for a name. */
  function SymbolAddress(p: Program, skip: int, name: Name): (a: int)
    requires Answers(p) && !Missing(p, skip, name)
    ensures IsAddress(p, skip, name, a)
  {
    var f := p.find(skip, name);
    assert IsAnswer(Namespace(p), skip, name, f);
    AddressOf(p, f)
  }

  /** The j-th entry's update stands at place j of its object's updates. */
  lemma EntryUpdate(p: Program, o: int, j: int)
    requires Answers(p) && 0 <= o < |p.objects| && 0 <= j < |Entries(p.objects[o])|
    ensures j < |ObjectUpdates(p, o)| && ObjectUpdates(p, o)[j] == UpdateOf(p, o, Entries(p.objects[o])[j])
  {
    var x := p.objects[o];
    if j >= |x.rela| { assert ObjectUpdates(p, o)[j] == UpdatesOf(p, o, x.jmprel)[j - |x.rela|]; }
  }

  /** What reloc_all has done to the word of any entry of any object: RELATIVE has
      added load address and addend, JUMP_SLOT the load address, 64 and GLOB_DAT the
      address of the symbol, and COPY has stored the word it found there when all
      updates before it had been made. */
  lemma EntrySettled(p: Program, mem: Words, mem': Words, o: int, j: int) returns (before: Words)
    requires Relocated(p, mem, mem') && DistinctTargets(Schedule(p, |p.objects|))
    requires 0 <= o < |p.objects| && 0 <= j < |Entries(p.objects[o])|
    ensures 0 <= At(p, o, j) <= |Schedule(p, |p.objects|)|
    ensures ApplyAll(mem, Schedule(p, |p.objects|)[..At(p, o, j)]) == Done(before)
    ensures var e, base := Entries(p.objects[o])[j], p.objects[o].loaded.address;
      var t := base + e.offset;
      match e.kind
      case Relative => Read(mem', t) == (Read(mem, t) + base + e.addend) % WORDS
      case JumpSlot => Read(mem', t) == (Read(mem, t) + base) % WORDS
      case Abs64 =>
        !Missing(p, -1, e.name) && Read(mem', t) == (Read(mem, t) + SymbolAddress(p, -1, e.name)) % WORDS
      case GlobDat =>
        !Missing(p, -1, e.name) && Read(mem', t) == (Read(mem, t) + SymbolAddress(p, -1, e.name)) % WORDS
      case Copy =>
        !Missing(p, o, e.name) && Read(mem', t) == Read(before, SymbolAddress(p, o, e.name))
      case Unknown => false
  {
    hide ObjectUpdates, Schedule, DistinctTargets, ApplyAll, Entries, At;
    EntryUpdate(p, o, j);
    var e := Entries(p.objects[o])[j];
    EntryMeans(p, o, e);
    hide Relocated, Answers, UpdateOf;
    before := UpdateActsOnce(p, mem, mem', o, j);
  }

  lemma EntryMeans(p: Program, o: int, e: Rela)
    requires Answers(p) && 0 <= o < |p.objects|
    ensures var base, u := p.objects[o].loaded.address, UpdateOf(p, o, e);
      && u.target == base + e.offset
      && match e.kind
         case Relative => u == Add(u.target, base + e.addend)
         case JumpSlot => u == Add(u.target, base)
         case Abs64 => if Missing(p, -1, e.name) then u.Fail? else u == Add(u.target, SymbolAddress(p, -1, e.name))
         case GlobDat => if Missing(p, -1, e.name) then u.Fail? else u == Add(u.target, SymbolAddress(p, -1, e.name))
         case Copy => if Missing(p, o, e.name) then u.Fail? else u == CopyFrom(u.target, SymbolAddress(p, o, e.name))
         case Unknown => u.Fail?
  {
    var f, g := p.find(-1, e.name), p.find(o, e.name);
    assert IsAnswer(Namespace(p), -1, e.name, f) && IsAnswer(Namespace(p), o, e.name, g);
  }

  /** A COPY entry of any object: if the objects relocated from then on leave its
      source alone, the copy equals the value the source has in the end. */
  lemma CopySettled(p: Program, mem: Words, mem': Words, o: int, j: int)
    requires Relocated(p, mem, mem') && DistinctTargets(Schedule(p, |p.objects|)) && 0 <= o < |p.objects|
    requires 0 <= j < |p.objects[o].rela| && p.objects[o].rela[j].kind.Copy?
    requires var f := p.find(o, p.objects[o].rela[j].name); f.Found? ==>
      forall u :: u in Schedule(p, o + 1) ==> u.target != AddressOf(p, f)
    ensures var f := p.find(o, p.objects[o].rela[j].name);
      && f.Found? && f.at != o
      && Read(mem', p.objects[o].loaded.address + p.objects[o].rela[j].offset) == Read(mem', AddressOf(p, f))
  {
    hide Schedule, DistinctTargets, ApplyAll, At;
    CopyUpdate(p, o, j);
    hide ObjectUpdates, Answers;
    InSchedule(p, o, j);
    var all, k, tail := Schedule(p, |p.objects|), At(p, o, j), Schedule(p, o + 1);
    var before := EffectOnce(mem, all, k);
    forall i | k <= i < |all| ensures all[i].target != all[k].source {
      assert all[i] == all[k - j..][i - k + j] == tail[i - k + j];
      assert tail[i - k + j] in tail;
    }
    CopyReadsFinal(mem, all, k);
  }

  lemma CopyUpdate(p: Program, o: int, j: int)
    requires Answers(p) && 0 <= o < |p.objects| && 0 <= j < |p.objects[o].rela| && p.objects[o].rela[j].kind.Copy?
    ensures j < |ObjectUpdates(p, o)|
    ensures var u, f := ObjectUpdates(p, o)[j], p.find(o, p.objects[o].rela[j].name);
      && u.target == p.objects[o].loaded.address + p.objects[o].rela[j].offset
      && (if f.Found? then f.at != o && u == CopyFrom(u.target, AddressOf(p, f)) else u.Fail?)
  {
    var e := p.objects[o].rela[j];
    assert ObjectUpdates(p, o)[j] == UpdatesOf(p, o, p.objects[o].rela)[j] == UpdateOf(p, o, e);
    assert IsAnswer(Namespace(p), o, e.name, p.find(o, e.name));
  }

  /** In particular for the head object, which is relocated last: only its own
      entries could disturb the source. */
  lemma HeadCopy(p: Program, mem: Words, mem': Words, j: int)
    requires Relocated(p, mem, mem') && DistinctTargets(Schedule(p, |p.objects|)) && p.objects != []
    requires 0 <= j < |p.objects[0].rela| && p.objects[0].rela[j].kind.Copy?
    requires var f := p.find(0, p.objects[0].rela[j].name); f.Found? ==>
      forall u :: u in ObjectUpdates(p, 0) ==> u.target != AddressOf(p, f)
    ensures var f := p.find(0, p.objects[0].rela[j].name);
      && f.Found? && f.at > 0
      && Read(mem', p.objects[0].loaded.address + p.objects[0].rela[j].offset) == Read(mem', AddressOf(p, f))
  {
    hide ObjectUpdates, DistinctTargets, ApplyAll;
    assert Schedule(p, 1) == ObjectUpdates(p, 0) + Schedule(p, 0) == ObjectUpdates(p, 0);
    hide Schedule;
    CopySettled(p, mem, mem', 0, j);
  }

  // ----- the processor supplement's formulas

  /** The value section 4.4.1 of the AMD64 psABI gives: S + A for R_X86_64_64, S for
      GLOB_DAT, B + A for RELATIVE. */
  function PsAbiValue(p: Program, o: int, e: Rela): (v: int)
    requires 0 <= o < |p.objects| && Answers(p)
    requires e.kind.Relative? || ((e.kind.Abs64? || e.kind.GlobDat?) && !Missing(p, -1, e.name))
  {
    match e.kind
    case Relative => p.objects[o].loaded.address + e.addend
    case Abs64 => SymbolAddress(p, -1, e.name) + e.addend
    case GlobDat => SymbolAddress(p, -1, e.name)
  }

  /** The loader adds to the word in place, and ignores the addend of R_X86_64_64:
      after reloc_all a word meets the psABI exactly if it held that addend in the
      file, or zero for the other two types. */
  lemma PsAbiMet(p: Program, mem: Words, mem': Words, o: int, j: int)
    requires Relocated(p, mem, mem') && DistinctTargets(Schedule(p, |p.objects|))
    requires 0 <= o < |p.objects| && 0 <= j < |Entries(p.objects[o])|
    requires var k := Entries(p.objects[o])[j].kind; k.Abs64? || k.GlobDat? || k.Relative?
    ensures var e := Entries(p.objects[o])[j];
      var t := p.objects[o].loaded.address + e.offset;
      && (e.kind.Relative? || !Missing(p, -1, e.name))
      && (Read(mem', t) == PsAbiValue(p, o, e) % WORDS
          <==> Read(mem, t) % WORDS == (if e.kind.Abs64? then e.addend else 0) % WORDS)
  {
    hide Schedule, DistinctTargets, ApplyAll, Entries;
    var e := Entries(p.objects[o])[j];
    var before := EntrySettled(p, mem, mem', o, j);
    var word, a := Read(mem, p.objects[o].loaded.address + e.offset), if e.kind.Abs64? then e.addend else 0;
    var v := PsAbiValue(p, o, e);
    SameModulo(word, a, v - a);
  }

  lemma SameModulo(x: int, y: int, i: int)
    ensures (x + i) % WORDS == (y + i) % WORDS <==> x % WORDS == y % WORDS
  {
  }

  class Relocator {
    const p: Program
    var mem: Words
    var relocated: set<int>

    constructor (p: Program, mem: Words)
      ensures this.p == p && this.mem == mem && relocated == {}
    {
      this.p, this.mem, relocated := p, mem, {};
    }

    /** The switch in reloc_rela. */
    method RelocEntry(o: int, e: Rela) returns (died: bool)
      requires Answers(p) && 0 <= o < |p.objects|
      modifies this`mem
      ensures Apply(old(mem), UpdateOf(p, o, e)) == if died then Died else Done(mem)
      ensures died <==> Unresolvable(p, o, e)
    {
      FailsIffUnresolvable(p, o, e);
      var base := p.objects[o].loaded.address;
      var target := base + e.offset;
      match e.kind {
        case Relative =>
          mem := mem[target := (Read(mem, target) + (base + e.addend)) % WORDS];
        case JumpSlot =>
          mem := mem[target := (Read(mem, target) + base) % WORDS];
        case Abs64 =>
          var f := p.find(-1, e.name);
          if f.NotFound? { return true; }
          mem := mem[target := (Read(mem, target) + AddressOf(p, f)) % WORDS];
        case GlobDat =>
          var f := p.find(-1, e.name);
          if f.NotFound? { return true; }
          mem := mem[target := (Read(mem, target) + AddressOf(p, f)) % WORDS];
        case Copy =>
          var f := p.find(o, e.name);
          if f.NotFound? { return true; }
          var copy := Read(mem, AddressOf(p, f));
          mem := mem[target := copy];
        case Unknown =>
          return true;
      }
      return false;
    }

    /** reloc_rela. */
    method RelocRela(o: int, es: seq<Rela>) returns (died: bool)
      requires Answers(p) && 0 <= o < |p.objects|
      modifies this`mem
      ensures ApplyAll(old(mem), UpdatesOf(p, o, es)) == if died then Died else Done(mem)
    {
      hide Answers, UpdateOf, Apply;
      ghost var us := UpdatesOf(p, o, es);
      var i := 0;
      assert us[0..] == us;
      while i < |es|
        invariant 0 <= i <= |es|
        invariant ApplyAll(old(mem), us) == ApplyAll(mem, us[i..])
      {
        assert us[i..][0] == UpdateOf(p, o, es[i]) && us[i..][1..] == us[i + 1..];
        died := RelocEntry(o, es[i]);
        if died { return; }
        i := i + 1;
      }
      return false;
    }

    /** relocate_object. */
    method RelocateObject(o: int) returns (died: bool)
      requires Answers(p) && 0 <= o < |p.objects|
      modifies this
      ensures o in old(relocated) ==> !died && mem == old(mem) && relocated == old(relocated)
      ensures o !in old(relocated) ==> ApplyAll(old(mem), ObjectUpdates(p, o)) == if died then Died else Done(mem)
      ensures !died ==> relocated == old(relocated) + {o}
    {
      hide Answers, UpdatesOf;
      died := false;
      if o in relocated {
        assert relocated == relocated + {o};
        return;
      }
      var x := p.objects[o];
      ghost var rela := UpdatesOf(p, o, x.rela);
      ghost var words := [Put(x.got + 8, p.handle(o)), Put(x.got + 16, p.resolver)];
      ghost var rest := if x.hasGot then UpdatesOf(p, o, x.jmprel) + words else [];
      ApplyAppend(mem, rela, rest);
      died := RelocRela(o, x.rela);
      if died { return; }
      if x.hasGot {
        ghost var puts := [Put(x.got + 8, p.handle(o)), Put(x.got + 16, p.resolver)];
        ApplyAppend(mem, UpdatesOf(p, o, x.jmprel), puts);
        died := RelocRela(o, x.jmprel);
        if died { return; }
        TwoPuts(mem, puts);
        mem := mem[x.got + 8 := p.handle(o)];
        mem := mem[x.got + 16 := p.resolver];
      }
      relocated := relocated + {o};
    }

    /** reloc_all: to the end of the namespace, and back. */
    method RelocAll() returns (died: bool)
      requires Answers(p) && p.objects != [] && relocated == {}
      modifies this
      ensures ApplyAll(old(mem), Schedule(p, |p.objects|)) == if died then Died else Done(mem)
      ensures !died ==> forall o :: o in relocated <==> 0 <= o < |p.objects|
      ensures died <==> HasUnresolvable(p, |p.objects|)
    {
      hide Answers, ObjectUpdates, HasUnresolvable;
      DiesIffFails(mem, Schedule(p, |p.objects|));
      ScheduleFails(p, |p.objects|);
      var l, n := 0, |p.objects|;
      while l + 1 < n
        invariant 0 <= l < n
      {
        l := l + 1;
      }
      died := false;
      while l >= 0
        invariant -1 <= l < n && !died
        invariant forall o :: o in relocated <==> l < o < n
        invariant ApplyAll(old(mem), Schedule(p, n)) == ApplyAll(mem, Schedule(p, l + 1))
        decreases l
      {
        ApplyAppend(mem, ObjectUpdates(p, l), Schedule(p, l));
        died := RelocateObject(l);
        if died { return; }
        l := l - 1;
      }
    }
  }

  lemma TwoPuts(mem: Words, puts: seq<Update>)
    requires |puts| == 2 && puts[0].Put? && puts[1].Put?
    ensures ApplyAll(mem, puts) == Done(mem[puts[0].target := puts[0].value][puts[1].target := puts[1].value])
  {
    var mem1 := Apply(mem, puts[0]).mem;
    var mem2 := Apply(mem1, puts[1]).mem;
    assert puts[1..][0] == puts[1] && puts[1..][1..] == [];
    assert ApplyAll(mem1, puts[1..]) == Done(mem2);
  }
}
