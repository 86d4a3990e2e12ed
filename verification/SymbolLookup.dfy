/** Symbol lookup through the hash tables of the loaded objects. */
module SymbolLookup {
  import opened ElfHash

  datatype Kind = NoType | Object | Func | Common | Section | File | Tls | Other

  datatype Symbol = Symbol(name: Name, value: int, defined: bool, kind: Kind)

  /** A loaded object as far as lookup sees it. `address` is the load address;
      `hasTables` says that symbol and string table are present. */
  datatype Loaded = Loaded(address: int, hasTables: bool, symtab: seq<Symbol>, buckets: seq<int>, chain: seq<int>)

  /** check_match: a definition of `name` that is code or data. */
  predicate Matches(sym: Symbol, name: Name) {
    && sym.value != 0 && sym.defined
    && (sym.kind.NoType? || sym.kind.Object? || sym.kind.Func? || sym.kind.Common?)
    && sym.name == name
  }

  /** `depth` ranks the symbols so that chains descend. */
  ghost predicate Ranks(l: Loaded, depth: seq<nat>) {
    && |depth| == |l.symtab|
    && forall i :: 0 < i < |l.chain| && i < |depth| && 0 < l.chain[i] < |depth| ==> depth[l.chain[i]] < depth[i]
  }

  ghost predicate TablesOk(l: Loaded) {
    && l.buckets != [] && |l.chain| == |l.symtab|
    && (forall k :: 0 <= k < |l.buckets| ==> l.buckets[k] == 0 || 0 < l.buckets[k] < |l.symtab|)
    && (forall i :: 0 < i < |l.chain| ==> l.chain[i] == 0 || 0 < l.chain[i] < |l.symtab|)
    && exists depth :: Ranks(l, depth)
  }

  /** Symbol j is on the chain that starts at i. */
  ghost predicate OnChain(l: Loaded, depth: seq<nat>, i: int, j: int)
    requires TablesOk(l) && Ranks(l, depth) && (i == 0 || 0 < i < |l.symtab|)
    decreases if i == 0 then 0 else depth[i] + 1
  {
    i != 0 && (i == j || OnChain(l, depth, l.chain[i], j))
  }

  function Bucket(l: Loaded, name: Name): int
    requires l.buckets != []
  {
    AbiHash(name) % |l.buckets|
  }

  /** A table as link editors build it: acyclic chains, and every symbol that can
      be found at all on the chain of its name's bucket. */
  ghost predicate WellHashed(l: Loaded) {
    TablesOk(l) &&
    forall depth, j :: Ranks(l, depth) && 0 < j < |l.symtab| && Matches(l.symtab[j], l.symtab[j].name) ==>
      OnChain(l, depth, l.buckets[Bucket(l, l.symtab[j].name)], j)
  }

  // ----- lookup

  /** Object l, unless skipped, defines `name`. */
  predicate Defines(l: Loaded, name: Name) {
    l.hasTables && exists j :: 0 < j < |l.symtab| && Matches(l.symtab[j], name)
  }

  /** The linear scan: the first object from index k on, other than `skip`, that
      defines the name; |ns| if there is none. */
  function FirstDefiner(ns: seq<Loaded>, skip: int, name: Name, k: int): (i: int)
    requires 0 <= k <= |ns|
    ensures k <= i <= |ns|
    ensures i < |ns| ==> i != skip && Defines(ns[i], name)
    ensures forall j :: k <= j < i && j != skip ==> !Defines(ns[j], name)
    decreases |ns| - k
  {
    if k == |ns| || (k != skip && Defines(ns[k], name)) then k else FirstDefiner(ns, skip, name, k + 1)
  }

  datatype Found = NotFound | Found(at: int, symbol: int)

  /** The answer a linear scan would give: a matching symbol of the first object
      that defines the name, or none exactly when no object defines it. */
  ghost predicate IsAnswer(ns: seq<Loaded>, skip: int, name: Name, r: Found) {
    var i := FirstDefiner(ns, skip, name, 0);
    if i == |ns| then r.NotFound?
    else r.Found? && r.at == i && 0 < r.symbol < |ns[i].symtab| && Matches(ns[i].symtab[r.symbol], name)
  }

  /** Every question has an answer. */
  ghost function ScanAnswer(ns: seq<Loaded>, skip: int, name: Name): (r: Found)
    ensures IsAnswer(ns, skip, name, r)
  {
    var i := FirstDefiner(ns, skip, name, 0);
    if i == |ns| then NotFound
    else
      var s :| 0 < s < |ns[i].symtab| && Matches(ns[i].symtab[s], name);
      Found(i, s)
  }

  /** lookup_symbol, with `skip` an index into the namespace, or -1. */
  method Lookup(ns: seq<Loaded>, skip: int, name: Name) returns (r: Found)
    requires forall i :: 0 <= i < |ns| && ns[i].hasTables ==> WellHashed(ns[i])
    ensures IsAnswer(ns, skip, name, r)
  {
    var hash := Hash(name);
    var i := 0;
    while i < |ns|
      invariant 0 <= i <= |ns|
      invariant FirstDefiner(ns, skip, name, 0) == FirstDefiner(ns, skip, name, i)
    {
      if i != skip && ns[i].hasTables {
        var symidx := FindInObject(ns[i], hash, name);
        if symidx != 0 {
          return Found(i, symidx);
        }
      }
      i := i + 1;
    }
    return NotFound;
  }

  /** The walk along one chain. */
  method FindInObject(l: Loaded, hash: int, name: Name) returns (symidx: int)
    requires WellHashed(l) && l.hasTables && hash == AbiHash(name)
    ensures symidx == 0 <==> !Defines(l, name)
    ensures symidx != 0 ==> 0 < symidx < |l.symtab| && Matches(l.symtab[symidx], name)
  {
    ghost var depth :| Ranks(l, depth);
    symidx := l.buckets[hash % |l.buckets|];
    while symidx != 0
      invariant symidx == 0 || 0 < symidx < |l.symtab|
      invariant forall j :: 0 < j < |l.symtab| && Matches(l.symtab[j], name) ==> OnChain(l, depth, symidx, j)
      decreases if symidx == 0 then 0 else depth[symidx] + 1
    {
      if Matches(l.symtab[symidx], name) {
        return;
      }
      symidx := l.chain[symidx];
    }
  }

  // ----- what an answer is, and what must be one

  /** Kinds of symbols that stand for code or data. */
  predicate CodeOrData(k: Kind) { k in {NoType, Object, Func, Common} }

  /** An answer is a defined symbol of the very name, with a value, for code or data. */
  lemma AnswerIsDefinition(ns: seq<Loaded>, skip: int, name: Name, r: Found)
    requires IsAnswer(ns, skip, name, r) && r.Found?
    ensures 0 <= r.at < |ns| && r.at != skip && ns[r.at].hasTables && 0 < r.symbol < |ns[r.at].symtab|
    ensures var sym := ns[r.at].symtab[r.symbol];
      sym.defined && sym.value != 0 && sym.name == name && CodeOrData(sym.kind)
  {
  }

  /** Conversely a defined symbol with a value, for code or data, is found wherever
      it is the only one of its name. */
  lemma SoleSymbolIsAnswer(ns: seq<Loaded>, skip: int, name: Name, r: Found, i: int, j: int)
    requires IsAnswer(ns, skip, name, r)
    requires 0 <= i < |ns| && i != skip && ns[i].hasTables && 0 < j < |ns[i].symtab|
    requires var sym := ns[i].symtab[j]; sym.defined && sym.value != 0 && sym.name == name && CodeOrData(sym.kind)
    requires forall k, l :: 0 <= k < |ns| && 0 < l < |ns[k].symtab| && ns[k].symtab[l].name == name ==> k == i && l == j
    ensures r == Found(i, j)
  {
    assert Matches(ns[i].symtab[j], name);
    assert Defines(ns[i], name);
  }

  /** And a name without any is not found. */
  lemma NoSymbolNoAnswer(ns: seq<Loaded>, skip: int, name: Name, r: Found)
    requires IsAnswer(ns, skip, name, r)
    ensures r.NotFound? <==>
      forall i, j :: 0 <= i < |ns| && i != skip && ns[i].hasTables && 0 < j < |ns[i].symtab| ==>
        !(ns[i].symtab[j].defined && ns[i].symtab[j].value != 0 && ns[i].symtab[j].name == name
          && CodeOrData(ns[i].symtab[j].kind))
  {
    var f := FirstDefiner(ns, skip, name, 0);
    if f == |ns| {
      forall i, j | 0 <= i < |ns| && i != skip && ns[i].hasTables && 0 < j < |ns[i].symtab|
        ensures !Matches(ns[i].symtab[j], name)
      {
        assert !Defines(ns[i], name);
      }
    } else {
      assert Defines(ns[f], name);
      var j :| 0 < j < |ns[f].symtab| && Matches(ns[f].symtab[j], name);
    }
  }
}
