/** Loading the objects a program depends on, breadth first. An object is known
    by the name its file was opened under. */
module Dependencies {
  import opened Basics

  /** What the loader reads from an object: its DT_NEEDED and DT_RPATH entries. */
  datatype Info = Info(needed: seq<string>, rpaths: seq<string>)

  type Files = map<string, Info>

  function InDir(dir: string, soname: string): string { dir + "/" + soname }

  // ----- the search path

  const MAX_PATH: int := 10   // what the search path holds besides its final null

  /** The name under which open_path finds a library: the first directory wins. */
  function Resolve(fs: Files, path: seq<string>, soname: string): (r: Option<string>)
    ensures r.Some? ==> r.value in fs
  {
    if path == [] then None
    else if InDir(path[0], soname) in fs then Some(InDir(path[0], soname))
    else Resolve(fs, path[1..], soname)
  }

  /** A path that grows at its end never changes what was already found. */
  lemma {:induction false} ResolveStable(fs: Files, path: seq<string>, more: seq<string>, soname: string)
    requires Resolve(fs, path, soname).Some?
    ensures Resolve(fs, path + more, soname) == Resolve(fs, path, soname)
  {
    if InDir(path[0], soname) !in fs {
      assert (path + more)[1..] == path[1..] + more;
      ResolveStable(fs, path[1..], more, soname);
    }
  }

  /** open_path. */
  method OpenPath(fs: Files, path: seq<string>, soname: string) returns (r: Option<string>)
    ensures r == Resolve(fs, path, soname)
  {
    var i := 0;
    while i < |path|
      invariant 0 <= i <= |path|
      invariant Resolve(fs, path, soname) == Resolve(fs, path[i..], soname)
    {
      assert path[i..][1..] == path[i + 1..];
      if InDir(path[i], soname) in fs {
        return Some(InDir(path[i], soname));
      }
      i := i + 1;
    }
    return None;
  }

  ghost predicate Distinct(s: seq<string>) {
    forall i, j :: 0 <= i < j < |s| ==> s[i] != s[j]
  }

  /** The RPATH loop of parse_dynamic: the directories that are not yet on the path
      go to its end, each once, in the order in which they are first named. */
  method AddPaths(path: seq<string>, rpaths: seq<string>) returns (path': seq<string>)
    ensures path' == path + NotIn(FirstMentions(rpaths), path)
    ensures Distinct(path) ==> Distinct(path')
    ensures forall d :: d in path' <==> d in path || d in rpaths
  {
    hide FirstMentions, NotIn, Distinct;
    path' := path;
    NothingMentioned(path);
    var i := 0;
    while i < |rpaths|
      invariant 0 <= i <= |rpaths| && path' == path + NotIn(FirstMentions(rpaths[..i]), path)
    {
      var dir, past := rpaths[i], rpaths[..i];
      assert rpaths[..i + 1] == past + [dir];
      FirstMentionsMore(past, dir);
      NotInMore(FirstMentions(past), dir, path);
      if dir !in path' {
        path' := path' + [dir];
      }
      i := i + 1;
    }
    assert rpaths[..i] == rpaths;
    DistinctAppend(path, FirstMentions(rpaths));
  }

  /** What a list lacks can go to its end without repetitions. */
  lemma DistinctAppend(seed: seq<string>, s: seq<string>)
    requires Distinct(s)
    ensures Distinct(seed) ==> Distinct(seed + NotIn(s, seed))
  {
    DistinctNotIn(s, seed);
    var more := NotIn(s, seed);
    hide NotIn;
    forall j | 0 <= j < |more| ensures more[j] !in seed {
      assert more[j] in more;
    }
  }

  lemma {:induction false} DistinctNotIn(s: seq<string>, seed: seq<string>)
    requires Distinct(s)
    ensures Distinct(NotIn(s, seed))
    decreases |s|
  {
    if s != [] {
      var front, last := s[..|s| - 1], s[|s| - 1];
      DistinctNotIn(front, seed);
      assert s == front + [last];
      NotInMore(front, last, seed);
      hide NotIn;
      assert last !in front;
    }
  }

  lemma NothingMentioned(path: seq<string>)
    ensures NotIn(FirstMentions([]), path) == []
  {
  }

  // ----- breadth-first order

  /** Each name once, at its first mention. */
  function FirstMentions(s: seq<string>): (d: seq<string>)
    ensures forall x :: x in d <==> x in s
    ensures Distinct(d)
  {
    if s == [] then [] else
      var d, last := FirstMentions(s[..|s| - 1]), s[|s| - 1];
      assert s == s[..|s| - 1] + [last];
      if last in d then d else d + [last]
  }

  ghost predicate Resolved(fs: Files, path: seq<string>, needed: seq<string>) {
    forall k :: 0 <= k < |needed| ==> Resolve(fs, path, needed[k]).Some?
  }

  /** The files that a list of needed libraries stands for. */
  ghost function Libraries(fs: Files, path: seq<string>, needed: seq<string>): (t: seq<string>)
    requires Resolved(fs, path, needed)
    ensures |t| == |needed| && forall k :: 0 <= k < |t| ==> t[k] == Resolve(fs, path, needed[k]).value
  {
    seq(|needed|, k requires 0 <= k < |needed| => Resolve(fs, path, needed[k]).value)
  }

  ghost predicate AllResolved(fs: Files, objs: Files, path: seq<string>, run: seq<string>) {
    forall i :: 0 <= i < |run| ==> run[i] in objs && Resolved(fs, path, objs[run[i]].needed)
  }

  /** Everything the objects of a list need, in the order of the list. */
  ghost function Mentions(fs: Files, objs: Files, path: seq<string>, run: seq<string>): (m: seq<string>)
    requires AllResolved(fs, objs, path, run)
  {
    if run == [] then [] else
      var front, last := run[..|run| - 1], run[|run| - 1];
      assert AllResolved(fs, objs, path, front);
      Mentions(fs, objs, path, front) + Libraries(fs, path, objs[last].needed)
  }

  /** The breadth-first list from root: the root, then everything the listed
      objects need, in list order, each object once, where it is first mentioned;
      and every object is needed by one before it. */
  ghost predicate BreadthFirst(fs: Files, objs: Files, path: seq<string>, root: string, run: seq<string>) {
    && run != [] && run[0] == root && AllResolved(fs, objs, path, run)
    && run[1..] == FirstMentions(Mentions(fs, objs, path, run))
    && (forall j :: 0 < j < |run| ==> run[j] in Mentions(fs, objs, path, run[..j]))
  }

  /** Listed object `at`, reached from root in breadth-first order, needs a library that is not found. */
  ghost predicate Stuck(fs: Files, objs: Files, path: seq<string>, root: string, run: seq<string>, at: int,
      soname: string) {
    && 0 <= at < |run| && run[0] == root && run[at] in objs && soname in objs[run[at]].needed
    && Resolve(fs, path, soname).None? && ListedUpTo(fs, objs, path, run, at)
  }

  ghost predicate ListedUpTo(fs: Files, objs: Files, path: seq<string>, run: seq<string>, at: int) {
    && 0 <= at < |run|
    && forall j :: 0 <= j <= at ==>
      && AllResolved(fs, objs, path, run[..j])
      && (j > 0 ==> run[j] in Mentions(fs, objs, path, run[..j]))
  }

  lemma {:induction false} TargetsStable(fs: Files, path: seq<string>, more: seq<string>, needed: seq<string>)
    requires Resolved(fs, path, needed)
    ensures Resolved(fs, path + more, needed) && Libraries(fs, path + more, needed) == Libraries(fs, path, needed)
  {
    forall k | 0 <= k < |needed|
      ensures Resolve(fs, path + more, needed[k]) == Resolve(fs, path, needed[k])
    {
      ResolveStable(fs, path, more, needed[k]);
    }
  }

  /** Loading more objects, and with them more directories, does not change what
      the objects seen so far mean. */
  lemma {:induction false} MentionsStable(fs: Files, objs: Files, path: seq<string>, more: seq<string>,
      run: seq<string>)
    requires AllResolved(fs, objs, path, run)
    ensures AllResolved(fs, objs, path + more, run)
    ensures Mentions(fs, objs, path + more, run) == Mentions(fs, objs, path, run)
    decreases |run|
  {
    forall i | 0 <= i < |run| ensures Resolved(fs, path + more, objs[run[i]].needed) {
      TargetsStable(fs, path, more, objs[run[i]].needed);
    }
    if run != [] {
      var front, last := run[..|run| - 1], run[|run| - 1];
      assert AllResolved(fs, objs, path, front);
      MentionsStable(fs, objs, path, more, front);
      TargetsStable(fs, path, more, objs[last].needed);
    }
  }

  lemma AllResolvedMore(fs: Files, objs: Files, path: seq<string>, run: seq<string>, x: string)
    requires AllResolved(fs, objs, path, run) && x in objs && Resolved(fs, path, objs[x].needed)
    ensures AllResolved(fs, objs, path, run + [x])
  {
    hide Resolved;
  }

  lemma MentionsNext(fs: Files, objs: Files, path: seq<string>, run: seq<string>, i: int)
    requires 0 <= i < |run| && AllResolved(fs, objs, path, run[..i + 1])
    ensures AllResolved(fs, objs, path, run[..i]) && run[i] in objs && Resolved(fs, path, objs[run[i]].needed)
    ensures Mentions(fs, objs, path, run[..i + 1])
         == Mentions(fs, objs, path, run[..i]) + Libraries(fs, path, objs[run[i]].needed)
  {
    var r := run[..i + 1];
    assert r[..|r| - 1] == run[..i] && r[|r| - 1] == run[i];
    assert run[i] in objs && Resolved(fs, path, objs[run[i]].needed) by { assert r[i] == run[i]; }
    forall j | 0 <= j < i ensures run[..i][j] in objs && Resolved(fs, path, objs[run[..i][j]].needed) {
      assert r[j] == run[j];
    }
  }

  // ----- sets of names

  lemma DistinctFits(s: seq<string>, universe: set<string>)
    requires Distinct(s) && forall i :: 0 <= i < |s| ==> s[i] in universe
    ensures |s| <= |universe|
  {
    if s != [] {
      var front, last := s[..|s| - 1], s[|s| - 1];
      forall i | 0 <= i < |front| ensures front[i] in universe - {last} { }
      DistinctFits(front, universe - {last});
    }
  }

  // ----- the loader

  /** s without the names in seed. */
  function NotIn(s: seq<string>, seed: seq<string>): (r: seq<string>)
    ensures forall x :: x in r <==> x in s && x !in seed
  {
    if s == [] then [] else
      var r, last := NotIn(s[..|s| - 1], seed), s[|s| - 1];
      assert s == s[..|s| - 1] + [last];
      if last in seed then r else r + [last]
  }

  lemma FirstMentionsMore(s: seq<string>, x: string)
    ensures FirstMentions(s + [x]) == if x in s then FirstMentions(s) else FirstMentions(s) + [x]
  {
    assert (s + [x])[..|s|] == s;
  }

  lemma NotInMore(s: seq<string>, x: string, seed: seq<string>)
    ensures NotIn(s + [x], seed) == if x in seed then NotIn(s, seed) else NotIn(s, seed) + [x]
  {
    assert (s + [x])[..|s|] == s;
  }

  datatype Loading =
    | Died(soname: string, run: seq<string>, at: int)
    | Loaded(run: seq<string>, nlist: int, searchList: seq<string>)

  /** All directories that can ever be on the search path. */
  // ----- the search path, exactly

  /** The directories that the objects of a list name, in the order of the list. */
  function NamedDirs(objs: Files, names: seq<string>): (dirs: seq<string>)
    requires forall i :: 0 <= i < |names| ==> names[i] in objs
  {
    if names == [] then [] else NamedDirs(objs, names[..|names| - 1]) + objs[names[|names| - 1]].rpaths
  }

  /** The path after the objects of a list were parsed: what it was, and then each
      directory it lacked, once, at its first mention. */
  ghost predicate PathAfter(before: seq<string>, path: seq<string>, objs: Files, names: seq<string>) {
    && (forall i :: 0 <= i < |names| ==> names[i] in objs)
    && path == before + NotIn(FirstMentions(NamedDirs(objs, names)), before)
  }

  lemma {:induction false} MissingTwice(p: seq<string>, s: seq<string>, t: seq<string>)
    ensures var q := p + NotIn(FirstMentions(s), p);
      q + NotIn(FirstMentions(t), q) == p + NotIn(FirstMentions(s + t), p)
    decreases |t|
  {
    hide NotIn, FirstMentions;
    var q := p + NotIn(FirstMentions(s), p);
    if t == [] {
      assert s + t == s;
      NothingMentioned(q);
    } else {
      var front, last := t[..|t| - 1], t[|t| - 1];
      MissingTwice(p, s, front);
      assert t == front + [last] && s + t == (s + front) + [last];
      OneMoreMissing(q, front, last);
      OneMoreMissing(p, s + front, last);
      assert last in q <==> last in p || last in s;
      assert last in s + front <==> last in s || last in front;
      var d, e := NotIn(FirstMentions(front), q), NotIn(FirstMentions(s + front), p);
      assert q + (d + [last]) == (q + d) + [last] && p + (e + [last]) == (p + e) + [last];
    }
  }

  lemma OneMoreMissing(p: seq<string>, s: seq<string>, x: string)
    ensures var d := NotIn(FirstMentions(s), p);
      NotIn(FirstMentions(s + [x]), p) == if x in p || x in s then d else d + [x]
  {
    FirstMentionsMore(s, x);
    NotInMore(FirstMentions(s), x, p);
    hide NotIn, FirstMentions;
  }

  lemma PathAfterMore(before: seq<string>, path: seq<string>, path': seq<string>, objs: Files,
      names: seq<string>, x: string)
    requires PathAfter(before, path, objs, names) && x in objs
    requires path' == path + NotIn(FirstMentions(objs[x].rpaths), path)
    ensures PathAfter(before, path', objs, names + [x])
  {
    var more := names + [x];
    assert more[..|more| - 1] == names;
    MissingTwice(before, NamedDirs(objs, names), objs[x].rpaths);
  }

  lemma PathAtFirst(before: seq<string>, objs: Files)
    ensures PathAfter(before, before, objs, [])
  {
    NothingMentioned(before);
  }

  ghost function Directories(path: seq<string>, objs: Files): (u: set<string>)
    ensures forall d :: d in u <==> d in path || exists n :: n in objs && d in objs[n].rpaths
  {
    (set d | d in path) + (set n, d | n in objs && d in objs[n].rpaths :: d)
  }

  /** After the mentions `all`: one run list entry, one reserved bit and one
      namespace entry for each, in the order of first mention. */
  ghost predicate InStep(fs: Files, all: seq<string>, run: seq<string>, reserved: set<string>, namespace: seq<string>,
                         root: string, seed: seq<string>)
  {
    && run == [root] + FirstMentions(all)
    && (forall x :: x in reserved <==> x in all)
    && namespace == seed + NotIn(FirstMentions(all), seed)
    && (forall x :: x in all ==> x in fs)
  }

  lemma InStepMore(fs: Files, all: seq<string>, run: seq<string>, reserved: set<string>, namespace: seq<string>,
                   root: string, seed: seq<string>, x: string)
    requires InStep(fs, all, run, reserved, namespace, root, seed) && x in fs
    ensures InStep(fs, all + [x], if x in reserved then run else run + [x], reserved + {x},
                   if x in namespace then namespace else namespace + [x], root, seed)
  {
    FirstMentionsMore(all, x);
    NotInMore(FirstMentions(all), x, seed);
    hide FirstMentions, NotIn;
    var more := all + [x];
    assert forall y :: y in more <==> y in all || y == x;
    assert x in namespace <==> x in seed || x in all;
  }

  class Loader {
    const files: Files
    /** What is known of every object: the files, and the root, which may be a
        program that was not opened through the search path. */
    const objs: Files
    var path: seq<string>
    var namespace: seq<string>
    var reserved: set<string>   // the objects whose l_reserved bit is set

    constructor (files: Files, objs: Files, path: seq<string>, namespace: seq<string>)
      ensures this.files == files && this.objs == objs && this.path == path
      ensures this.namespace == namespace && reserved == {}
    {
      this.files, this.objs, this.path, this.namespace, reserved := files, objs, path, namespace, {};
    }

    ghost predicate Closed() { forall n :: n in files ==> n in objs && objs[n] == files[n] }

    /** The path has only grown, by directories the objects name. */
    ghost predicate GrownFrom(before: seq<string>)
      reads this
    {
      && before <= path && (Distinct(before) ==> Distinct(path))
      && (forall d :: d in path ==> d in Directories(before, objs))
    }

    /** The path holds what it held before, and exactly the directories of the root and
        of the objects appended to the namespace since, in this order. */
    ghost predicate PathIs(before: seq<string>, root: string, seed: seq<string>)
      reads this
    {
      seed <= namespace && PathAfter(before, path, objs, [root] + namespace[|seed|..])
    }

    ghost predicate Follows(all: seq<string>, run: seq<string>, root: string, seed: seq<string>)
      reads this
    {
      InStep(files, all, run, reserved, namespace, root, seed)
    }

    /** map_object: open the library; unless its name is in the namespace, map it,
        which puts its RPATH entries on the search path. */
    method MapObject(soname: string) returns (r: Option<string>)
      requires Closed()
      modifies this`path
      ensures r == Resolve(files, old(path), soname) && GrownFrom(old(path))
      ensures path == if r.None? || r.value in namespace then old(path)
                      else old(path) + NotIn(FirstMentions(files[r.value].rpaths), old(path))
    {
      r := OpenPath(files, path, soname);
      if r.None? || r.value in namespace {
        return;
      }
      path := AddPaths(path, files[r.value].rpaths);
    }

    /** append_to_namespace: a walk along the list, which returns when it meets the
        object. The list is only ever extended at its end, and names nothing twice. */
    method AppendToNamespace(name: string)
      modifies this`namespace
      ensures old(namespace) <= namespace <= old(namespace) + [name]
      ensures name in namespace && (name in old(namespace) ==> namespace == old(namespace))
      ensures Distinct(old(namespace)) ==> Distinct(namespace)
    {
      var i := 0;
      while i < |namespace|
        invariant 0 <= i <= |namespace| && name !in namespace[..i]
      {
        if namespace[i] == name {
          return;
        }
        i := i + 1;
      }
      assert namespace[..i] == namespace;
      namespace := namespace + [name];
    }

    /** One DT_NEEDED entry: map the object, chain it if it is new, and append it
        to the namespace. */
    method LoadOne(soname: string, run: seq<string>, nlist: int, ghost all: seq<string>, ghost root: string,
        ghost seed: seq<string>, ghost origin: seq<string>)
      returns (found: Option<string>, run': seq<string>, nlist': int)
      requires Closed() && Follows(all, run, root, seed) && nlist == |run| - 1 && PathIs(origin, root, seed)
      modifies this
      ensures PathIs(origin, root, seed)
      ensures found == Resolve(files, old(path), soname) && GrownFrom(old(path))
      ensures found.None? ==> path == old(path)
      ensures found.Some? ==> Follows(all + [found.value], run', root, seed) && nlist' == |run'| - 1 && run <= run'
    {
      hide PathAfter, InStep, FirstMentions, NotIn, Directories, Distinct, Resolve;
      run', nlist' := run, nlist;
      found := MapObject(soname);
      if found.None? {
        return;
      }
      ghost var named := [root] + namespace[|seed|..];
      if found.value !in namespace {
        PathAfterMore(origin, old(path), path, objs, named, found.value);
      }
      InStepMore(files, all, run, reserved, namespace, root, seed, found.value);
      ghost var bits := reserved;
      if found.value !in reserved {
        reserved := reserved + {found.value};
        nlist' := nlist' + 1;
        run' := run' + [found.value];
      }
      assert reserved == bits + {found.value};
      AppendToNamespace(found.value);
      EndOf(old(namespace), namespace, found.value);
      AppendedTail(root, seed, old(namespace), found.value);
    }

    /** The loop over the DT_NEEDED entries of one object. */
    method LoadNeeded(l: string, run: seq<string>, nlist: int, ghost all: seq<string>, ghost root: string,
        ghost seed: seq<string>, ghost origin: seq<string>)
      returns (r: Option<string>, run': seq<string>, nlist': int, ghost all': seq<string>)
      requires Closed() && l in objs && Follows(all, run, root, seed) && nlist == |run| - 1
      requires PathIs(origin, root, seed)
      modifies this
      ensures PathIs(origin, root, seed)
      ensures GrownFrom(old(path))
      ensures r.None? ==>
        && Resolved(files, path, objs[l].needed) && all' == all + Libraries(files, path, objs[l].needed)
        && Follows(all', run', root, seed) && nlist' == |run'| - 1 && run <= run'
      ensures r.Some? ==> r.value in objs[l].needed && Resolve(files, path, r.value).None?
    {
      hide PathAfter, FirstMentions, NotIn, Distinct, Resolve, Directories;
      run', nlist', all' := run, nlist, all;
      var needed := objs[l].needed;
      var k := 0;
      while k < |needed|
        invariant 0 <= k <= |needed| && GrownFrom(old(path)) && PathIs(origin, root, seed)
        invariant Resolved(files, path, needed[..k]) && all' == all + Libraries(files, path, needed[..k])
        invariant Follows(all', run', root, seed) && nlist' == |run'| - 1 && run <= run'
      {
        ghost var before := path;
        var found: Option<string>;
        found, run', nlist' := LoadOne(needed[k], run', nlist', all', root, seed, origin);
        if found.None? {
          return Some(needed[k]), run', nlist', all';
        }
        PathGrew(files, before, path, needed, k);
        all' := all' + [found.value];
        k := k + 1;
      }
      assert needed[..k] == needed;
      return None, run', nlist', all';
    }

    /** map_object_deps. It ends on every finite set of files, cycles included. */
    method MapObjectDeps(root: string) returns (r: Loading)
      requires Closed() && root in objs && reserved == {} && root in namespace
      modifies this
      ensures GrownFrom(old(path))
      ensures Distinct(old(path)) && |Directories(old(path), objs)| <= MAX_PATH ==> |path| <= MAX_PATH
      ensures PathIs(old(path), root, old(namespace))
      ensures r.Died? ==> Stuck(files, objs, path, root, r.run, r.at, r.soname)
      ensures r.Loaded? ==>
        && BreadthFirst(files, objs, path, root, r.run)
        && namespace == old(namespace) + NotIn(r.run[1..], old(namespace))
        && (Distinct(old(namespace)) ==> Distinct(namespace))
        && r.nlist == |r.run| - 1 && r.searchList == NotIn(r.run, [root])
    {
      hide PathAfter, InStep, FirstMentions, NotIn, Directories, Distinct, Resolve, Walked, BreadthFirst;
      ghost var seed := namespace;
      path := AddPaths(path, objs[root].rpaths);
      RootDirectories(old(path), path, objs, root);
      PathAtFirst(old(path), objs);
      PathAfterMore(old(path), old(path), path, objs, [], root);
      assert [] + [root] == [root] + namespace[|seed|..];
      var died, run, at, nlist, past := WalkRunList(root, seed, old(path));
      PathFits(old(path), path, objs);
      if died.Some? {
        return Died(died.value, run, at);
      }
      WalkedAll(files, objs, path, root, run, past, past[|run|], reserved, namespace, seed);
      RunDistinct(files, objs, path, root, run, seed);
      var searchList := [];
      if nlist > 0 {
        searchList := FillSearchList(run, root);
      } else {
        OnlyRoot(run, root);
      }
      r := Loaded(run, nlist, searchList);
    }

    /** The loop over the run list, which grows while it is walked. */
    method WalkRunList(root: string, ghost seed: seq<string>, ghost origin: seq<string>)
      returns (died: Option<string>, run: seq<string>, at: int, nlist: int, ghost past: seq<seq<string>>)
      requires Closed() && root in objs && reserved == {} && namespace == seed && PathIs(origin, root, seed)
      modifies this
      ensures PathIs(origin, root, seed)
      ensures GrownFrom(old(path))
      ensures died.Some? ==> Stuck(files, objs, path, root, run, at, died.value)
      ensures died.None? ==>
        && run != [] && run[0] == root && nlist == |run| - 1
        && Walked(files, objs, path, run, past, |run|) && |past| == |run| + 1
        && Follows(past[|run|], run, root, seed)
    {
      hide PathAfter, InStep, FirstMentions, NotIn, Directories, Distinct, Resolve, Resolved, Walked, Mentions,
        AllResolved,
           Libraries;
      run, nlist, past := [root], 0, [[]];
      died := None;
      StartsInStep(files, root, seed);
      StartsWalked(files, objs, path, root);
      at := 0;
      while at < |run|
        invariant 0 <= at <= |run| <= |files| + 1 && GrownFrom(old(path)) && nlist == |run| - 1
        invariant PathIs(origin, root, seed)
        invariant died.None? && |past| == at + 1
        invariant Walked(files, objs, path, run, past, at) && Follows(past[at], run, root, seed)
        decreases |files| + 1 - at
      {
        RunInObjs(files, objs, past[at], run, reserved, namespace, root, seed);
        ghost var before := path;
        ghost var all: seq<string>;
        var longer: seq<string>;
        died, longer, nlist, all := LoadNeeded(run[at], run, nlist, past[at], root, seed, origin);
        if died.Some? {
          WalkedStuck(files, objs, before, path, run, past, at);
          return;
        }
        RunInObjs(files, objs, all, longer, reserved, namespace, root, seed);
        WalkedMore(files, objs, before, path, run, longer, past, at, all);
        past, run := past + [all], longer;
        at := at + 1;
      }
      RunInObjs(files, objs, past[at], run, reserved, namespace, root, seed);
    }

    /** The loop that fills the root's search list. */
    method FillSearchList(run: seq<string>, root: string) returns (list: seq<string>)
      ensures list == NotIn(run, [root])
    {
      list := [];
      var i := 0;
      while i < |run|
        invariant 0 <= i <= |run| && list == NotIn(run[..i], [root])
      {
        assert run[..i + 1] == run[..i] + [run[i]];
        NotInMore(run[..i], run[i], [root]);
        if run[i] != root {
          list := list + [run[i]];
        }
        i := i + 1;
      }
      assert run[..i] == run;
    }
  }

  lemma AppendedTail(root: string, seed: seq<string>, ns: seq<string>, x: string)
    requires seed <= ns
    ensures seed <= ns + [x] && [root] + (ns + [x])[|seed|..] == [root] + ns[|seed|..] + [x]
  {
  }

  lemma EndOf(before: seq<string>, after: seq<string>, name: string)
    requires before <= after <= before + [name] && name in after && (name in before ==> after == before)
    ensures after == if name in before then before else before + [name]
  {
    if |after| == |before| {
      assert after == before;
    } else {
      assert after == before + [name];
    }
  }

  lemma RunDistinct(fs: Files, objs: Files, path: seq<string>, root: string, run: seq<string>, seed: seq<string>)
    requires BreadthFirst(fs, objs, path, root, run)
    ensures Distinct(seed) ==> Distinct(seed + NotIn(run[1..], seed))
  {
    hide NotIn, Distinct, Mentions, AllResolved;
    DistinctAppend(seed, FirstMentions(Mentions(fs, objs, path, run)));
  }

  /** The search path never outgrows the directories that are known to begin with. */
  lemma PathFits(before: seq<string>, path: seq<string>, objs: Files)
    requires forall d :: d in path ==> d in Directories(before, objs)
    requires Distinct(before) ==> Distinct(path)
    ensures Distinct(before) ==> |path| <= |Directories(before, objs)|
  {
    hide Directories;
    if Distinct(before) { DistinctFits(path, Directories(before, objs)); }
  }

  lemma RootDirectories(before: seq<string>, path: seq<string>, objs: Files, root: string)
    requires root in objs && forall d :: d in path <==> d in before || d in objs[root].rpaths
    ensures forall d :: d in path ==> d in Directories(before, objs)
  {
  }

  lemma OnlyRoot(run: seq<string>, root: string)
    requires |run| == 1 && run[0] == root
    ensures NotIn(run, [root]) == []
  {
  }

  lemma StartsInStep(fs: Files, root: string, seed: seq<string>)
    ensures InStep(fs, [], [root], {}, seed, root, seed)
  {
  }

  lemma RunInObjs(fs: Files, objs: Files, all: seq<string>, run: seq<string>, reserved: set<string>,
                  namespace: seq<string>, root: string, seed: seq<string>)
    requires InStep(fs, all, run, reserved, namespace, root, seed) && root in objs
    requires forall n :: n in fs ==> n in objs && objs[n] == fs[n]
    ensures forall i :: 0 <= i < |run| ==> run[i] in objs
    ensures run != [] && run[0] == root && |run| <= |fs| + 1
    ensures forall i :: 0 < i < |run| ==> run[i] in all
  {
    hide FirstMentions;
    forall i | 0 < i < |run| ensures run[i] in all && run[i] in objs {
      assert run[i] in FirstMentions(all);
    }
    DistinctFits(FirstMentions(all), fs.Keys);
    assert |fs.Keys| == |fs|;
  }

  /** The first i run list entries were searched; past[t] is what the first t of
      them mention, and each entry was mentioned before its turn. */
  ghost predicate Walked(fs: Files, objs: Files, path: seq<string>, run: seq<string>, past: seq<seq<string>>, i: int) {
    && 0 <= i <= |run| && |past| == i + 1
    && (forall t :: 0 <= t <= i ==>
      && AllResolved(fs, objs, path, run[..t])
      && past[t] == Mentions(fs, objs, path, run[..t]))
    && (forall j :: 0 < j < |run| ==> run[j] in past[if j < i then j else i])
  }

  lemma StartsWalked(fs: Files, objs: Files, path: seq<string>, root: string)
    ensures Walked(fs, objs, path, [root], [[]], 0)
  {
  }

  lemma WalkedMore(fs: Files, objs: Files, before: seq<string>, path: seq<string>, run: seq<string>, run': seq<string>,
                   past: seq<seq<string>>, i: int, all': seq<string>)
    requires Walked(fs, objs, before, run, past, i) && i < |run| && run <= run' && before <= path
    requires run[i] in objs && Resolved(fs, path, objs[run[i]].needed)
    requires all' == past[i] + Libraries(fs, path, objs[run[i]].needed)
    requires forall j :: |run| <= j < |run'| ==> run'[j] in all'
    ensures Walked(fs, objs, path, run', past + [all'], i + 1)
  {
    var more, past' := path[|before|..], past + [all'];
    assert path == before + more;
    forall t | 0 <= t <= i
      ensures AllResolved(fs, objs, path, run'[..t]) && past'[t] == Mentions(fs, objs, path, run'[..t])
    {
      assert run'[..t] == run[..t];
      MentionsStable(fs, objs, before, more, run[..t]);
    }
    assert run'[..i + 1] == run'[..i] + [run[i]];
    AllResolvedMore(fs, objs, path, run'[..i], run[i]);
    MentionsNext(fs, objs, path, run', i);
    forall j | 0 < j < |run'| ensures run'[j] in past'[if j < i + 1 then j else i + 1] {
      if j < |run| { assert run[j] in past[if j < i then j else i]; }
    }
  }

  lemma WalkedStuck(fs: Files, objs: Files, before: seq<string>, path: seq<string>, run: seq<string>,
                    past: seq<seq<string>>, at: int)
    requires Walked(fs, objs, before, run, past, at) && at < |run| && before <= path
    ensures ListedUpTo(fs, objs, path, run, at)
  {
    hide Mentions, AllResolved;
    var more := path[|before|..];
    assert path == before + more;
    forall j | 0 <= j <= at
      ensures AllResolved(fs, objs, path, run[..j]) && (j > 0 ==> run[j] in Mentions(fs, objs, path, run[..j]))
    {
      var front := run[..j];
      MentionsStable(fs, objs, before, more, front);
    }
  }

  lemma WalkedAll(fs: Files, objs: Files, path: seq<string>, root: string, run: seq<string>, past: seq<seq<string>>,
                  all: seq<string>, reserved: set<string>, namespace: seq<string>, seed: seq<string>)
    requires Walked(fs, objs, path, run, past, |run|) && all == past[|run|]
    requires InStep(fs, all, run, reserved, namespace, root, seed)
    ensures BreadthFirst(fs, objs, path, root, run) && namespace == seed + NotIn(run[1..], seed)
  {
    hide FirstMentions, NotIn;
    assert run[..|run|] == run;
    assert run[1..] == FirstMentions(all);
  }

  lemma PathGrew(fs: Files, before: seq<string>, path: seq<string>, needed: seq<string>, k: int)
    requires 0 <= k < |needed| && before <= path && Resolved(fs, before, needed[..k])
    requires Resolve(fs, before, needed[k]).Some?
    ensures Resolved(fs, path, needed[..k + 1])
    ensures Libraries(fs, path, needed[..k + 1])
         == Libraries(fs, before, needed[..k]) + [Resolve(fs, before, needed[k]).value]
  {
    var more := path[|before|..];
    assert path == before + more;
    TargetsStable(fs, before, more, needed[..k]);
    ResolveStable(fs, before, more, needed[k]);
    assert needed[..k + 1] == needed[..k] + [needed[k]];
  }
}
