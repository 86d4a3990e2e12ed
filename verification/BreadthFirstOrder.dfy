/** What the breadth-first list is, independently of the loop that builds it. */
module BreadthFirstOrder {
  import opened Dependencies

  /** Object x needs object y. */
  ghost predicate Needs(fs: Files, objs: Files, path: seq<string>, x: string, y: string) {
    x in objs && Resolved(fs, path, objs[x].needed) && y in Libraries(fs, path, objs[x].needed)
  }

  /** A chain of needs that starts at root. */
  ghost predicate Chain(fs: Files, objs: Files, path: seq<string>, root: string, c: seq<string>) {
    && c != [] && c[0] == root
    && forall k :: 0 < k < |c| ==> Needs(fs, objs, path, c[k - 1], c[k])
  }

  // ----- mentions

  /** The mentions of a list are the needs of its objects. */
  lemma {:induction false} MentionedIffNeeded(fs: Files, objs: Files, path: seq<string>, run: seq<string>, y: string)
    requires AllResolved(fs, objs, path, run)
    ensures y in Mentions(fs, objs, path, run) <==> exists i :: 0 <= i < |run| && Needs(fs, objs, path, run[i], y)
    decreases |run|
  {
    if run != [] {
      hide Resolved, Libraries;
      var front, last := run[..|run| - 1], run[|run| - 1];
      assert AllResolved(fs, objs, path, front);
      MentionedIffNeeded(fs, objs, path, front, y);
      if i :| 0 <= i < |run| && Needs(fs, objs, path, run[i], y) {
        if i < |front| { assert Needs(fs, objs, path, front[i], y); }
      }
      if i :| 0 <= i < |front| && Needs(fs, objs, path, front[i], y) {
        assert Needs(fs, objs, path, run[i], y);
      }
      assert y in Libraries(fs, path, objs[last].needed) ==> Needs(fs, objs, path, run[|run| - 1], y);
    }
  }

  lemma {:induction false} MentionsPrefix(fs: Files, objs: Files, path: seq<string>, run: seq<string>, p: int)
    requires AllResolved(fs, objs, path, run) && 0 <= p <= |run|
    ensures AllResolved(fs, objs, path, run[..p])
    ensures Mentions(fs, objs, path, run[..p]) <= Mentions(fs, objs, path, run)
    decreases |run|
  {
    hide Resolved;
    if p == |run| {
      assert run[..p] == run;
    } else {
      var front := run[..|run| - 1];
      assert AllResolved(fs, objs, path, front);
      assert front[..p] == run[..p];
      MentionsPrefix(fs, objs, path, front, p);
    }
  }

  lemma {:induction false} FirstMentionsPrefix(s: seq<string>, t: seq<string>)
    requires s <= t
    ensures FirstMentions(s) <= FirstMentions(t)
    decreases |t|
  {
    if s == t {
    } else {
      var front := t[..|t| - 1];
      assert s <= front;
      FirstMentionsPrefix(s, front);
    }
  }

  /** What the first p objects mention, in order, is how the list goes on. */
  lemma MentionsLead(fs: Files, objs: Files, path: seq<string>, root: string, run: seq<string>, p: int)
    requires BreadthFirst(fs, objs, path, root, run) && 0 <= p <= |run|
    ensures AllResolved(fs, objs, path, run[..p])
    ensures FirstMentions(Mentions(fs, objs, path, run[..p])) <= run[1..]
  {
    hide FirstMentions, Mentions, AllResolved;
    MentionsPrefix(fs, objs, path, run, p);
    FirstMentionsPrefix(Mentions(fs, objs, path, run[..p]), Mentions(fs, objs, path, run));
  }

  /** If the first p objects mention the j-th, they mention all before it too. */
  lemma MentionedTogether(fs: Files, objs: Files, path: seq<string>, root: string, run: seq<string>, p: int,
      i: int, j: int)
    requires BreadthFirst(fs, objs, path, root, run) && 0 <= p <= |run| && 0 < i <= j < |run|
    requires AllResolved(fs, objs, path, run[..p]) && run[j] in Mentions(fs, objs, path, run[..p])
    ensures j - 1 < |FirstMentions(Mentions(fs, objs, path, run[..p]))|
    ensures run[i] in Mentions(fs, objs, path, run[..p])
  {
    MentionsLead(fs, objs, path, root, run, p);
    var m := Mentions(fs, objs, path, run[..p]);
    var d, rest := FirstMentions(m), run[1..];
    hide Mentions, AllResolved, FirstMentions, Resolved;
    assert Distinct(rest);
    assert run[j] in d;
    var k :| 0 <= k < |d| && d[k] == run[j];
    assert rest[k] == rest[j - 1];
    assert k == j - 1;
    assert d[i - 1] == rest[i - 1] == run[i];
  }

  // ----- reachability

  /** Every object on the list is reached by a chain of needs as long as its depth ... */
  lemma {:induction false} ListedIsReached(fs: Files, objs: Files, path: seq<string>, root: string,
      run: seq<string>, j: int)
    returns (c: seq<string>)
    requires BreadthFirst(fs, objs, path, root, run) && 0 <= j < |run|
    ensures Chain(fs, objs, path, root, c) && c[|c| - 1] == run[j]
    ensures |c| == Depth(fs, objs, path, root, run, j) + 1
    decreases j
  {
    if j == 0 {
      c := [root];
    } else {
      var i := Parent(fs, objs, path, root, run, j);
      var front := ListedIsReached(fs, objs, path, root, run, i);
      c := front + [run[j]];
      ChainMore(fs, objs, path, root, front, run[j]);
    }
  }

  /** When loading dies, the object with the missing library is reached by a chain of needs too. */
  lemma {:induction false} StuckIsReached(fs: Files, objs: Files, path: seq<string>, root: string,
      run: seq<string>, at: int)
    returns (c: seq<string>)
    requires ListedUpTo(fs, objs, path, run, at) && run[0] == root
    ensures Chain(fs, objs, path, root, c) && c[|c| - 1] == run[at]
    decreases at
  {
    if at == 0 {
      c := [root];
    } else {
      var seen := run[..at];
      MentionedIffNeeded(fs, objs, path, seen, run[at]);
      var i :| 0 <= i < |seen| && Needs(fs, objs, path, seen[i], run[at]);
      hide Mentions, AllResolved, Needs, Chain;
      var front := StuckIsReached(fs, objs, path, root, run, i);
      ChainMore(fs, objs, path, root, front, run[at]);
      c := front + [run[at]];
    }
  }

  lemma ChainMore(fs: Files, objs: Files, path: seq<string>, root: string, c: seq<string>, y: string)
    requires Chain(fs, objs, path, root, c) && Needs(fs, objs, path, c[|c| - 1], y)
    ensures Chain(fs, objs, path, root, c + [y])
  {
    hide Needs;
    var c' := c + [y];
    forall k | 0 < k < |c'| ensures Needs(fs, objs, path, c'[k - 1], c'[k]) {
      if k < |c| { assert Needs(fs, objs, path, c[k - 1], c[k]); }
    }
  }

  /** ... and every object reached by a chain of needs is on the list, no deeper
      than the chain is long. */
  lemma {:induction false} ReachedIsListed(fs: Files, objs: Files, path: seq<string>, root: string,
      run: seq<string>, c: seq<string>)
    returns (j: int)
    requires BreadthFirst(fs, objs, path, root, run) && Chain(fs, objs, path, root, c)
    ensures 0 <= j < |run| && run[j] == c[|c| - 1]
    ensures Depth(fs, objs, path, root, run, j) <= |c| - 1
    decreases |c|
  {
    if |c| == 1 {
      j := 0;
    } else {
      hide Needs, BreadthFirst, Depth, AllResolved;
      var front, y := c[..|c| - 1], c[|c| - 1];
      assert Chain(fs, objs, path, root, front);
      var i := ReachedIsListed(fs, objs, path, root, run, front);
      assert Needs(fs, objs, path, run[i], y) by { assert Needs(fs, objs, path, c[|c| - 2], c[|c| - 1]); }
      j := NeededIsListed(fs, objs, path, root, run, i, y);
      DepthStep(fs, objs, path, root, run, i, j);
    }
  }

  lemma NeededIsListed(fs: Files, objs: Files, path: seq<string>, root: string, run: seq<string>, i: int, y: string)
    returns (j: int)
    requires BreadthFirst(fs, objs, path, root, run) && 0 <= i < |run| && Needs(fs, objs, path, run[i], y)
    ensures 0 < j < |run| && run[j] == y
  {
    hide Resolved, Libraries, FirstMentions, Needs, Mentions;
    MentionedIffNeeded(fs, objs, path, run, y);
    assert y in run[1..];
    var k :| 0 <= k < |run| - 1 && run[1..][k] == y;
    j := k + 1;
  }

  /** One need adds at most one level. */
  lemma DepthStep(fs: Files, objs: Files, path: seq<string>, root: string, run: seq<string>, i: int, j: int)
    requires BreadthFirst(fs, objs, path, root, run) && 0 <= i < |run| && 0 < j < |run|
    requires Needs(fs, objs, path, run[i], run[j])
    ensures Depth(fs, objs, path, root, run, j) <= Depth(fs, objs, path, root, run, i) + 1
  {
    hide Needs, BreadthFirst;
    DepthOrdered(fs, objs, path, root, run, Parent(fs, objs, path, root, run, j), i);
  }

  // ----- levels

  ghost predicate IsParent(fs: Files, objs: Files, path: seq<string>, run: seq<string>, p: int, j: int)
    requires 0 <= j < |run|
  {
    && 0 <= p < |run| && Needs(fs, objs, path, run[p], run[j])
    && forall q :: 0 <= q < p ==> !Needs(fs, objs, path, run[q], run[j])
  }

  /** The first object on the list that needs the j-th comes before it. */
  ghost function Parent(fs: Files, objs: Files, path: seq<string>, root: string, run: seq<string>, j: int): (p: int)
    requires BreadthFirst(fs, objs, path, root, run) && 0 < j < |run|
    ensures 0 <= p < j && IsParent(fs, objs, path, run, p, j)
  {
    MentionsLead(fs, objs, path, root, run, j);
    MentionedIffNeeded(fs, objs, path, run[..j], run[j]);
    var i :| 0 <= i < j && Needs(fs, objs, path, run[..j][i], run[j]);
    FirstNeeder(fs, objs, path, run, run[j], i)
  }

  ghost function FirstNeeder(fs: Files, objs: Files, path: seq<string>, run: seq<string>, y: string, i: int): (p: int)
    requires 0 <= i < |run| && Needs(fs, objs, path, run[i], y)
    ensures 0 <= p <= i && Needs(fs, objs, path, run[p], y)
    ensures forall q :: 0 <= q < p ==> !Needs(fs, objs, path, run[q], y)
  {
    if q :| 0 <= q < i && Needs(fs, objs, path, run[q], y) then FirstNeeder(fs, objs, path, run, y, q) else i
  }

  /** How many steps the list is away from the root at its j-th object. */
  ghost function Depth(fs: Files, objs: Files, path: seq<string>, root: string, run: seq<string>, j: int): (n: nat)
    requires BreadthFirst(fs, objs, path, root, run) && 0 <= j < |run|
    decreases j
  {
    if j == 0 then 0 else 1 + Depth(fs, objs, path, root, run, Parent(fs, objs, path, root, run, j))
  }

  lemma ParentsOrdered(fs: Files, objs: Files, path: seq<string>, root: string, run: seq<string>, i: int, j: int)
    requires BreadthFirst(fs, objs, path, root, run) && 0 < i <= j < |run|
    ensures Parent(fs, objs, path, root, run, i) <= Parent(fs, objs, path, root, run, j)
  {
    hide Resolved, Libraries, FirstMentions, BreadthFirst;
    var p := Parent(fs, objs, path, root, run, j);
    MentionsLead(fs, objs, path, root, run, p + 1);
    assert Needs(fs, objs, path, run[..p + 1][p], run[j]);
    MentionedIffNeeded(fs, objs, path, run[..p + 1], run[j]);
    MentionedTogether(fs, objs, path, root, run, p + 1, i, j);
    MentionedIffNeeded(fs, objs, path, run[..p + 1], run[i]);
    var q :| 0 <= q < p + 1 && Needs(fs, objs, path, run[..p + 1][q], run[i]);
    assert Needs(fs, objs, path, run[q], run[i]);
  }

  /** Level by level: depth never decreases along the list. */
  lemma {:induction false} DepthOrdered(fs: Files, objs: Files, path: seq<string>, root: string,
      run: seq<string>, i: int, j: int)
    requires BreadthFirst(fs, objs, path, root, run) && 0 <= i <= j < |run|
    ensures Depth(fs, objs, path, root, run, i) <= Depth(fs, objs, path, root, run, j)
    decreases j
  {
    if i > 0 {
      ParentsOrdered(fs, objs, path, root, run, i, j);
      DepthOrdered(fs, objs, path, root, run,
                   Parent(fs, objs, path, root, run, i), Parent(fs, objs, path, root, run, j));
    }
  }

  // ----- uniqueness

  /** The next object is determined by the ones before it. */
  lemma NextDetermined(fs: Files, objs: Files, path: seq<string>, root: string, run: seq<string>, n: int)
    requires BreadthFirst(fs, objs, path, root, run) && 0 < n < |run|
    ensures AllResolved(fs, objs, path, run[..n])
    ensures var d := FirstMentions(Mentions(fs, objs, path, run[..n]));
      n - 1 < |d| && run[n] == d[n - 1]
  {
    hide Resolved, FirstMentions, Mentions;
    MentionsLead(fs, objs, path, root, run, n);
    MentionedTogether(fs, objs, path, root, run, n, n, n);
    assert run[n] == run[1..][n - 1];
  }

  /** There is only one breadth-first list. */
  lemma OneList(fs: Files, objs: Files, path: seq<string>, root: string, run: seq<string>, other: seq<string>)
    requires BreadthFirst(fs, objs, path, root, run) && BreadthFirst(fs, objs, path, root, other)
    ensures run == other
  {
    hide BreadthFirst, Mentions, FirstMentions, AllResolved;
    AgreeUpTo(fs, objs, path, root, run, other, |run|);
    AgreeUpTo(fs, objs, path, root, other, run, |other|);
    assert run[..|run|] == run && other[..|other|] == other;
  }

  lemma {:induction false} AgreeUpTo(fs: Files, objs: Files, path: seq<string>, root: string,
                                     run: seq<string>, other: seq<string>, n: int)
    requires BreadthFirst(fs, objs, path, root, run) && BreadthFirst(fs, objs, path, root, other)
    requires 0 <= n <= |run|
    ensures n <= |other| && run[..n] == other[..n]
    decreases n
  {
    hide BreadthFirst, Mentions, FirstMentions, AllResolved, Resolved, Libraries;
    StartsAtRoot(fs, objs, path, root, run);
    StartsAtRoot(fs, objs, path, root, other);
    if n > 1 {
      AgreeUpTo(fs, objs, path, root, run, other, n - 1);
      NextDetermined(fs, objs, path, root, run, n - 1);
      NextExists(fs, objs, path, root, other, n - 1);
      assert run[..n] == run[..n - 1] + [run[n - 1]];
      assert other[..n] == other[..n - 1] + [other[n - 1]];
    }
  }

  lemma StartsAtRoot(fs: Files, objs: Files, path: seq<string>, root: string, run: seq<string>)
    requires BreadthFirst(fs, objs, path, root, run)
    ensures run != [] && run[0] == root
  {
  }

  lemma NextExists(fs: Files, objs: Files, path: seq<string>, root: string, run: seq<string>, n: int)
    requires BreadthFirst(fs, objs, path, root, run) && 0 < n <= |run|
    ensures AllResolved(fs, objs, path, run[..n])
    ensures var d := FirstMentions(Mentions(fs, objs, path, run[..n]));
      n - 1 < |d| ==> n < |run| && run[n] == d[n - 1]
  {
    hide Resolved, FirstMentions, Mentions;
    MentionsLead(fs, objs, path, root, run, n);
    var d := FirstMentions(Mentions(fs, objs, path, run[..n]));
    if n - 1 < |d| {
      assert d[n - 1] == run[1..][n - 1];
    }
  }

  // ----- the search list

  lemma {:induction false} NotInLength(s: seq<string>, root: string)
    ensures |NotIn(s, [root])| <= |s| && (|NotIn(s, [root])| == |s| <==> root !in s)
  {
    if s != [] {
      NotInLength(s[..|s| - 1], root);
      assert s == s[..|s| - 1] + [s[|s| - 1]];
    }
  }

  lemma {:induction false} NotInTail(s: seq<string>, root: string)
    requires s != [] && s[0] == root
    ensures NotIn(s, [root]) == NotIn(s[1..], [root])
    decreases |s|
  {
    if |s| > 1 {
      var front := s[..|s| - 1];
      NotInTail(front, root);
      assert s[1..][..|s| - 2] == front[1..] && s[1..][|s| - 2] == s[|s| - 1];
    }
  }

  /** Some chain of needs leads from the root back to it. */
  ghost predicate RootNeeded(fs: Files, objs: Files, path: seq<string>, root: string) {
    exists c :: Chain(fs, objs, path, root, c) && |c| > 1 && c[|c| - 1] == root
  }

  lemma ChainFront(fs: Files, objs: Files, path: seq<string>, root: string, c: seq<string>)
    requires Chain(fs, objs, path, root, c) && |c| > 1
    ensures Chain(fs, objs, path, root, c[..|c| - 1])
    ensures Needs(fs, objs, path, c[|c| - 2], c[|c| - 1])
  {
    hide Needs;
  }

  lemma ListResolved(fs: Files, objs: Files, path: seq<string>, root: string, run: seq<string>)
    requires BreadthFirst(fs, objs, path, root, run)
    ensures AllResolved(fs, objs, path, run)
  {
  }

  /** The listed objects mention the root exactly when a chain of needs leads back to it. */
  lemma RootMentioned(fs: Files, objs: Files, path: seq<string>, root: string, run: seq<string>)
    requires BreadthFirst(fs, objs, path, root, run)
    ensures AllResolved(fs, objs, path, run)
    ensures root in Mentions(fs, objs, path, run) <==> RootNeeded(fs, objs, path, root)
  {
    hide Mentions, AllResolved, Needs, BreadthFirst, Chain, Depth;
    ListResolved(fs, objs, path, root, run);
    MentionedIffNeeded(fs, objs, path, run, root);
    if i :| 0 <= i < |run| && Needs(fs, objs, path, run[i], root) {
      var c := ListedIsReached(fs, objs, path, root, run, i);
      var circle := c + [root];
      ChainMore(fs, objs, path, root, c, root);
      assert Chain(fs, objs, path, root, circle) && |circle| > 1 && circle[|circle| - 1] == root;
    }
    if c :| Chain(fs, objs, path, root, c) && |c| > 1 && c[|c| - 1] == root {
      ChainFront(fs, objs, path, root, c);
      var front := c[..|c| - 1];
      var j := ReachedIsListed(fs, objs, path, root, run, front);
      assert Needs(fs, objs, path, run[j], root);
    }
  }

  /** The search list has the length that was counted for it exactly when the root
      is in no circle of needs. */
  lemma SearchListFilled(fs: Files, objs: Files, path: seq<string>, root: string, run: seq<string>)
    requires BreadthFirst(fs, objs, path, root, run)
    ensures |NotIn(run, [root])| == |run| - 1 <==> !RootNeeded(fs, objs, path, root)
  {
    RootMentioned(fs, objs, path, root, run);
    hide FirstMentions, Mentions, AllResolved;
    NotInTail(run, root);
    NotInLength(run[1..], root);
  }
}
