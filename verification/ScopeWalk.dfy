/** Walking the scope index from chosen roots. */
module ScopeWalk {
  import opened Wrappers
  import opened ScopePaths
  import opened ScopeIndex

  datatype Node = Node(path: string, name: string, level: nat, signals: nat, children: nat)

  function NodeFor(ix: Index, path: string, level: nat): Node {
    Node(path, LastSegment(path), level, ix.Signals(path), |ix.ChildrenOf(path)|)
  }

  /** The nodes of a walk from `path`, and from each of `paths`. */
  function Visit(ix: Index, path: string, level: nat, maxLevel: nat): seq<Node>
    requires level <= maxLevel
    decreases maxLevel - level, 0
  {
    [NodeFor(ix, path, level)]
    + if level == maxLevel then [] else VisitAll(ix, ix.ChildrenOf(path), level + 1, maxLevel)
  }

  function VisitAll(ix: Index, paths: seq<string>, level: nat, maxLevel: nat): seq<Node>
    requires level <= maxLevel
    decreases maxLevel - level, |paths| + 1
  {
    if paths == [] then []
    else VisitAll(ix, paths[..|paths| - 1], level, maxLevel) + Visit(ix, paths[|paths| - 1], level, maxLevel)
  }

  lemma VisitAllStep(ix: Index, paths: seq<string>, k: nat, level: nat, maxLevel: nat)
    requires level <= maxLevel && k < |paths|
    ensures VisitAll(ix, paths[..k + 1], level, maxLevel) ==
            VisitAll(ix, paths[..k], level, maxLevel) + Visit(ix, paths[k], level, maxLevel)
  {
    assert paths[..k + 1][..k] == paths[..k];
  }

  /** Appends `path` and what lies below it. */
  method Walk(ix: Index, path: string, level: nat, maxLevel: nat, out: seq<Node>) returns (r: seq<Node>)
    requires level <= maxLevel
    ensures r == out + Visit(ix, path, level, maxLevel)
    decreases maxLevel - level, 0
  {
    r := out + [NodeFor(ix, path, level)];
    if level >= maxLevel {
      return;
    }
    r := WalkEach(ix, ix.ChildrenOf(path), level + 1, maxLevel, r);
  }

  method WalkEach(ix: Index, paths: seq<string>, level: nat, maxLevel: nat, out: seq<Node>) returns (r: seq<Node>)
    requires level <= maxLevel
    ensures r == out + VisitAll(ix, paths, level, maxLevel)
    decreases maxLevel - level, 1
  {
    r := out;
    for k := 0 to |paths|
      invariant r == out + VisitAll(ix, paths[..k], level, maxLevel)
    {
      VisitAllStep(ix, paths, k, level, maxLevel);
      r := Walk(ix, paths[k], level, maxLevel, r);
    }
    assert paths[..|paths|] == paths;
  }

  method WalkRoots(ix: Index, roots: seq<string>, depth: nat) returns (nodes: seq<Node>)
    ensures nodes == VisitAll(ix, roots, 0, depth)
  {
    nodes := WalkEach(ix, roots, 0, depth, []);
  }

  // ----- how often a scope is visited -----

  function Times(nodes: seq<Node>, s: string): nat {
    if nodes == [] then 0
    else Times(nodes[..|nodes| - 1], s) + if nodes[|nodes| - 1].path == s then 1 else 0
  }

  lemma {:induction false} TimesConcat(a: seq<Node>, b: seq<Node>, s: string)
    ensures Times(a + b, s) == Times(a, s) + Times(b, s)
  {
    if b == [] {
      assert a + b == a;
    } else {
      var n := |b| - 1;
      assert (a + b)[..|a| + n] == a + b[..n];
      TimesConcat(a, b[..n], s);
    }
  }

  /** `s` lies in the subtree of `path`, at most `more` levels down. */
  predicate Within(path: string, s: string, more: nat) {
    Encloses(path, s) && Depth(s) <= Depth(path) + more
  }

  /** The index lists as children exactly the scopes with that parent. */
  ghost predicate Forest(ix: Index) {
    && Closed(ix.scopes)
    && (forall p, x :: x in ix.ChildrenOf(p) <==> x in ix.scopes && ParentOf(x) == Some(p))
    && forall p :: Distinct(ix.ChildrenOf(p))
  }

  lemma IndexIsForest(aliases: seq<string>, ix: Index, keys: seq<string>)
    requires IndexOf(aliases, ix, keys)
    ensures Forest(ix) && Distinct(ix.tops)
  {
    forall p
      ensures Distinct(ix.ChildrenOf(p))
      ensures forall x :: x in ix.ChildrenOf(p) <==> x in ix.scopes && ParentOf(x) == Some(p)
    {
      ChildrenAre(aliases, ix, keys, p);
      AscendingDistinct(ix.ChildrenOf(p));
    }
    ChildrenAre(aliases, ix, keys, "");
    AscendingDistinct(ix.tops);
  }

  /** A walk visits every scope of the subtree, down to the level asked for,
      exactly once, and nothing else. */
  lemma {:induction false} VisitOnce(ix: Index, path: string, level: nat, maxLevel: nat, s: string)
    requires Forest(ix) && path in ix.scopes && s in ix.scopes && level <= maxLevel
    ensures Times(Visit(ix, path, level, maxLevel), s) == if Within(path, s, maxLevel - level) then 1 else 0
    decreases maxLevel - level, 0
  {
    if level == maxLevel {
      ZeroLevels(path, s);
      TimesHead(ix, path, level, [], s);
    } else {
      var cs := ix.ChildrenOf(path);
      OneChildAbove(ix, path, s);
      VisitAllOnce(ix, cs, level + 1, maxLevel, s);
      BelowIsUnderChild(ix, path, s, maxLevel - level - 1);
      TimesHead(ix, path, level, VisitAll(ix, cs, level + 1, maxLevel), s);
      EnclosesStep(path, path);
    }
  }

  lemma TimesHead(ix: Index, path: string, level: nat, below: seq<Node>, s: string)
    ensures Times([NodeFor(ix, path, level)] + below, s) == (if path == s then 1 else 0) + Times(below, s)
  {
    var head := [NodeFor(ix, path, level)];
    assert head[..0] == [];
    TimesConcat(head, below, s);
  }

  lemma OneChildAbove(ix: Index, path: string, s: string)
    requires Forest(ix)
    ensures forall c, d :: (c in ix.ChildrenOf(path) && d in ix.ChildrenOf(path) && Encloses(c, s) && Encloses(d, s))
                           ==> c == d
  {
    forall c, d | c in ix.ChildrenOf(path) && d in ix.ChildrenOf(path) && Encloses(c, s) && Encloses(d, s)
      ensures c == d
    {
      OneChild(c, d, s);
    }
  }

  lemma ZeroLevels(path: string, s: string)
    ensures Within(path, s, 0) <==> path == s
  {
    EnclosesStep(path, path);
    if Encloses(path, s) {
      EnclosesLength(path, s);
    }
  }

  /** Some path of the list has `s` in its subtree. */
  ghost predicate SomeWithin(paths: seq<string>, s: string, more: nat) {
    exists c :: c in paths && Within(c, s, more)
  }

  /** What lies strictly below `path` lies under one of its children. */
  lemma BelowIsUnderChild(ix: Index, path: string, s: string, more: nat)
    requires Forest(ix) && s in ix.scopes
    ensures SomeWithin(ix.ChildrenOf(path), s, more) <==> path != s && Within(path, s, more + 1)
  {
    if Encloses(path, s) && path != s {
      var c := ChildToward(path, s);
      ClosedUp(ix.scopes, c, s);
      assert c in ix.ChildrenOf(path);
      forall d | d in ix.ChildrenOf(path) && Encloses(d, s) ensures d == c {
        OneChild(c, d, s);
      }
    }
    forall c | c in ix.ChildrenOf(path) && Encloses(c, s)
      ensures Encloses(path, s) && path != s
    {
      ChainIsClosed(s, c);
      EnclosesLength(c, s);
    }
  }

  /** Walking several roots that do not share a descendant `s` visits `s` once
      if it is below one of them, and otherwise not at all. */
  lemma {:induction false} VisitAllOnce(ix: Index, paths: seq<string>, level: nat, maxLevel: nat, s: string)
    requires Forest(ix) && s in ix.scopes && level <= maxLevel
    requires Distinct(paths) && forall c :: c in paths ==> c in ix.scopes
    requires forall c, d :: c in paths && d in paths && Encloses(c, s) && Encloses(d, s) ==> c == d
    ensures Times(VisitAll(ix, paths, level, maxLevel), s) ==
            if SomeWithin(paths, s, maxLevel - level) then 1 else 0
    decreases maxLevel - level, |paths| + 1
  {
    if paths != [] {
      var n := |paths| - 1;
      var rest, x := paths[..n], paths[n];
      assert paths == rest + [x] && x in paths;
      VisitAllOnce(ix, rest, level, maxLevel, s);
      VisitOnce(ix, x, level, maxLevel, s);
      TimesConcat(VisitAll(ix, rest, level, maxLevel), Visit(ix, x, level, maxLevel), s);
      assert SomeWithin(paths, s, maxLevel - level) <==>
             SomeWithin(rest, s, maxLevel - level) || Within(x, s, maxLevel - level);
      if Within(x, s, maxLevel - level) {
        forall c | c in rest ensures !Within(c, s, maxLevel - level) {
          assert c in paths && c != x;
        }
      }
    }
  }

  // ----- parents first -----

  /** Every node except those for `starts` comes after its parent, one level
      below it. */
  ghost predicate ParentsFirst(nodes: seq<Node>, starts: seq<string>, level: nat) {
    forall i :: 0 <= i < |nodes| ==> Placed(nodes, starts, level, i)
  }

  ghost predicate Placed(nodes: seq<Node>, starts: seq<string>, level: nat, i: nat)
    requires i < |nodes|
  {
    (nodes[i].path in starts && nodes[i].level == level) || HasParentBefore(nodes, i)
  }

  ghost predicate HasParentBefore(nodes: seq<Node>, i: nat)
    requires i < |nodes|
  {
    exists j :: 0 <= j < i && ParentOf(nodes[i].path) == Some(nodes[j].path) && nodes[i].level == nodes[j].level + 1
  }

  lemma {:induction false} VisitParentsFirst(ix: Index, path: string, level: nat, maxLevel: nat)
    requires Forest(ix) && level <= maxLevel
    ensures ParentsFirst(Visit(ix, path, level, maxLevel), [path], level)
    ensures Visit(ix, path, level, maxLevel)[0] == NodeFor(ix, path, level)
    decreases maxLevel - level, 0
  {
    if level < maxLevel {
      var cs := ix.ChildrenOf(path);
      VisitAllParentsFirst(ix, cs, level + 1, maxLevel);
      UnderParent(NodeFor(ix, path, level), VisitAll(ix, cs, level + 1, maxLevel), cs);
    }
  }

  /** A parent put in front of its children and what follows them. */
  lemma UnderParent(top: Node, below: seq<Node>, cs: seq<string>)
    requires ParentsFirst(below, cs, top.level + 1)
    requires forall c :: c in cs ==> ParentOf(c) == Some(top.path)
    ensures ParentsFirst([top] + below, [top.path], top.level)
  {
    var all := [top] + below;
    forall i | 0 <= i < |all|
      ensures Placed(all, [top.path], top.level, i)
    {
      if i > 0 {
        assert Placed(below, cs, top.level + 1, i - 1);
        UnderParentAt(top, below, cs, i - 1);
      }
    }
  }

  lemma UnderParentAt(top: Node, below: seq<Node>, cs: seq<string>, k: nat)
    requires k < |below| && Placed(below, cs, top.level + 1, k)
    requires forall c :: c in cs ==> ParentOf(c) == Some(top.path)
    ensures HasParentBefore([top] + below, k + 1)
  {
    var all := [top] + below;
    assert all[k + 1] == below[k];
    if HasParentBefore(below, k) {
      var j :| 0 <= j < k && ParentOf(below[k].path) == Some(below[j].path) && below[k].level == below[j].level + 1;
      assert all[j + 1] == below[j];
    } else {
      assert ParentOf(all[k + 1].path) == Some(all[0].path);
    }
  }

  lemma {:induction false} VisitAllParentsFirst(ix: Index, paths: seq<string>, level: nat, maxLevel: nat)
    requires Forest(ix) && level <= maxLevel
    ensures ParentsFirst(VisitAll(ix, paths, level, maxLevel), paths, level)
    decreases maxLevel - level, |paths| + 1
  {
    if paths != [] {
      var n := |paths| - 1;
      assert paths == paths[..n] + [paths[n]];
      VisitAllParentsFirst(ix, paths[..n], level, maxLevel);
      VisitParentsFirst(ix, paths[n], level, maxLevel);
      JoinParentsFirst(VisitAll(ix, paths[..n], level, maxLevel), paths[..n],
                       Visit(ix, paths[n], level, maxLevel), paths[n], level);
    }
  }

  lemma JoinParentsFirst(a: seq<Node>, starts: seq<string>, b: seq<Node>, x: string, level: nat)
    requires ParentsFirst(a, starts, level) && ParentsFirst(b, [x], level)
    ensures ParentsFirst(a + b, starts + [x], level)
  {
    var all := a + b;
    forall i | 0 <= i < |all|
      ensures Placed(all, starts + [x], level, i)
    {
      if i < |a| {
        assert Placed(a, starts, level, i);
        KeptBefore([], a, b, i);
        assert [] + a + b == all;
      } else {
        assert Placed(b, [x], level, i - |a|);
        KeptBefore(a, b, [], i - |a|);
        assert a + b + [] == all;
      }
    }
  }

  /** A node keeps its parent before it when more nodes come around it. */
  lemma KeptBefore(a: seq<Node>, b: seq<Node>, c: seq<Node>, i: nat)
    requires i < |b|
    ensures (a + b + c)[|a| + i] == b[i]
    ensures HasParentBefore(b, i) ==> HasParentBefore(a + b + c, |a| + i)
  {
    var all := a + b + c;
    if HasParentBefore(b, i) {
      var j :| 0 <= j < i && ParentOf(b[i].path) == Some(b[j].path) && b[i].level == b[j].level + 1;
      assert all[|a| + j] == b[j];
    }
  }
}
