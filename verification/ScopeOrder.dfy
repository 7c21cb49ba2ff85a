/** The order in which scopes are listed. */
module ScopeOrder {
  import opened Wrappers
  import opened ScopePaths
  import opened ScopeIndex
  import opened ScopeWalk
  import opened StringOrder

  /** `x` and `y` are children of one scope at or below a start. */
  ghost predicate Siblings(starts: seq<string>, x: string, y: string) {
    ParentOf(x).Some? && ParentOf(x) == ParentOf(y) && Below(starts, ParentOf(x).value)
  }

  ghost predicate Below(starts: seq<string>, s: string) {
    exists r :: r in starts && Encloses(r, s)
  }

  /** Where the ways to `a` and to `b` part, at the starts or at siblings below
      one, the way to `a` has the smaller name. */
  ghost predicate Branches(starts: seq<string>, a: string, b: string) {
    exists x, y ::
      && Encloses(x, a) && Encloses(y, b) && Less(x, y)
      && ((x in starts && y in starts) || Siblings(starts, x, y))
  }

  /** A scope comes before what it encloses, with everything below it before its
      next sibling. */
  ghost predicate Comes(starts: seq<string>, a: string, b: string) {
    (Encloses(a, b) && a != b) || Branches(starts, a, b)
  }

  ghost predicate InTreeOrder(starts: seq<string>, nodes: seq<Node>) {
    forall i, j :: 0 <= i < j < |nodes| ==> Comes(starts, nodes[i].path, nodes[j].path)
  }

  ghost predicate AllBelow(starts: seq<string>, nodes: seq<Node>) {
    forall i :: 0 <= i < |nodes| ==> Below(starts, nodes[i].path)
  }

  ghost predicate SortedForest(ix: Index) {
    Forest(ix) && forall p :: Ascending(ix.ChildrenOf(p))
  }

  // ----- a walk lists in tree order -----

  lemma {:induction false} VisitOrdered(ix: Index, path: string, level: nat, maxLevel: nat)
    requires SortedForest(ix) && level <= maxLevel
    ensures InTreeOrder([path], Visit(ix, path, level, maxLevel))
    ensures AllBelow([path], Visit(ix, path, level, maxLevel))
    decreases maxLevel - level, 0
  {
    EnclosesStep(path, path);
    assert path in [path];
    if level < maxLevel {
      var cs := ix.ChildrenOf(path);
      VisitAllOrdered(ix, cs, level + 1, maxLevel);
      HeadFirst(path, NodeFor(ix, path, level), cs, VisitAll(ix, cs, level + 1, maxLevel));
    }
  }

  lemma HeadFirst(path: string, head: Node, cs: seq<string>, nodes: seq<Node>)
    requires head.path == path && InTreeOrder(cs, nodes) && AllBelow(cs, nodes)
    requires forall c :: c in cs ==> ParentOf(c) == Some(path)
    ensures InTreeOrder([path], [head] + nodes) && AllBelow([path], [head] + nodes)
  {
    EnclosesStep(path, path);
    BelowOne(path, path);
    forall j | 0 <= j < |nodes|
      ensures Below([path], nodes[j].path) && Comes([path], path, nodes[j].path)
    {
      UnderChildren(path, cs, nodes[j].path);
      BelowOne(path, nodes[j].path);
    }
    forall i, j | 0 <= i < j < |nodes| ensures Comes([path], nodes[i].path, nodes[j].path) {
      ComesUnder(path, cs, nodes[i].path, nodes[j].path);
    }
    HeadJoins([path], head, nodes);
  }

  lemma HeadJoins(starts: seq<string>, head: Node, nodes: seq<Node>)
    requires InTreeOrder(starts, nodes) && AllBelow(starts, nodes) && Below(starts, head.path)
    requires forall j :: 0 <= j < |nodes| ==> Comes(starts, head.path, nodes[j].path)
    ensures InTreeOrder(starts, [head] + nodes) && AllBelow(starts, [head] + nodes)
  {}

  lemma BelowOne(path: string, s: string)
    ensures Below([path], s) <==> Encloses(path, s)
  {
    assert path in [path];
  }

  lemma UnderChildren(path: string, cs: seq<string>, s: string)
    requires Below(cs, s) && forall c :: c in cs ==> ParentOf(c) == Some(path)
    ensures Encloses(path, s) && path != s
  {
    var c :| c in cs && Encloses(c, s);
    ChildBelow(path, c, s);
  }

  lemma ChildBelow(path: string, c: string, s: string)
    requires ParentOf(c) == Some(path) && Encloses(c, s)
    ensures Encloses(path, s) && path != s
  {
    ChainIsClosed(s, c);
    EnclosesLength(c, s);
  }

  /** What is ordered among the children of `path` is ordered below it. */
  lemma ComesUnder(path: string, cs: seq<string>, a: string, b: string)
    requires Comes(cs, a, b) && forall c :: c in cs ==> ParentOf(c) == Some(path)
    ensures Comes([path], a, b)
  {
    if Branches(cs, a, b) {
      var x, y :| Encloses(x, a) && Encloses(y, b) && Less(x, y)
                  && ((x in cs && y in cs) || Siblings(cs, x, y));
      assert path in [path];
      if x in cs && y in cs {
        EnclosesStep(path, path);
        assert Siblings([path], x, y);
      } else {
        var r :| r in cs && Encloses(r, ParentOf(x).value);
        ChildBelow(path, r, ParentOf(x).value);
        assert Siblings([path], x, y);
      }
    }
  }

  lemma {:induction false} VisitAllOrdered(ix: Index, paths: seq<string>, level: nat, maxLevel: nat)
    requires SortedForest(ix) && level <= maxLevel && Ascending(paths)
    ensures InTreeOrder(paths, VisitAll(ix, paths, level, maxLevel))
    ensures AllBelow(paths, VisitAll(ix, paths, level, maxLevel))
    decreases maxLevel - level, |paths| + 1
  {
    if paths != [] {
      var n := |paths| - 1;
      assert paths == paths[..n] + [paths[n]];
      VisitAllOrdered(ix, paths[..n], level, maxLevel);
      VisitOrdered(ix, paths[n], level, maxLevel);
      OneMoreStart(paths[..n], VisitAll(ix, paths[..n], level, maxLevel), paths[n],
                   Visit(ix, paths[n], level, maxLevel));
    }
  }

  lemma OneMoreStart(starts: seq<string>, a: seq<Node>, x: string, b: seq<Node>)
    requires InTreeOrder(starts, a) && AllBelow(starts, a) && InTreeOrder([x], b) && AllBelow([x], b)
    requires forall s :: s in starts ==> Less(s, x)
    ensures InTreeOrder(starts + [x], a + b) && AllBelow(starts + [x], a + b)
  {
    var all, more := a + b, starts + [x];
    forall i, j | 0 <= i < j < |all| ensures Comes(more, all[i].path, all[j].path) {
      if j < |a| {
        MoreStarts(starts, more, all[i].path, all[j].path);
      } else if i >= |a| {
        MoreStarts([x], more, all[i].path, all[j].path);
      } else {
        StartsApart(starts, x, all[i].path, all[j].path);
      }
    }
    forall i | 0 <= i < |all| ensures Below(more, all[i].path) {
      if i < |a| {
        var r :| r in starts && Encloses(r, all[i].path);
        assert r in more;
      } else {
        var r :| r in [x] && Encloses(r, all[i].path);
        assert r in more;
      }
    }
  }

  lemma StartsApart(starts: seq<string>, x: string, a: string, b: string)
    requires Below(starts, a) && Below([x], b) && forall s :: s in starts ==> Less(s, x)
    ensures Comes(starts + [x], a, b)
  {
    var r :| r in starts && Encloses(r, a);
    assert r in starts + [x] && x in starts + [x];
  }

  lemma MoreStarts(starts: seq<string>, more: seq<string>, a: string, b: string)
    requires Comes(starts, a, b) && forall s :: s in starts ==> s in more
    ensures Comes(more, a, b)
  {
    if Branches(starts, a, b) {
      var x, y :| Encloses(x, a) && Encloses(y, b) && Less(x, y)
                  && ((x in starts && y in starts) || Siblings(starts, x, y));
      assert Siblings(starts, x, y) ==> Siblings(more, x, y);
    }
  }

  lemma IndexIsSorted(aliases: seq<string>, ix: Index, keys: seq<string>)
    requires IndexOf(aliases, ix, keys)
    ensures SortedForest(ix)
  {
    IndexIsForest(aliases, ix, keys);
    forall p ensures Ascending(ix.ChildrenOf(p)) {
      ChildrenAre(aliases, ix, keys, p);
    }
  }

  // ----- the order leaves no choice -----

  /** No start lies below another. */
  ghost predicate Apart(starts: seq<string>) {
    forall r, s :: r in starts && s in starts && Encloses(r, s) ==> r == s
  }

  /** Two starts above one scope are one. */
  lemma OneStart(starts: seq<string>, r: string, s: string, a: string)
    requires Apart(starts) && r in starts && s in starts && Encloses(r, a) && Encloses(s, a)
    ensures r == s
  {
    ChainIsOrdered(r, s, a);
  }

  lemma NotBelowItself(a: string, b: string)
    requires Encloses(a, b) && Encloses(b, a)
    ensures a == b
  {
    EnclosesLength(a, b);
    EnclosesLength(b, a);
  }

  /** Where ways part, neither scope encloses the other. */
  lemma BranchesApart(starts: seq<string>, a: string, b: string)
    requires Apart(starts) && Branches(starts, a, b)
    ensures !Encloses(a, b) && !Encloses(b, a)
  {
    var x, y :| Encloses(x, a) && Encloses(y, b) && Less(x, y)
                && ((x in starts && y in starts) || Siblings(starts, x, y));
    LessTotal(x, y);
    if Encloses(a, b) {
      EnclosesTransitive(x, a, b);
      SameWay(starts, x, y, b);
    } else if Encloses(b, a) {
      EnclosesTransitive(y, b, a);
      SameWay(starts, x, y, a);
    }
  }

  lemma SameWay(starts: seq<string>, x: string, y: string, s: string)
    requires Apart(starts) && Encloses(x, s) && Encloses(y, s)
    requires (x in starts && y in starts) || Siblings(starts, x, y)
    ensures x == y
  {
    if x in starts && y in starts {
      OneStart(starts, x, y, s);
    } else {
      OneChild(x, y, s);
    }
  }

  /** Ways part only once. */
  lemma OneBranch(starts: seq<string>, x: string, y: string, x': string, y': string, a: string, b: string)
    requires Apart(starts) && Encloses(x, a) && Encloses(y, b) && Encloses(x', a) && Encloses(y', b)
    requires (x in starts && y in starts) || Siblings(starts, x, y)
    requires (x' in starts && y' in starts) || Siblings(starts, x', y')
    requires x != y && x' != y'
    ensures x == x' && y == y'
  {
    if x in starts && y in starts {
      if x' in starts && y' in starts {
        OneStart(starts, x, x', a);
        OneStart(starts, y, y', b);
      } else {
        StartOverSiblings(starts, x, y, x', y', a, b);
      }
    } else if x' in starts && y' in starts {
      StartOverSiblings(starts, x', y', x, y, a, b);
    } else {
      SiblingsOnce(x, y, x', y', a, b);
    }
  }

  /** Different starts have no siblings below them in common. */
  lemma StartOverSiblings(starts: seq<string>, x: string, y: string, c: string, d: string, a: string, b: string)
    requires Apart(starts) && x in starts && y in starts && Siblings(starts, c, d)
    requires Encloses(x, a) && Encloses(y, b) && Encloses(c, a) && Encloses(d, b)
    ensures x == y
  {
    var p := ParentOf(c).value;
    var r :| r in starts && Encloses(r, p);
    ChildBelow(p, c, a);
    ChildBelow(p, d, b);
    EnclosesTransitive(r, p, a);
    EnclosesTransitive(r, p, b);
    OneStart(starts, r, x, a);
    OneStart(starts, r, y, b);
  }

  lemma SiblingsOnce(x: string, y: string, x': string, y': string, a: string, b: string)
    requires ParentOf(x).Some? && ParentOf(x) == ParentOf(y) && ParentOf(x').Some? && ParentOf(x') == ParentOf(y')
    requires Encloses(x, a) && Encloses(y, b) && Encloses(x', a) && Encloses(y', b)
    requires x != y && x' != y'
    ensures x == x' && y == y'
  {
    var p, q := ParentOf(x).value, ParentOf(x').value;
    ChildBelow(p, x, a);
    ChildBelow(q, x', a);
    ChildBelow(p, y, b);
    ChildBelow(q, y', b);
    ChainIsOrdered(p, q, a);
    if p == q {
      OneChild(x, x', a);
      OneChild(y, y', b);
    } else if Encloses(p, q) {
      CommonChild(p, q, x, y, a, b);
    } else {
      CommonChild(q, p, x', y', a, b);
    }
  }

  /** Below `p` and above a common scope `q`, children of `p` are one. */
  lemma CommonChild(p: string, q: string, x: string, y: string, a: string, b: string)
    requires Encloses(p, q) && p != q && ParentOf(x) == Some(p) && ParentOf(y) == Some(p)
    requires Encloses(x, a) && Encloses(q, a) && Encloses(y, b) && Encloses(q, b)
    ensures x == y
  {
    var c := ChildToward(p, q);
    EnclosesTransitive(c, q, a);
    EnclosesTransitive(c, q, b);
    OneChild(c, x, a);
    OneChild(c, y, b);
  }

  /** Of two scopes at most one comes before the other, and none before itself. */
  lemma ComesOnce(starts: seq<string>, a: string, b: string)
    requires Apart(starts) && Comes(starts, a, b)
    ensures a != b && !Comes(starts, b, a)
  {
    if Branches(starts, a, b) {
      BranchesApart(starts, a, b);
      EnclosesStep(a, a);
      if Branches(starts, b, a) {
        NotBoth(starts, a, b);
      }
    } else {
      if Branches(starts, b, a) {
        BranchesApart(starts, b, a);
      }
      if Encloses(b, a) {
        NotBelowItself(a, b);
      }
    }
  }

  lemma NotBoth(starts: seq<string>, a: string, b: string)
    requires Apart(starts) && Branches(starts, a, b)
    ensures !Branches(starts, b, a)
  {
    var x, y :| Encloses(x, a) && Encloses(y, b) && Less(x, y)
                && ((x in starts && y in starts) || Siblings(starts, x, y));
    LessTotal(x, y);
    forall y', x' | Encloses(y', b) && Encloses(x', a) && Less(y', x')
                    && ((y' in starts && x' in starts) || Siblings(starts, y', x'))
      ensures false
    {
      LessTotal(y', x');
      OneBranch(starts, x, y, x', y', a, b);
    }
  }

  function Paths(nodes: seq<Node>): (r: seq<string>)
    ensures |r| == |nodes| && forall i :: 0 <= i < |r| ==> r[i] == nodes[i].path
  {
    seq(|nodes|, i requires 0 <= i < |nodes| => nodes[i].path)
  }

  lemma {:induction false} ListedIsCounted(nodes: seq<Node>, s: string)
    ensures Times(nodes, s) > 0 <==> s in Paths(nodes)
  {
    if nodes != [] {
      var n := |nodes| - 1;
      ListedIsCounted(nodes[..n], s);
      assert Paths(nodes) == Paths(nodes[..n]) + [nodes[n].path];
    }
  }

  ghost predicate Listed(starts: seq<string>, xs: seq<string>) {
    forall i, j :: 0 <= i < j < |xs| ==> Comes(starts, xs[i], xs[j])
  }

  lemma AllButLast(starts: seq<string>, xs: seq<string>, s: string)
    requires Apart(starts) && Listed(starts, xs) && xs != []
    ensures s in xs[..|xs| - 1] <==> s in xs && s != xs[|xs| - 1]
  {
    var n := |xs| - 1;
    assert xs == xs[..n] + [xs[n]];
    if s in xs[..n] {
      var i :| 0 <= i < n && xs[i] == s;
      ComesOnce(starts, xs[i], xs[n]);
    }
  }

  lemma LastAgree(starts: seq<string>, xs: seq<string>, ys: seq<string>)
    requires Apart(starts) && Listed(starts, xs) && Listed(starts, ys) && xs != [] && ys != []
    requires forall s :: s in xs <==> s in ys
    ensures xs[|xs| - 1] == ys[|ys| - 1]
  {
    var x, y := xs[|xs| - 1], ys[|ys| - 1];
    assert x in xs && y in ys;
    var i :| 0 <= i < |ys| && ys[i] == x;
    var j :| 0 <= j < |xs| && xs[j] == y;
    if x != y {
      assert Comes(starts, xs[j], xs[|xs| - 1]);
      ComesOnce(starts, ys[i], ys[|ys| - 1]);
    }
  }

  /** In tree order, scopes can be listed in one way only. */
  lemma {:induction false} OrderDecides(starts: seq<string>, xs: seq<string>, ys: seq<string>)
    requires Apart(starts) && Listed(starts, xs) && Listed(starts, ys)
    requires forall s :: s in xs <==> s in ys
    ensures xs == ys
    decreases |xs|
  {
    if xs == [] {
      if ys != [] {
        HasMember(ys);
      }
    } else {
      assert xs[0] in xs;
      LastAgree(starts, xs, ys);
      var xs', ys' := xs[..|xs| - 1], ys[..|ys| - 1];
      forall s ensures s in xs' <==> s in ys' {
        AllButLast(starts, xs, s);
        AllButLast(starts, ys, s);
      }
      OrderDecides(starts, xs', ys');
      assert xs == xs' + [xs[|xs| - 1]] && ys == ys' + [ys[|ys| - 1]];
    }
  }

  lemma ListingsAgree(starts: seq<string>, a: seq<Node>, b: seq<Node>)
    requires Apart(starts) && InTreeOrder(starts, a) && InTreeOrder(starts, b)
    requires forall s :: Times(a, s) == Times(b, s)
    ensures Paths(a) == Paths(b)
  {
    forall s ensures s in Paths(a) <==> s in Paths(b) {
      ListedIsCounted(a, s);
      ListedIsCounted(b, s);
    }
    OrderDecides(starts, Paths(a), Paths(b));
  }
}
