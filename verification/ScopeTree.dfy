/** The `tree` command, from the scopes of all aliases to the nodes it lists. */
module ScopeTree {
  import opened Wrappers
  import opened ScopeIndex
  import opened ScopeOrder
  import opened ScopePaths
  import opened ScopeSelect
  import opened ScopeWalk
  import opened StringOrder

  datatype Listing = Listing(roots: seq<string>, nodes: seq<Node>, total: nat, truncated: bool, rootSignals: nat)

  /** Levels below a root, at least one. */
  function Levels(depth: Option<int>): nat {
    if depth.None? || depth.value < 1 then 1 else depth.value
  }

  /** `s` is a scope of the file that the selection asks for, near enough to
      where its subtree begins. */
  ghost predicate Wanted(aliases: seq<string>, sel: Option<Selection>, levels: nat, s: string) {
    && Needed(aliases, s)
    && match sel
       case None => Depth(s) <= levels
       case Some(x) => InScope(x, s) && Depth(s) <= Depth(RootAbove(x, s)) + levels
  }

  /** A pattern was given, and no scope of the file matches it. */
  ghost predicate NoMatch(aliases: seq<string>, sel: Option<Selection>) {
    sel.Some? && forall s :: Needed(aliases, s) ==> !InScope(sel.value, s)
  }

  /** There are exactly `n` scopes directly below `path`. */
  ghost predicate HasChildren(aliases: seq<string>, path: string, n: nat) {
    exists cs: seq<string> ::
      Distinct(cs) && |cs| == n && forall c :: c in cs <==> Needed(aliases, c) && ParentOf(c) == Some(path)
  }

  /** What a node says of its scope. */
  ghost predicate Truthful(aliases: seq<string>, n: Node) {
    NameOf(n.path, n.name) && n.signals == Count(aliases, n.path) && HasChildren(aliases, n.path, n.children)
  }

  // ----- a walk stays in the index -----

  ghost predicate InIndex(ix: Index, nodes: seq<Node>) {
    forall i :: 0 <= i < |nodes| ==>
                  nodes[i].path in ix.scopes && nodes[i] == NodeFor(ix, nodes[i].path, nodes[i].level)
  }

  lemma {:induction false} VisitInIndex(ix: Index, path: string, level: nat, maxLevel: nat)
    requires Forest(ix) && path in ix.scopes && level <= maxLevel
    ensures InIndex(ix, Visit(ix, path, level, maxLevel))
    decreases maxLevel - level, 0
  {
    if level < maxLevel {
      VisitAllInIndex(ix, ix.ChildrenOf(path), level + 1, maxLevel);
    }
  }

  lemma {:induction false} VisitAllInIndex(ix: Index, paths: seq<string>, level: nat, maxLevel: nat)
    requires Forest(ix) && level <= maxLevel && forall c :: c in paths ==> c in ix.scopes
    ensures InIndex(ix, VisitAll(ix, paths, level, maxLevel))
    decreases maxLevel - level, |paths| + 1
  {
    if paths != [] {
      var n := |paths| - 1;
      assert paths == paths[..n] + [paths[n]];
      VisitAllInIndex(ix, paths[..n], level, maxLevel);
      VisitInIndex(ix, paths[n], level, maxLevel);
    }
  }

  lemma {:induction false} NotListed(ix: Index, nodes: seq<Node>, s: string)
    requires InIndex(ix, nodes) && s !in ix.scopes
    ensures Times(nodes, s) == 0
  {
    if nodes != [] {
      NotListed(ix, nodes[..|nodes| - 1], s);
    }
  }

  lemma NodeTruthful(aliases: seq<string>, ix: Index, keys: seq<string>, path: string, level: nat)
    requires IndexOf(aliases, ix, keys) && path in ix.scopes
    ensures Truthful(aliases, NodeFor(ix, path, level))
  {
    LastSegmentNames(path);
    ChildrenAre(aliases, ix, keys, path);
    ChildrenCounted(aliases, ix.ChildrenOf(path), path);
  }

  lemma ChildrenCounted(aliases: seq<string>, cs: seq<string>, path: string)
    requires Ascending(cs) && forall c :: c in cs <==> Needed(aliases, c) && ParentOf(c) == Some(path)
    ensures HasChildren(aliases, path, |cs|)
  {
    AscendingDistinct(cs);
    assert Distinct(cs);
  }

  // ----- the roots -----

  /** The roots from which the listing starts. */
  function RootList(ix: Index, sel: Option<Selection>, keys: seq<string>): seq<string> {
    if sel.None? then ix.tops else RootsOf(sel.value, keys)
  }

  lemma RootsKnown(aliases: seq<string>, ix: Index, keys: seq<string>, sel: Option<Selection>)
    requires IndexOf(aliases, ix, keys)
    ensures forall c :: c in RootList(ix, sel, keys) ==> c in ix.scopes
  {
    if sel.None? {
      ChildrenAre(aliases, ix, keys, "");
    } else {
      AscendingDistinct(keys);
      RootsMembers(sel.value, keys);
    }
  }

  /** No root at all means that nothing matched. */
  lemma RootsMatch(aliases: seq<string>, ix: Index, keys: seq<string>, sel: Selection)
    requires IndexOf(aliases, ix, keys)
    ensures RootsOf(sel, keys) == [] <==> NoMatch(aliases, Some(sel))
  {
    AscendingDistinct(keys);
    RootsMembers(sel, keys);
    if RootsOf(sel, keys) != [] {
      assert RootsOf(sel, keys)[0] in RootsOf(sel, keys);
    }
    forall s | Needed(aliases, s) && InScope(sel, s)
      ensures RootAbove(sel, s) in RootsOf(sel, keys)
    {
      ClosedUp(ix.scopes, RootAbove(sel, s), s);
    }
  }

  lemma OnceEach(aliases: seq<string>, ix: Index, keys: seq<string>, sel: Option<Selection>, levels: nat, s: string)
    requires IndexOf(aliases, ix, keys) && (sel.Some? ==> sel.value.depth.None?)
    ensures Times(VisitAll(ix, RootList(ix, sel, keys), 0, levels), s) ==
            if Wanted(aliases, sel, levels, s) then 1 else 0
  {
    IndexIsForest(aliases, ix, keys);
    if s !in ix.scopes {
      RootsKnown(aliases, ix, keys, sel);
      VisitAllInIndex(ix, RootList(ix, sel, keys), 0, levels);
      NotListed(ix, VisitAll(ix, RootList(ix, sel, keys), 0, levels), s);
    } else if sel.None? {
      ChildrenAre(aliases, ix, keys, "");
      EachScopeOnce(ix, levels, s);
    } else {
      AscendingDistinct(keys);
      EachSelectedOnce(ix, sel.value, keys, levels, s);
    }
  }

  // ----- the command -----

  /** The roots: the scopes at the top, or those that the pattern selects and
      whose parent it does not. */
  ghost predicate RootsAre(aliases: seq<string>, sel: Option<Selection>, roots: seq<string>) {
    && Ascending(roots)
    && forall s :: s in roots <==>
                     && Needed(aliases, s)
                     && match sel
                        case None => ParentOf(s).None?
                        case Some(x) => InScope(x, s) && (ParentOf(s).Some? ==> !InScope(x, ParentOf(s).value))
  }

  /** A listing of exactly the wanted scopes, once each, from the roots down:
      parents one level above their children, all that lies below a scope
      before its next sibling, siblings and roots by name, with true counts. */
  ghost predicate Complete(aliases: seq<string>, sel: Option<Selection>, levels: nat, roots: seq<string>,
                           nodes: seq<Node>)
  {
    && (forall s :: Times(nodes, s) == if Wanted(aliases, sel, levels, s) then 1 else 0)
    && RootsAre(aliases, sel, roots) && ParentsFirst(nodes, roots, 0) && InTreeOrder(roots, nodes)
    && forall i :: 0 <= i < |nodes| ==> Truthful(aliases, nodes[i])
  }

  lemma WalkComplete(aliases: seq<string>, ix: Index, keys: seq<string>, sel: Option<Selection>, levels: nat)
    requires IndexOf(aliases, ix, keys) && (sel.Some? ==> sel.value.depth.None?)
    ensures Complete(aliases, sel, levels, RootList(ix, sel, keys), VisitAll(ix, RootList(ix, sel, keys), 0, levels))
  {
    var roots := RootList(ix, sel, keys);
    var nodes := VisitAll(ix, roots, 0, levels);
    IndexIsForest(aliases, ix, keys);
    RootsKnown(aliases, ix, keys, sel);
    VisitAllInIndex(ix, roots, 0, levels);
    VisitAllParentsFirst(ix, roots, 0, levels);
    RootsAreAll(aliases, ix, keys, sel);
    IndexIsSorted(aliases, ix, keys);
    VisitAllOrdered(ix, roots, 0, levels);
    forall s ensures Times(nodes, s) == if Wanted(aliases, sel, levels, s) then 1 else 0 {
      OnceEach(aliases, ix, keys, sel, levels, s);
    }
    forall i | 0 <= i < |nodes| ensures Truthful(aliases, nodes[i]) {
      NodeTruthful(aliases, ix, keys, nodes[i].path, nodes[i].level);
    }
  }

  lemma {:induction false} RootsAscend(sel: Selection, keys: seq<string>)
    requires Ascending(keys)
    ensures Ascending(RootsOf(sel, keys)) && forall x :: x in RootsOf(sel, keys) ==> x in keys
  {
    if keys != [] {
      var n := |keys| - 1;
      RootsAscend(sel, keys[..n]);
      var r := RootsOf(sel, keys[..n]);
      forall i | 0 <= i < |r| ensures Less(r[i], keys[n]) {
        assert r[i] in keys[..n];
      }
    }
  }

  lemma RootsAreAll(aliases: seq<string>, ix: Index, keys: seq<string>, sel: Option<Selection>)
    requires IndexOf(aliases, ix, keys)
    ensures RootsAre(aliases, sel, RootList(ix, sel, keys))
  {
    if sel.None? {
      ChildrenAre(aliases, ix, keys, "");
    } else {
      AscendingDistinct(keys);
      RootsMembers(sel.value, keys);
      RootsAscend(sel.value, keys);
    }
  }

  /** No root lies below another. */
  lemma RootsApart(aliases: seq<string>, sel: Option<Selection>, roots: seq<string>)
    requires RootsAre(aliases, sel, roots) && (sel.Some? ==> sel.value.depth.None?)
    ensures Apart(roots)
  {
    forall r, s | r in roots && s in roots && Encloses(r, s) ensures r == s {
      match sel
      case None => EnclosesStep(r, s);
      case Some(x) => OnlyRoot(x, r, s);
    }
  }

  /** There is only one complete listing: two of them name the same scopes in
      the same order. */
  lemma OneListing(aliases: seq<string>, sel: Option<Selection>, levels: nat, roots: seq<string>, roots': seq<string>,
                   nodes: seq<Node>, nodes': seq<Node>)
    requires sel.Some? ==> sel.value.depth.None?
    requires Complete(aliases, sel, levels, roots, nodes) && Complete(aliases, sel, levels, roots', nodes')
    ensures roots == roots' && Paths(nodes) == Paths(nodes')
  {
    AscendingUnique(roots, roots');
    RootsApart(aliases, sel, roots);
    ListingsAgree(roots, nodes, nodes');
  }

  /** Cutting the listing short leaves parents before children. */
  lemma PrefixParentsFirst(nodes: seq<Node>, starts: seq<string>, level: nat, n: nat)
    requires n <= |nodes| && ParentsFirst(nodes, starts, level)
    ensures ParentsFirst(nodes[..n], starts, level)
  {
    forall i | 0 <= i < n ensures Placed(nodes[..n], starts, level, i) {
      assert Placed(nodes, starts, level, i);
      KeptEarly(nodes, n, i);
    }
  }

  lemma KeptEarly(nodes: seq<Node>, n: nat, i: nat)
    requires i < n <= |nodes|
    ensures HasParentBefore(nodes, i) ==> HasParentBefore(nodes[..n], i)
  {
    if HasParentBefore(nodes, i) {
      var j :| 0 <= j < i && ParentOf(nodes[i].path) == Some(nodes[j].path) && nodes[i].level == nodes[j].level + 1;
      assert nodes[..n][j] == nodes[j] && nodes[..n][i] == nodes[i];
    }
  }

  /** From the scope of every alias to the listing: an error exactly when a
      pattern matches no scope, and otherwise the first `limit` nodes of `all`,
      the complete listing. */
  method Tree(aliases: seq<string>, sel: Option<Selection>, depth: Option<int>, limit: nat)
    returns (r: Option<Listing>, ghost all: seq<Node>)
    requires sel.Some? ==> SelectionValid(sel.value) && sel.value.depth.None?
    ensures r.None? <==> NoMatch(aliases, sel)
    ensures r.Some? ==>
              && Complete(aliases, sel, if depth.Some? && depth.value > 1 then depth.value else 1, r.value.roots, all)
              && r.value.nodes == all[..Clip(|all|, limit)]
              && ParentsFirst(r.value.nodes, r.value.roots, 0)
              && r.value.total == |all| && (r.value.truncated <==> limit != 0 && |all| > limit)
              && r.value.rootSignals == Count(aliases, "")
  {
    var ix := Build(aliases);
    ghost var built :| IndexOf(aliases, ix, built);
    var roots, keys := Roots(ix, sel);
    AscendingUnique(built, keys);
    if sel.Some? {
      RootsMatch(aliases, ix, keys, sel.value);
    }
    all := [];
    if roots.None? {
      return None, all;
    }
    var nodes := WalkRoots(ix, roots.value, Levels(depth));
    all := nodes;
    WalkComplete(aliases, ix, keys, sel, Levels(depth));
    var shown := Clip(|nodes|, limit);
    PrefixParentsFirst(nodes, roots.value, 0, shown);
    r := Some(Listing(roots.value, nodes[..shown], |nodes|, limit != 0 && |nodes| > limit, ix.rootSignals));
  }

  // ----- the chain above a signal -----

  /** Every scope that encloses `scope`, and `scope` itself, top-down: each one
      level below its parent, with true counts.  The empty scope has none. */
  ghost predicate IsChain(aliases: seq<string>, scope: string, nodes: seq<Node>) {
    && (nodes == [] <==> scope == "")
    && (nodes != [] ==> nodes[|nodes| - 1].path == scope)
    && LevelByLevel(nodes)
    && forall i :: 0 <= i < |nodes| ==> Truthful(aliases, nodes[i])
  }

  ghost predicate LevelByLevel(nodes: seq<Node>) {
    && (nodes != [] ==> ParentOf(nodes[0].path).None?)
    && (forall i :: 0 < i < |nodes| ==> ParentOf(nodes[i].path) == Some(nodes[i - 1].path))
    && (forall i :: 0 <= i < |nodes| ==> nodes[i].level == i)
  }

  ghost predicate Linked(chain: seq<string>) {
    && chain != [] && ParentOf(chain[0]).None?
    && forall i :: 0 < i < |chain| ==> ParentOf(chain[i]) == Some(chain[i - 1])
  }

  lemma {:induction false} AncestorsLinked(s: string)
    ensures Linked(Ancestors(s))
    decreases |s|
  {
    if ParentOf(s).Some? {
      AncestorsLinked(ParentOf(s).value);
    }
  }

  /** The nodes of a chain name exactly the scopes that enclose `scope`. */
  lemma ChainEncloses(aliases: seq<string>, scope: string, nodes: seq<Node>, s: string)
    requires IsChain(aliases, scope, nodes) && scope != ""
    ensures Encloses(s, scope) <==> exists i :: 0 <= i < |nodes| && nodes[i].path == s
  {
    ChainFrom(aliases, scope, nodes, |nodes| - 1, s);
  }

  lemma {:induction false} ChainFrom(aliases: seq<string>, scope: string, nodes: seq<Node>, k: nat, s: string)
    requires IsChain(aliases, scope, nodes) && k < |nodes|
    ensures Encloses(s, nodes[k].path) <==> AmongFirst(nodes, k, s)
  {
    EnclosesStep(s, nodes[k].path);
    if k > 0 {
      ChainFrom(aliases, scope, nodes, k - 1, s);
      AmongMore(nodes, k, s);
    } else {
      assert AmongFirst(nodes, 0, s) <==> nodes[0].path == s;
    }
  }

  ghost predicate AmongFirst(nodes: seq<Node>, k: nat, s: string)
    requires k < |nodes|
  {
    exists i :: 0 <= i <= k && nodes[i].path == s
  }

  lemma AmongMore(nodes: seq<Node>, k: nat, s: string)
    requires 0 < k < |nodes|
    ensures AmongFirst(nodes, k, s) <==> AmongFirst(nodes, k - 1, s) || nodes[k].path == s
  {}

  /** A node for every scope of the chain of `scope`. */
  method ChainNodes(ix: Index, scope: string) returns (nodes: seq<Node>)
    ensures ChainOf(ix, Ancestors(scope), nodes)
  {
    nodes := [];
    var chain := Prefixes(scope);
    for level := 0 to |chain|
      invariant ChainOf(ix, chain[..level], nodes)
    {
      nodes := nodes + [NodeFor(ix, chain[level], level)];
    }
    assert chain[..|chain|] == chain;
  }

  ghost predicate ChainOf(ix: Index, chain: seq<string>, nodes: seq<Node>) {
    |nodes| == |chain| && forall i :: 0 <= i < |nodes| ==> nodes[i] == NodeFor(ix, chain[i], i)
  }

  lemma NodesAreChain(aliases: seq<string>, ix: Index, keys: seq<string>, scope: string, nodes: seq<Node>)
    requires IndexOf(aliases, ix, keys) && scope in aliases && scope != ""
    requires ChainOf(ix, Ancestors(scope), nodes)
    ensures IsChain(aliases, scope, nodes)
  {
    AncestorsLinked(scope);
    NodesLinked(ix, Ancestors(scope), nodes);
    forall i | 0 <= i < |nodes| ensures Truthful(aliases, nodes[i]) {
      LinkTruthful(aliases, ix, keys, scope, Ancestors(scope)[i], i);
    }
  }

  lemma NodesLinked(ix: Index, chain: seq<string>, nodes: seq<Node>)
    requires Linked(chain) && ChainOf(ix, chain, nodes)
    ensures LevelByLevel(nodes)
  {}

  lemma LinkTruthful(aliases: seq<string>, ix: Index, keys: seq<string>, scope: string, s: string, level: nat)
    requires IndexOf(aliases, ix, keys) && scope in aliases && scope != "" && Encloses(s, scope)
    ensures Truthful(aliases, NodeFor(ix, s, level))
  {
    ChainKnown(aliases, ix, scope, s);
    NodeTruthful(aliases, ix, keys, s, level);
  }

  lemma ChainKnown(aliases: seq<string>, ix: Index, scope: string, s: string)
    requires scope in aliases && scope != "" && Counted(aliases, ix.scopes) && Encloses(s, scope)
    ensures s in ix.scopes
  {
    var k :| 0 <= k < |aliases| && aliases[k] == scope;
    assert aliases[k] != "" && Encloses(s, aliases[k]);
  }

  /** The listing for a signal found in `scope`: the first `limit` nodes of
      `all`, the chain down to it. */
  method TreeOf(aliases: seq<string>, scope: string, limit: nat) returns (r: Listing, ghost all: seq<Node>)
    requires scope in aliases
    ensures IsChain(aliases, scope, all)
    ensures r.roots == if scope == "" then [] else [scope]
    ensures r.nodes == all[..Clip(|all|, limit)]
    ensures r.total == |all| && (r.truncated <==> limit != 0 && |all| > limit)
    ensures r.rootSignals == Count(aliases, "")
  {
    var ix := Build(aliases);
    ghost var keys :| IndexOf(aliases, ix, keys);
    var nodes: seq<Node> := [];
    var roots: seq<string> := [];
    if scope != "" {
      nodes := ChainNodes(ix, scope);
      roots := [scope];
      NodesAreChain(aliases, ix, keys, scope, nodes);
    }
    all := nodes;
    r := Listing(roots, nodes[..Clip(|nodes|, limit)], |nodes|, limit != 0 && |nodes| > limit, ix.rootSignals);
  }
}
