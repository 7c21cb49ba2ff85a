/** The index of scopes behind the `tree` command. */
module ScopeIndex {
  import opened Wrappers
  import opened ScopePaths
  import opened StringOrder

  // ----- key order -----

  ghost predicate Ascending(keys: seq<string>) {
    forall i, j :: 0 <= i < j < |keys| ==> Less(keys[i], keys[j])
  }

  lemma AscendingDistinct(keys: seq<string>)
    requires Ascending(keys)
    ensures forall i, j :: 0 <= i < j < |keys| ==> keys[i] != keys[j]
  {
    forall i, j | 0 <= i < j < |keys| ensures keys[i] != keys[j] {
      LessTotal(keys[i], keys[j]);
    }
  }

  lemma LastIsLargest(keys: seq<string>, x: string)
    requires Ascending(keys) && x in keys
    ensures x == keys[|keys| - 1] || Less(x, keys[|keys| - 1])
  {
    var i :| 0 <= i < |keys| && keys[i] == x;
  }

  /** A list in key order is determined by its members. */
  lemma {:induction false} AscendingUnique(a: seq<string>, b: seq<string>)
    requires Ascending(a) && Ascending(b) && forall x :: x in a <==> x in b
    ensures a == b
  {
    if a == [] {
      assert forall i :: 0 <= i < |b| ==> b[i] in b;
    } else {
      var x, a' := a[|a| - 1], a[..|a| - 1];
      assert x in a && x in b && b[|b| - 1] in b;
      LastIsLargest(b, x);
      LastIsLargest(a, b[|b| - 1]);
      LessTotal(x, b[|b| - 1]);
      var b' := b[..|b| - 1];
      assert a == a' + [x] && b == b' + [x];
      NotAmongEarlier(a);
      NotAmongEarlier(b);
      assert forall y :: y in a' <==> y in a && y != x;
      assert forall y :: y in b' <==> y in b && y != x;
      AscendingUnique(a', b');
    }
  }

  lemma NotAmongEarlier(keys: seq<string>)
    requires Ascending(keys) && keys != []
    ensures keys[|keys| - 1] !in keys[..|keys| - 1]
  {
    AscendingDistinct(keys);
  }

  method InsertKey(keys: seq<string>, k: string) returns (r: seq<string>)
    requires Ascending(keys) && k !in keys
    ensures Ascending(r) && forall x :: x in r <==> x in keys || x == k
  {
    var i := 0;
    while i < |keys| && Less(keys[i], k)
      invariant i <= |keys| && forall j :: 0 <= j < i ==> Less(keys[j], k)
    {
      i := i + 1;
    }
    r := keys[..i] + [k] + keys[i..];
    forall j | i <= j < |keys| ensures Less(k, keys[j]) {
      LessTotal(keys[i], k);
      if i < j {
        LessTransitive(k, keys[i], keys[j]);
      }
    }
    forall x ensures x in r <==> x in keys || x == k {
      assert keys == keys[..i] + keys[i..];
    }
  }

  /** The keys of a map, in order, as a sorted map lists them. */
  method SortedKeys<T>(m: map<string, T>) returns (keys: seq<string>)
    ensures Ascending(keys) && forall x :: x in keys <==> x in m
  {
    keys := [];
    var left := m.Keys;
    while left != {}
      invariant left <= m.Keys && Ascending(keys)
      invariant forall x :: x in keys <==> x in m && x !in left
      decreases left
    {
      var k :| k in left;
      keys := InsertKey(keys, k);
      left := left - {k};
    }
  }

  // ----- building -----

  datatype Index = Index(scopes: map<string, nat>, children: map<string, seq<string>>, tops: seq<string>,
                         rootSignals: nat)
  {
    function ChildrenOf(parent: string): seq<string> {
      if parent in children then children[parent] else []
    }

    function Signals(path: string): nat {
      if path in scopes then scopes[path] else 0
    }
  }

  function Count(aliases: seq<string>, s: string): nat {
    if aliases == [] then 0
    else Count(aliases[..|aliases| - 1], s) + if aliases[|aliases| - 1] == s then 1 else 0
  }

  /** `s` is, or encloses, the scope of some alias. */
  ghost predicate Needed(aliases: seq<string>, s: string) {
    exists k :: 0 <= k < |aliases| && aliases[k] != "" && Encloses(s, aliases[k])
  }

  /** With every scope comes its parent. */
  ghost predicate Closed(scopes: map<string, nat>) {
    "" !in scopes && forall s :: s in scopes && ParentOf(s).Some? ==> ParentOf(s).value in scopes
  }

  ghost predicate Counted(aliases: seq<string>, scopes: map<string, nat>) {
    && (forall s :: s in scopes <==> Needed(aliases, s))
    && (forall s :: s in scopes ==> scopes[s] == Count(aliases, s))
  }

  lemma {:induction false} ClosedUp(scopes: map<string, nat>, a: string, s: string)
    requires Closed(scopes) && s in scopes && Encloses(a, s)
    ensures a in scopes
    decreases |s|
  {
    EnclosesStep(a, s);
    if a != s {
      ClosedUp(scopes, a, ParentOf(s).value);
    }
  }

  lemma {:induction false} ChainIsClosed(s: string, a: string)
    requires Encloses(a, s) && ParentOf(a).Some?
    ensures Encloses(ParentOf(a).value, s)
    decreases |s|
  {
    EnclosesStep(a, s);
    EnclosesStep(ParentOf(a).value, s);
    if a != s {
      ChainIsClosed(ParentOf(s).value, a);
    } else {
      EnclosesStep(ParentOf(a).value, ParentOf(a).value);
    }
  }

  lemma {:induction false} NoEmptyAncestor(s: string)
    requires s != ""
    ensures !Encloses("", s)
    decreases |s|
  {
    EnclosesStep("", s);
    if ParentOf(s).Some? {
      NoEmptyAncestor(ParentOf(s).value);
    }
  }

  lemma NeededAppend(aliases: seq<string>, x: string, s: string)
    ensures Needed(aliases + [x], s) <==> Needed(aliases, s) || (x != "" && Encloses(s, x))
    ensures Count(aliases + [x], s) == Count(aliases, s) + if x == s then 1 else 0
  {
    var all := aliases + [x];
    assert all[..|aliases|] == aliases && all[|aliases|] == x;
    assert forall i :: 0 <= i < |aliases| ==> all[i] == aliases[i];
  }

  lemma {:induction false} NotNeededNotCounted(aliases: seq<string>, s: string)
    requires s != "" && !Needed(aliases, s)
    ensures Count(aliases, s) == 0
  {
    if aliases != [] {
      var n := |aliases| - 1;
      assert aliases == aliases[..n] + [aliases[n]];
      NeededAppend(aliases[..n], aliases[n], s);
      EnclosesStep(s, s);
      NotNeededNotCounted(aliases[..n], s);
    }
  }

  /** Adds every prefix that is not there yet, without signals of its own. */
  method AddPrefixes(scopes: map<string, nat>, chain: seq<string>) returns (r: map<string, nat>)
    ensures r.Keys == scopes.Keys + (set p | p in chain)
    ensures forall s :: s in r ==> r[s] == if s in scopes then scopes[s] else 0
  {
    r := scopes;
    for i := 0 to |chain|
      invariant r.Keys == scopes.Keys + (set p | p in chain[..i])
      invariant forall s :: s in r ==> r[s] == if s in scopes then scopes[s] else 0
    {
      assert chain[..i + 1] == chain[..i] + [chain[i]];
      if chain[i] !in r {
        r := r[chain[i] := 0];
      }
    }
    assert chain[..|chain|] == chain;
  }

  /** One alias: counted in its own scope; the enclosing scopes are added the
      first time only, since afterwards they are there already. */
  method AddAlias(scopes: map<string, nat>, scope: string, ghost aliases: seq<string>) returns (r: map<string, nat>)
    requires scope != "" && Counted(aliases, scopes) && Closed(scopes)
    ensures Counted(aliases + [scope], r) && Closed(r)
  {
    var seen := scope in scopes;
    r := scopes[scope := (if seen then scopes[scope] else 0) + 1];
    ghost var own := r;
    if !seen {
      var chain := Prefixes(scope);
      r := AddPrefixes(r, chain);
    }
    EnclosesStep(scope, scope);
    forall s ensures s in r <==> s in scopes || Encloses(s, scope) {
      if seen && Encloses(s, scope) {
        ClosedUp(scopes, s, scope);
      }
    }
    AliasAdded(scopes, scope, aliases, r);
  }

  lemma AliasAdded(scopes: map<string, nat>, scope: string, aliases: seq<string>, r: map<string, nat>)
    requires scope != "" && Counted(aliases, scopes) && Closed(scopes)
    requires forall s :: s in r <==> s in scopes || Encloses(s, scope)
    requires forall s :: s in r ==>
                           r[s] == (if s in scopes then scopes[s] else 0) + if s == scope then 1 else 0
    ensures Counted(aliases + [scope], r) && Closed(r)
  {
    NoEmptyAncestor(scope);
    forall s ensures s in r <==> Needed(aliases + [scope], s) {
      NeededAppend(aliases, scope, s);
    }
    forall s | s in r ensures r[s] == Count(aliases + [scope], s) {
      NeededAppend(aliases, scope, s);
      if s !in scopes {
        NotNeededNotCounted(aliases, s);
      }
    }
    forall s | s in r && ParentOf(s).Some? ensures ParentOf(s).value in r {
      if s !in scopes {
        ChainIsClosed(scope, s);
      }
    }
  }

  /** The keys whose parent is `p`, in key order. */
  function WithParent(keys: seq<string>, p: Option<string>): seq<string> {
    if keys == [] then []
    else
      var k := keys[|keys| - 1];
      WithParent(keys[..|keys| - 1], p) + if ParentOf(k) == p then [k] else []
  }

  /** The index of the scopes of `aliases`: a scope for each of them and for
      everything that encloses one, with the number of aliases directly in it;
      the children of each scope; and the scopes at the top. */
  ghost predicate IndexOf(aliases: seq<string>, ix: Index, keys: seq<string>) {
    && Counted(aliases, ix.scopes) && Closed(ix.scopes)
    && ix.rootSignals == Count(aliases, "")
    && Ascending(keys) && (forall s :: s in keys <==> s in ix.scopes)
    && (forall p :: ix.ChildrenOf(p) == WithParent(keys, Some(p)))
    && ix.tops == WithParent(keys, None)
  }

  lemma CountedRoot(aliases: seq<string>, scopes: map<string, nat>)
    requires Counted(aliases, scopes) && "" !in scopes
    ensures Counted(aliases + [""], scopes)
  {
    forall s ensures Needed(aliases + [""], s) <==> Needed(aliases, s) {
      NeededAppend(aliases, "", s);
    }
    forall s | s in scopes ensures Count(aliases + [""], s) == Count(aliases, s) {
      NeededAppend(aliases, "", s);
    }
  }

  method CountScopes(aliases: seq<string>) returns (scopes: map<string, nat>, rootSignals: nat)
    ensures Counted(aliases, scopes) && Closed(scopes)
    ensures rootSignals == Count(aliases, "")
  {
    scopes, rootSignals := map[], 0;
    for n := 0 to |aliases|
      invariant Counted(aliases[..n], scopes) && Closed(scopes)
      invariant rootSignals == Count(aliases[..n], "")
    {
      var scope := aliases[n];
      assert aliases[..n + 1] == aliases[..n] + [scope];
      NeededAppend(aliases[..n], scope, "");
      if scope == "" {
        CountedRoot(aliases[..n], scopes);
        rootSignals := rootSignals + 1;
      } else {
        scopes := AddAlias(scopes, scope, aliases[..n]);
      }
    }
    assert aliases[..|aliases|] == aliases;
  }

  /** `aliases` lists the scope of every alias of every signal; the empty scope
      is the root of the file. */
  method Build(aliases: seq<string>) returns (ix: Index)
    ensures exists keys :: IndexOf(aliases, ix, keys)
  {
    var scopes, rootSignals := CountScopes(aliases);
    var sorted := SortedKeys(scopes);
    var children, tops := Invert(sorted);
    ix := Index(scopes, children, tops, rootSignals);
    Assembled(aliases, ix, sorted);
  }

  lemma Assembled(aliases: seq<string>, ix: Index, keys: seq<string>)
    requires Counted(aliases, ix.scopes) && Closed(ix.scopes) && ix.rootSignals == Count(aliases, "")
    requires Ascending(keys) && forall s :: s in keys <==> s in ix.scopes
    requires Inverted(keys, ix.children, ix.tops)
    ensures IndexOf(aliases, ix, keys)
  {}

  ghost predicate Inverted(keys: seq<string>, children: map<string, seq<string>>, tops: seq<string>) {
    && (forall p :: (if p in children then children[p] else []) == WithParent(keys, Some(p)))
    && tops == WithParent(keys, None)
  }

  lemma WithParentAppend(keys: seq<string>, k: string, p: Option<string>)
    ensures WithParent(keys + [k], p) == WithParent(keys, p) + if ParentOf(k) == p then [k] else []
    ensures WithParent(keys, p) + [] == WithParent(keys, p)
  {
    assert (keys + [k])[..|keys|] == keys;
  }

  lemma InvertStep(keys: seq<string>, k: string, children: map<string, seq<string>>, tops: seq<string>)
    requires Inverted(keys, children, tops)
    ensures match ParentOf(k)
            case Some(p) =>
              Inverted(keys + [k], children[p := (if p in children then children[p] else []) + [k]], tops)
            case None => Inverted(keys + [k], children, tops + [k])
  {
    WithParentAppend(keys, k, None);
    forall p ensures WithParent(keys + [k], Some(p)) ==
                     WithParent(keys, Some(p)) + if ParentOf(k) == Some(p) then [k] else []
    {
      WithParentAppend(keys, k, Some(p));
    }
    forall p: string ensures WithParent(keys, Some(p)) + [] == WithParent(keys, Some(p)) {}
  }

  /** Turns the list of scopes into lists of children. */
  method Invert(keys: seq<string>) returns (children: map<string, seq<string>>, tops: seq<string>)
    ensures Inverted(keys, children, tops)
  {
    children, tops := map[], [];
    for n := 0 to |keys|
      invariant Inverted(keys[..n], children, tops)
    {
      assert keys[..n + 1] == keys[..n] + [keys[n]];
      InvertStep(keys[..n], keys[n], children, tops);
      match ParentOf(keys[n])
      case Some(p) =>
        children := children[p := (if p in children then children[p] else []) + [keys[n]]];
      case None =>
        tops := tops + [keys[n]];
    }
    assert keys[..|keys|] == keys;
  }

  // ----- what the index says -----

  function Total(scopes: map<string, nat>, keys: seq<string>): nat {
    if keys == [] then 0
    else
      var k := keys[|keys| - 1];
      Total(scopes, keys[..|keys| - 1]) + if k in scopes then scopes[k] else 0
  }

  function CountIn(aliases: seq<string>, keys: seq<string>): nat {
    if keys == [] then 0 else CountIn(aliases, keys[..|keys| - 1]) + Count(aliases, keys[|keys| - 1])
  }

  lemma {:induction false} TotalIsCountIn(aliases: seq<string>, scopes: map<string, nat>, keys: seq<string>)
    requires Counted(aliases, scopes) && forall i :: 0 <= i < |keys| ==> keys[i] in scopes
    ensures Total(scopes, keys) == CountIn(aliases, keys)
  {
    if keys != [] {
      TotalIsCountIn(aliases, scopes, keys[..|keys| - 1]);
    }
  }

  /** One more alias is counted once, at its own key, if that is listed. */
  lemma {:induction false} CountInAppend(aliases: seq<string>, x: string, keys: seq<string>)
    requires forall i, j :: 0 <= i < j < |keys| ==> keys[i] != keys[j]
    ensures CountIn(aliases + [x], keys) == CountIn(aliases, keys) + if x in keys then 1 else 0
  {
    if keys != [] {
      var n := |keys| - 1;
      assert keys == keys[..n] + [keys[n]];
      CountInAppend(aliases, x, keys[..n]);
      NeededAppend(aliases, x, keys[n]);
    }
  }

  lemma {:induction false} CountInEmpty(keys: seq<string>)
    ensures CountIn([], keys) == 0
  {
    if keys != [] {
      CountInEmpty(keys[..|keys| - 1]);
    }
  }

  lemma {:induction false} EveryAliasCounted(aliases: seq<string>, keys: seq<string>)
    requires forall i, j :: 0 <= i < j < |keys| ==> keys[i] != keys[j]
    requires "" !in keys && forall k :: 0 <= k < |aliases| ==> aliases[k] == "" || aliases[k] in keys
    ensures CountIn(aliases, keys) + Count(aliases, "") == |aliases|
  {
    if aliases == [] {
      CountInEmpty(keys);
    } else {
      var n := |aliases| - 1;
      assert aliases == aliases[..n] + [aliases[n]];
      EveryAliasCounted(aliases[..n], keys);
      CountInAppend(aliases[..n], aliases[n], keys);
      NeededAppend(aliases[..n], aliases[n], "");
    }
  }

  /** No alias is lost and none is counted twice: the direct counts of all
      scopes and the signals at the root add up to the number of aliases. */
  lemma NothingLost(aliases: seq<string>, ix: Index, keys: seq<string>)
    requires IndexOf(aliases, ix, keys)
    ensures Total(ix.scopes, keys) + ix.rootSignals == |aliases|
  {
    AscendingDistinct(keys);
    forall i | 0 <= i < |keys| ensures keys[i] in ix.scopes {
      assert keys[i] in keys;
    }
    TotalIsCountIn(aliases, ix.scopes, keys);
    forall k | 0 <= k < |aliases| ensures aliases[k] == "" || aliases[k] in keys {
      EnclosesStep(aliases[k], aliases[k]);
      assert aliases[k] != "" ==> Needed(aliases, aliases[k]);
    }
    EveryAliasCounted(aliases, keys);
  }

  lemma {:induction false} WithParentMembers(keys: seq<string>, p: Option<string>)
    requires Ascending(keys)
    ensures Ascending(WithParent(keys, p))
    ensures forall x :: x in WithParent(keys, p) <==> x in keys && ParentOf(x) == p
  {
    if keys != [] {
      var n := |keys| - 1;
      assert keys == keys[..n] + [keys[n]];
      WithParentMembers(keys[..n], p);
      var r := WithParent(keys[..n], p);
      forall i | 0 <= i < |r| ensures Less(r[i], keys[n]) {
        assert r[i] in keys[..n];
      }
    }
  }

  /** Children and tops are exactly the scopes with that parent, in order. */
  lemma ChildrenAre(aliases: seq<string>, ix: Index, keys: seq<string>, p: string)
    requires IndexOf(aliases, ix, keys)
    ensures Ascending(ix.ChildrenOf(p)) && Ascending(ix.tops)
    ensures forall x :: x in ix.ChildrenOf(p) <==> x in ix.scopes && ParentOf(x) == Some(p)
    ensures forall x :: x in ix.tops <==> x in ix.scopes && ParentOf(x) == None
  {
    WithParentMembers(keys, Some(p));
    WithParentMembers(keys, None);
  }
}
