/** Scope paths: segments joined by separators. */
module ScopePaths {
  import opened Wrappers

  predicate Separator(c: char) {
    c == '.' || c == '/'
  }

  /** Index of the last separator. */
  function LastSeparator(s: string): (r: Option<nat>)
    ensures r.None? <==> forall i :: 0 <= i < |s| ==> !Separator(s[i])
    ensures r.Some? ==> r.value < |s| && Separator(s[r.value])
    ensures r.Some? ==> forall i :: r.value < i < |s| ==> !Separator(s[i])
  {
    if s == "" then None
    else if Separator(s[|s| - 1]) then Some(|s| - 1)
    else LastSeparator(s[..|s| - 1])
  }

  /** The enclosing scope; a separator in front belongs to the name. */
  function ParentOf(path: string): (r: Option<string>)
    ensures r.Some? ==> r.value != "" && |r.value| < |path| && r.value == path[..|r.value|]
  {
    match LastSeparator(path)
    case None => None
    case Some(i) => if i == 0 then None else Some(path[..i])
  }

  /** A name has neither dots nor slashes. */
  ghost predicate IsName(name: string) {
    forall i :: 0 <= i < |name| ==> name[i] != '.' && name[i] != '/'
  }

  /** `path` is `head`, a dot or slash, and `name`. */
  ghost predicate Joined(path: string, head: string, name: string) {
    IsName(name) && (path == head + ['.'] + name || path == head + ['/'] + name)
  }

  /** `name` is what stands behind the last dot or slash of `path`. */
  ghost predicate NameOf(path: string, name: string) {
    (path == name && IsName(name)) || exists head :: Joined(path, head, name)
  }

  lemma JoinedAt(path: string, head: string, name: string)
    requires Joined(path, head, name)
    ensures LastSeparator(path) == Some(|head|) && path[..|head|] == head && path[|head| + 1..] == name
  {
    assert path[|head|] == '.' || path[|head|] == '/';
    forall i | |head| < i < |path| ensures !Separator(path[i]) {
      assert path[i] == name[i - |head| - 1];
    }
    SeparatorAt(path, |head|);
  }

  lemma SeparatorAt(path: string, i: nat)
    requires i < |path| && Separator(path[i]) && forall j :: i < j < |path| ==> !Separator(path[j])
    ensures LastSeparator(path) == Some(i)
  {}

  lemma LastJoined(path: string, i: nat)
    requires LastSeparator(path) == Some(i)
    ensures Joined(path, path[..i], path[i + 1..])
  {
    assert path == path[..i] + [path[i]] + path[i + 1..];
  }

  function LastSegment(path: string): string {
    match LastSeparator(path)
    case None => path
    case Some(i) => path[i + 1..]
  }

  /** The last segment is the name. */
  lemma LastSegmentNames(path: string)
    ensures NameOf(path, LastSegment(path))
  {
    match LastSeparator(path)
    case None =>
    case Some(i) => LastJoined(path, i);
  }

  /** There is only one such name. */
  lemma NameIs(path: string, name: string)
    requires NameOf(path, name)
    ensures name == LastSegment(path)
  {
    if path != name || !IsName(name) {
      var head :| Joined(path, head, name);
      JoinedAt(path, head, name);
    }
  }

  /** A scope lies in the one whose path stands before its name; with nothing
      before the separator, or without one, it lies at the top. */
  lemma ParentIs(path: string, p: string)
    ensures ParentOf(path) == Some(p) <==> p != "" && exists name :: Joined(path, p, name)
  {
    match LastSeparator(path)
    case None =>
      forall name ensures !Joined(path, p, name) {
        if Joined(path, p, name) {
          JoinedAt(path, p, name);
        }
      }
    case Some(i) =>
      LastJoined(path, i);
      forall name | Joined(path, p, name) ensures p == path[..i] {
        JoinedAt(path, p, name);
      }
  }

  /** The chain of enclosing scopes, outermost first, `path` itself last. */
  function Ancestors(path: string): (r: seq<string>)
    ensures r != [] && r[|r| - 1] == path
    decreases |path|
  {
    match ParentOf(path)
    case None => [path]
    case Some(p) => Ancestors(p) + [path]
  }

  // ----- the slicing form -----

  function CutsBefore(s: string, k: nat): seq<string>
    requires k <= |s|
  {
    if k == 0 then []
    else CutsBefore(s, k - 1) + if k > 1 && Separator(s[k - 1]) then [s[..k - 1]] else []
  }

  /** Every beginning of `scope` that ends before a separator, then `scope`. */
  method Prefixes(scope: string) returns (r: seq<string>)
    ensures r == Ancestors(scope)
  {
    r := [];
    for i := 0 to |scope|
      invariant r == CutsBefore(scope, i)
    {
      if i > 0 && Separator(scope[i]) {
        r := r + [scope[..i]];
      }
    }
    r := r + [scope];
    CutsAreAncestors(scope);
  }

  lemma {:induction false} CutsOfPrefix(s: string, n: nat, k: nat)
    requires k <= n <= |s|
    ensures CutsBefore(s[..n], k) == CutsBefore(s, k)
  {
    if k > 0 {
      CutsOfPrefix(s, n, k - 1);
      assert s[..n][..k - 1] == s[..k - 1];
    }
  }

  lemma {:induction false} NoCuts(s: string, j: nat, k: nat)
    requires j <= k <= |s| && forall i :: j <= i < k ==> i == 0 || !Separator(s[i])
    ensures CutsBefore(s, k) == CutsBefore(s, j)
  {
    if j < k {
      NoCuts(s, j, k - 1);
    }
  }

  /** Slicing at the separators gives exactly the chain of parents. */
  lemma {:induction false} CutsAreAncestors(s: string)
    ensures CutsBefore(s, |s|) + [s] == Ancestors(s)
    decreases |s|
  {
    match LastSeparator(s)
    case None => NoCuts(s, 0, |s|);
    case Some(i) =>
      NoCuts(s, i + 1, |s|);
      if i == 0 {
        NoCuts(s, 0, 1);
      } else {
        CutsOfPrefix(s, i, i);
        CutsAreAncestors(s[..i]);
      }
  }

  // ----- facts about chains -----

  /** `a` is `s` or encloses it. */
  predicate Encloses(a: string, s: string) {
    a in Ancestors(s)
  }

  function Depth(s: string): nat {
    |Ancestors(s)| - 1
  }

  lemma EnclosesStep(a: string, s: string)
    ensures Encloses(a, s) <==> a == s || (ParentOf(s).Some? && Encloses(a, ParentOf(s).value))
  {
    if ParentOf(s).Some? {
      assert Ancestors(s)[|Ancestors(s)| - 1] == s;
    }
  }

  lemma {:induction false} EnclosesLength(a: string, s: string)
    requires Encloses(a, s)
    ensures a == s || |a| < |s|
    ensures a == s || Depth(a) < Depth(s)
    decreases |s|
  {
    EnclosesStep(a, s);
    if a != s {
      EnclosesLength(a, ParentOf(s).value);
    }
  }

  lemma {:induction false} EnclosesTransitive(a: string, b: string, s: string)
    requires Encloses(a, b) && Encloses(b, s)
    ensures Encloses(a, s)
    decreases |s|
  {
    EnclosesStep(b, s);
    EnclosesStep(a, s);
    if b != s {
      EnclosesTransitive(a, b, ParentOf(s).value);
    }
  }

  /** The part of the chain of `s` just below `a`. */
  function ChildToward(a: string, s: string): (c: string)
    requires Encloses(a, s) && a != s
    ensures ParentOf(c) == Some(a) && Encloses(c, s)
    decreases |s|
  {
    EnclosesStep(a, s);
    var p := ParentOf(s).value;
    EnclosesStep(s, s);
    if p == a then s
    else
      var c := ChildToward(a, p);
      EnclosesStep(c, s);
      c
  }

  /** Scopes of one chain that have a common parent are the same. */
  lemma {:induction false} OneChild(b: string, c: string, s: string)
    requires Encloses(b, s) && Encloses(c, s) && ParentOf(b) == ParentOf(c) && ParentOf(b).Some?
    ensures b == c
    decreases |s|
  {
    EnclosesStep(b, s);
    EnclosesStep(c, s);
    if b == s && c != s {
      EnclosesLength(c, ParentOf(s).value);
    } else if c == s && b != s {
      EnclosesLength(b, ParentOf(s).value);
    } else if b != s && c != s {
      OneChild(b, c, ParentOf(s).value);
    }
  }

  /** A chain is ordered: of two scopes enclosing `s`, one encloses the other. */
  lemma {:induction false} ChainIsOrdered(a: string, b: string, s: string)
    requires Encloses(a, s) && Encloses(b, s)
    ensures Encloses(a, b) || Encloses(b, a)
    decreases |s|
  {
    EnclosesStep(a, s);
    EnclosesStep(b, s);
    if a != s && b != s {
      ChainIsOrdered(a, b, ParentOf(s).value);
    }
  }
}
