/** Which scopes a `--scope` value selects, and where their subtrees begin. */
module ScopeSelect {
  import opened Wrappers
  import Filters
  import opened Globs
  import opened ScopePaths
  import opened ScopeIndex
  import opened ScopeWalk

  datatype SegPat = LitSeg(text: string) | GlobSeg(toks: seq<Tok>)

  datatype ScopePat = Instance(seg: SegPat) | Suffix(segs: seq<SegPat>)

  datatype Selection = Selection(scope: Option<seq<ScopePat>>, depth: Option<nat>)

  /** The non-empty segments of a path. */
  function Segs(s: string): seq<string>
    decreases |s|
  {
    match LastSeparator(s)
    case None => if s == "" then [] else [s]
    case Some(i) => Segs(s[..i]) + if i + 1 < |s| then [s[i + 1..]] else []
  }

  /** Reading from the front: every run of other characters between dots and
      slashes, empty ones left out; `cur` is the run being read. */
  function Runs(s: string, cur: string): seq<string> {
    var done := if cur == "" then [] else [cur];
    if s == "" then done
    else if s[0] == '.' || s[0] == '/' then done + Runs(s[1..], "")
    else Runs(s[1..], cur + [s[0]])
  }

  lemma {:induction false} RunsOfName(name: string, cur: string)
    requires IsName(name)
    ensures Runs(name, cur) == if cur + name == "" then [] else [cur + name]
    decreases |name|
  {
    if name == "" {
      assert cur + name == cur;
    } else {
      RunsOfName(name[1..], cur + [name[0]]);
      Assoc(cur, [name[0]], name[1..]);
      assert name == [name[0]] + name[1..];
    }
  }

  lemma {:induction false} RunsJoined(head: string, sep: char, name: string, cur: string)
    requires IsName(name) && (sep == '.' || sep == '/')
    ensures Runs(head + [sep] + name, cur) == Runs(head, cur) + if name == "" then [] else [name]
    decreases |head|
  {
    var s := head + [sep] + name;
    if head == "" {
      assert s[0] == sep && s[1..] == name;
      RunsOfName(name, "");
      assert "" + name == name;
    } else {
      assert s[0] == head[0] && s[1..] == head[1..] + [sep] + name;
      RunsJoined(head[1..], sep, name, if head[0] == '.' || head[0] == '/' then "" else cur + [head[0]]);
      if head[0] == '.' || head[0] == '/' {
        Assoc(if cur == "" then [] else [cur], Runs(head[1..], ""), if name == "" then [] else [name]);
      }
    }
  }

  /** The segments are those runs. */
  lemma {:induction false} SegsAreRuns(s: string)
    ensures Segs(s) == Runs(s, "")
    decreases |s|
  {
    match LastSeparator(s)
    case None =>
      RunsOfName(s, "");
      assert "" + s == s;
    case Some(i) =>
      LastJoined(s, i);
      SegsAreRuns(s[..i]);
      RunsJoined(s[..i], s[i], s[i + 1..], "");
      assert s == s[..i] + [s[i]] + s[i + 1..];
  }

  // ----- one segment -----

  /** What a segment pattern reads. */
  function SegText(p: SegPat): string {
    match p
    case LitSeg(s) => s
    case GlobSeg(toks) => Text(toks)
  }

  ghost predicate SegValid(p: SegPat) {
    match p
    case LitSeg(s) => Plain(s)
    case GlobSeg(toks) => Compiled(toks)
  }

  method ParseSeg(raw: string) returns (r: Option<SegPat>)
    ensures r.Some? <==>
            |raw| <= Filters.MAX_FILTER_PATTERN_LEN && Filters.Wildcards(raw) <= Filters.MAX_FILTER_WILDCARDS
    ensures r.Some? ==> SegValid(r.value) && SegText(r.value) == raw
  {
    Filters.NoWildcards(raw);
    if |raw| > Filters.MAX_FILTER_PATTERN_LEN || Filters.Wildcards(raw) > Filters.MAX_FILTER_WILDCARDS {
      return None;
    }
    if Filters.Wildcards(raw) > 0 {
      var toks := CompileGlob(raw);
      r := Some(GlobSeg(toks));
    } else {
      r := Some(LitSeg(raw));
    }
  }

  /** A segment pattern covers a whole segment, never a part of one. */
  predicate SegFits(p: SegPat, seg: string) {
    Covers(SegText(p), seg)
  }

  method SegMatches(p: SegPat, seg: string) returns (r: bool)
    requires SegValid(p)
    ensures r <==> SegFits(p, seg)
  {
    match p
    case LitSeg(s) =>
      PlainIsEquality(s, seg);
      r := s == seg;
    case GlobSeg(toks) =>
      r := GlobMatch(toks, seg);
  }

  // ----- whole paths -----

  ghost predicate PatValid(p: ScopePat) {
    match p
    case Instance(sp) => SegValid(sp)
    case Suffix(sps) => forall i :: 0 <= i < |sps| ==> SegValid(sps[i])
  }

  /** The pattern matches the scope made of the first `k` segments: by its own
      name, or by its last segments. */
  predicate HitBy(p: ScopePat, segs: seq<string>, k: nat)
    requires 1 <= k <= |segs|
  {
    match p
    case Instance(sp) => SegFits(sp, segs[k - 1])
    case Suffix(sps) => k >= |sps| && forall i :: 0 <= i < |sps| ==> SegFits(sps[i], segs[k - |sps| + i])
  }

  predicate Hit(pats: seq<ScopePat>, segs: seq<string>, k: nat)
    requires 1 <= k <= |segs|
  {
    exists j :: 0 <= j < |pats| && HitBy(pats[j], segs, k)
  }

  predicate NearEnough(depth: Option<nat>, n: nat, k: nat)
    requires k <= n
  {
    depth.None? || n - k + 1 <= depth.value
  }

  /** Some enclosing scope, or the scope itself, is matched and near enough. */
  predicate InScope(sel: Selection, path: string) {
    sel.scope.None? ||
    exists k :: 1 <= k <= |Segs(path)| && Hit(sel.scope.value, Segs(path), k)
                && NearEnough(sel.depth, |Segs(path)|, k)
  }

  ghost predicate SelectionValid(sel: Selection) {
    sel.scope.Some? ==> forall j :: 0 <= j < |sel.scope.value| ==> PatValid(sel.scope.value[j])
  }

  // ----- parsing a scope value -----

  /** What a value says: without separators, the name of a scope at any level;
      with them, the last segments of its path. */
  predicate Names(value: string, segs: seq<string>, k: nat)
    requires 1 <= k <= |segs|
  {
    var v := Segs(value);
    if LastSeparator(value).None? then v != [] && Covers(v[0], segs[k - 1])
    else k >= |v| && forall i :: 0 <= i < |v| ==> Covers(v[i], segs[k - |v| + i])
  }

  predicate SegParsable(seg: string) {
    |seg| <= 256 && Filters.Wildcards(seg) <= 16
  }

  predicate AllParsable(segs: seq<string>) {
    forall i :: 0 <= i < |segs| ==> SegParsable(segs[i])
  }

  /** The parsed pattern means what the value says. */
  ghost predicate Means(p: ScopePat, value: string) {
    PatValid(p) && forall segs, k :: 1 <= k <= |segs| ==> (HitBy(p, segs, k) <==> Names(value, segs, k))
  }

  ghost predicate Parsed(sps: seq<SegPat>, segs: seq<string>) {
    |sps| == |segs| && forall j :: 0 <= j < |sps| ==> SegValid(sps[j]) && SegText(sps[j]) == segs[j]
  }

  lemma ParsedAppend(sps: seq<SegPat>, segs: seq<string>, sp: SegPat, seg: string)
    requires Parsed(sps, segs) && SegValid(sp) && SegText(sp) == seg
    ensures Parsed(sps + [sp], segs + [seg])
  {}

  method ParseSegs(segs: seq<string>) returns (r: Option<seq<SegPat>>)
    ensures r.Some? <==> AllParsable(segs)
    ensures r.Some? ==> Parsed(r.value, segs)
  {
    var sps: seq<SegPat> := [];
    for i := 0 to |segs|
      invariant Parsed(sps, segs[..i])
      invariant forall j :: 0 <= j < i ==> SegParsable(segs[j])
    {
      var sp := ParseSeg(segs[i]);
      if sp.None? {
        return None;
      }
      assert segs[..i + 1] == segs[..i] + [segs[i]];
      ParsedAppend(sps, segs[..i], sp.value, segs[i]);
      sps := sps + [sp.value];
    }
    assert segs[..|segs|] == segs;
    r := Some(sps);
  }

  lemma InstanceMeans(value: string, sps: seq<SegPat>)
    requires Parsed(sps, Segs(value)) && |sps| == 1 && LastSeparator(value).None?
    ensures Means(Instance(sps[0]), value)
  {}

  lemma SuffixMeans(value: string, sps: seq<SegPat>)
    requires Parsed(sps, Segs(value)) && LastSeparator(value).Some?
    ensures Means(Suffix(sps), value)
  {
    forall segs, k | 1 <= k <= |segs| ensures HitBy(Suffix(sps), segs, k) <==> Names(value, segs, k) {
      assert forall i :: 0 <= i < |sps| ==> SegText(sps[i]) == Segs(value)[i];
    }
  }

  /** Parses one value; one without any segment is as good as absent. */
  method ParseScope(value: string) returns (r: Result<Option<ScopePat>, string>)
    ensures Segs(value) == [] ==> r == Success(None)
    ensures r.Success? <==> AllParsable(Segs(value))
    ensures r.Success? && Segs(value) != [] ==> r.value.Some? && Means(r.value.value, value)
  {
    var segs := Segs(value);
    if segs == [] {
      return Success(None);
    }
    var sps := ParseSegs(segs);
    if sps.None? {
      return Failure("scope pattern too long, or with too many wildcard characters");
    }
    if |segs| == 1 && LastSeparator(value).None? {
      InstanceMeans(value, sps.value);
      r := Success(Some(Instance(sps.value[0])));
    } else {
      SuffixMeans(value, sps.value);
      r := Success(Some(Suffix(sps.value)));
    }
  }

  /** A path without wildcards, written out from the root, names itself. */
  lemma PathNamesItself(path: string)
    requires Plain(path) && Segs(path) != []
    ensures Names(path, Segs(path), |Segs(path)|)
  {
    SegsPlain(path);
    var v := Segs(path);
    forall i | 0 <= i < |v| ensures Covers(v[i], v[i]) {
      PlainIsEquality(v[i], v[i]);
    }
  }

  lemma {:induction false} SegsPlain(s: string)
    requires Plain(s)
    ensures forall i :: 0 <= i < |Segs(s)| ==> Plain(Segs(s)[i])
    decreases |s|
  {
    match LastSeparator(s)
    case None =>
    case Some(i) => SegsPlain(s[..i]);
  }

  // ----- the gate -----

  method PatHits(p: ScopePat, segs: seq<string>, k: nat) returns (r: bool)
    requires PatValid(p) && 1 <= k <= |segs|
    ensures r <==> HitBy(p, segs, k)
  {
    match p
    case Instance(sp) =>
      r := SegMatches(sp, segs[k - 1]);
    case Suffix(sps) =>
      r := k >= |sps|;
      if r {
        r := AllFit(sps, segs[k - |sps|..k]);
      }
  }

  method AllFit(sps: seq<SegPat>, segs: seq<string>) returns (r: bool)
    requires |segs| == |sps| && forall i :: 0 <= i < |sps| ==> SegValid(sps[i])
    ensures r <==> forall i :: 0 <= i < |sps| ==> SegFits(sps[i], segs[i])
  {
    for i := 0 to |sps|
      invariant forall j :: 0 <= j < i ==> SegFits(sps[j], segs[j])
    {
      var fits := SegMatches(sps[i], segs[i]);
      if !fits {
        return false;
      }
    }
    r := true;
  }

  method AnyHits(pats: seq<ScopePat>, segs: seq<string>, k: nat) returns (r: bool)
    requires (forall j :: 0 <= j < |pats| ==> PatValid(pats[j])) && 1 <= k <= |segs|
    ensures r <==> Hit(pats, segs, k)
  {
    for j := 0 to |pats|
      invariant forall i :: 0 <= i < j ==> !HitBy(pats[i], segs, k)
    {
      var hit := PatHits(pats[j], segs, k);
      if hit {
        return true;
      }
    }
    r := false;
  }

  /** The deepest match among the first `n` levels. */
  ghost predicate Deepest(pats: seq<ScopePat>, segs: seq<string>, base: Option<nat>, n: nat)
    requires n <= |segs|
  {
    match base
    case None => forall j :: 1 <= j <= n ==> !Hit(pats, segs, j)
    case Some(b) => 1 <= b <= n && Hit(pats, segs, b) && forall j :: b < j <= n ==> !Hit(pats, segs, j)
  }

  lemma DeepestStep(pats: seq<ScopePat>, segs: seq<string>, base: Option<nat>, k: nat)
    requires 1 <= k <= |segs| && Deepest(pats, segs, base, k - 1)
    ensures Deepest(pats, segs, if Hit(pats, segs, k) then Some(k) else base, k)
  {}

  method DeepestHit(pats: seq<ScopePat>, segs: seq<string>) returns (base: Option<nat>)
    requires forall j :: 0 <= j < |pats| ==> PatValid(pats[j])
    ensures Deepest(pats, segs, base, |segs|)
  {
    base := None;
    for k := 1 to |segs| + 1
      invariant Deepest(pats, segs, base, k - 1)
    {
      var hit := AnyHits(pats, segs, k);
      DeepestStep(pats, segs, base, k);
      if hit {
        base := Some(k);
      }
    }
  }

  /** Taking the deepest match is taking the most permissive one. */
  method StructuralOk(sel: Selection, scopePath: string) returns (r: bool)
    requires SelectionValid(sel)
    ensures r <==> InScope(sel, scopePath)
  {
    if sel.scope.None? {
      return true;
    }
    var segs := Segs(scopePath);
    var base := DeepestHit(sel.scope.value, segs);
    match base
    case None =>
      r := false;
    case Some(b) =>
      r := sel.depth.None? || |segs| - b + 1 <= sel.depth.value;
      assert r ==> NearEnough(sel.depth, |segs|, b);
  }

  // ----- matching goes down the hierarchy -----

  /** A child has its parent's segments, and perhaps one more. */
  lemma SegsOfChild(s: string)
    requires ParentOf(s).Some?
    ensures var p := Segs(ParentOf(s).value); |p| <= |Segs(s)| && Segs(s)[..|p|] == p
  {}

  lemma HitOfPrefix(pats: seq<ScopePat>, a: seq<string>, b: seq<string>, k: nat)
    requires |a| <= |b| && b[..|a|] == a && 1 <= k <= |a| && Hit(pats, a, k)
    ensures Hit(pats, b, k)
  {
    var j :| 0 <= j < |pats| && HitBy(pats[j], a, k);
    assert forall i :: 0 <= i < |a| ==> b[i] == a[i];
    assert HitBy(pats[j], b, k);
  }

  /** Without a depth limit, what is below a selected scope is selected. */
  lemma ChildInScope(sel: Selection, s: string)
    requires sel.depth.None? && ParentOf(s).Some? && InScope(sel, ParentOf(s).value)
    ensures InScope(sel, s)
  {
    if sel.scope.Some? {
      var p := Segs(ParentOf(s).value);
      var k :| 1 <= k <= |p| && Hit(sel.scope.value, p, k) && NearEnough(sel.depth, |p|, k);
      SegsOfChild(s);
      HitOfPrefix(sel.scope.value, p, Segs(s), k);
      assert NearEnough(sel.depth, |Segs(s)|, k);
    }
  }

  lemma {:induction false} DescendantInScope(sel: Selection, a: string, s: string)
    requires sel.depth.None? && Encloses(a, s) && InScope(sel, a)
    ensures InScope(sel, s)
    decreases |s|
  {
    EnclosesStep(a, s);
    if a != s {
      DescendantInScope(sel, a, ParentOf(s).value);
      ChildInScope(sel, s);
    }
  }

  // ----- the roots -----

  /** A selected scope whose parent is not selected. */
  predicate IsRoot(sel: Selection, s: string) {
    InScope(sel, s) && !(ParentOf(s).Some? && InScope(sel, ParentOf(s).value))
  }

  function RootsOf(sel: Selection, keys: seq<string>): seq<string> {
    if keys == [] then []
    else RootsOf(sel, keys[..|keys| - 1]) + if IsRoot(sel, keys[|keys| - 1]) then [keys[|keys| - 1]] else []
  }

  /** The roots to print: the top level without a pattern; with one, an error
      when nothing matches. */
  method Roots(ix: Index, sel: Option<Selection>) returns (r: Option<seq<string>>, ghost keys: seq<string>)
    requires sel.Some? ==> SelectionValid(sel.value)
    ensures Ascending(keys) && forall x :: x in keys <==> x in ix.scopes
    ensures sel.None? ==> r == Some(ix.tops)
    ensures sel.Some? ==>
              var roots := RootsOf(sel.value, keys);
              r == if roots == [] then None else Some(roots)
  {
    var sorted := SortedKeys(ix.scopes);
    keys := sorted;
    if sel.None? {
      return Some(ix.tops), keys;
    }
    var out := [];
    for n := 0 to |sorted|
      invariant out == RootsOf(sel.value, sorted[..n])
    {
      assert sorted[..n + 1][..n] == sorted[..n];
      var keep := CheckRoot(sel.value, sorted[n]);
      if keep {
        out := out + [sorted[n]];
      }
    }
    assert sorted[..|sorted|] == sorted;
    r := if out == [] then None else Some(out);
  }

  method CheckRoot(sel: Selection, s: string) returns (r: bool)
    requires SelectionValid(sel)
    ensures r <==> IsRoot(sel, s)
  {
    r := StructuralOk(sel, s);
    if r && ParentOf(s).Some? {
      var above := StructuralOk(sel, ParentOf(s).value);
      r := !above;
    }
  }

  lemma {:induction false} RootsMembers(sel: Selection, keys: seq<string>)
    requires Distinct(keys)
    ensures Distinct(RootsOf(sel, keys))
    ensures forall x :: x in RootsOf(sel, keys) <==> x in keys && IsRoot(sel, x)
  {
    if keys != [] {
      var n := |keys| - 1;
      assert keys == keys[..n] + [keys[n]];
      RootsMembers(sel, keys[..n]);
      var r := RootsOf(sel, keys[..n]);
      forall i | 0 <= i < |r| ensures r[i] != keys[n] {
        assert r[i] in keys[..n];
      }
    }
  }

  /** The root above a selected scope. */
  function RootAbove(sel: Selection, s: string): (a: string)
    requires InScope(sel, s)
    ensures IsRoot(sel, a) && Encloses(a, s)
    decreases |s|
  {
    EnclosesStep(s, s);
    if ParentOf(s).Some? && InScope(sel, ParentOf(s).value) then
      var a := RootAbove(sel, ParentOf(s).value);
      EnclosesStep(a, s);
      a
    else s
  }

  /** No scope lies below two roots. */
  lemma OneRoot(sel: Selection, a: string, b: string, s: string)
    requires sel.depth.None? && IsRoot(sel, a) && IsRoot(sel, b) && Encloses(a, s) && Encloses(b, s)
    ensures a == b
  {
    ChainIsOrdered(a, b, s);
    if Encloses(a, b) {
      OnlyRoot(sel, a, b);
    } else {
      OnlyRoot(sel, b, a);
    }
  }

  lemma OnlyRoot(sel: Selection, a: string, b: string)
    requires sel.depth.None? && IsRoot(sel, a) && IsRoot(sel, b) && Encloses(a, b)
    ensures a == b
  {
    EnclosesStep(a, b);
    if ParentOf(b).Some? && Encloses(a, ParentOf(b).value) {
      DescendantInScope(sel, a, ParentOf(b).value);
    }
  }

  /** Walking the roots visits each selected scope exactly once, down to the
      level asked for, and no other scope. */
  lemma EachSelectedOnce(ix: Index, sel: Selection, keys: seq<string>, depth: nat, s: string)
    requires Forest(ix) && Distinct(keys) && (forall x :: x in keys <==> x in ix.scopes)
    requires sel.depth.None? && s in ix.scopes
    ensures Times(VisitAll(ix, RootsOf(sel, keys), 0, depth), s) ==
            if InScope(sel, s) && Depth(s) <= Depth(RootAbove(sel, s)) + depth then 1 else 0
  {
    var roots := RootsOf(sel, keys);
    RootsMembers(sel, keys);
    forall c, d | c in roots && d in roots && Encloses(c, s) && Encloses(d, s) ensures c == d {
      OneRoot(sel, c, d, s);
    }
    VisitAllOnce(ix, roots, 0, depth, s);
    if InScope(sel, s) {
      var a := RootAbove(sel, s);
      ClosedUp(ix.scopes, a, s);
      assert a in roots;
    }
    forall c | c in roots && Within(c, s, depth)
      ensures InScope(sel, s) && c == RootAbove(sel, s)
    {
      DescendantInScope(sel, c, s);
      OneRoot(sel, c, RootAbove(sel, s), s);
    }
  }

  /** From the top level, every scope is visited once, down to the level asked
      for. */
  lemma EachScopeOnce(ix: Index, depth: nat, s: string)
    requires Forest(ix) && Distinct(ix.tops) && s in ix.scopes
    requires forall x :: x in ix.tops <==> x in ix.scopes && ParentOf(x) == None
    ensures Times(VisitAll(ix, ix.tops, 0, depth), s) == if Depth(s) <= depth then 1 else 0
  {
    var top := Ancestors(s)[0];
    TopOf(s);
    forall c | c in ix.tops && Encloses(c, s) ensures c == top {
      OneTop(c, s);
    }
    VisitAllOnce(ix, ix.tops, 0, depth, s);
    ClosedUp(ix.scopes, top, s);
    assert Within(top, s, depth) <==> Depth(s) <= depth;
  }

  lemma {:induction false} TopOf(s: string)
    ensures Encloses(Ancestors(s)[0], s) && ParentOf(Ancestors(s)[0]) == None && Depth(Ancestors(s)[0]) == 0
    decreases |s|
  {
    if ParentOf(s).Some? {
      TopOf(ParentOf(s).value);
    }
  }

  lemma {:induction false} OneTop(c: string, s: string)
    requires Encloses(c, s) && ParentOf(c) == None
    ensures c == Ancestors(s)[0]
    decreases |s|
  {
    EnclosesStep(c, s);
    if c != s {
      OneTop(c, ParentOf(s).value);
    }
  }
}
