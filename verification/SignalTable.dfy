/** The signal table: declarations that share a backend handle become one
    signal. */
module SignalTable {
  import opened Backends
  import opened Signals
  import opened StringOrder
  import opened Waves

  datatype VarDecl = VarDecl(path: string, scope: string, width: nat, kind: ValueKind, backendSid: nat)

  datatype Alias = Alias(path: string, scope: string)

  datatype Group = Group(width: nat, kind: ValueKind, paths: seq<Alias>, declOrder: nat)

  datatype Entry = Entry(info: SignalInfo, aliases: seq<Alias>)

  // ----- grouping by handle -----

  predicate Declared(decls: seq<VarDecl>, b: nat) {
    exists i :: 0 <= i < |decls| && decls[i].backendSid == b
  }

  /** The first declaration of a handle. */
  function FirstDecl(decls: seq<VarDecl>, b: nat): (i: nat)
    requires Declared(decls, b)
    ensures i < |decls| && decls[i].backendSid == b
    ensures forall j :: 0 <= j < i ==> decls[j].backendSid != b
  {
    var n := |decls| - 1;
    if Declared(decls[..n], b) then FirstDecl(decls[..n], b) else n
  }

  /** All declarations of a handle, in order. */
  function AliasesOf(decls: seq<VarDecl>, b: nat): seq<Alias> {
    if decls == [] then []
    else
      var d := decls[|decls| - 1];
      AliasesOf(decls[..|decls| - 1], b) + if d.backendSid == b then [Alias(d.path, d.scope)] else []
  }

  function GroupFor(decls: seq<VarDecl>, b: nat): Group
    requires Declared(decls, b)
  {
    var i := FirstDecl(decls, b);
    Group(decls[i].width, decls[i].kind, AliasesOf(decls, b), i)
  }

  ghost predicate GroupsOf(decls: seq<VarDecl>, groups: map<nat, Group>) {
    && (forall b :: b in groups <==> Declared(decls, b))
    && forall b :: b in groups ==> groups[b] == GroupFor(decls, b)
  }

  lemma DeclaredAppend(decls: seq<VarDecl>, d: VarDecl, b: nat)
    ensures Declared(decls + [d], b) <==> Declared(decls, b) || d.backendSid == b
  {
    var all := decls + [d];
    assert all[|decls|] == d && forall i :: 0 <= i < |decls| ==> all[i] == decls[i];
  }

  lemma {:induction false} NoAliases(decls: seq<VarDecl>, b: nat)
    ensures !Declared(decls, b) <==> AliasesOf(decls, b) == []
  {
    if decls != [] {
      var n := |decls| - 1;
      assert decls == decls[..n] + [decls[n]];
      DeclaredAppend(decls[..n], decls[n], b);
      NoAliases(decls[..n], b);
    }
  }

  lemma GroupAppend(decls: seq<VarDecl>, d: VarDecl, b: nat)
    requires Declared(decls + [d], b)
    ensures GroupFor(decls + [d], b) ==
            if Declared(decls, b)
            then var g := GroupFor(decls, b);
                 g.(paths := g.paths + if d.backendSid == b then [Alias(d.path, d.scope)] else [])
            else Group(d.width, d.kind, [Alias(d.path, d.scope)], |decls|)
  {
    DeclaredAppend(decls, d, b);
    assert (decls + [d])[..|decls|] == decls;
    if !Declared(decls, b) {
      NoAliases(decls, b);
    }
  }

  lemma GroupsStep(decls: seq<VarDecl>, groups: map<nat, Group>, d: VarDecl, g: Group)
    requires GroupsOf(decls, groups)
    requires var b := d.backendSid;
             g == if b in groups
                  then groups[b].(paths := groups[b].paths + [Alias(d.path, d.scope)])
                  else Group(d.width, d.kind, [Alias(d.path, d.scope)], |decls|)
    ensures GroupsOf(decls + [d], groups[d.backendSid := g])
  {
    var groups' := groups[d.backendSid := g];
    forall b ensures b in groups' <==> Declared(decls + [d], b) {
      DeclaredAppend(decls, d, b);
    }
    forall b | b in groups' ensures groups'[b] == GroupFor(decls + [d], b) {
      DeclaredAppend(decls, d, b);
      GroupAppend(decls, d, b);
    }
  }

  function Min(i: nat, j: nat): nat {
    if i < j then i else j
  }

  /** The earliest declaration index stays with the handle, and every path is
      kept. */
  method GroupDecls(decls: seq<VarDecl>) returns (groups: map<nat, Group>)
    ensures GroupsOf(decls, groups)
  {
    groups := map[];
    for i := 0 to |decls|
      invariant GroupsOf(decls[..i], groups)
    {
      var d := decls[i];
      var b := d.backendSid;
      assert decls[..i + 1] == decls[..i] + [d];
      var g;
      if b in groups {
        g := groups[b];
        g := g.(declOrder := Min(i, g.declOrder), paths := g.paths + [Alias(d.path, d.scope)]);
      } else {
        g := Group(d.width, d.kind, [Alias(d.path, d.scope)], i);
      }
      GroupsStep(decls[..i], groups, d, g);
      groups := groups[b := g];
    }
    assert decls[..|decls|] == decls;
  }

  // ----- aliases in path order -----

  ghost predicate PathsAscending(s: seq<Alias>) {
    forall i, j :: 0 <= i < j < |s| ==> Less(s[i].path, s[j].path)
  }

  ghost predicate HasPath(s: seq<Alias>, p: string) {
    exists i :: 0 <= i < |s| && s[i].path == p
  }

  /** Puts `a` in its place, unless its path is there already. */
  method InsertAlias(s: seq<Alias>, a: Alias) returns (r: seq<Alias>)
    requires PathsAscending(s)
    ensures PathsAscending(r)
    ensures r == s || forall x :: x in r <==> x in s || x == a
    ensures HasPath(r, a.path) && (r == s ==> HasPath(s, a.path))
  {
    var i := 0;
    while i < |s| && Less(s[i].path, a.path)
      invariant i <= |s| && forall j :: 0 <= j < i ==> Less(s[j].path, a.path)
    {
      i := i + 1;
    }
    if i < |s| && s[i].path == a.path {
      return s;
    }
    r := s[..i] + [a] + s[i..];
    InsertedAscending(s, a, i);
    assert r[i] == a && s == s[..i] + s[i..];
  }

  lemma InsertedAscending(s: seq<Alias>, a: Alias, i: nat)
    requires PathsAscending(s) && i <= |s| && forall j :: 0 <= j < i ==> Less(s[j].path, a.path)
    requires i < |s| ==> !Less(s[i].path, a.path) && s[i].path != a.path
    ensures PathsAscending(s[..i] + [a] + s[i..])
  {
    forall j | i <= j < |s| ensures Less(a.path, s[j].path) {
      LessTotal(s[i].path, a.path);
      if i < j {
        LessTransitive(a.path, s[i].path, s[j].path);
      }
    }
  }

  /** The aliases of a group in path order, each path once. */
  ghost predicate SortedAliases(r: seq<Alias>, paths: seq<Alias>) {
    && PathsAscending(r)
    && (forall a :: a in r ==> a in paths)
    && forall a :: a in paths ==> HasPath(r, a.path)
  }

  method SortAliases(paths: seq<Alias>) returns (r: seq<Alias>)
    ensures SortedAliases(r, paths) && (paths != [] ==> r != [])
  {
    r := [];
    for k := 0 to |paths|
      invariant SortedAliases(r, paths[..k])
    {
      assert paths[..k + 1] == paths[..k] + [paths[k]];
      var more := InsertAlias(r, paths[k]);
      StillSorted(r, more, paths[..k], paths[k]);
      r := more;
    }
    assert paths[..|paths|] == paths;
    if paths != [] {
      assert paths[0] in paths;
    }
  }

  lemma StillSorted(r: seq<Alias>, more: seq<Alias>, paths: seq<Alias>, a: Alias)
    requires SortedAliases(r, paths) && PathsAscending(more)
    requires more == r || forall x :: x in more <==> x in r || x == a
    requires HasPath(more, a.path)
    ensures SortedAliases(more, paths + [a])
  {
    forall x | x in paths + [a] ensures HasPath(more, x.path) {
      if x in paths {
        var i :| 0 <= i < |r| && r[i].path == x.path;
        assert r[i] in more;
        var j :| 0 <= j < |more| && more[j] == r[i];
        assert more[j].path == x.path;
      }
    }
  }

  // ----- the table -----

  /** The entry of a handle: width and kind of its first declaration, that
      declaration's index, its paths in order, and the smallest of them as the
      signal's own. */
  ghost predicate EntryOf(decls: seq<VarDecl>, e: Entry) {
    var b := e.info.backendSid;
    && Declared(decls, b)
    && e.info.declOrder == FirstDecl(decls, b)
    && e.info.width == decls[FirstDecl(decls, b)].width && e.info.kind == decls[FirstDecl(decls, b)].kind
    && SortedAliases(e.aliases, AliasesOf(decls, b))
    && e.aliases != [] && e.info.path == e.aliases[0].path
  }

  ghost predicate ByPath(table: seq<Entry>) {
    forall i, j :: 0 <= i < j < |table| ==> !Less(table[j].info.path, table[i].info.path)
  }

  ghost predicate HasHandle(table: seq<Entry>, b: nat) {
    exists i :: 0 <= i < |table| && table[i].info.backendSid == b
  }

  /** One entry for each of the handles in `done`. */
  ghost predicate TableOf(decls: seq<VarDecl>, table: seq<Entry>, done: set<nat>) {
    && (forall e :: e in table ==> EntryOf(decls, e) && e.info.backendSid in done)
    && (forall b :: b in done ==> HasHandle(table, b))
    && (forall i, j :: 0 <= i < j < |table| ==> table[i].info.backendSid != table[j].info.backendSid)
    && ByPath(table)
  }

  method MakeEntry(b: nat, g: Group, ghost decls: seq<VarDecl>) returns (e: Entry)
    requires Declared(decls, b) && g == GroupFor(decls, b)
    ensures EntryOf(decls, e) && e.info.backendSid == b
  {
    NoAliases(decls, b);
    var aliases := SortAliases(g.paths);
    e := Entry(SignalInfo(aliases[0].path, g.width, g.kind, g.declOrder, b), aliases);
  }

  method InsertEntry(table: seq<Entry>, e: Entry) returns (r: seq<Entry>, ghost i: nat)
    requires ByPath(table)
    ensures i <= |table| && r == table[..i] + [e] + table[i..] && ByPath(r)
  {
    var k := 0;
    while k < |table| && !Less(e.info.path, table[k].info.path)
      invariant k <= |table| && forall j :: 0 <= j < k ==> !Less(e.info.path, table[j].info.path)
    {
      k := k + 1;
    }
    r := table[..k] + [e] + table[k..];
    i := k;
    forall j | k <= j < |table| ensures !Less(table[j].info.path, e.info.path) {
      LessTotal(table[k].info.path, table[j].info.path);
      NotAfter(e.info.path, table[k].info.path, table[j].info.path);
    }
  }

  lemma NotAfter(a: string, b: string, c: string)
    requires Less(a, b) && !Less(c, b)
    ensures !Less(c, a)
  {
    LessTotal(b, c);
    if Less(b, c) {
      LessTransitive(a, b, c);
    }
    LessTotal(a, c);
  }

  lemma TableStep(decls: seq<VarDecl>, table: seq<Entry>, done: set<nat>, e: Entry, i: nat)
    requires TableOf(decls, table, done) && EntryOf(decls, e) && e.info.backendSid !in done
    requires i <= |table| && ByPath(table[..i] + [e] + table[i..])
    ensures TableOf(decls, table[..i] + [e] + table[i..], done + {e.info.backendSid})
  {
    var r := table[..i] + [e] + table[i..];
    forall b | b in done + {e.info.backendSid} ensures HasHandle(r, b) {
      StillHasHandle(table, e, i, b);
    }
    StillEntries(decls, table, done, e, i);
    StillDistinct(table, e, i);
  }

  lemma StillEntries(decls: seq<VarDecl>, table: seq<Entry>, done: set<nat>, e: Entry, i: nat)
    requires forall x :: x in table ==> EntryOf(decls, x) && x.info.backendSid in done
    requires EntryOf(decls, e) && e.info.backendSid !in done && i <= |table|
    ensures forall x :: x in table[..i] + [e] + table[i..] ==>
                          EntryOf(decls, x) && x.info.backendSid in done + {e.info.backendSid}
    ensures forall j :: 0 <= j < |table| ==> table[j].info.backendSid != e.info.backendSid
  {
    forall x | x in table[..i] + [e] + table[i..] ensures x in table || x == e {
      assert table == table[..i] + table[i..];
    }
    forall j | 0 <= j < |table| ensures table[j].info.backendSid != e.info.backendSid {
      assert table[j] in table;
    }
  }

  lemma StillDistinct(table: seq<Entry>, e: Entry, i: nat)
    requires forall j, k :: 0 <= j < k < |table| ==> table[j].info.backendSid != table[k].info.backendSid
    requires forall j :: 0 <= j < |table| ==> table[j].info.backendSid != e.info.backendSid
    requires i <= |table|
    ensures var r := table[..i] + [e] + table[i..];
            forall j, k :: 0 <= j < k < |r| ==> r[j].info.backendSid != r[k].info.backendSid
  {}

  lemma StillHasHandle(table: seq<Entry>, e: Entry, i: nat, b: nat)
    requires i <= |table| && (HasHandle(table, b) || e.info.backendSid == b)
    ensures HasHandle(table[..i] + [e] + table[i..], b)
  {
    var r := table[..i] + [e] + table[i..];
    if e.info.backendSid == b {
      assert r[i] == e;
    } else {
      var k :| 0 <= k < |table| && table[k].info.backendSid == b;
      assert r[if k < i then k else k + 1] == table[k];
    }
  }

  function Handles(decls: seq<VarDecl>): (r: set<nat>)
    ensures forall b :: b in r <==> Declared(decls, b)
  {
    set i | 0 <= i < |decls| :: decls[i].backendSid
  }

  /** The groups may come in any order; the table is sorted by path. */
  method BuildSignalTable(decls: seq<VarDecl>) returns (table: seq<Entry>)
    ensures TableOf(decls, table, Handles(decls))
  {
    var groups := GroupDecls(decls);
    table := [];
    var left := groups.Keys;
    assert groups.Keys == Handles(decls);
    while left != {}
      invariant left <= groups.Keys
      invariant TableOf(decls, table, groups.Keys - left)
      decreases left
    {
      var b :| b in left;
      var e := MakeEntry(b, groups[b], decls);
      var more, i := InsertEntry(table, e);
      TableStep(decls, table, groups.Keys - left, e, i);
      assert groups.Keys - left + {b} == groups.Keys - (left - {b});
      table, left := more, left - {b};
    }
    assert groups.Keys - {} == groups.Keys;
  }

  // ----- what the table gives the rest -----

  /** Different signals never tie: the index of a first declaration belongs to
      one handle only. */
  lemma DeclOrdersDiffer(decls: seq<VarDecl>, table: seq<Entry>, done: set<nat>, i: nat, j: nat)
    requires TableOf(decls, table, done) && i < j < |table|
    ensures table[i].info.declOrder != table[j].info.declOrder
  {
    assert table[i] in table && table[j] in table;
  }

  /** No declaration is lost: each is an alias of exactly the signal of its
      handle, under its own path. */
  lemma EveryDeclListed(decls: seq<VarDecl>, table: seq<Entry>, k: nat) returns (i: nat)
    requires TableOf(decls, table, Handles(decls)) && k < |decls|
    ensures i < |table| && table[i].info.backendSid == decls[k].backendSid
    ensures HasPath(table[i].aliases, decls[k].path)
    ensures forall j :: 0 <= j < |table| && j != i ==> table[j].info.backendSid != decls[k].backendSid
  {
    var b := decls[k].backendSid;
    assert Declared(decls, b) && HasHandle(table, b);
    i :| 0 <= i < |table| && table[i].info.backendSid == b;
    assert table[i] in table;
    DeclIsAlias(decls, k);
    forall j | 0 <= j < |table| && j != i ensures table[j].info.backendSid != b {
      assert j < i || i < j;
    }
  }

  lemma {:induction false} DeclIsAlias(decls: seq<VarDecl>, k: nat)
    requires k < |decls|
    ensures Alias(decls[k].path, decls[k].scope) in AliasesOf(decls, decls[k].backendSid)
  {
    if k < |decls| - 1 {
      DeclIsAlias(decls[..|decls| - 1], k);
    }
  }

  /** The signal's own path is its smallest alias. */
  lemma CanonicalIsSmallest(decls: seq<VarDecl>, e: Entry, a: Alias)
    requires EntryOf(decls, e) && a in AliasesOf(decls, e.info.backendSid)
    ensures e.info.path == a.path || Less(e.info.path, a.path)
  {
    var i :| 0 <= i < |e.aliases| && e.aliases[i].path == a.path;
    if i > 0 {
      assert Less(e.aliases[0].path, e.aliases[i].path);
    }
  }

  function Infos(table: seq<Entry>): (r: seq<SignalInfo>)
    ensures |r| == |table| && forall i :: 0 <= i < |r| ==> r[i] == table[i].info
  {
    seq(|table|, i requires 0 <= i < |table| => table[i].info)
  }

  /** Opening a waveform: the table of its declarations, and nothing cached. */
  method FromBackend<V(==,!new)>(backend: Backend<V>, decls: seq<VarDecl>)
    returns (w: Wave<V>, table: seq<Entry>)
    requires backend.Valid()
    ensures TableOf(decls, table, Handles(decls))
    ensures fresh(w) && w.backend == backend && w.signals == Infos(table) && w.Valid()
    ensures forall s :: 0 <= s < |w.signals| ==> w.traces[s].None?
  {
    table := BuildSignalTable(decls);
    forall i, j | 0 <= i < j < |table| ensures table[i].info.declOrder != table[j].info.declOrder {
      DeclOrdersDiffer(decls, table, Handles(decls), i, j);
    }
    w := new Wave<V>(backend, Infos(table));
  }
}
