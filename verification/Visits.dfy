/** Per-signal consumption: the calls a consumer sees, and how requested
    signals are grouped so that aliases share one decode. */
module Visits {
  import opened Traces

  /** A trace handed to a per-signal consumer. */
  datatype Visit<+V> = Visit(sid: nat, trace: Trace<V>)

  function VisitSids<V>(visits: seq<Visit<V>>): (r: seq<nat>)
    ensures |r| == |visits| && forall k :: 0 <= k < |r| ==> r[k] == visits[k].sid
  {
    seq(|visits|, k requires 0 <= k < |visits| => visits[k].sid)
  }

  lemma PrefixGrows<T>(s: seq<T>, i: nat, end: nat)
    requires i <= end <= |s|
    ensures s[..end] == s[..i] + s[i..end]
    ensures multiset(s[..end]) == multiset(s[..i]) + multiset(s[i..end])
  {
    assert s[..end] == s[..i] + s[i..end];
  }

  lemma VisitSidsConcat<V>(a: seq<Visit<V>>, b: seq<Visit<V>>)
    ensures VisitSids(a + b) == VisitSids(a) + VisitSids(b)
  {}

  ghost function Members(sids: seq<nat>): set<nat> {
    set s | s in sids
  }

  // ----- grouping the requested signals by backend handle -----

  /** The signals in `groups`, handle by handle. */
  function Flat(need: seq<nat>, groups: map<nat, seq<nat>>): seq<nat>
    requires forall b :: b in need ==> b in groups
  {
    if need == [] then []
    else Flat(need[..|need| - 1], groups) + groups[need[|need| - 1]]
  }

  lemma FlatStep(need: seq<nat>, groups: map<nat, seq<nat>>, k: nat)
    requires k < |need| && forall b :: b in need ==> b in groups
    ensures need[k] in groups && (forall b :: b in need[..k + 1] ==> b in groups)
    ensures Flat(need[..k + 1], groups) == Flat(need[..k], groups) + groups[need[k]]
  {
    assert need[k] in need;
    assert need[..k + 1][..k] == need[..k];
  }

  /** The handle of `s` joins the list the first time it is seen; `s` joins
      its handle's group every time. */
  function AddedNeed(need: seq<nat>, groups: map<nat, seq<nat>>, b: nat): seq<nat> {
    if b in groups then need else need + [b]
  }

  function AddedGroups(groups: map<nat, seq<nat>>, b: nat, s: nat): map<nat, seq<nat>> {
    groups[b := (if b in groups then groups[b] else []) + [s]]
  }

  ghost predicate Grouped(need: seq<nat>, groups: map<nat, seq<nat>>) {
    && (forall b :: b in need <==> b in groups)
    && forall i, j :: 0 <= i < j < |need| ==> need[i] != need[j]
  }

  lemma {:induction false} FlatAgrees(need: seq<nat>, groups: map<nat, seq<nat>>, groups': map<nat, seq<nat>>)
    requires forall b :: b in need ==> b in groups && b in groups' && groups[b] == groups'[b]
    ensures Flat(need, groups) == Flat(need, groups')
  {
    if need != [] {
      assert need[|need| - 1] in need;
      FlatAgrees(need[..|need| - 1], groups, groups');
    }
  }

  lemma {:induction false} FlatGrows(need: seq<nat>, groups: map<nat, seq<nat>>, b: nat, s: nat)
    requires forall i, j :: 0 <= i < j < |need| ==> need[i] != need[j]
    requires forall c :: c in need ==> c in groups
    requires b in need
    ensures multiset(Flat(need, AddedGroups(groups, b, s))) == multiset(Flat(need, groups)) + multiset{s}
  {
    var n := |need| - 1;
    var groups' := AddedGroups(groups, b, s);
    if need[n] == b {
      FlatAgrees(need[..n], groups, groups');
      assert Flat(need, groups') == Flat(need, groups) + [s];
    } else {
      FlatGrows(need[..n], groups, b, s);
    }
  }

  /** Adding one more signal adds it exactly once to what will be visited. */
  lemma AddedFlat(need: seq<nat>, groups: map<nat, seq<nat>>, b: nat, s: nat)
    requires Grouped(need, groups)
    ensures var need', groups' := AddedNeed(need, groups, b), AddedGroups(groups, b, s);
            && Grouped(need', groups')
            && multiset(Flat(need', groups')) == multiset(Flat(need, groups)) + multiset{s}
  {
    var groups' := AddedGroups(groups, b, s);
    if b in groups {
      FlatGrows(need, groups, b, s);
    } else {
      FlatAgrees(need, groups, groups');
      FlatAppend(need, groups', b);
    }
  }

  lemma FlatAppend(need: seq<nat>, groups: map<nat, seq<nat>>, b: nat)
    requires b in groups && forall c :: c in need ==> c in groups
    ensures Flat(need + [b], groups) == Flat(need, groups) + groups[b]
  {
    assert (need + [b])[..|need|] == need;
  }
}
