/** The events a bounded collection sees, and why they are the replay's. */
module Collected {
  import opened Wrappers
  import opened Traces
  import opened Backends
  import opened BinaryHeaps
  import opened BoundedEvents
  import opened BoundedOutcomes
  import opened Replay
  import opened Visits

  /** The in-range events of one signal, in trace order. */
  function EventsOf<V>(tr: Trace<V>, d: nat, s: nat): (r: seq<DumpEvent<V>>)
    ensures |r| == |tr| && forall i :: 0 <= i < |r| ==> r[i] == Event(tr[i].tick, d, s, tr[i].value)
  {
    seq(|tr|, i requires 0 <= i < |tr| => Event(tr[i].tick, d, s, tr[i].value))
  }

  // ----- bags and sequences without repeats -----

  /** Without repeats, a sequence is determined as a bag by its members. */
  lemma {:induction false} CountOne<T>(s: seq<T>, x: T)
    requires Distinct(s)
    ensures multiset(s)[x] == if x in s then 1 else 0
  {
    if s != [] {
      var n := |s| - 1;
      assert s == s[..n] + [s[n]];
      CountOne(s[..n], x);
    }
  }

  lemma BagKeepsDistinct<T(!new)>(a: seq<T>, b: seq<T>)
    requires multiset(a) == multiset(b) && Distinct(b)
    ensures Distinct(a)
  {
    forall i, j | 0 <= i < j < |a| ensures a[i] != a[j] {
      CountOne(b, a[i]);
      if a[i] == a[j] {
        CountTwice(a, i, j);
      }
    }
  }

  lemma CountTwice<T>(a: seq<T>, i: nat, j: nat)
    requires i < j < |a| && a[i] == a[j]
    ensures multiset(a)[a[i]] >= 2
  {
    assert a == a[..j] + [a[j]] + a[j + 1..];
    assert a[i] in multiset(a[..j]);
  }

  lemma SameMembers<T(!new)>(a: seq<T>, b: seq<T>)
    requires multiset(a) == multiset(b)
    ensures forall x :: x in a <==> x in b
  {
    forall x ensures x in a <==> x in b {
      assert x in a <==> x in multiset(a);
      assert x in b <==> x in multiset(b);
    }
  }

  // ----- emissions and events -----

  /** A replay without the positions. */
  function Stripped<V>(out: seq<Emit<V>>): (r: seq<DumpEvent<V>>)
    ensures |r| == |out|
    ensures forall i :: 0 <= i < |r| ==> r[i] == Event(out[i].tick, out[i].decl, out[i].sid, out[i].value)
  {
    seq(|out|, i requires 0 <= i < |out| => Event(out[i].tick, out[i].decl, out[i].sid, out[i].value))
  }

  lemma StrippedConcat<V>(a: seq<Emit<V>>, b: seq<Emit<V>>)
    ensures Stripped(a + b) == Stripped(a) + Stripped(b)
  {}

  /** The emissions at one key, in their order. */
  function EmitsAt<V>(out: seq<Emit<V>>, t: int, d: int): seq<Emit<V>> {
    if out == [] then []
    else
      var e := out[|out| - 1];
      EmitsAt(out[..|out| - 1], t, d) + if e.tick == t && e.decl == d then [e] else []
  }

  lemma {:induction false} StrippedAtKey<V>(out: seq<Emit<V>>, t: int, d: int)
    ensures AtKey(Stripped(out), t, d) == Stripped(EmitsAt(out, t, d))
  {
    if out != [] {
      var rest, e := out[..|out| - 1], out[|out| - 1];
      StrippedAtKey(rest, t, d);
      assert Stripped(out)[..|out| - 1] == Stripped(rest);
      StrippedConcat(EmitsAt(rest, t, d), if e.tick == t && e.decl == d then [e] else []);
    }
  }

  lemma {:induction false} EmitsAtMembers<V>(out: seq<Emit<V>>, t: int, d: int, e: Emit<V>)
    ensures e in EmitsAt(out, t, d) <==> e in out && e.tick == t && e.decl == d
  {
    if out != [] {
      EmitsAtMembers(out[..|out| - 1], t, d, e);
      assert out == out[..|out| - 1] + [out[|out| - 1]];
    }
  }

  lemma {:induction false} EmitsAtSorted<V(!new)>(out: seq<Emit<V>>, t: int, d: int)
    requires Sorted(out)
    ensures Sorted(EmitsAt(out, t, d))
  {
    if out != [] {
      var rest, e := out[..|out| - 1], out[|out| - 1];
      EmitsAtSorted(rest, t, d);
      var r := EmitsAt(rest, t, d);
      forall i | 0 <= i < |r| ensures Before(r[i], e) {
        EmitsAtMembers(rest, t, d, r[i]);
        var j :| 0 <= j < |rest| && rest[j] == r[i];
        assert out[j] == r[i];
      }
    }
  }

  lemma {:induction false} EmitsAtConcat<V>(a: seq<Emit<V>>, b: seq<Emit<V>>, t: int, d: int)
    ensures EmitsAt(a + b, t, d) == EmitsAt(a, t, d) + EmitsAt(b, t, d)
  {
    if b == [] {
      assert a + b == a;
    } else {
      assert (a + b)[..|a + b| - 1] == a + b[..|b| - 1];
      EmitsAtConcat(a, b[..|b| - 1], t, d);
    }
  }

  // ----- what arrives, signal by signal -----

  /** The in-range entries of one signal, with their positions. */
  function EntriesOf<V>(sources: map<nat, Trace<V>>, decl: seq<nat>, s: nat, t0: int, t1: Option<int>)
    : (r: seq<Emit<V>>)
    requires s in sources && s < |decl| && Ordered(sources[s])
    ensures |r| == |InRange(sources[s], t0, t1)|
    ensures forall i :: 0 <= i < |r| ==>
                          LowerBound(sources[s], t0) + i < |sources[s]|
                          && r[i] == EntryOf(sources, decl, s, LowerBound(sources[s], t0) + i)
  {
    var lo := LowerBound(sources[s], t0);
    seq(|InRange(sources[s], t0, t1)|, i requires 0 <= i < |InRange(sources[s], t0, t1)| && lo + i < |sources[s]| =>
      EntryOf(sources, decl, s, lo + i))
  }

  /** What arrives when the signals `sids` are visited one after another. */
  function Arriving<V>(sources: map<nat, Trace<V>>, decl: seq<nat>, sids: seq<nat>, t0: int, t1: Option<int>)
    : seq<Emit<V>>
    requires forall i :: 0 <= i < |sids| ==> sids[i] in sources && sids[i] < |decl| && Ordered(sources[sids[i]])
  {
    if sids == [] then []
    else
      Arriving(sources, decl, sids[..|sids| - 1], t0, t1)
      + EntriesOf(sources, decl, sids[|sids| - 1], t0, t1)
  }

  lemma EntriesMembers<V>(sources: map<nat, Trace<V>>, decl: seq<nat>, s: nat, t0: int, t1: Option<int>, e: Emit<V>)
    requires Inputs(sources, decl) && s in sources && AtMost(t0, t1)
    ensures e in EntriesOf(sources, decl, s, t0, t1) <==>
            IsEntry(sources, decl, e) && InWindow(e.tick, t0, t1) && e.sid == s
  {
    var r, lo := EntriesOf(sources, decl, s, t0, t1), LowerBound(sources[s], t0);
    if IsEntry(sources, decl, e) && InWindow(e.tick, t0, t1) && e.sid == s {
      assert lo <= e.pos < EndOf(sources[s], lo, t1);
      assert r[e.pos - lo] == e;
    }
    if e in r {
      var i :| 0 <= i < |r| && r[i] == e;
      assert InRange(sources[s], t0, t1)[i] == sources[s][lo + i];
    }
  }

  lemma EntriesSorted<V>(sources: map<nat, Trace<V>>, decl: seq<nat>, s: nat, t0: int, t1: Option<int>)
    requires Inputs(sources, decl) && s in sources
    ensures Sorted(EntriesOf(sources, decl, s, t0, t1))
  {}

  lemma {:induction false} ArrivingMembers<V(!new)>(sources: map<nat, Trace<V>>, decl: seq<nat>, sids: seq<nat>,
                                                    t0: int, t1: Option<int>, e: Emit<V>)
    requires Inputs(sources, decl) && AtMost(t0, t1) && forall i :: 0 <= i < |sids| ==> sids[i] in sources
    ensures e in Arriving(sources, decl, sids, t0, t1) <==>
            IsEntry(sources, decl, e) && InWindow(e.tick, t0, t1) && e.sid in sids
  {
    if sids != [] {
      var rest, s := sids[..|sids| - 1], sids[|sids| - 1];
      ArrivingMembers(sources, decl, rest, t0, t1, e);
      EntriesMembers(sources, decl, s, t0, t1, e);
      assert sids == rest + [s];
    }
  }

  /** Entries that arrive with a common key are of one signal, and come in
      trace order. */
  lemma {:induction false} ArrivingSorted<V(!new)>(sources: map<nat, Trace<V>>, decl: seq<nat>, sids: seq<nat>,
                                                   t0: int, t1: Option<int>, t: int, d: int)
    requires Inputs(sources, decl) && AtMost(t0, t1) && Distinct(sids)
    requires forall i :: 0 <= i < |sids| ==> sids[i] in sources
    ensures Sorted(EmitsAt(Arriving(sources, decl, sids, t0, t1), t, d))
  {
    if sids != [] {
      var rest, s := sids[..|sids| - 1], sids[|sids| - 1];
      var a, b := Arriving(sources, decl, rest, t0, t1), EntriesOf(sources, decl, s, t0, t1);
      ArrivingSorted(sources, decl, rest, t0, t1, t, d);
      EmitsAtConcat(a, b, t, d);
      EntriesSorted(sources, decl, s, t0, t1);
      EmitsAtSorted(b, t, d);
      if decl[s] == d {
        NoneOfOthers(sources, decl, rest, s, t0, t1, t);
        assert [] + EmitsAt(b, t, d) == EmitsAt(b, t, d);
      } else {
        NoneOfThis(sources, decl, s, t0, t1, t, d);
        assert EmitsAt(a, t, d) + [] == EmitsAt(a, t, d);
      }
    }
  }

  lemma NoneOfThis<V(!new)>(sources: map<nat, Trace<V>>, decl: seq<nat>, s: nat, t0: int, t1: Option<int>, t: int,
                            d: int)
    requires Inputs(sources, decl) && AtMost(t0, t1) && s in sources && decl[s] != d
    ensures EmitsAt(EntriesOf(sources, decl, s, t0, t1), t, d) == []
  {
    var r := EmitsAt(EntriesOf(sources, decl, s, t0, t1), t, d);
    if r != [] {
      EmitsAtMembers(EntriesOf(sources, decl, s, t0, t1), t, d, r[0]);
      EntriesMembers(sources, decl, s, t0, t1, r[0]);
    }
  }

  lemma NoneOfOthers<V(!new)>(sources: map<nat, Trace<V>>, decl: seq<nat>, sids: seq<nat>, s: nat,
                              t0: int, t1: Option<int>, t: int)
    requires Inputs(sources, decl) && AtMost(t0, t1) && s in sources && s !in sids
    requires forall i :: 0 <= i < |sids| ==> sids[i] in sources
    ensures EmitsAt(Arriving(sources, decl, sids, t0, t1), t, decl[s]) == []
  {
    var r := EmitsAt(Arriving(sources, decl, sids, t0, t1), t, decl[s]);
    if r != [] {
      EmitsAtMembers(Arriving(sources, decl, sids, t0, t1), t, decl[s], r[0]);
      ArrivingMembers(sources, decl, sids, t0, t1, r[0]);
    }
  }

  // ----- the arrivals, sorted, are the replay -----

  ghost predicate Visiting<V>(sources: map<nat, Trace<V>>, sids: seq<nat>) {
    && Distinct(sids)
    && (forall i :: 0 <= i < |sids| ==> sids[i] in sources)
    && forall s :: s in sources ==> s in sids
  }

  lemma SameAtKey<V(!new)>(sources: map<nat, Trace<V>>, decl: seq<nat>, sids: seq<nat>, t0: int, t1: Option<int>,
                           out: seq<Emit<V>>, t: int, d: int)
    requires Inputs(sources, decl) && AtMost(t0, t1) && IsReplay(sources, decl, t0, t1, out) && Visiting(sources, sids)
    ensures EmitsAt(Arriving(sources, decl, sids, t0, t1), t, d) == EmitsAt(out, t, d)
  {
    var all := Arriving(sources, decl, sids, t0, t1);
    ArrivingSorted(sources, decl, sids, t0, t1, t, d);
    EmitsAtSorted(out, t, d);
    forall e ensures e in EmitsAt(all, t, d) <==> e in EmitsAt(out, t, d) {
      EmitsAtMembers(all, t, d, e);
      EmitsAtMembers(out, t, d, e);
      ArrivingMembers(sources, decl, sids, t0, t1, e);
    }
    SortedUnique(EmitsAt(all, t, d), EmitsAt(out, t, d));
  }

  lemma ReplayKeySorted<V>(out: seq<Emit<V>>)
    requires Sorted(out)
    ensures KeySorted(Stripped(out))
  {
    forall i, j | 0 <= i < j < |out| ensures !Less(Stripped(out)[j], Stripped(out)[i]) {
      assert Before(out[i], out[j]);
    }
  }

  /** Whatever the order of the visits: the arrivals in stable order by key are
      the replay. */
  lemma ArrivalsSorted<V(!new)>(sources: map<nat, Trace<V>>, decl: seq<nat>, sids: seq<nat>, t0: int, t1: Option<int>,
                                out: seq<Emit<V>>)
    requires Inputs(sources, decl) && AtMost(t0, t1) && IsReplay(sources, decl, t0, t1, out) && Visiting(sources, sids)
    ensures SortByKey(Stripped(Arriving(sources, decl, sids, t0, t1))) == Stripped(out)
  {
    var arr := Stripped(Arriving(sources, decl, sids, t0, t1));
    forall t, d ensures AtKey(SortByKey(arr), t, d) == AtKey(Stripped(out), t, d) {
      SameAtKey(sources, decl, sids, t0, t1, out, t, d);
      StrippedAtKey(Arriving(sources, decl, sids, t0, t1), t, d);
      StrippedAtKey(out, t, d);
    }
    ReplayKeySorted(out);
    StableUnique(SortByKey(arr), Stripped(out));
  }

  // ----- what passes by, visit by visit -----

  ghost predicate AllOrdered<V>(visits: seq<Visit<V>>, decl: seq<nat>) {
    forall k :: 0 <= k < |visits| ==> visits[k].sid < |decl| && Ordered(visits[k].trace)
  }

  /** The in-range events of the visits, in order of arrival. */
  ghost function Passing<V>(visits: seq<Visit<V>>, decl: seq<nat>, t0: int, t1: Option<int>): seq<DumpEvent<V>>
    requires AllOrdered(visits, decl)
  {
    if visits == [] then []
    else
      var v := visits[|visits| - 1];
      Passing(visits[..|visits| - 1], decl, t0, t1) + EventsOf(InRange(v.trace, t0, t1), decl[v.sid], v.sid)
  }

  /** Each visit shows exactly its signal's entries in range. */
  ghost predicate Showing<V>(sources: map<nat, Trace<V>>, visits: seq<Visit<V>>, t0: int, t1: Option<int>) {
    forall k :: 0 <= k < |visits| ==>
                  && visits[k].sid in sources && Ordered(sources[visits[k].sid])
                  && KeepsEntries(sources[visits[k].sid], t0, t1, visits[k].trace)
  }

  lemma EventsAreEntries<V>(sources: map<nat, Trace<V>>, decl: seq<nat>, s: nat, t0: int, t1: Option<int>)
    requires s in sources && s < |decl| && Ordered(sources[s])
    ensures EventsOf(InRange(sources[s], t0, t1), decl[s], s) == Stripped(EntriesOf(sources, decl, s, t0, t1))
  {}

  lemma VisitsPrefix<V>(visits: seq<Visit<V>>)
    requires visits != []
    ensures VisitSids(visits)[..|visits| - 1] == VisitSids(visits[..|visits| - 1])
    ensures VisitSids(visits)[|visits| - 1] == visits[|visits| - 1].sid
  {}

  lemma {:induction false} PassingIsArriving<V>(sources: map<nat, Trace<V>>, visits: seq<Visit<V>>, decl: seq<nat>,
                                                t0: int, t1: Option<int>)
    requires AllOrdered(visits, decl) && Showing(sources, visits, t0, t1)
    ensures forall i :: 0 <= i < |VisitSids(visits)| ==>
                          var s := VisitSids(visits)[i]; s in sources && s < |decl| && Ordered(sources[s])
    ensures Passing(visits, decl, t0, t1) == Stripped(Arriving(sources, decl, VisitSids(visits), t0, t1))
  {
    if visits != [] {
      var rest, v := visits[..|visits| - 1], visits[|visits| - 1];
      PassingIsArriving(sources, rest, decl, t0, t1);
      VisitsPrefix(visits);
      EventsAreEntries(sources, decl, v.sid, t0, t1);
      StrippedConcat(Arriving(sources, decl, VisitSids(rest), t0, t1), EntriesOf(sources, decl, v.sid, t0, t1));
    }
  }

  /** Visiting each signal once, with windows that keep to the histories'
      entries, lets the replay's events pass: in stable order by key they are
      the replay. */
  lemma PassingSorted<V(!new)>(sources: map<nat, Trace<V>>, decl: seq<nat>, visits: seq<Visit<V>>,
                               t0: int, t1: Option<int>, out: seq<Emit<V>>)
    requires Inputs(sources, decl) && AtMost(t0, t1) && IsReplay(sources, decl, t0, t1, out)
    requires AllOrdered(visits, decl) && Showing(sources, visits, t0, t1) && Visiting(sources, VisitSids(visits))
    ensures SortByKey(Passing(visits, decl, t0, t1)) == Stripped(out)
    ensures |Passing(visits, decl, t0, t1)| == |out|
  {
    PassingIsArriving(sources, visits, decl, t0, t1);
    ArrivalsSorted(sources, decl, VisitSids(visits), t0, t1, out);
    var passed := Passing(visits, decl, t0, t1);
    assert |multiset(SortByKey(passed))| == |SortByKey(passed)| && |multiset(passed)| == |passed|;
  }

  // ----- the collection -----

  /** With a limit, the heap holds what may be kept of the arrivals `arr`. */
  ghost predicate Held<V(!new)>(arr: seq<DumpEvent<V>>, limit: nat, keep: multiset<DumpEvent<V>>) {
    limit > 0 ==> Keeps(arr, limit, keep)
  }

  /** Offers the in-range events of one visit to the collection. */
  method CollectVisit<V(!new)>(heap: BinaryHeap<Sample<V>>, all: seq<DumpEvent<V>>, total: nat, tr: Trace<V>,
                               d: nat, s: nat, t0: int, t1: Option<int>, limit: nat, ghost seen: seq<DumpEvent<V>>)
    returns (all': seq<DumpEvent<V>>, total': nat)
    requires Ordered(tr) && heap.Valid()
    requires Held(seen, limit, multiset(heap.data))
    modifies heap
    ensures heap.Valid()
    ensures var evs := EventsOf(InRange(tr, t0, t1), d, s);
            && total' == total + |evs|
            && Held(seen + evs, limit, multiset(heap.data))
            && all' == if limit == 0 then all + evs else all
  {
    var lo := LowerBound(tr, t0);
    var hi := EndOf(tr, lo, t1);
    var evs := EventsOf(tr[lo..hi], d, s);
    total' := total + (hi - lo);
    all' := CollectEach(heap, all, evs, limit, seen);
  }

  method CollectEach<V(!new)>(heap: BinaryHeap<Sample<V>>, all: seq<DumpEvent<V>>, evs: seq<DumpEvent<V>>, limit: nat,
                              ghost seen: seq<DumpEvent<V>>) returns (all': seq<DumpEvent<V>>)
    requires heap.Valid() && Held(seen, limit, multiset(heap.data))
    modifies heap
    ensures heap.Valid() && Held(seen + evs, limit, multiset(heap.data))
    ensures all' == if limit == 0 then all + evs else all
  {
    all' := all;
    assert seen + evs[..0] == seen;
    for i := 0 to |evs|
      invariant heap.Valid() && Held(seen + evs[..i], limit, multiset(heap.data))
      invariant all' == if limit == 0 then all + evs[..i] else all
    {
      OneFurther(seen, evs, i);
      OneFurther(all, evs, i);
      all' := CollectOne(heap, all', evs[i], limit, seen + evs[..i]);
    }
    assert evs[..|evs|] == evs;
  }

  lemma OneFurther<T>(a: seq<T>, b: seq<T>, i: nat)
    requires i < |b|
    ensures a + b[..i + 1] == a + b[..i] + [b[i]]
  {
    assert b[..i + 1] == b[..i] + [b[i]];
  }

  method CollectOne<V(!new)>(heap: BinaryHeap<Sample<V>>, all: seq<DumpEvent<V>>, ev: DumpEvent<V>, limit: nat,
                             ghost seen: seq<DumpEvent<V>>) returns (all': seq<DumpEvent<V>>)
    requires heap.Valid() && Held(seen, limit, multiset(heap.data))
    modifies heap
    ensures heap.Valid() && Held(seen + [ev], limit, multiset(heap.data))
    ensures all' == if limit == 0 then all + [ev] else all
  {
    all' := all;
    if limit == 0 {
      all' := all + [ev];
    } else {
      Offer(heap, ev, limit, seen);
    }
  }

  /** Runs the collection over all visits and sorts what it kept.  Without a
      limit the sort is the only step, and it is stable. */
  method Collect<V(!new)>(visits: seq<Visit<V>>, decl: seq<nat>, t0: int, t1: Option<int>, limit: nat)
    returns (events: seq<DumpEvent<V>>, total: nat)
    requires AllOrdered(visits, decl)
    ensures var passed := Passing(visits, decl, t0, t1);
            && total == |passed|
            && (limit == 0 ==> events == SortByKey(passed))
            && (limit != 0 ==> Outcome(passed, limit, events))
  {
    var heap := new BinaryHeap<Sample<V>>();
    var all: seq<DumpEvent<V>> := [];
    total := 0;
    for k := 0 to |visits|
      invariant heap.Valid() && fresh(heap)
      invariant total == |Passing(visits[..k], decl, t0, t1)|
      invariant limit == 0 ==> all == Passing(visits[..k], decl, t0, t1)
      invariant Held(Passing(visits[..k], decl, t0, t1), limit, multiset(heap.data))
    {
      assert visits[..k + 1][..k] == visits[..k];
      var v := visits[k];
      all, total := CollectVisit(heap, all, total, v.trace, decl[v.sid], v.sid, t0, t1, limit,
                                 Passing(visits[..k], decl, t0, t1));
    }
    assert visits[..|visits|] == visits;
    events := SortByKey(if limit == 0 then all else heap.data);
  }

  // ----- when the collection is the beginning of the replay -----

  /** Two entries at one tick of one signal. */
  predicate SameMoment<V>(a: Emit<V>, b: Emit<V>) {
    a.tick == b.tick && a.decl == b.decl
  }

  /** The first rows reach the key of entry `i`. */
  ghost predicate WithinRows<V>(out: seq<Emit<V>>, limit: nat, i: nat)
    requires i < |out|
  {
    ReachedBy(Stripped(out)[..Clip(|out|, limit)], Stripped(out)[i])
  }

  /** No (tick, signal) that the first rows of the replay reach has entries with
      different values. */
  ghost predicate OneValued<V>(out: seq<Emit<V>>, limit: nat) {
    forall i, j :: 0 <= i < j < |out| && SameMoment(out[i], out[j]) && WithinRows(out, limit, i) ==>
                     Stripped(out)[i] == Stripped(out)[j]
  }

  lemma ArrivedIn<V(!new)>(arr: seq<DumpEvent<V>>, x: DumpEvent<V>)
    ensures x in arr <==> x in SortByKey(arr)
  {
    assert x in arr <==> x in multiset(arr);
    assert x in SortByKey(arr) <==> x in multiset(SortByKey(arr));
  }

  lemma ReachedIs<V>(arr: seq<DumpEvent<V>>, out: seq<Emit<V>>, limit: nat, x: DumpEvent<V>)
    requires SortByKey(arr) == Stripped(out) && |arr| == |out|
    ensures Reached(arr, limit, x) <==> ReachedBy(Stripped(out)[..Clip(|out|, limit)], x)
  {
    assert Expected(arr, limit) == Stripped(out)[..Clip(|out|, limit)];
  }

  lemma OneEventGives<V(!new)>(arr: seq<DumpEvent<V>>, limit: nat, x: DumpEvent<V>, y: DumpEvent<V>)
    requires OneEventPerKey(arr, limit) && x in SortByKey(arr) && y in SortByKey(arr)
    requires SameKey(x, y) && Reached(arr, limit, x)
    ensures x == y
  {
    ArrivedIn(arr, x);
    ArrivedIn(arr, y);
  }

  lemma OneValueGives<V(!new)>(arr: seq<DumpEvent<V>>, out: seq<Emit<V>>, limit: nat, x: DumpEvent<V>, y: DumpEvent<V>)
    requires SortByKey(arr) == Stripped(out) && |arr| == |out| && OneValued(out, limit)
    requires x in arr && y in arr && SameKey(x, y) && Reached(arr, limit, x)
    ensures x == y
  {
    ReachedIs(arr, out, limit, x);
    ArrivedIn(arr, x);
    ArrivedIn(arr, y);
    SameEvents(out, limit, x, y);
  }

  /** The condition on the arrivals, read off the replay. */
  lemma OneValuedIs<V(!new)>(arr: seq<DumpEvent<V>>, out: seq<Emit<V>>, limit: nat)
    requires SortByKey(arr) == Stripped(out) && |arr| == |out|
    ensures OneValued(out, limit) <==> OneEventPerKey(arr, limit)
  {
    if OneEventPerKey(arr, limit) {
      forall i, j | 0 <= i < j < |out| && SameMoment(out[i], out[j]) && WithinRows(out, limit, i)
        ensures Stripped(out)[i] == Stripped(out)[j]
      {
        ReachedIs(arr, out, limit, Stripped(out)[i]);
        OneEventGives(arr, limit, Stripped(out)[i], Stripped(out)[j]);
      }
    }
    if OneValued(out, limit) {
      forall x, y | x in arr && y in arr && SameKey(x, y) && Reached(arr, limit, x)
        ensures x == y
      {
        OneValueGives(arr, out, limit, x, y);
      }
    }
  }

  lemma SameEvents<V>(out: seq<Emit<V>>, limit: nat, x: DumpEvent<V>, y: DumpEvent<V>)
    requires OneValued(out, limit) && x in Stripped(out) && y in Stripped(out) && SameKey(x, y)
    requires ReachedBy(Stripped(out)[..Clip(|out|, limit)], x)
    ensures x == y
  {
    var s := Stripped(out);
    var i :| 0 <= i < |s| && s[i] == x;
    var j :| 0 <= j < |s| && s[j] == y;
    assert WithinRows(out, limit, i) && WithinRows(out, limit, j);
  }

  /** With at most one entry per tick and signal there is nothing to differ. */
  lemma StrictOneValued<V(!new)>(sources: map<nat, Trace<V>>, decl: seq<nat>, t0: int, t1: Option<int>,
                                 out: seq<Emit<V>>, limit: nat)
    requires Inputs(sources, decl) && IsReplay(sources, decl, t0, t1, out)
    requires forall s :: s in sources ==> StrictlyOrdered(sources[s])
    ensures OneValued(out, limit)
  {
    forall i, j | 0 <= i < j < |out| && out[i].decl == out[j].decl
      ensures out[i].tick < out[j].tick
    {
      assert out[i] in out && out[j] in out && Before(out[i], out[j]);
      StrictEntries(sources, decl, out[i], out[j]);
    }
  }

  lemma StrictEntries<V>(sources: map<nat, Trace<V>>, decl: seq<nat>, a: Emit<V>, b: Emit<V>)
    requires Inputs(sources, decl) && IsEntry(sources, decl, a) && IsEntry(sources, decl, b)
    requires StrictlyOrdered(sources[a.sid]) && Before(a, b) && a.decl == b.decl
    ensures a.tick < b.tick
  {
    assert a.sid == b.sid;
    assert a.pos < b.pos ==> sources[a.sid][a.pos].tick < sources[a.sid][b.pos].tick;
  }
}
