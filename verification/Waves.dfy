/** The loaded waveform: a signal table, a backend and a cache of traces. */
module Waves {
  import opened Wrappers
  import opened Traces
  import opened Backends
  import opened BinaryHeaps
  import opened BoundedEvents
  import opened Collected
  import opened MergeHeap
  import opened Replay
  import opened Signals
  import opened Visits

  class Wave<V(==,!new)> {
    const backend: Backend<V>
    const signals: seq<SignalInfo>
    /** Decoded traces by signal; absent until loaded. */
    var traces: seq<Option<Trace<V>>>

    /** Declaration orders differ between signals, and a cached trace is the
        signal's full history. */
    ghost predicate Valid()
      reads this, backend
    {
      && backend.Valid()
      && |traces| == |signals|
      && (forall i, j :: 0 <= i < j < |signals| ==> signals[i].declOrder != signals[j].declOrder)
      && forall s :: 0 <= s < |signals| && traces[s].Some? ==> traces[s].value == History(s)
    }

    function History(s: nat): (tr: Trace<V>)
      requires backend.Valid() && s < |signals|
      ensures Ordered(tr)
    {
      backend.History(signals[s].backendSid)
    }

    ghost predicate Known(sids: seq<nat>) {
      forall i :: 0 <= i < |sids| ==> sids[i] < |signals|
    }

    /** The selection: the given signals, or all of them. */
    function Selected(sids: Option<seq<nat>>): (r: seq<nat>)
      ensures sids.Some? ==> r == sids.value
      ensures sids.None? ==> |r| == |signals| && forall i :: 0 <= i < |r| ==> r[i] == i
      ensures sids.None? ==> Known(r) && Distinct(r)
    {
      match sids
      case Some(s) => s
      case None => seq(|signals|, i => i)
    }

    constructor (backend: Backend<V>, signals: seq<SignalInfo>)
      requires backend.Valid()
      requires forall i, j :: 0 <= i < j < |signals| ==> signals[i].declOrder != signals[j].declOrder
      ensures this.backend == backend && this.signals == signals
      ensures Valid() && forall s :: 0 <= s < |signals| ==> traces[s].None?
    {
      this.backend := backend;
      this.signals := signals;
      traces := seq(|signals|, i => None);
    }

    /** Every group holds requested signals of its own handle. */
    ghost predicate ByHandle(groups: map<nat, seq<nat>>, sids: seq<nat>) {
      forall b, i :: b in groups && 0 <= i < |groups[b]| ==>
                       && groups[b][i] in sids
                       && groups[b][i] < |signals|
                       && signals[groups[b][i]].backendSid == b
    }

    // ----- loading -----

    /** Decodes what is not yet cached, one decode per backend handle. */
    method EnsureLoaded(sids: seq<nat>)
      requires Valid() && Known(sids)
      modifies this`traces
      ensures Valid()
      ensures forall s :: 0 <= s < |signals| ==>
                            traces[s] == if s in sids then Some(History(s)) else old(traces[s])
    {
      var need: seq<nat>, groups: map<nat, seq<nat>> := [], map[];
      for k := 0 to |sids|
        invariant forall b :: b in need <==> b in groups
        invariant ByHandle(groups, sids)
        invariant forall i :: 0 <= i < k && traces[sids[i]].None? ==>
                                signals[sids[i]].backendSid in groups && sids[i] in groups[signals[sids[i]].backendSid]
      {
        var s := sids[k];
        if traces[s].Some? {
          continue;
        }
        var b := signals[s].backendSid;
        need, groups := AddedNeed(need, groups, b), AddedGroups(groups, b, s);
      }
      var decoded := backend.LoadTraces(need);
      for k := 0 to |need|
        invariant Valid()
        invariant forall s :: 0 <= s < |signals| && s !in sids ==> traces[s] == old(traces[s])
        invariant forall s :: 0 <= s < |signals| && old(traces[s]).Some? ==> traces[s].Some?
        invariant forall i, s :: 0 <= i < k && 0 <= s < |signals| && s in groups[need[i]] ==> traces[s].Some?
      {
        assert need[k] in need;
        StoreAll(groups[need[k]], decoded[k]);
      }
      forall s | 0 <= s < |signals| && s in sids
        ensures traces[s].Some?
      {
        var i :| 0 <= i < |sids| && sids[i] == s;
        if old(traces[s]).None? {
          assert signals[s].backendSid in need;
        }
      }
    }

    /** Aliases of one handle share its decoded trace. */
    method StoreAll(targets: seq<nat>, trace: Trace<V>)
      requires Valid() && Known(targets)
      requires forall s :: s in targets ==> History(s) == trace
      modifies this`traces
      ensures Valid()
      ensures forall s :: 0 <= s < |signals| ==>
                            traces[s] == if s in targets then Some(trace) else old(traces[s])
    {
      for k := 0 to |targets|
        invariant |traces| == |signals|
        invariant forall s :: 0 <= s < |signals| ==>
                                traces[s] == if s in targets[..k] then Some(trace) else old(traces[s])
      {
        traces := traces[targets[k] := Some(trace)];
      }
    }

    /** Drops the cached traces of the signals that `keep` does not mark. */
    method Release(chunk: seq<nat>, keep: seq<bool>)
      requires Valid() && Known(chunk) && |keep| == |chunk|
      modifies this`traces
      ensures Valid()
      ensures forall s :: 0 <= s < |signals| ==>
                            traces[s] == if exists k :: 0 <= k < |chunk| && chunk[k] == s && !keep[k] then None
                                         else old(traces[s])
    {
      for k := 0 to |chunk|
        invariant Valid()
        invariant forall s :: 0 <= s < |signals| ==>
                                traces[s] == if exists j :: 0 <= j < k && chunk[j] == s && !keep[j] then None
                                             else old(traces[s])
      {
        if !keep[k] {
          traces := traces[chunk[k] := None];
        }
      }
    }

    // ----- one batch at a time -----

    /** Hands every selected signal's full history to a consumer, batch by
        batch, and leaves the cache exactly as it was.  The returned list is
        the sequence of calls the consumer sees. */
    method ForEachSignalBatched(sids: Option<seq<nat>>, batch: nat) returns (visits: seq<Visit<V>>)
      requires Valid() && Known(Selected(sids))
      modifies this`traces
      ensures Valid() && traces == old(traces)
      ensures VisitSids(visits) == Selected(sids) && Whole(visits)
    {
      var step := if batch == 0 then 1 else batch;
      var all := Selected(sids);
      visits := [];
      var i := 0;
      while i < |all|
        invariant 0 <= i <= |all|
        invariant Valid() && traces == old(traces)
        invariant VisitSids(visits) == all[..i]
        invariant Whole(visits)
        decreases |all| - i
      {
        var end := if i + step <= |all| then i + step else |all|;
        var more := VisitChunk(all[i..end]);
        PrefixGrows(all, i, end);
        VisitSidsConcat(visits, more);
        visits := visits + more;
        i := end;
      }
      assert all[..i] == all;
    }

    /** Every visit carries its signal's whole history. */
    ghost predicate Whole(visits: seq<Visit<V>>)
      requires backend.Valid()
    {
      forall k :: 0 <= k < |visits| ==> visits[k].sid < |signals| && visits[k].trace == History(visits[k].sid)
    }

    method VisitChunk(chunk: seq<nat>) returns (visits: seq<Visit<V>>)
      requires Valid() && Known(chunk)
      modifies this`traces
      ensures Valid() && traces == old(traces)
      ensures VisitSids(visits) == chunk && Whole(visits)
    {
      var preloaded := seq(|chunk|, k requires 0 <= k < |chunk| && Valid() && Known(chunk) reads this, backend =>
        traces[chunk[k]].Some?);
      EnsureLoaded(chunk);
      visits := [];
      for k := 0 to |chunk|
        invariant |visits| == k
        invariant forall j :: 0 <= j < k ==> visits[j] == Visit(chunk[j], History(chunk[j]))
      {
        var tr := traces[chunk[k]];
        assert chunk[k] in chunk;
        visits := visits + [Visit(chunk[k], tr.value)];
      }
      Release(chunk, preloaded);
      forall s | 0 <= s < |signals|
        ensures traces[s] == old(traces[s])
      {
        if s in chunk {
          var j :| 0 <= j < |chunk| && chunk[j] == s;
        }
      }
    }

    /** The same for a query confined to `[from, to]`: a seeking backend hands
        out windows, which never enter the cache. */
    method ForEachSignalWindowed(sids: Option<seq<nat>>, from: int, to: Option<int>, batch: nat)
      returns (visits: seq<Visit<V>>)
      requires Valid() && Known(Selected(sids))
      modifies this`traces
      ensures Valid() && traces == old(traces)
      ensures multiset(VisitSids(visits)) == multiset(Selected(sids))
      ensures Served(visits, from, to)
    {
      if !backend.seeks {
        visits := ForEachSignalBatched(sids, batch);
        return;
      }
      visits := VisitWindows(Selected(sids), from, to, if batch == 0 then 1 else batch);
    }

    /** Batch by batch, with windows in place of histories. */
    method VisitWindows(all: seq<nat>, from: int, to: Option<int>, step: nat) returns (visits: seq<Visit<V>>)
      requires Valid() && Known(all) && backend.seeks && step > 0
      ensures multiset(VisitSids(visits)) == multiset(all)
      ensures Served(visits, from, to)
    {
      visits := [];
      var i := 0;
      while i < |all|
        invariant 0 <= i <= |all|
        invariant multiset(VisitSids(visits)) == multiset(all[..i])
        invariant Served(visits, from, to)
        decreases |all| - i
      {
        var end := if i + step <= |all| then i + step else |all|;
        var more := VisitWindowChunk(all[i..end], from, to);
        PrefixGrows(all, i, end);
        VisitSidsConcat(visits, more);
        ServedConcat(visits, more, from, to);
        visits := visits + more;
        i := end;
      }
      assert all[..i] == all;
    }

    lemma ServedConcat(a: seq<Visit<V>>, b: seq<Visit<V>>, from: int, to: Option<int>)
      requires backend.Valid() && Served(a, from, to) && Served(b, from, to)
      ensures Served(a + b, from, to)
    {}

    /** Visits carry whole histories, or windows that keep to their entries. */
    predicate KeepsToEntries() {
      !backend.seeks || backend.exact
    }

    /** Every visit carries an admissible answer for its signal. */
    ghost predicate Served(visits: seq<Visit<V>>, from: int, to: Option<int>)
      requires backend.Valid()
    {
      forall k :: 0 <= k < |visits| ==>
                    && visits[k].sid < |signals|
                    && Serves(History(visits[k].sid), from, to, visits[k].trace)
                    && (KeepsToEntries() && AtMost(from, to) ==>
                          KeepsEntries(History(visits[k].sid), from, to, visits[k].trace))
    }

    method VisitWindowChunk(chunk: seq<nat>, from: int, to: Option<int>) returns (visits: seq<Visit<V>>)
      requires Valid() && Known(chunk) && backend.seeks
      ensures multiset(VisitSids(visits)) == multiset(chunk)
      ensures Served(visits, from, to)
    {
      var need, groups := GroupByHandle(chunk);
      var decoded := backend.LoadTracesWindowed(need, from, to);
      visits := [];
      for k := 0 to |need|
        invariant Served(visits, from, to)
        invariant VisitSids(visits) == Flat(need[..k], groups)
      {
        FlatStep(need, groups, k);
        var more := VisitGroup(need[k], groups[need[k]], decoded[k], from, to);
        VisitSidsConcat(visits, more);
        ServedConcat(visits, more, from, to);
        visits := visits + more;
      }
      assert need[..|need|] == need;
    }

    method VisitGroup(b: nat, group: seq<nat>, trace: Trace<V>, from: int, to: Option<int>)
      returns (visits: seq<Visit<V>>)
      requires Valid() && Known(group)
      requires forall j :: 0 <= j < |group| ==> signals[group[j]].backendSid == b
      requires backend.seeks && backend.Answers(b, from, to, trace)
      ensures VisitSids(visits) == group && Served(visits, from, to)
    {
      visits := seq(|group|, j requires 0 <= j < |group| => Visit(group[j], trace));
    }

    method GroupByHandle(chunk: seq<nat>) returns (need: seq<nat>, groups: map<nat, seq<nat>>)
      requires Valid() && Known(chunk)
      ensures Grouped(need, groups) && ByHandle(groups, chunk)
      ensures multiset(Flat(need, groups)) == multiset(chunk)
    {
      need, groups := [], map[];
      for k := 0 to |chunk|
        invariant Grouped(need, groups) && ByHandle(groups, chunk)
        invariant multiset(Flat(need, groups)) == multiset(chunk[..k])
      {
        var s := chunk[k];
        var b := signals[s].backendSid;
        AddedFlat(need, groups, b, s);
        AddedByHandle(groups, chunk, s);
        OneMore(chunk, k);
        need, groups := AddedNeed(need, groups, b), AddedGroups(groups, b, s);
      }
      assert chunk[..|chunk|] == chunk;
    }

    static lemma OneMore(chunk: seq<nat>, k: nat)
      requires k < |chunk|
      ensures multiset(chunk[..k + 1]) == multiset(chunk[..k]) + multiset{chunk[k]}
    {
      assert chunk[..k + 1] == chunk[..k] + [chunk[k]];
    }

    lemma AddedByHandle(groups: map<nat, seq<nat>>, sids: seq<nat>, s: nat)
      requires ByHandle(groups, sids) && s in sids && s < |signals|
      ensures ByHandle(AddedGroups(groups, signals[s].backendSid, s), sids)
    {}

    // ----- replay -----

    function Decl(): (r: seq<nat>)
      ensures |r| == |signals| && forall s :: 0 <= s < |r| ==> r[s] == signals[s].declOrder
    {
      seq(|signals|, s requires 0 <= s < |signals| => signals[s].declOrder)
    }

    /** The cached traces of the given signals; the others are skipped. */
    ghost function Sources(sids: seq<nat>): (m: map<nat, Trace<V>>)
      requires Valid() && Known(sids)
      reads this, backend
      ensures Inputs(m, Decl())
    {
      map s | s in sids && traces[s].Some? :: History(s)
    }

    /** Replays the cached changes of the given signals over `[t0, t1]`: a
        k-way merge driven by a heap of cursors.  The returned list is the
        sequence of calls the consumer sees. */
    method ForEachEvent(t0: int, t1: Option<int>, sids: Option<seq<nat>>) returns (out: seq<Emit<V>>)
      requires Valid() && Known(Selected(sids)) && Distinct(Selected(sids))
      ensures IsReplay(Sources(Selected(sids)), Decl(), t0, t1, out)
    {
      var heap := SeedHeap(Selected(sids));
      out := Drain(heap, traces, Decl(), Sources(Selected(sids)), t0, t1);
    }

    method SeedHeap(sel: seq<nat>) returns (heap: BinaryHeap<Cursor>)
      requires Valid() && Known(sel) && Distinct(sel)
      ensures heap.Valid() && fresh(heap)
      ensures var sources := Sources(sel);
              multiset(heap.data) == multiset(Cursors(sources, Decl(), Start(sources), sources.Keys))
    {
      ghost var sources := Sources(sel);
      heap := new BinaryHeap<Cursor>();
      ghost var S: set<nat> := {};
      assert Cursors(sources, Decl(), Start(sources), S) == {};
      for k := 0 to |sel|
        invariant heap.Valid() && fresh(heap)
        invariant forall s :: s in S <==> s in sel[..k]
        invariant multiset(heap.data) == multiset(Cursors(sources, Decl(), Start(sources), S))
      {
        var s := sel[k];
        assert s !in S;
        CursorsSeed(sources, Decl(), Start(sources), S, s);
        FirstOffer(sel, s);
        SeedOne(heap, s);
        S := S + {s};
      }
      AllSeeded(sources, Decl(), Start(sources), S);
    }

    lemma FirstOffer(sel: seq<nat>, s: nat)
      requires Valid() && Known(sel) && s in sel && s < |signals|
      ensures var sources := Sources(sel);
              && (Offers(sources, Start(sources), s) <==> traces[s].Some? && traces[s].value != [])
              && (Offers(sources, Start(sources), s) ==>
                    CursorItem(sources, Decl(), s, 0) == CursorAt(traces, Decl(), s, 0))
    {}

    method SeedOne(heap: BinaryHeap<Cursor>, s: nat)
      requires Valid() && s < |signals| && heap.Valid()
      modifies heap
      ensures heap.Valid()
      ensures multiset(heap.data) ==
              old(multiset(heap.data))
              + if traces[s].Some? && traces[s].value != [] then multiset{CursorAt(traces, Decl(), s, 0)}
                else multiset{}
    {
      if traces[s].Some? && traces[s].value != [] {
        heap.Push(CursorAt(traces, Decl(), s, 0));
      }
    }

    // ----- point queries -----

    /** The values in effect at `t`, by definition: the last change at or
        before `t` of every given signal that has one. */
    ghost function SnapshotOf(sids: set<nat>, t: int): map<nat, V>
      requires backend.Valid()
      requires forall s :: s in sids ==> s < |signals|
    {
      map s | s in sids && ValueAt(History(s), t).Some? :: ValueAt(History(s), t).value
    }

    ghost function LoadedOf(sids: seq<nat>): set<nat>
      requires Valid() && Known(sids)
      reads this, backend
    {
      set s | s in sids && traces[s].Some?
    }

    /** One bisection per cached signal. */
    method Snapshot(t: int, sids: Option<seq<nat>>) returns (state: map<nat, V>)
      requires Valid() && Known(Selected(sids))
      ensures state == SnapshotOf(LoadedOf(Selected(sids)), t)
    {
      var all := Selected(sids);
      state := map[];
      ghost var seen: set<nat> := {};
      for k := 0 to |all|
        invariant forall s :: s in seen <==> s in all[..k] && s < |signals| && traces[s].Some?
        invariant state == SnapshotOf(seen, t)
      {
        var s := all[k];
        if traces[s].Some? {
          AnswerStep(seen, s, traces[s].value, t);
          state := Answer(state, s, traces[s].value, t);
          seen := seen + {s};
        }
      }
      assert all[..|all|] == all;
      AllSeen(all, seen);
    }

    /** Records what `tr` says about signal `s` at `t`, if anything. */
    static function Answer(state: map<nat, V>, s: nat, tr: Trace<V>, t: int): map<nat, V>
      requires Ordered(tr)
    {
      match LastAtOrBefore(tr, t)
      case None => state
      case Some(p) => state[s := tr[p].value]
    }

    lemma AnswerStep(seen: set<nat>, s: nat, tr: Trace<V>, t: int)
      requires backend.Valid() && s < |signals| && Ordered(tr)
      requires forall r :: r in seen ==> r < |signals|
      requires ValueAt(tr, t) == ValueAt(History(s), t)
      ensures Answer(SnapshotOf(seen, t), s, tr, t) == SnapshotOf(seen + {s}, t)
    {
      LastAtOrBeforeIsValueAt(tr, t);
      OneMoreShown(seen, s, t);
    }

    lemma OneMoreShown(seen: set<nat>, s: nat, t: int)
      requires backend.Valid() && s < |signals| && forall r :: r in seen ==> r < |signals|
      ensures SnapshotOf(seen + {s}, t) ==
              match ValueAt(History(s), t)
              case None => SnapshotOf(seen, t)
              case Some(v) => SnapshotOf(seen, t)[s := v]
    {}

    lemma AllSeen(sids: seq<nat>, seen: set<nat>)
      requires Valid() && Known(sids)
      requires forall s :: s in seen <==> s in sids && s < |signals| && traces[s].Some?
      ensures seen == LoadedOf(sids)
    {}

    method SnapshotPair(ta: int, tb: int, sids: Option<seq<nat>>) returns (a: map<nat, V>, b: map<nat, V>)
      requires Valid() && Known(Selected(sids))
      ensures a == SnapshotOf(LoadedOf(Selected(sids)), ta)
      ensures b == SnapshotOf(LoadedOf(Selected(sids)), tb)
    {
      var all := Selected(sids);
      a, b := map[], map[];
      ghost var seen: set<nat> := {};
      for k := 0 to |all|
        invariant forall s :: s in seen <==> s in all[..k] && s < |signals| && traces[s].Some?
        invariant a == SnapshotOf(seen, ta) && b == SnapshotOf(seen, tb)
      {
        var s := all[k];
        if traces[s].Some? {
          AnswerStep(seen, s, traces[s].value, ta);
          AnswerStep(seen, s, traces[s].value, tb);
          a, b := Answer(a, s, traces[s].value, ta), Answer(b, s, traces[s].value, tb);
          seen := seen + {s};
        }
      }
      assert all[..|all|] == all;
      AllSeen(all, seen);
    }

    /** The consumer of a point query: answers from the windows it is handed
        what the full histories say, at any instant inside the window. */
    method AnswerAll(visits: seq<Visit<V>>, from: int, to: Option<int>, t: int) returns (state: map<nat, V>)
      requires Valid() && Served(visits, from, to)
      requires from <= t && AtMost(t, to)
      ensures state == SnapshotOf(Members(VisitSids(visits)), t)
    {
      ghost var sids := VisitSids(visits);
      state := map[];
      for k := 0 to |visits|
        invariant Known(sids[..k])
        invariant state == SnapshotOf(Members(sids[..k]), t)
      {
        VisitStep(sids, k, visits[k].trace, from, to, t);
        state := Answer(state, visits[k].sid, visits[k].trace, t);
      }
      assert sids[..|sids|] == sids;
    }

    lemma VisitStep(sids: seq<nat>, k: nat, tr: Trace<V>, from: int, to: Option<int>, t: int)
      requires Valid() && k < |sids| && sids[k] < |signals| && Known(sids[..k])
      requires Serves(History(sids[k]), from, to, tr) && from <= t && AtMost(t, to)
      ensures Ordered(tr) && Known(sids[..k + 1])
      ensures Answer(SnapshotOf(Members(sids[..k]), t), sids[k], tr, t) == SnapshotOf(Members(sids[..k + 1]), t)
    {
      WindowValue(History(sids[k]), from, to, tr, t);
      AnswerStep(Members(sids[..k]), sids[k], tr, t);
      assert Members(sids[..k + 1]) == Members(sids[..k]) + {sids[k]};
    }

    lemma SameSignals(a: seq<nat>, b: seq<nat>)
      requires multiset(a) == multiset(b)
      ensures Members(a) == Members(b)
    {
      assert forall s :: s in a <==> s in multiset(a);
      assert forall s :: s in b <==> s in multiset(b);
    }

    /** Streaming and eager snapshots agree, and streaming leaves no trace in
        the cache. */
    method SnapshotStreaming(t: int, sids: Option<seq<nat>>, batch: nat) returns (state: map<nat, V>)
      requires Valid() && Known(Selected(sids))
      modifies this`traces
      ensures Valid() && traces == old(traces)
      ensures state == SnapshotOf(Members(Selected(sids)), t)
    {
      var visits := ForEachSignalWindowed(sids, t, Some(t), batch);
      SameSignals(VisitSids(visits), Selected(sids));
      state := AnswerAll(visits, t, Some(t), t);
    }

    /** Two point windows on a seeking backend, one spanning window otherwise. */
    method SnapshotPairStreaming(ta: int, tb: int, sids: Option<seq<nat>>, batch: nat)
      returns (a: map<nat, V>, b: map<nat, V>)
      requires Valid() && Known(Selected(sids)) && ta <= tb
      modifies this`traces
      ensures Valid() && traces == old(traces)
      ensures a == SnapshotOf(Members(Selected(sids)), ta)
      ensures b == SnapshotOf(Members(Selected(sids)), tb)
    {
      if backend.seeks && ta != tb {
        a := SnapshotStreaming(ta, sids, batch);
        b := SnapshotStreaming(tb, sids, batch);
        return;
      }
      var visits := ForEachSignalWindowed(sids, ta, Some(tb), batch);
      SameSignals(VisitSids(visits), Selected(sids));
      a := AnswerAll(visits, ta, Some(tb), ta);
      b := AnswerAll(visits, ta, Some(tb), tb);
    }

    // ----- the earliest `limit` events -----

    /** Collects the earliest `limit` events of `[t0, t1]` (all of them for
        `limit` 0).  `visits` is the sequence of calls the collection saw. */
    method CollectEventsBounded(t0: int, t1: Option<int>, sids: Option<seq<nat>>, limit: nat, batch: nat)
      returns (events: seq<DumpEvent<V>>, total: nat, truncated: bool, visits: seq<Visit<V>>)
      requires Valid() && Known(Selected(sids))
      modifies this`traces
      ensures Valid() && traces == old(traces)
      ensures Served(visits, t0, t1) && multiset(VisitSids(visits)) == multiset(Selected(sids))
      ensures AllOrdered(visits, Decl())
      ensures var passed := Passing(visits, Decl(), t0, t1);
              && total == |passed|
              && (limit == 0 ==> events == SortByKey(passed))
              && (limit != 0 ==> Outcome(passed, limit, events))
      ensures truncated <==> limit != 0 && total > limit
    {
      visits := ForEachSignalWindowed(sids, t0, t1, batch);
      ServedOrdered(visits, t0, t1);
      events, total := Collect(visits, Decl(), t0, t1, limit);
      truncated := limit != 0 && total > limit;
    }

    lemma ServedOrdered(visits: seq<Visit<V>>, from: int, to: Option<int>)
      requires backend.Valid() && Served(visits, from, to)
      ensures AllOrdered(visits, Decl())
    {
      forall k | 0 <= k < |visits| ensures Ordered(visits[k].trace) {
        WindowOrdered(History(visits[k].sid), from, to, visits[k].trace);
      }
    }
  }
}
