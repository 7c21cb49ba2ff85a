/** The `dump` command's row collection: two routes to the same rows. */
module Dump {
  import opened Wrappers
  import opened Traces
  import opened BinaryHeaps
  import opened BoundedEvents
  import opened BoundedOutcomes
  import opened Collected
  import opened Replay
  import opened Signals
  import opened Visits
  import opened Waves

  /** Selections larger than this take the memory-bounded route. */
  const STREAMING_SIGNAL_THRESHOLD := 8192

  const STREAMING_BATCH := 8192

  /** A row before its value is formatted for display. */
  datatype DumpRow<+V> = DumpRow(tick: int, path: string, value: V)

  function RowOf<V>(signals: seq<SignalInfo>, e: DumpEvent<V>): DumpRow<V>
    requires e.payload.sid < |signals|
  {
    DumpRow(e.k1, signals[e.payload.sid].path, e.payload.value)
  }

  ghost predicate SidsKnown<V>(signals: seq<SignalInfo>, events: seq<DumpEvent<V>>) {
    forall i :: 0 <= i < |events| ==> events[i].payload.sid < |signals|
  }

  /** The row names the signal and gives its change. */
  ghost predicate RowShows<V>(signals: seq<SignalInfo>, r: DumpRow<V>, tick: int, sid: nat, value: V) {
    sid < |signals| && r.tick == tick && r.path == signals[sid].path && r.value == value
  }

  ghost predicate EventRows<V>(signals: seq<SignalInfo>, rows: seq<DumpRow<V>>, events: seq<DumpEvent<V>>) {
    && |rows| == |events|
    && forall i :: 0 <= i < |rows| ==>
                     RowShows(signals, rows[i], events[i].k1, events[i].payload.sid, events[i].payload.value)
  }

  /** The first `limit` entries of `out` row by row, and whether any were cut. */
  ghost predicate RowsShow<V>(signals: seq<SignalInfo>, rows: seq<DumpRow<V>>, out: seq<Emit<V>>, limit: nat,
                              truncated: bool)
  {
    && |rows| == Clip(|out|, limit) && (truncated <==> limit != 0 && |out| > limit)
    && forall i :: 0 <= i < |rows| ==> RowShows(signals, rows[i], out[i].tick, out[i].sid, out[i].value)
  }

  /** The same up to the values. */
  ghost predicate RowsNamed<V>(signals: seq<SignalInfo>, rows: seq<DumpRow<V>>, out: seq<Emit<V>>, limit: nat,
                               truncated: bool)
  {
    && |rows| == Clip(|out|, limit) && (truncated <==> limit != 0 && |out| > limit)
    && forall i :: 0 <= i < |rows| ==> RowShows(signals, rows[i], out[i].tick, out[i].sid, rows[i].value)
  }

  /** The full histories of a selection. */
  ghost function Histories<V(!new)>(w: Wave<V>, sids: seq<nat>): (m: map<nat, Trace<V>>)
    requires w.Valid() && w.Known(sids)
    reads w, w.backend
    ensures Inputs(m, w.Decl())
  {
    map s | s in sids :: w.History(s)
  }

  /** What `dump` must produce: the first rows of the replay of the selected
      histories, and whether any were cut. */
  ghost predicate IsDump<V(!new)>(w: Wave<V>, sids: seq<nat>, t0: int, t1: Option<int>, limit: nat,
                                  rows: seq<DumpRow<V>>, truncated: bool)
    requires w.Valid() && w.Known(sids)
    reads w, w.backend
  {
    forall out :: IsReplay(Histories(w, sids), w.Decl(), t0, t1, out) ==>
                    RowsShow(w.signals, rows, out, limit, truncated)
  }

  /** The same up to the values of rows at one tick of one signal: number of
      rows, truncation, and every row's tick and signal. */
  ghost predicate IsDumpUpToTies<V(!new)>(w: Wave<V>, sids: seq<nat>, t0: int, t1: Option<int>, limit: nat,
                                          rows: seq<DumpRow<V>>, truncated: bool)
    requires w.Valid() && w.Known(sids)
    reads w, w.backend
  {
    forall out :: IsReplay(Histories(w, sids), w.Decl(), t0, t1, out) ==>
                    RowsNamed(w.signals, rows, out, limit, truncated)
  }

  /** No tick and signal that the rows reach has entries with different values. */
  ghost predicate NoTies<V(!new)>(w: Wave<V>, sids: seq<nat>, t0: int, t1: Option<int>, limit: nat)
    requires w.Valid() && w.Known(sids)
    reads w, w.backend
  {
    forall out :: IsReplay(Histories(w, sids), w.Decl(), t0, t1, out) ==> OneValued(out, limit)
  }

  /** Collects the rows, by the eager merge for small selections and by the
      bounded collector for large ones.  As long as the windows handed out keep
      to the histories' entries, both routes agree on all but the values of
      rows at one tick of one signal; and on those, too, without a limit or
      without ties.  `visits` is what the bounded collector saw. */
  method DumpCollect<V(==,!new)>(w: Wave<V>, t0: int, t1: Option<int>, sids: Option<seq<nat>>, limit: nat)
    returns (rows: seq<DumpRow<V>>, truncated: bool, ghost visits: seq<Visit<V>>)
    requires w.Valid() && w.Known(w.Selected(sids)) && Distinct(w.Selected(sids))
    requires AtMost(t0, t1)
    modifies w`traces
    ensures w.Valid()
    ensures |w.Selected(sids)| <= 8192 ==>
              IsDump(w, w.Selected(sids), t0, t1, limit, rows, truncated)
    ensures |w.Selected(sids)| > 8192 ==> w.Served(visits, t0, t1)
    ensures var agree := w.KeepsToEntries() || Showing(Histories(w, w.Selected(sids)), visits, t0, t1);
            && (agree ==> IsDumpUpToTies(w, w.Selected(sids), t0, t1, limit, rows, truncated))
            && (agree && (limit == 0 || NoTies(w, w.Selected(sids), t0, t1, limit)) ==>
                  IsDump(w, w.Selected(sids), t0, t1, limit, rows, truncated))
  {
    visits := [];
    if |w.Selected(sids)| > STREAMING_SIGNAL_THRESHOLD {
      ghost var events;
      rows, truncated, visits, events := DumpBounded(w, t0, t1, sids, limit, STREAMING_BATCH);
    } else {
      rows, truncated := DumpEager(w, t0, t1, sids, limit);
      DumpTies(w, w.Selected(sids), t0, t1, limit, rows, truncated);
    }
  }

  lemma DumpTies<V(!new)>(w: Wave<V>, sids: seq<nat>, t0: int, t1: Option<int>, limit: nat,
                          rows: seq<DumpRow<V>>, truncated: bool)
    requires w.Valid() && w.Known(sids) && IsDump(w, sids, t0, t1, limit, rows, truncated)
    ensures IsDumpUpToTies(w, sids, t0, t1, limit, rows, truncated)
  {}

  method DumpEager<V(==,!new)>(w: Wave<V>, t0: int, t1: Option<int>, sids: Option<seq<nat>>, limit: nat)
    returns (rows: seq<DumpRow<V>>, truncated: bool)
    requires w.Valid() && w.Known(w.Selected(sids)) && Distinct(w.Selected(sids))
    modifies w`traces
    ensures w.Valid()
    ensures IsDump(w, w.Selected(sids), t0, t1, limit, rows, truncated)
  {
    w.EnsureLoaded(w.Selected(sids));
    var calls := w.ForEachEvent(t0, t1, sids);
    AllLoaded(w, w.Selected(sids));
    forall i | 0 <= i < |calls| ensures calls[i].sid < |w.signals| {
      assert calls[i] in calls;
    }
    rows, truncated := ClipCalls(w.signals, calls, limit);
    forall out | IsReplay(Histories(w, w.Selected(sids)), w.Decl(), t0, t1, out)
      ensures out == calls
    {
      ReplayUnique(Histories(w, w.Selected(sids)), w.Decl(), t0, t1, out, calls);
    }
  }

  lemma AllLoaded<V(!new)>(w: Wave<V>, sids: seq<nat>)
    requires w.Valid() && w.Known(sids)
    requires forall s :: s in sids && s < |w.signals| ==> w.traces[s].Some?
    ensures w.Sources(sids) == Histories(w, sids)
  {}

  /** The replay consumer: takes rows until the limit, then only remembers
      that there was more. */
  method ClipCalls<V>(signals: seq<SignalInfo>, calls: seq<Emit<V>>, limit: nat)
    returns (rows: seq<DumpRow<V>>, truncated: bool)
    requires forall i :: 0 <= i < |calls| ==> calls[i].sid < |signals|
    ensures RowsShow(signals, rows, calls, limit, truncated)
  {
    rows, truncated := [], false;
    for k := 0 to |calls|
      invariant RowsShow(signals, rows, calls[..k], limit, truncated)
    {
      if truncated {
        continue;
      }
      if limit != 0 && |rows| >= limit {
        truncated := true;
        continue;
      }
      var e := calls[k];
      rows := rows + [RowOf(signals, Event(e.tick, e.decl, e.sid, e.value))];
    }
    assert calls[..|calls|] == calls;
  }

  method EventsToRows<V>(signals: seq<SignalInfo>, events: seq<DumpEvent<V>>) returns (rows: seq<DumpRow<V>>)
    requires SidsKnown(signals, events)
    ensures EventRows(signals, rows, events)
  {
    rows := [];
    for i := 0 to |events|
      invariant EventRows(signals, rows, events[..i])
    {
      rows := rows + [RowOf(signals, events[i])];
    }
    assert events[..|events|] == events;
  }

  /** The bounded route.  Its rows are those of some outcome `events` of the
      collection; of which one, the heap decides. */
  method DumpBounded<V(==,!new)>(w: Wave<V>, t0: int, t1: Option<int>, sids: Option<seq<nat>>, limit: nat, batch: nat)
    returns (rows: seq<DumpRow<V>>, truncated: bool, ghost visits: seq<Visit<V>>, ghost events: seq<DumpEvent<V>>)
    requires w.Valid() && w.Known(w.Selected(sids)) && Distinct(w.Selected(sids))
    requires AtMost(t0, t1)
    modifies w`traces
    ensures w.Valid() && w.traces == old(w.traces)
    ensures w.Served(visits, t0, t1) && multiset(VisitSids(visits)) == multiset(w.Selected(sids))
    ensures Streamed(w, visits, t0, t1, limit, events, rows, truncated)
    ensures w.KeepsToEntries() ==> Showing(Histories(w, w.Selected(sids)), visits, t0, t1)
    ensures Showing(Histories(w, w.Selected(sids)), visits, t0, t1) ==>
              && IsDumpUpToTies(w, w.Selected(sids), t0, t1, limit, rows, truncated)
              && (limit == 0 || NoTies(w, w.Selected(sids), t0, t1, limit)
                  || Settled(Passing(visits, w.Decl(), t0, t1), limit) ==>
                    IsDump(w, w.Selected(sids), t0, t1, limit, rows, truncated))
  {
    var kept, total;
    kept, total, truncated, visits := w.CollectEventsBounded(t0, t1, sids, limit, batch);
    events := kept;
    KeptKnown(w, visits, t0, t1, limit, kept);
    rows := EventsToRows(w.signals, kept);
    ServedShowing(w, w.Selected(sids), t0, t1, visits);
    if Showing(Histories(w, w.Selected(sids)), visits, t0, t1) {
      StreamedTies(w, w.Selected(sids), t0, t1, limit, visits, events, rows, truncated);
      StreamedDump(w, w.Selected(sids), t0, t1, limit, visits, events, rows, truncated);
    }
  }

  /** What the bounded route makes of the events that pass by. */
  ghost predicate Streamed<V(!new)>(w: Wave<V>, visits: seq<Visit<V>>, t0: int, t1: Option<int>, limit: nat,
                                    events: seq<DumpEvent<V>>, rows: seq<DumpRow<V>>, truncated: bool)
  {
    && AllOrdered(visits, w.Decl())
    && EventRows(w.signals, rows, events)
    && (limit == 0 ==> events == SortByKey(Passing(visits, w.Decl(), t0, t1)))
    && (limit != 0 ==> Outcome(Passing(visits, w.Decl(), t0, t1), limit, events))
    && (truncated <==> limit != 0 && |Passing(visits, w.Decl(), t0, t1)| > limit)
  }

  lemma {:induction false} PassingKnown<V>(visits: seq<Visit<V>>, decl: seq<nat>, t0: int, t1: Option<int>, count: nat)
    requires AllOrdered(visits, decl) && |decl| == count
    ensures forall e :: e in Passing(visits, decl, t0, t1) ==> e.payload.sid < count
  {
    if visits != [] {
      PassingKnown(visits[..|visits| - 1], decl, t0, t1, count);
    }
  }

  /** The events kept are of signals of the wave. */
  lemma KeptKnown<V(!new)>(w: Wave<V>, visits: seq<Visit<V>>, t0: int, t1: Option<int>, limit: nat,
                           events: seq<DumpEvent<V>>)
    requires AllOrdered(visits, w.Decl())
    requires limit == 0 ==> events == SortByKey(Passing(visits, w.Decl(), t0, t1))
    requires limit != 0 ==> Outcome(Passing(visits, w.Decl(), t0, t1), limit, events)
    ensures SidsKnown(w.signals, events)
  {
    var passed := Passing(visits, w.Decl(), t0, t1);
    PassingKnown(visits, w.Decl(), t0, t1, |w.signals|);
    forall i | 0 <= i < |events| ensures events[i].payload.sid < |w.signals| {
      if limit != 0 {
        KeptIn(passed, limit, events, i);
      }
      assert events[i] in multiset(SortByKey(passed));
      assert events[i] in passed;
    }
  }

  lemma ServedShowing<V(!new)>(w: Wave<V>, sids: seq<nat>, t0: int, t1: Option<int>, visits: seq<Visit<V>>)
    requires w.Valid() && w.Known(sids) && AtMost(t0, t1)
    requires w.Served(visits, t0, t1) && multiset(VisitSids(visits)) == multiset(sids)
    ensures w.KeepsToEntries() ==> Showing(Histories(w, sids), visits, t0, t1)
  {
    SameMembers(VisitSids(visits), sids);
    forall k | 0 <= k < |visits| ensures visits[k].sid in sids {
      assert VisitSids(visits)[k] in VisitSids(visits);
    }
  }

  /** The visits cover the selection, each signal once. */
  lemma SelectionVisited<V(!new)>(w: Wave<V>, sids: seq<nat>, visits: seq<Visit<V>>)
    requires w.Valid() && w.Known(sids) && Distinct(sids)
    requires multiset(VisitSids(visits)) == multiset(sids)
    ensures Visiting(Histories(w, sids), VisitSids(visits))
  {
    SameMembers(VisitSids(visits), sids);
    BagKeepsDistinct(VisitSids(visits), sids);
  }

  /** Whatever the heap does with ties, what passed by is the replay, and the
      outcome agrees with its beginning row by row in tick and signal. */
  lemma CollectorIsReplay<V(!new)>(w: Wave<V>, sids: seq<nat>, t0: int, t1: Option<int>, limit: nat,
                                   visits: seq<Visit<V>>, out: seq<Emit<V>>)
    requires w.Valid() && w.Known(sids) && Distinct(sids) && AtMost(t0, t1)
    requires AllOrdered(visits, w.Decl()) && multiset(VisitSids(visits)) == multiset(sids)
    requires Showing(Histories(w, sids), visits, t0, t1)
    requires IsReplay(Histories(w, sids), w.Decl(), t0, t1, out)
    ensures var passed := Passing(visits, w.Decl(), t0, t1);
            && |passed| == |out| && SortByKey(passed) == Stripped(out)
            && Expected(passed, limit) == Stripped(out)[..Clip(|out|, limit)]
  {
    SelectionVisited(w, sids, visits);
    PassingSorted(Histories(w, sids), w.Decl(), visits, t0, t1, out);
  }

  /** Every outcome is the replay's beginning if and only if the arrivals the
      collector ever admits at a tick and signal that the rows reach do not
      differ. */
  lemma StreamedAlways<V(!new)>(w: Wave<V>, sids: seq<nat>, t0: int, t1: Option<int>, limit: nat,
                                visits: seq<Visit<V>>, out: seq<Emit<V>>)
    requires w.Valid() && w.Known(sids) && Distinct(sids) && AtMost(t0, t1) && limit > 0
    requires AllOrdered(visits, w.Decl()) && multiset(VisitSids(visits)) == multiset(sids)
    requires Showing(Histories(w, sids), visits, t0, t1)
    requires IsReplay(Histories(w, sids), w.Decl(), t0, t1, out)
    ensures var passed := Passing(visits, w.Decl(), t0, t1);
            (forall events :: Outcome(passed, limit, events) ==> events == Stripped(out)[..Clip(|out|, limit)])
            <==> Settled(passed, limit)
    ensures OneValued(out, limit) ==> Settled(Passing(visits, w.Decl(), t0, t1), limit)
    ensures |out| <= limit ==> (OneValued(out, limit) <==> Settled(Passing(visits, w.Decl(), t0, t1), limit))
  {
    var passed := Passing(visits, w.Decl(), t0, t1);
    CollectorIsReplay(w, sids, t0, t1, limit, visits, out);
    OutcomesAgree(passed, limit);
    OneValuedSettles(passed, out, limit);
  }

  lemma OneValuedSettles<V(!new)>(passed: seq<DumpEvent<V>>, out: seq<Emit<V>>, limit: nat)
    requires SortByKey(passed) == Stripped(out) && |passed| == |out|
    ensures OneValued(out, limit) ==> Settled(passed, limit)
    ensures |out| <= limit ==> (OneValued(out, limit) <==> Settled(passed, limit))
  {
    OneValuedIs(passed, out, limit);
    if OneEventPerKey(passed, limit) {
      OneEventSettles(passed, limit);
    }
    if |out| <= limit {
      NothingCut(passed, limit);
    }
  }

  lemma StreamedTies<V(!new)>(w: Wave<V>, sids: seq<nat>, t0: int, t1: Option<int>, limit: nat, visits: seq<Visit<V>>,
                              events: seq<DumpEvent<V>>, rows: seq<DumpRow<V>>, truncated: bool)
    requires w.Valid() && w.Known(sids) && Distinct(sids) && AtMost(t0, t1)
    requires multiset(VisitSids(visits)) == multiset(sids)
    requires Streamed(w, visits, t0, t1, limit, events, rows, truncated)
    requires Showing(Histories(w, sids), visits, t0, t1)
    ensures IsDumpUpToTies(w, sids, t0, t1, limit, rows, truncated)
  {
    forall out | IsReplay(Histories(w, sids), w.Decl(), t0, t1, out)
      ensures RowsNamed(w.signals, rows, out, limit, truncated)
    {
      CollectorIsReplay(w, sids, t0, t1, limit, visits, out);
      RowsAgree(w, sids, t0, t1, limit, Passing(visits, w.Decl(), t0, t1), events, out);
    }
  }

  lemma RowsAgree<V(!new)>(w: Wave<V>, sids: seq<nat>, t0: int, t1: Option<int>, limit: nat,
                           passed: seq<DumpEvent<V>>, events: seq<DumpEvent<V>>, out: seq<Emit<V>>)
    requires w.Valid() && w.Known(sids)
    requires IsReplay(Histories(w, sids), w.Decl(), t0, t1, out)
    requires SortByKey(passed) == Stripped(out) && Expected(passed, limit) == Stripped(out)[..Clip(|out|, limit)]
    requires limit == 0 ==> events == SortByKey(passed)
    requires limit != 0 ==> Outcome(passed, limit, events)
    ensures |events| == Clip(|out|, limit)
    ensures forall i :: 0 <= i < |events| ==> events[i].k1 == out[i].tick && events[i].payload.sid == out[i].sid
  {
    if limit != 0 {
      SameKeys(passed, limit, events);
      forall i | 0 <= i < |events|
        ensures events[i].k1 == out[i].tick && events[i].payload.sid == out[i].sid
      {
        KeptIn(passed, limit, events, i);
        KeyHasSignal(Histories(w, sids), w.Decl(), t0, t1, out, events[i], Stripped(out)[i]);
      }
    }
  }

  lemma KeptIn<V(!new)>(passed: seq<DumpEvent<V>>, limit: nat, events: seq<DumpEvent<V>>, i: nat)
    requires limit > 0 && Outcome(passed, limit, events) && i < |events|
    ensures events[i] in SortByKey(passed)
  {
    KeptSmallest(passed, limit, multiset(events));
    assert events[i] in multiset(events);
    assert events[i] in multiset(SortByKey(passed));
  }

  /** Declaration orders differ, so a key belongs to one signal. */
  lemma KeyHasSignal<V(!new)>(sources: map<nat, Trace<V>>, decl: seq<nat>, t0: int, t1: Option<int>, out: seq<Emit<V>>,
                              x: DumpEvent<V>, y: DumpEvent<V>)
    requires Inputs(sources, decl) && IsReplay(sources, decl, t0, t1, out)
    requires x in Stripped(out) && y in Stripped(out) && SameKey(x, y)
    ensures x.payload.sid == y.payload.sid
  {
    var i :| 0 <= i < |out| && Stripped(out)[i] == x;
    var j :| 0 <= j < |out| && Stripped(out)[j] == y;
    assert out[i] in out && out[j] in out;
  }

  lemma StreamedDump<V(!new)>(w: Wave<V>, sids: seq<nat>, t0: int, t1: Option<int>, limit: nat, visits: seq<Visit<V>>,
                              events: seq<DumpEvent<V>>, rows: seq<DumpRow<V>>, truncated: bool)
    requires w.Valid() && w.Known(sids) && Distinct(sids) && AtMost(t0, t1)
    requires multiset(VisitSids(visits)) == multiset(sids)
    requires Streamed(w, visits, t0, t1, limit, events, rows, truncated)
    requires Showing(Histories(w, sids), visits, t0, t1)
    ensures limit == 0 || NoTies(w, sids, t0, t1, limit) || Settled(Passing(visits, w.Decl(), t0, t1), limit) ==>
              IsDump(w, sids, t0, t1, limit, rows, truncated)
  {
    if limit == 0 || NoTies(w, sids, t0, t1, limit) || Settled(Passing(visits, w.Decl(), t0, t1), limit) {
      forall out | IsReplay(Histories(w, sids), w.Decl(), t0, t1, out)
        ensures RowsShow(w.signals, rows, out, limit, truncated)
      {
        CollectorIsReplay(w, sids, t0, t1, limit, visits, out);
        SettledRows(Passing(visits, w.Decl(), t0, t1), events, out, limit);
        FirstRows(w.signals, rows, events, out, limit, truncated);
      }
    }
  }

  lemma FirstRows<V>(signals: seq<SignalInfo>, rows: seq<DumpRow<V>>, events: seq<DumpEvent<V>>, out: seq<Emit<V>>,
                     limit: nat, truncated: bool)
    requires EventRows(signals, rows, events) && events == Stripped(out)[..Clip(|out|, limit)]
    requires truncated <==> limit != 0 && |out| > limit
    ensures RowsShow(signals, rows, out, limit, truncated)
  {}

  lemma SettledRows<V(!new)>(passed: seq<DumpEvent<V>>, events: seq<DumpEvent<V>>, out: seq<Emit<V>>, limit: nat)
    requires SortByKey(passed) == Stripped(out) && |passed| == |out|
    requires Expected(passed, limit) == Stripped(out)[..Clip(|out|, limit)]
    requires limit == 0 ==> events == SortByKey(passed)
    requires limit != 0 ==> Outcome(passed, limit, events)
    requires limit == 0 || OneValued(out, limit) || Settled(passed, limit)
    ensures events == Stripped(out)[..Clip(|out|, limit)]
  {
    OneValuedSettles(passed, out, limit);
    if limit != 0 {
      SettledOutcome(passed, limit, events);
    }
  }

  /** With at most one change per tick in every selected history there are no
      ties. */
  lemma StrictNoTies<V(!new)>(w: Wave<V>, sids: seq<nat>, t0: int, t1: Option<int>, limit: nat)
    requires w.Valid() && w.Known(sids)
    requires forall s :: s in sids ==> StrictlyOrdered(w.History(s))
    ensures NoTies(w, sids, t0, t1, limit)
  {
    forall out | IsReplay(Histories(w, sids), w.Decl(), t0, t1, out) ensures OneValued(out, limit) {
      StrictOneValued(Histories(w, sids), w.Decl(), t0, t1, out, limit);
    }
  }

  /** An example: one signal with the changes '1' and '0' at tick 5 and '1' at
      tick 6.  The replay has '1' before '0'; with a limit of 3 nothing is cut,
      and the bounded collector may end with '0' before '1'. */
  lemma TieDiffers(out: seq<Emit<char>>) returns (events: seq<DumpEvent<char>>)
    requires var sources := map[0 := [Change(5, '1'), Change(5, '0'), Change(6, '1')]];
             Inputs(sources, [0]) && IsReplay(sources, [0], 0, None, out)
    ensures |Stripped(out)| == 3
    ensures Stripped(out)[0] == Event(5, 0, 0, '1') && Stripped(out)[1] == Event(5, 0, 0, '0')
    ensures Outcome(Stripped(out), 3, events)
    ensures |events| == 3 && events[0] == Event(5, 0, 0, '0') && events[1] == Event(5, 0, 0, '1')
  {
    TieReplay(out);
    events := Swapped(Stripped(out), 0, 1);
    TieSwapped(Stripped(out), 3, 0, 1);
  }

  lemma TieReplay(out: seq<Emit<char>>)
    requires var sources := map[0 := [Change(5, '1'), Change(5, '0'), Change(6, '1')]];
             Inputs(sources, [0]) && IsReplay(sources, [0], 0, None, out)
    ensures var s := Stripped(out);
            && |s| == 3 && s[0] == Event(5, 0, 0, '1') && s[1] == Event(5, 0, 0, '0') && s[2] == Event(6, 0, 0, '1')
            && KeySorted(s)
  {
    var tr := [Change(5, '1'), Change(5, '0'), Change(6, '1')];
    var sources := map[0 := tr];
    var es := [EntryOf(sources, [0], 0, 0), EntryOf(sources, [0], 0, 1), EntryOf(sources, [0], 0, 2)];
    ThreeEntries(sources, tr, es);
    ReplayUnique(sources, [0], 0, None, out, es);
  }

  lemma ThreeEntries(sources: map<nat, Trace<char>>, tr: Trace<char>, es: seq<Emit<char>>)
    requires sources == map[0 := tr] && Inputs(sources, [0]) && |tr| == 3 && tr[0].tick >= 0
    requires |es| == 3 && forall i :: 0 <= i < 3 ==> es[i] == EntryOf(sources, [0], 0, i)
    ensures IsReplay(sources, [0], 0, None, es)
  {
    forall e | IsEntry(sources, [0], e) ensures e in es {
      assert es[e.pos] == e;
    }
  }
}
