/** The search results in terms of the recorded traces. */
module SearchTheorems {
  import opened Wrappers
  import opened Traces
  import opened Replay
  import opened SearchState
  import opened SearchStream
  import Intervals
  import IntervalTheorems
  import EventSearch

  /** The replay a search runs on: the selected traces from tick 0 to `t1`. */
  ghost predicate Runs(q: Query, sources: map<nat, Trace<string>>, decl: seq<nat>, out: seq<Emit<string>>) {
    Inputs(sources, decl) && IsReplay(sources, decl, 0, Some(q.t1), out)
  }

  // ----- spans -----

  /** Interval and segment search is exact: at every tick of the window, the
      condition holds on the values in effect exactly when a row covers the
      tick, and a covering row shows what is displayed at that tick. */
  lemma SpansAreExact(q: Query, sources: map<nat, Trace<string>>, decl: seq<nat>, out: seq<Emit<string>>, t: int)
    requires Runs(q, sources, decl, out) && Intervals.Wellformed(q) && InOrder(SamplesOf(out)) && q.t0 <= t < q.t1
    ensures var rows := Intervals.AllRows(q, SamplesOf(out));
            && (q.holds(TraceState(sources, t), {}) <==> IntervalTheorems.Covered(rows, t))
            && forall k :: 0 <= k < |rows| && rows[k].begin <= t < rows[k].end ==>
                             q.hasShow ==> rows[k].values == Some(q.shown(TraceState(sources, t)))
  {
    var stream := SamplesOf(out);
    StreamIsTraces(sources, decl, q.t1, out, t);
    IntervalTheorems.HoldsIffCovered(q, stream, t);
    var rows := Intervals.AllRows(q, stream);
    forall k | 0 <= k < |rows| && rows[k].begin <= t < rows[k].end
      ensures q.hasShow ==> rows[k].values == Some(q.shown(TraceState(sources, t)))
    {
      IntervalTheorems.RowShowsThroughout(q, stream, k, t);
    }
  }

  // ----- changes -----

  /** Whether a new value counts as a change, given the value before. */
  predicate Counts(isEvent: bool, before: Option<string>, t: int, value: string) {
    if t == 0 && before.None? then false
    else if isEvent then true
    else before.Some? && before.value != value
  }

  /** The signal recorded a counting change at `t`. */
  ghost predicate ChangesAt(isEvent: bool, tr: Trace<string>, t: int)
    requires Ordered(tr)
  {
    exists p :: 0 <= p < |tr| && tr[p].tick == t && Counts(isEvent, Recorded(tr, t - 1), t, tr[p].value)
  }

  lemma SameJudgement(q: Query, sources: map<nat, Trace<string>>, t: int, s: nat, value: string)
    requires forall r :: r in sources ==> Ordered(sources[r])
    requires s in sources
    ensures EventSearch.Transitions(q, TraceState(sources, t - 1), t, Sample(t, s, value)) <==>
            Counts(q.isEvent(s), Recorded(sources[s], t - 1), t, value)
  {}

  lemma ChangedWasRecorded(q: Query, sources: map<nat, Trace<string>>, decl: seq<nat>, out: seq<Emit<string>>,
                           t: int, i: nat)
    requires Runs(q, sources, decl, out) && InOrder(SamplesOf(out)) && 0 <= t <= q.t1
    requires i < |out| && out[i].tick == t
    requires EventSearch.Transitions(q, TraceState(sources, t - 1), t, SamplesOf(out)[i])
    ensures out[i].sid in sources && ChangesAt(q.isEvent(out[i].sid), sources[out[i].sid], t)
  {
    assert out[i] in out;
    var s, p := out[i].sid, out[i].pos;
    SameJudgement(q, sources, t, s, out[i].value);
    assert sources[s][p].tick == t;
  }

  lemma RecordedWasReplayed(q: Query, sources: map<nat, Trace<string>>, decl: seq<nat>, out: seq<Emit<string>>,
                            t: int, s: nat) returns (i: nat)
    requires Runs(q, sources, decl, out) && InOrder(SamplesOf(out)) && 0 <= t <= q.t1
    requires s in sources && ChangesAt(q.isEvent(s), sources[s], t)
    ensures i < |out| && SamplesOf(out)[i].tick == t && SamplesOf(out)[i].sid == s
    ensures EventSearch.Transitions(q, TraceState(sources, t - 1), t, SamplesOf(out)[i])
  {
    var p :| 0 <= p < |sources[s]| && sources[s][p].tick == t
             && Counts(q.isEvent(s), Recorded(sources[s], t - 1), t, sources[s][p].value);
    var e := EntryOf(sources, decl, s, p);
    assert IsEntry(sources, decl, e);
    i :| 0 <= i < |out| && out[i] == e;
    SameJudgement(q, sources, t, s, e.value);
  }

  /** The signals a search takes as changed at `t` are those whose traces
      record a counting change at `t`. */
  lemma ChangedIsRecorded(q: Query, sources: map<nat, Trace<string>>, decl: seq<nat>, out: seq<Emit<string>>,
                          t: int, s: nat)
    requires Runs(q, sources, decl, out) && InOrder(SamplesOf(out)) && 0 <= t <= q.t1
    ensures s in EventSearch.ChangedAt(q, SamplesOf(out), t) <==>
            s in sources && ChangesAt(q.isEvent(s), sources[s], t)
  {
    var stream := SamplesOf(out);
    StreamIsTraces(sources, decl, q.t1, out, t - 1);
    if s in EventSearch.ChangedAt(q, stream, t) {
      var i :| 0 <= i < |stream| && stream[i].tick == t
               && EventSearch.Transitions(q, StateAt(stream, t - 1), t, stream[i]) && stream[i].sid == s;
      ChangedWasRecorded(q, sources, decl, out, t, i);
    } else if s in sources && ChangesAt(q.isEvent(s), sources[s], t) {
      var i := RecordedWasReplayed(q, sources, decl, out, t, s);
    }
  }

  /** The signals with a counting change at `t`. */
  ghost function TraceChanges(q: Query, sources: map<nat, Trace<string>>, t: int): set<nat>
    requires forall s :: s in sources ==> Ordered(sources[s])
  {
    set s | s in sources && ChangesAt(q.isEvent(s), sources[s], t)
  }

  /** Event search is exact: a tick of the window has an event exactly when
      the search holds on the values right after the tick, given the signals
      that changed at it; the event shows those values. */
  lemma EventsAreExact(q: Query, sources: map<nat, Trace<string>>, decl: seq<nat>, out: seq<Emit<string>>, t: int)
    requires Runs(q, sources, decl, out) && InOrder(SamplesOf(out)) && q.t0 <= t <= q.t1 && 0 <= t
    ensures var evs := EventSearch.AllEvents(q, SamplesOf(out));
            && (q.holds(TraceState(sources, t), TraceChanges(q, sources, t)) <==>
                exists i :: 0 <= i < |evs| && evs[i].tick == t)
            && forall i :: 0 <= i < |evs| && evs[i].tick == t ==> evs[i].values == q.shown(TraceState(sources, t))
  {
    var stream := SamplesOf(out);
    var evs := EventSearch.AllEvents(q, stream);
    StreamIsTraces(sources, decl, q.t1, out, t);
    EventSearch.EventsAreExact(q, stream, q.t1);
    forall s ensures s in EventSearch.ChangedAt(q, stream, t) <==> s in TraceChanges(q, sources, t) {
      ChangedIsRecorded(q, sources, decl, out, t, s);
    }
    assert EventSearch.ChangedAt(q, stream, t) == TraceChanges(q, sources, t);
    if EventSearch.Fires(q, stream, t) {
      assert EventSearch.EvFor(q, stream, t) in evs;
    }
    if i: nat :| i < |evs| && evs[i].tick == t {
      assert evs[i] in evs;
    }
  }

  // ----- true transitions -----

  /** The signal had a value before `t` and has another one at `t`. */
  ghost predicate TrueTransition(tr: Trace<string>, t: int)
    requires Ordered(tr)
  {
    Recorded(tr, t - 1).Some? && Recorded(tr, t).Some? && Recorded(tr, t - 1) != Recorded(tr, t)
  }

  /** Within the tick the signal left its value and came back to it. */
  ghost predicate Glitch(tr: Trace<string>, t: int)
    requires Ordered(tr)
  {
    && Recorded(tr, t - 1).Some? && Recorded(tr, t) == Recorded(tr, t - 1)
    && exists p :: 0 <= p < |tr| && tr[p].tick == t && tr[p].value != Recorded(tr, t).value
  }

  lemma LastRecord(tr: Trace<string>, t: int)
    requires Ordered(tr) && 0 <= t
    ensures Recorded(tr, t) != Recorded(tr, t - 1) ==>
              exists p :: 0 <= p < |tr| && tr[p].tick == t && Recorded(tr, t) == Some(tr[p].value)
    ensures Recorded(tr, t - 1).Some? ==> Recorded(tr, t).Some?
  {
    if Recorded(tr, t) != Recorded(tr, t - 1) {
      var p := LastAtOrBefore(tr, t).value;
      assert tr[p].tick == t;
    }
  }

  /** For a signal that is not of event kind, a counting change is a true
      transition except in one situation: the signal glitches at that tick. */
  lemma ChangeIsTransition(tr: Trace<string>, t: int)
    requires Ordered(tr) && 0 <= t
    ensures ChangesAt(false, tr, t) <==> TrueTransition(tr, t) || Glitch(tr, t)
    ensures !(TrueTransition(tr, t) && Glitch(tr, t))
  {
    LastRecord(tr, t);
    if TrueTransition(tr, t) {
      var p :| 0 <= p < |tr| && tr[p].tick == t && Recorded(tr, t) == Some(tr[p].value);
      NoValueBeforeZero(tr, t);
      assert Counts(false, Recorded(tr, t - 1), t, tr[p].value);
    }
  }

  lemma NoValueBeforeZero(tr: Trace<string>, t: int)
    requires Ordered(tr)
    ensures t <= 0 ==> Recorded(tr, t - 1).None?
  {}

  /** With at most one entry per tick there are no glitches. */
  lemma NoGlitchWhenStrict(tr: Trace<string>, t: int)
    requires StrictlyOrdered(tr) && 0 <= t
    ensures Ordered(tr) && !Glitch(tr, t)
  {
    if p: nat :| p < |tr| && tr[p].tick == t {
      assert LastAtOrBefore(tr, t) == Some(p);
    }
  }

  /** A glitch does make the search count a change that is none. */
  lemma GlitchCounts()
    ensures var tr := [Change(0, "0"), Change(5, "1"), Change(5, "0")];
            Ordered(tr) && ChangesAt(false, tr, 5) && !TrueTransition(tr, 5)
  {
    var tr := [Change(0, "0"), Change(5, "1"), Change(5, "0")];
    assert LastAtOrBefore(tr, 4) == Some(0) && LastAtOrBefore(tr, 5) == Some(2);
    assert tr[1].tick == 5 && Counts(false, Recorded(tr, 4), 5, tr[1].value);
  }

  /** An event-kind signal counts at every tick where it is recorded, except
      that tick 0, before which nothing is recorded, never counts. */
  lemma EventKindCounts(tr: Trace<string>, t: int)
    requires Ordered(tr) && 0 <= t
    ensures ChangesAt(true, tr, t) <==> t > 0 && exists p :: 0 <= p < |tr| && tr[p].tick == t
  {
    NoValueBeforeZero(tr, t);
    if t > 0 && exists p :: 0 <= p < |tr| && tr[p].tick == t {
      var p :| 0 <= p < |tr| && tr[p].tick == t;
      assert Counts(true, Recorded(tr, t - 1), t, tr[p].value);
    }
  }

  /** First definitions and tick 0 never count for other kinds. */
  lemma InitialisationNeverCounts(tr: Trace<string>, t: int)
    requires Ordered(tr) && 0 <= t
    requires t == 0 || Recorded(tr, t - 1).None?
    ensures !ChangesAt(false, tr, t)
  {
    NoValueBeforeZero(tr, t);
  }
}
