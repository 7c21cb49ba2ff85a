/** The whole `search` command, stated on the wave's recorded histories. */
module SearchCommand {
  import opened Wrappers
  import opened Traces
  import opened Replay
  import opened Waves
  import opened Clauses
  import opened Conditions
  import opened Readings
  import opened SearchState
  import opened SearchStream
  import opened Search
  import opened Targets
  import opened Terms
  import Signals
  import SearchTheorems
  import Intervals
  import IntervalTheorems
  import EventSearch

  datatype Answer =
    | Spans(rows: seq<Intervals.Row>, total: nat, truncated: bool)
    | Ticks(events: seq<EventSearch.Ev>, total: nat, truncated: bool)

  /** All recorded histories of the wave. */
  ghost function Recordings(w: Wave<string>): (m: map<nat, Trace<string>>)
    requires w.backend.Valid()
    ensures forall s :: s in m ==> Ordered(m[s])
  {
    map s: nat | s < |w.signals| :: w.History(s)
  }

  /** The values in effect at `t`. */
  ghost function WaveState(w: Wave<string>, t: int): State
    requires w.backend.Valid()
  {
    TraceState(Recordings(w), t)
  }

  /** The signals with a counting change at `t`. */
  ghost function WaveChanges(w: Wave<string>, t: int): set<nat>
    requires w.backend.Valid()
  {
    set s: nat | s < |w.signals| &&
                 SearchTheorems.ChangesAt(w.signals[s].kind == Signals.EventKind, w.History(s), t)
  }

  // ----- the answer, on the wave -----

  /** What is asked: the clauses as given, the signals to show, the window, and
      whether to give details. */
  datatype Request = Request(clauses: seq<Clause>, show: seq<nat>, t0: int, t1: int, verbose: bool)

  /** The value recorded last in `[0, t]`; replay starts at tick 0. */
  ghost function RecordedAt(w: Wave<string>, s: nat, t: int): Option<string>
    requires w.backend.Valid()
  {
    if s < |w.signals| then ValueWithin(w.History(s), 0, t) else None
  }

  /** The recorded value meets a comparison; the signal is among the changed. */
  ghost predicate TermMet(w: Wave<string>, c: Cond, t: int, changed: set<nat>)
    requires w.backend.Valid()
  {
    match c.term
    case Changed => c.sid in changed
    case Level(op, target, width, kind) => Meets(RecordedAt(w, c.sid, t), op, target, width, kind)
  }

  ghost predicate ClauseMet(w: Wave<string>, conds: Clause, t: int, changed: set<nat>)
    requires w.backend.Valid()
  {
    forall j :: 0 <= j < |conds| ==> TermMet(w, conds[j], t, changed)
  }

  /** All terms of some clause are met. */
  ghost predicate SomeMet(w: Wave<string>, clauses: seq<Clause>, t: int, changed: set<nat>)
    requires w.backend.Valid()
  {
    exists i :: 0 <= i < |clauses| && ClauseMet(w, clauses[i], t, changed)
  }

  /** Path and display of every shown signal. */
  ghost function TupleAt(w: Wave<string>, show: seq<nat>, t: int): Values
    requires w.backend.Valid()
  {
    seq(|show|, i requires 0 <= i < |show| =>
      if show[i] < |w.signals| then
        (w.signals[show[i]].path,
         match RecordedAt(w, show[i], t)
         case None => "(undef)"
         case Some(raw) => Shows(raw, w.signals[show[i]].kind, w.signals[show[i]].width))
      else ("", "(undef)"))
  }

  /** Path, recorded text and width of every shown signal. */
  ghost function DetailsAt(w: Wave<string>, show: seq<nat>, t: int): seq<Meta>
    requires w.backend.Valid()
  {
    seq(|show|, i requires 0 <= i < |show| =>
      if show[i] < |w.signals| then
        Meta(w.signals[show[i]].path, RecordedAt(w, show[i], t), w.signals[show[i]].width)
      else Meta("", None, 0))
  }

  /** What can be told apart at `t`: whether some clause is met, and then the
      displayed tuple. */
  ghost function SeenAt(w: Wave<string>, a: Request, t: int): Option<Values>
    requires w.backend.Valid()
  {
    if SomeMet(w, a.clauses, t, {}) then Some(TupleAt(w, a.show, t)) else None
  }

  ghost predicate SteadyOn(w: Wave<string>, a: Request, b: int, e: int)
    requires w.backend.Valid()
  {
    && a.t0 <= b && SeenAt(w, a, b).Some?
    && (forall u :: b <= u < e ==> SeenAt(w, a, u) == SeenAt(w, a, b))
    && (b == a.t0 || SeenAt(w, a, b - 1) != SeenAt(w, a, b))
  }

  /** A maximal span of one observation; a change exactly at the end of the
      window gives the empty one there. */
  ghost predicate SpanOn(w: Wave<string>, a: Request, b: int, e: int)
    requires w.backend.Valid()
  {
    && a.t0 < a.t1 && b <= e <= a.t1 && SteadyOn(w, a, b, e)
    && (b == e ==> b == a.t1)
    && (e < a.t1 ==> SeenAt(w, a, e) != SeenAt(w, a, b))
  }

  ghost function RowOn(w: Wave<string>, a: Request, b: int, e: int): Intervals.Row
    requires w.backend.Valid()
  {
    Intervals.Row(b, e,
                  if a.show != [] then Some(TupleAt(w, a.show, b)) else None,
                  if a.show != [] && a.verbose then Some(DetailsAt(w, a.show, b)) else None)
  }

  ghost predicate HasRow(all: seq<Intervals.Row>, b: int, e: int) {
    exists k :: 0 <= k < |all| && all[k].begin == b && all[k].end == e
  }

  /** Rows come in order, none twice and none overlapping. */
  ghost predicate InRowOrder(all: seq<Intervals.Row>) {
    forall i, j :: 0 <= i < j < |all| ==> all[i].begin < all[j].begin && all[i].end <= all[j].begin
  }

  /** The spans of the search: exactly the maximal spans, each with its row, in
      order; and some clause is met at a tick of the window exactly when a row
      covers the tick. */
  ghost predicate ExactSpans(w: Wave<string>, a: Request, all: seq<Intervals.Row>)
    requires w.backend.Valid()
  {
    && InRowOrder(all)
    && (forall k :: 0 <= k < |all| ==>
                      SpanOn(w, a, all[k].begin, all[k].end) && all[k] == RowOn(w, a, all[k].begin, all[k].end))
    && (forall b, e :: SpanOn(w, a, b, e) ==> HasRow(all, b, e))
    && forall t :: a.t0 <= t < a.t1 ==> (SomeMet(w, a.clauses, t, {}) <==> IntervalTheorems.Covered(all, t))
  }

  /** Some clause is met by the values right after `t`, given the changes
      recorded at it. */
  ghost predicate FiresOn(w: Wave<string>, a: Request, t: int)
    requires w.backend.Valid()
  {
    SomeMet(w, a.clauses, t, WaveChanges(w, t))
  }

  ghost function EventOn(w: Wave<string>, a: Request, t: int): EventSearch.Ev
    requires w.backend.Valid()
  {
    EventSearch.Ev(t, TupleAt(w, a.show, t), if a.verbose then Some(DetailsAt(w, a.show, t)) else None)
  }

  ghost predicate HasEvent(all: seq<EventSearch.Ev>, t: int) {
    exists i :: 0 <= i < |all| && all[i].tick == t
  }

  /** The events of the search: one, in tick order, for exactly those recorded
      ticks of the window at which the search fires. */
  ghost predicate ExactEvents(w: Wave<string>, a: Request, all: seq<EventSearch.Ev>)
    requires w.backend.Valid()
  {
    && (forall i, j :: 0 <= i < j < |all| ==> all[i].tick < all[j].tick)
    && (forall i :: 0 <= i < |all| ==>
                      && a.t0 <= all[i].tick <= a.t1 && 0 <= all[i].tick
                      && FiresOn(w, a, all[i].tick) && all[i] == EventOn(w, a, all[i].tick))
    && forall t :: a.t0 <= t <= a.t1 && 0 <= t && FiresOn(w, a, t) ==> HasEvent(all, t)
  }

  // ----- there is only one such answer -----

  /** Strictly increasing keys. */
  ghost predicate Increasing<T>(x: seq<T>, key: T -> int) {
    forall i, j :: 0 <= i < j < |x| ==> key(x[i]) < key(x[j])
  }

  lemma LastIsLatest<T>(x: seq<T>, key: T -> int, e: T)
    requires Increasing(x, key) && e in x
    ensures e == x[|x| - 1] || key(e) < key(x[|x| - 1])
  {
    var i :| 0 <= i < |x| && x[i] == e;
  }

  lemma Earlier<T>(x: seq<T>, key: T -> int, e: T)
    requires Increasing(x, key) && x != []
    ensures e in x[..|x| - 1] <==> e in x && e != x[|x| - 1]
  {
    var x' := x[..|x| - 1];
    assert x == x' + [x[|x| - 1]];
    if e in x' {
      var i :| 0 <= i < |x'| && x'[i] == e;
      assert key(x[i]) < key(x[|x| - 1]);
    }
  }

  /** A list with strictly increasing keys is determined by its members. */
  lemma {:induction false} MembersDecide<T(!new)>(x: seq<T>, y: seq<T>, key: T -> int)
    requires Increasing(x, key) && Increasing(y, key) && forall e :: e in x <==> e in y
    ensures x == y
  {
    if x == [] {
      if y != [] {
        HasMember(y);
      }
    } else if y == [] {
      HasMember(x);
    } else {
      var e, e' := x[|x| - 1], y[|y| - 1];
      assert e in x && e' in y;
      LastIsLatest(x, key, e');
      LastIsLatest(y, key, e);
      var x', y' := x[..|x| - 1], y[..|y| - 1];
      forall f ensures f in x' <==> f in y' {
        Earlier(x, key, f);
        Earlier(y, key, f);
      }
      MembersDecide(x', y', key);
      assert x == x' + [e] && y == y' + [e'];
    }
  }

  lemma RowShared(w: Wave<string>, a: Request, x: seq<Intervals.Row>, y: seq<Intervals.Row>, r: Intervals.Row)
    requires w.backend.Valid() && ExactSpans(w, a, x) && ExactSpans(w, a, y) && r in x
    ensures r in y
  {
    var i :| 0 <= i < |x| && x[i] == r;
    assert HasRow(y, r.begin, r.end);
    var k :| 0 <= k < |y| && y[k].begin == r.begin && y[k].end == r.end;
    assert y[k] == r;
  }

  /** An exact list of spans is determined by the wave and the request. */
  lemma SpansUnique(w: Wave<string>, a: Request, x: seq<Intervals.Row>, y: seq<Intervals.Row>)
    requires w.backend.Valid() && ExactSpans(w, a, x) && ExactSpans(w, a, y)
    ensures x == y
  {
    forall r ensures r in x <==> r in y {
      if r in x {
        RowShared(w, a, x, y, r);
      }
      if r in y {
        RowShared(w, a, y, x, r);
      }
    }
    MembersDecide(x, y, (r: Intervals.Row) => r.begin);
  }

  lemma EventShared(w: Wave<string>, a: Request, x: seq<EventSearch.Ev>, y: seq<EventSearch.Ev>, e: EventSearch.Ev)
    requires w.backend.Valid() && ExactEvents(w, a, x) && ExactEvents(w, a, y) && e in x
    ensures e in y
  {
    var i :| 0 <= i < |x| && x[i] == e;
    assert HasEvent(y, e.tick);
    var k :| 0 <= k < |y| && y[k].tick == e.tick;
    assert y[k] == e;
  }

  /** So is an exact list of events. */
  lemma EventsUnique(w: Wave<string>, a: Request, x: seq<EventSearch.Ev>, y: seq<EventSearch.Ev>)
    requires w.backend.Valid() && ExactEvents(w, a, x) && ExactEvents(w, a, y)
    ensures x == y
  {
    forall e ensures e in x <==> e in y {
      if e in x {
        EventShared(w, a, x, y, e);
      }
      if e in y {
        EventShared(w, a, y, x, e);
      }
    }
    MembersDecide(x, y, (e: EventSearch.Ev) => e.tick);
  }

  // ----- what the search evaluates is what is recorded -----

  lemma StateIsRecorded(w: Wave<string>, s: nat, t: int)
    requires w.Valid()
    ensures RawOf(WaveState(w, t), s) == RecordedAt(w, s, t)
  {
    if s < |w.signals| {
      RecordedIs(w.History(s), t);
      assert Recordings(w)[s] == w.History(s);
    }
  }

  ghost predicate AllResolved(w: Wave<string>, clauses: seq<Clause>) {
    forall i :: 0 <= i < |clauses| ==> ResolvedClause(w.signals, clauses[i])
  }

  lemma TermIsMet(w: Wave<string>, c: Cond, t: int, changed: set<nat>)
    requires w.Valid() && Resolved(w.signals, c)
    ensures TermHolds(WaveState(w, t), changed, c) <==> TermMet(w, c, t, changed)
  {
    if c.term.Level? {
      var text :| ParseTarget(text) == Success(c.term.target);
      TermMeets(WaveState(w, t), changed, c, text);
      StateIsRecorded(w, c.sid, t);
    }
  }

  lemma ClauseIsMet(w: Wave<string>, conds: Clause, t: int, changed: set<nat>)
    requires w.Valid() && ResolvedClause(w.signals, conds)
    ensures ClauseHolds(WaveState(w, t), changed, conds) <==> ClauseMet(w, conds, t, changed)
  {
    forall j | 0 <= j < |conds|
      ensures TermHolds(WaveState(w, t), changed, conds[j]) <==> TermMet(w, conds[j], t, changed)
    {
      TermIsMet(w, conds[j], t, changed);
    }
  }

  lemma HoldsIsMet(w: Wave<string>, clauses: seq<Clause>, t: int, changed: set<nat>)
    requires w.Valid() && AllResolved(w, clauses)
    ensures AnyClauseHolds(WaveState(w, t), changed, clauses) <==> SomeMet(w, clauses, t, changed)
  {
    forall i | 0 <= i < |clauses|
      ensures ClauseHolds(WaveState(w, t), changed, clauses[i]) <==> ClauseMet(w, clauses[i], t, changed)
    {
      ClauseIsMet(w, clauses[i], t, changed);
    }
  }

  lemma ShownIsTuple(w: Wave<string>, show: seq<nat>, t: int)
    requires w.Valid()
    ensures ShowValues(w.signals, show, WaveState(w, t)) == TupleAt(w, show, t)
  {
    forall i | 0 <= i < |show| ensures Shown(w.signals, WaveState(w, t), show[i]) == TupleAt(w, show, t)[i] {
      OneShown(w, show[i], t);
    }
  }

  lemma OneShown(w: Wave<string>, s: nat, t: int)
    requires w.Valid()
    ensures Shown(w.signals, WaveState(w, t), s) == TupleAt(w, [s], t)[0]
  {
    StateIsRecorded(w, s, t);
    if s < |w.signals| && RecordedAt(w, s, t).Some? {
      DisplayReads(RecordedAt(w, s, t).value, w.signals[s].kind, w.signals[s].width);
    }
  }

  lemma MetaIsDetails(w: Wave<string>, show: seq<nat>, t: int)
    requires w.Valid()
    ensures ShowMeta(w.signals, show, WaveState(w, t)) == DetailsAt(w, show, t)
  {
    forall i | 0 <= i < |show| ensures RawOf(WaveState(w, t), show[i]) == RecordedAt(w, show[i], t) {
      StateIsRecorded(w, show[i], t);
    }
  }

  // ----- reading the selected signals is enough -----

  lemma SameRecorded(w: Wave<string>, sel: seq<nat>, s: nat, t: int)
    requires w.Valid() && w.Known(sel) && s in sel && w.Sources(sel).Keys == (set r | r in sel)
    ensures s < |w.signals| && w.Sources(sel)[s] == w.History(s)
    ensures RawOf(TraceState(w.Sources(sel), t), s) == RawOf(WaveState(w, t), s)
  {
    assert s in w.Sources(sel);
    assert Recordings(w)[s] == w.History(s);
  }

  lemma SameShown(w: Wave<string>, show: seq<nat>, sel: seq<nat>, t: int)
    requires w.Valid() && w.Known(sel) && w.Sources(sel).Keys == (set r | r in sel)
    requires forall s :: s in show ==> s in sel
    ensures ShowValues(w.signals, show, TraceState(w.Sources(sel), t)) == ShowValues(w.signals, show, WaveState(w, t))
  {
    forall i | 0 <= i < |show|
      ensures Shown(w.signals, TraceState(w.Sources(sel), t), show[i]) == Shown(w.signals, WaveState(w, t), show[i])
    {
      SameRecorded(w, sel, show[i], t);
    }
  }

  /** On the selected signals' traces the kept clauses hold exactly when, on the
      whole wave, the clauses as given do. */
  lemma SameHolds(w: Wave<string>, s: Setup, given: seq<Clause>, t: int, ca: set<nat>, cb: set<nat>)
    requires w.Valid() && w.Known(s.selected) && w.Sources(s.selected).Keys == (set r | r in s.selected)
    requires SameMeaning(s.clauses, given) && Reading(s.clauses, s.show, s.selected)
    requires forall r :: r in s.selected ==> (r in ca <==> r in cb)
    ensures AnyClauseHolds(TraceState(w.Sources(s.selected), t), ca, s.clauses) <==>
            AnyClauseHolds(WaveState(w, t), cb, given)
  {
    forall r | Uses(s.clauses, r)
      ensures SameFor(r, TraceState(w.Sources(s.selected), t), ca, WaveState(w, t), cb)
    {
      SameRecorded(w, s.selected, r, t);
    }
    ClausesLocal(s.clauses, TraceState(w.Sources(s.selected), t), ca, WaveState(w, t), cb);
  }

  lemma ReadingKnown(w: Wave<string>, s: Setup)
    requires Reading(s.clauses, s.show, s.selected) && SidsBelow(s.selected, |w.signals|)
    ensures w.Known(s.selected) && Distinct(s.selected)
  {}

  lemma SameMeta(w: Wave<string>, show: seq<nat>, sel: seq<nat>, t: int)
    requires w.Valid() && w.Known(sel) && w.Sources(sel).Keys == (set r | r in sel)
    requires forall s :: s in show ==> s in sel
    ensures ShowMeta(w.signals, show, TraceState(w.Sources(sel), t)) == ShowMeta(w.signals, show, WaveState(w, t))
  {
    forall i | 0 <= i < |show|
      ensures RawOf(TraceState(w.Sources(sel), t), show[i]) == RawOf(WaveState(w, t), show[i])
    {
      SameRecorded(w, sel, show[i], t);
    }
  }

  /** The search ran on the replay of the signals it selected. */
  ghost predicate Ran(w: Wave<string>, s: Setup, given: seq<Clause>, calls: seq<Emit<string>>)
    requires w.Valid()
    reads w, w.backend
  {
    && w.Known(s.selected) && w.Sources(s.selected).Keys == (set r | r in s.selected)
    && SameMeaning(s.clauses, given) && Reading(s.clauses, s.show, s.selected) && AllResolved(w, given)
    && IsReplay(w.Sources(s.selected), w.Decl(), 0, Some(s.t1), calls) && InOrder(SamplesOf(calls))
  }

  function RequestOf(s: Setup, given: seq<Clause>): Request {
    Request(given, s.show, s.t0, s.t1, s.verbose)
  }

  /** At every tick up to the end the search observes what the wave records. */
  lemma ObservedIsSeen(w: Wave<string>, s: Setup, given: seq<Clause>, calls: seq<Emit<string>>, t: int)
    requires w.Valid() && Ran(w, s, given, calls) && t <= s.t1 && Intervals.Wellformed(QueryOf(w.signals, s))
    ensures Intervals.ObservedAt(QueryOf(w.signals, s), SamplesOf(calls), t) == SeenAt(w, RequestOf(s, given), t)
  {
    StreamIsTraces(w.Sources(s.selected), w.Decl(), s.t1, calls, t);
    SameHolds(w, s, given, t, {}, {});
    SameShown(w, s.show, s.selected, t);
    HoldsIsMet(w, given, t, {});
    ShownIsTuple(w, s.show, t);
  }

  lemma SpanIsOn(w: Wave<string>, s: Setup, given: seq<Clause>, calls: seq<Emit<string>>, b: int, e: int)
    requires w.Valid() && Ran(w, s, given, calls) && Intervals.Wellformed(QueryOf(w.signals, s))
    ensures IntervalTheorems.Span(QueryOf(w.signals, s), SamplesOf(calls), b, e) <==>
            SpanOn(w, RequestOf(s, given), b, e)
  {
    var q, stream, a := QueryOf(w.signals, s), SamplesOf(calls), RequestOf(s, given);
    forall t | t <= s.t1 ensures Intervals.ObservedAt(q, stream, t) == SeenAt(w, a, t) {
      ObservedIsSeen(w, s, given, calls, t);
    }
    if b <= e <= s.t1 {
      SteadyIsOn(w, s, given, calls, b, e);
    }
  }

  lemma SteadyIsOn(w: Wave<string>, s: Setup, given: seq<Clause>, calls: seq<Emit<string>>, b: int, e: int)
    requires w.Valid() && Ran(w, s, given, calls) && Intervals.Wellformed(QueryOf(w.signals, s)) && b <= e <= s.t1
    ensures IntervalTheorems.Steady(QueryOf(w.signals, s), SamplesOf(calls), b, e) <==>
            SteadyOn(w, RequestOf(s, given), b, e)
  {
    var q, stream, a := QueryOf(w.signals, s), SamplesOf(calls), RequestOf(s, given);
    forall t | t <= s.t1 ensures Intervals.ObservedAt(q, stream, t) == SeenAt(w, a, t) {
      ObservedIsSeen(w, s, given, calls, t);
    }
  }

  lemma RowIsOn(w: Wave<string>, s: Setup, given: seq<Clause>, calls: seq<Emit<string>>, b: int, e: int)
    requires w.Valid() && Ran(w, s, given, calls) && Intervals.Wellformed(QueryOf(w.signals, s)) && b <= s.t1
    ensures Intervals.RowFor(QueryOf(w.signals, s), SamplesOf(calls), b, e) == RowOn(w, RequestOf(s, given), b, e)
  {
    StreamIsTraces(w.Sources(s.selected), w.Decl(), s.t1, calls, b);
    SameShown(w, s.show, s.selected, b);
    SameMeta(w, s.show, s.selected, b);
    ShownIsTuple(w, s.show, b);
    MetaIsDetails(w, s.show, b);
  }

  /** No two rows begin at one tick. */
  lemma RowsInOrder(q: Query, stream: seq<Sample>)
    requires Intervals.Wellformed(q) && InOrder(stream)
    ensures InRowOrder(Intervals.AllRows(q, stream))
  {
    var rows := Intervals.AllRows(q, stream);
    IntervalTheorems.RowsAreSpans(q, stream);
    forall i, j | 0 <= i < j < |rows| ensures rows[i].begin < rows[j].begin && rows[i].end <= rows[j].begin {
      IntervalTheorems.OnlyLastIsEmpty(q, stream, i);
    }
  }

  /** Reading only the selected signals, the rows are the exact spans over all
      recorded histories. */
  lemma SpansHold(w: Wave<string>, s: Setup, given: seq<Clause>, calls: seq<Emit<string>>)
    requires w.Valid() && Ran(w, s, given, calls) && Intervals.Wellformed(QueryOf(w.signals, s))
    ensures ExactSpans(w, RequestOf(s, given), Intervals.AllRows(QueryOf(w.signals, s), SamplesOf(calls)))
  {
    var q, stream, a := QueryOf(w.signals, s), SamplesOf(calls), RequestOf(s, given);
    var all := Intervals.AllRows(q, stream);
    RowsInOrder(q, stream);
    forall k | 0 <= k < |all|
      ensures SpanOn(w, a, all[k].begin, all[k].end) && all[k] == RowOn(w, a, all[k].begin, all[k].end)
    {
      RowHolds(w, s, given, calls, k);
    }
    forall b, e | SpanOn(w, a, b, e) ensures HasRow(all, b, e) {
      SpanHasRow(w, s, given, calls, b, e);
    }
    forall t | s.t0 <= t < s.t1
      ensures SomeMet(w, given, t, {}) <==> IntervalTheorems.Covered(all, t)
    {
      SearchTheorems.SpansAreExact(q, w.Sources(s.selected), w.Decl(), calls, t);
      SameHolds(w, s, given, t, {}, {});
      HoldsIsMet(w, given, t, {});
    }
  }

  lemma RowHolds(w: Wave<string>, s: Setup, given: seq<Clause>, calls: seq<Emit<string>>, k: nat)
    requires w.Valid() && Ran(w, s, given, calls) && Intervals.Wellformed(QueryOf(w.signals, s))
    requires k < |Intervals.AllRows(QueryOf(w.signals, s), SamplesOf(calls))|
    ensures var r := Intervals.AllRows(QueryOf(w.signals, s), SamplesOf(calls))[k];
            SpanOn(w, RequestOf(s, given), r.begin, r.end) && r == RowOn(w, RequestOf(s, given), r.begin, r.end)
  {
    var q, stream := QueryOf(w.signals, s), SamplesOf(calls);
    var r := Intervals.AllRows(q, stream)[k];
    IntervalTheorems.RowsAreSpans(q, stream);
    SpanIsOn(w, s, given, calls, r.begin, r.end);
    RowIsOn(w, s, given, calls, r.begin, r.end);
  }

  lemma SpanHasRow(w: Wave<string>, s: Setup, given: seq<Clause>, calls: seq<Emit<string>>, b: int, e: int)
    requires w.Valid() && Ran(w, s, given, calls) && Intervals.Wellformed(QueryOf(w.signals, s))
    requires SpanOn(w, RequestOf(s, given), b, e)
    ensures HasRow(Intervals.AllRows(QueryOf(w.signals, s), SamplesOf(calls)), b, e)
  {
    var q, stream := QueryOf(w.signals, s), SamplesOf(calls);
    SpanIsOn(w, s, given, calls, b, e);
    IntervalTheorems.EverySpanHasRow(q, stream, b, e);
    var rows := Intervals.AllRows(q, stream);
    var k :| 0 <= k < |rows| && rows[k] == Intervals.RowFor(q, stream, b, e);
    assert rows[k].begin == b && rows[k].end == e;
  }

  /** The search fires at a tick exactly when it does on the wave. */
  lemma FiresIsOn(w: Wave<string>, s: Setup, given: seq<Clause>, calls: seq<Emit<string>>, t: int)
    requires w.Valid() && Ran(w, s, given, calls) && 0 <= t <= s.t1
    ensures EventSearch.Fires(QueryOf(w.signals, s), SamplesOf(calls), t) <==> FiresOn(w, RequestOf(s, given), t)
  {
    var q, stream := QueryOf(w.signals, s), SamplesOf(calls);
    StreamIsTraces(w.Sources(s.selected), w.Decl(), s.t1, calls, t);
    forall r: nat | r in s.selected
      ensures r in EventSearch.ChangedAt(q, stream, t) <==> r in WaveChanges(w, t)
    {
      SearchTheorems.ChangedIsRecorded(q, w.Sources(s.selected), w.Decl(), calls, t, r);
      SameRecorded(w, s.selected, r, t);
    }
    SameHolds(w, s, given, t, EventSearch.ChangedAt(q, stream, t), WaveChanges(w, t));
    HoldsIsMet(w, given, t, WaveChanges(w, t));
  }

  lemma EventIsOn(w: Wave<string>, s: Setup, given: seq<Clause>, calls: seq<Emit<string>>, t: int)
    requires w.Valid() && Ran(w, s, given, calls) && t <= s.t1
    ensures EventSearch.EvFor(QueryOf(w.signals, s), SamplesOf(calls), t) == EventOn(w, RequestOf(s, given), t)
  {
    StreamIsTraces(w.Sources(s.selected), w.Decl(), s.t1, calls, t);
    SameShown(w, s.show, s.selected, t);
    SameMeta(w, s.show, s.selected, t);
    ShownIsTuple(w, s.show, t);
    MetaIsDetails(w, s.show, t);
  }

  /** Before tick 0 nothing is replayed, so nothing fires. */
  lemma FiresFromZero(w: Wave<string>, s: Setup, given: seq<Clause>, calls: seq<Emit<string>>, t: int)
    requires w.Valid() && Ran(w, s, given, calls) && EventSearch.Wellformed(QueryOf(w.signals, s))
    requires EventSearch.Fires(QueryOf(w.signals, s), SamplesOf(calls), t)
    ensures 0 <= t
  {
    ReplayInOrder(w.Sources(s.selected), w.Decl(), s.t1, calls);
    if t < 0 {
      EventSearch.NothingFires(QueryOf(w.signals, s), SamplesOf(calls), t);
    }
  }

  /** Likewise the events. */
  lemma EventsHold(w: Wave<string>, s: Setup, given: seq<Clause>, calls: seq<Emit<string>>)
    requires w.Valid() && Ran(w, s, given, calls) && EventSearch.Wellformed(QueryOf(w.signals, s))
    ensures ExactEvents(w, RequestOf(s, given), EventSearch.AllEvents(QueryOf(w.signals, s), SamplesOf(calls)))
  {
    var q, stream, a := QueryOf(w.signals, s), SamplesOf(calls), RequestOf(s, given);
    var all := EventSearch.AllEvents(q, stream);
    EventSearch.EventsAreExact(q, stream, s.t1);
    forall i | 0 <= i < |all|
      ensures a.t0 <= all[i].tick <= a.t1 && 0 <= all[i].tick
      ensures FiresOn(w, a, all[i].tick) && all[i] == EventOn(w, a, all[i].tick)
    {
      EventHolds(w, s, given, calls, i);
    }
    forall t | a.t0 <= t <= a.t1 && 0 <= t && FiresOn(w, a, t) ensures HasEvent(all, t) {
      FiresIsOn(w, s, given, calls, t);
      var k :| 0 <= k < |all| && all[k] == EventSearch.EvFor(q, stream, t);
      assert all[k].tick == t;
    }
  }

  lemma EventHolds(w: Wave<string>, s: Setup, given: seq<Clause>, calls: seq<Emit<string>>, i: nat)
    requires w.Valid() && Ran(w, s, given, calls) && EventSearch.Wellformed(QueryOf(w.signals, s))
    requires i < |EventSearch.AllEvents(QueryOf(w.signals, s), SamplesOf(calls))|
    ensures var e, a := EventSearch.AllEvents(QueryOf(w.signals, s), SamplesOf(calls))[i], RequestOf(s, given);
            && a.t0 <= e.tick <= a.t1 && 0 <= e.tick
            && FiresOn(w, a, e.tick) && e == EventOn(w, a, e.tick)
  {
    var q, stream := QueryOf(w.signals, s), SamplesOf(calls);
    EventSearch.EventsAreExact(q, stream, s.t1);
    var e := EventSearch.AllEvents(q, stream)[i];
    assert e in EventSearch.AllEvents(q, stream);
    assert EventSearch.Fires(q, stream, e.tick);
    FiresFromZero(w, s, given, calls, e.tick);
    FiresIsOn(w, s, given, calls, e.tick);
    EventIsOn(w, s, given, calls, e.tick);
  }

  // ----- the command -----

  /** What a truncated answer counts: the rows shown, and one more if there are
      more. */
  function Counted(shown: nat, truncated: bool): nat {
    shown + if truncated then 1 else 0
  }

  /** From clauses and shown signals to rows.  The answer is the first `limit`
      entries of the one list that is exact over all recorded histories,
      although only the signals involved are read. */
  method RunSearch(w: Wave<string>, clauses: seq<Clause>, show: seq<nat>, t0: int, t1: int, limit: nat, verbose: bool)
    returns (r: Result<Answer, SetupError>, ghost setup: Setup, ghost rows: seq<Intervals.Row>,
             ghost events: seq<EventSearch.Ev>)
    requires w.Valid() && forall i :: 0 <= i < |clauses| ==> ResolvedClause(w.signals, clauses[i])
    requires SidsBelow(show, |w.signals|)
    modifies w`traces
    ensures w.Valid()
    ensures r == Failure(ReversedWindow) <==> t1 < t0
    ensures r == Failure(NoCondition) <==> t0 <= t1 && clauses == []
    ensures r == Failure(MixedModes) <==> t0 <= t1 && Mixed(clauses)
    ensures r.Success? ==> ShownBy(setup.clauses, show, setup.show)
    ensures r.Success? && r.value.Spans? ==>
              && SpanMode(setup) && ExactSpans(w, Request(clauses, setup.show, t0, t1, verbose), rows)
              && r.value.rows == Limited(rows, limit) && (r.value.truncated <==> limit != 0 && |rows| > limit)
              && r.value.total == Counted(|r.value.rows|, r.value.truncated)
    ensures r.Success? && r.value.Ticks? ==>
              && EventMode(setup) && ExactEvents(w, Request(clauses, setup.show, t0, t1, verbose), events)
              && r.value.events == Limited(events, limit) && (r.value.truncated <==> limit != 0 && |events| > limit)
              && r.value.total == Counted(|r.value.events|, r.value.truncated)
  {
    setup, rows, events := Setup([], [], [], t0, t1, limit, verbose), [], [];
    var prepared := Prepare(w.signals, clauses, show, t0, t1, limit, verbose);
    if prepared.Failure? {
      return Failure(prepared.error), setup, rows, events;
    }
    var s := prepared.value;
    setup := s;
    ReadingKnown(w, s);
    if EventMode(s) {
      var found, total, truncated, calls := SearchTicks(w, s, s.selected);
      EventsHold(w, s, clauses, calls);
      events := EventSearch.AllEvents(QueryOf(w.signals, s), SamplesOf(calls));
      r := Success(Ticks(found, total, truncated));
    } else {
      var found, total, truncated, calls := SearchSpans(w, s, s.selected);
      SpansHold(w, s, clauses, calls);
      rows := Intervals.AllRows(QueryOf(w.signals, s), SamplesOf(calls));
      r := Success(Spans(found, total, truncated));
    }
  }

  // ----- one comparison -----

  /** The rows of a search for one term cover a tick exactly where it is met. */
  lemma OneTerm(w: Wave<string>, a: Request, all: seq<Intervals.Row>, c: Cond, t: int)
    requires w.Valid() && ExactSpans(w, a, all) && a.clauses == [[c]] && a.t0 <= t < a.t1
    requires Resolved(w.signals, c)
    ensures IntervalTheorems.Covered(all, t) <==> TermHolds(WaveState(w, t), {}, c)
  {
    TermIsMet(w, c, t, {});
    assert SomeMet(w, [[c]], t, {}) <==> ClauseMet(w, [[c]][0], t, {});
    assert ClauseMet(w, [c], t, {}) <==> TermMet(w, [c][0], t, {});
  }

  /** Searching a logic signal for the display of `v` finds exactly the ticks at
      which its recorded value is displayed that way, or is too long and spells
      the number shown. */
  lemma SearchFindsShown(w: Wave<string>, a: Request, all: seq<Intervals.Row>, c: Cond, v: string, t: int)
    requires w.Valid() && ExactSpans(w, a, all) && a.clauses == [[c]] && a.t0 <= t < a.t1
    requires Resolved(w.signals, c) && c.term.Level? && c.term.op != Ne
    requires c.term.kind == Signals.Bits && 1 <= c.term.width <= 65536 && v != ""
    requires ParseTarget(Shows(v, Signals.Bits, c.term.width)) == Success(c.term.target)
    ensures var raw := RecordedAt(w, c.sid, t);
            IntervalTheorems.Covered(all, t) <==>
            raw.Some? && raw.value != ""
            && (Shows(raw.value, Signals.Bits, c.term.width) == Shows(v, Signals.Bits, c.term.width)
                || LongTwin(raw.value, v, c.term.width))
  {
    OneTerm(w, a, all, c, t);
    FoundWhereShown(WaveState(w, t), {}, c, v);
    StateIsRecorded(w, c.sid, t);
  }

  /** Searching for what differs from it finds, if `v` shows as a number, the
      ticks with a known value that spells another, and else those with a value
      that shows as a number. */
  lemma SearchFindsDifferent(w: Wave<string>, a: Request, all: seq<Intervals.Row>, c: Cond, v: string, t: int)
    requires w.Valid() && ExactSpans(w, a, all) && a.clauses == [[c]] && a.t0 <= t < a.t1
    requires Resolved(w.signals, c) && c.term.Level? && c.term.op == Ne
    requires c.term.kind == Signals.Bits && 1 <= c.term.width <= 65536 && v != ""
    requires ParseTarget(Shows(v, Signals.Bits, c.term.width)) == Success(c.term.target)
    ensures var raw := RecordedAt(w, c.sid, t);
            IntervalTheorems.Covered(all, t) <==>
            raw.Some?
            && if ShowsNumber(v, c.term.width)
               then Known(raw.value) && (raw.value == "" || Number(raw.value) != Number(v))
               else ShowsNumber(raw.value, c.term.width)
  {
    OneTerm(w, a, all, c, t);
    DifferentFromShown(WaveState(w, t), {}, c, v);
    StateIsRecorded(w, c.sid, t);
  }
}
