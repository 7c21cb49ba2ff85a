/** The `search` command: from resolved conditions to rows. */
module Search {
  import opened Wrappers
  import opened Replay
  import opened Signals
  import opened Waves
  import opened Clauses
  import opened SearchState
  import opened SearchStream
  import Display
  import Intervals
  import EventSearch

  /** What is searched for, once names are resolved and repeats dropped;
      `selected` are the signals to read. */
  datatype Setup = Setup(clauses: seq<Clause>, show: seq<nat>, selected: seq<nat>, t0: int, t1: int, limit: nat,
                         verbose: bool)

  datatype SetupError = ReversedWindow | NoCondition | MixedModes

  /** Some term asks for a change. */
  predicate HasChanged(conds: Clause): (r: bool)
    ensures r <==> exists s: nat :: Cond(s, Changed) in conds
  {
    assert forall i :: 0 <= i < |conds| && conds[i].term.Changed? ==> conds[i] == Cond(conds[i].sid, Changed);
    exists i :: 0 <= i < |conds| && conds[i].term.Changed?
  }

  /** Every clause asks for a change: the search reports ticks, not spans. */
  predicate EventMode(s: Setup) {
    s.clauses != [] && forall i :: 0 <= i < |s.clauses| ==> HasChanged(s.clauses[i])
  }

  /** Some clauses ask for a change and others do not. */
  ghost predicate Mixed(clauses: seq<Clause>) {
    && (exists i :: 0 <= i < |clauses| && HasChanged(clauses[i]))
    && (exists i :: 0 <= i < |clauses| && !HasChanged(clauses[i]))
  }

  predicate SpanMode(s: Setup) {
    s.clauses != [] && forall i :: 0 <= i < |s.clauses| ==> !HasChanged(s.clauses[i])
  }

  // ----- the signals involved -----

  ghost predicate Rising(sids: seq<nat>) {
    forall i, j :: 0 <= i < j < |sids| ==> sids[i] < sids[j]
  }

  /** The clauses ask for a change of signal `s`. */
  ghost predicate Watches(clauses: seq<Clause>, s: nat) {
    exists i, j :: 0 <= i < |clauses| && 0 <= j < |clauses[i]| && clauses[i][j] == Cond(s, Changed)
  }

  method ClauseSignals(conds: Clause) returns (used: set<nat>, watched: set<nat>)
    ensures forall s :: s in used <==> exists j :: 0 <= j < |conds| && conds[j].sid == s
    ensures forall s :: s in watched <==> exists j :: 0 <= j < |conds| && conds[j] == Cond(s, Changed)
  {
    used, watched := {}, {};
    for k := 0 to |conds|
      invariant forall s :: s in used <==> exists j :: 0 <= j < k && conds[j].sid == s
      invariant forall s :: s in watched <==> exists j :: 0 <= j < k && conds[j] == Cond(s, Changed)
    {
      used := used + {conds[k].sid};
      if conds[k].term.Changed? {
        watched := watched + {conds[k].sid};
      }
    }
  }

  method SignalsOf(clauses: seq<Clause>) returns (used: set<nat>, watched: set<nat>)
    ensures forall s :: s in used <==> Uses(clauses, s)
    ensures forall s :: s in watched <==> Watches(clauses, s)
  {
    used, watched := {}, {};
    for k := 0 to |clauses|
      invariant forall s :: s in used <==>
                            exists i, j :: 0 <= i < k && 0 <= j < |clauses[i]| && clauses[i][j].sid == s
      invariant forall s :: s in watched <==>
                            exists i, j :: 0 <= i < k && 0 <= j < |clauses[i]| && clauses[i][j] == Cond(s, Changed)
    {
      var u, v := ClauseSignals(clauses[k]);
      used, watched := used + u, watched + v;
    }
  }

  /** A set of signals as an ordered set lists it. */
  method Listed(sids: set<nat>, count: nat) returns (r: seq<nat>)
    requires forall s :: s in sids ==> s < count
    ensures Rising(r) && forall s :: s in r <==> s in sids
  {
    r := [];
    for n := 0 to count
      invariant Rising(r) && forall s :: s in r <==> s in sids && s < n
    {
      if n in sids {
        assert forall i :: 0 <= i < |r| ==> r[i] in r;
        r := r + [n];
      }
    }
  }

  /** What is shown: the signals asked for; in event mode, if none are, those
      under a `changed()` term.  Signals are numbered in path order. */
  ghost predicate ShownBy(clauses: seq<Clause>, given: seq<nat>, show: seq<nat>) {
    if given != [] then show == given
    else Rising(show) && forall s :: s in show <==> Watches(clauses, s)
  }

  /** What is read: the signals of the clauses and those shown. */
  ghost predicate Reading(clauses: seq<Clause>, show: seq<nat>, selected: seq<nat>) {
    Rising(selected) && forall s :: s in selected <==> Uses(clauses, s) || s in show
  }

  ghost predicate SidsBelow(sids: seq<nat>, count: nat) {
    forall i :: 0 <= i < |sids| ==> sids[i] < count
  }

  lemma UsedKnown(signals: seq<SignalInfo>, clauses: seq<Clause>, s: nat)
    requires forall i :: 0 <= i < |clauses| ==> ResolvedClause(signals, clauses[i])
    ensures Uses(clauses, s) ==> s < |signals|
    ensures Watches(clauses, s) ==> Uses(clauses, s)
  {
    if Uses(clauses, s) {
      var i, j :| 0 <= i < |clauses| && 0 <= j < |clauses[i]| && clauses[i][j].sid == s;
      assert Resolved(signals, clauses[i][j]);
    }
    if Watches(clauses, s) {
      var i, j :| 0 <= i < |clauses| && 0 <= j < |clauses[i]| && clauses[i][j] == Cond(s, Changed);
      assert clauses[i][j].sid == s;
    }
  }

  method Choose(signals: seq<SignalInfo>, clauses: seq<Clause>, given: seq<nat>)
    returns (show: seq<nat>, selected: seq<nat>)
    requires forall i :: 0 <= i < |clauses| ==> ResolvedClause(signals, clauses[i])
    requires SidsBelow(given, |signals|)
    ensures ShownBy(clauses, given, show) && Reading(clauses, show, selected)
    ensures SidsBelow(show, |signals|) && SidsBelow(selected, |signals|)
  {
    var used, watched := SignalsOf(clauses);
    forall s: nat ensures (s in used ==> s < |signals|) && (s in watched ==> s in used) {
      UsedKnown(signals, clauses, s);
    }
    show := given;
    if given == [] {
      show := Listed(watched, |signals|);
    }
    forall i | 0 <= i < |show| ensures show[i] < |signals| {
      assert show[i] in show;
    }
    selected := Listed(used + (set s | s in show), |signals|);
    forall i | 0 <= i < |selected| ensures selected[i] < |signals| {
      assert selected[i] in selected;
    }
  }

  /** Checks the window, drops repeated terms and clauses, refuses a mix of
      change-driven and level-only clauses, and settles what to show and read. */
  method Prepare(signals: seq<SignalInfo>, clauses: seq<Clause>, show: seq<nat>, t0: int, t1: int,
                 limit: nat, verbose: bool) returns (r: Result<Setup, SetupError>)
    requires forall i :: 0 <= i < |clauses| ==> ResolvedClause(signals, clauses[i])
    requires SidsBelow(show, |signals|)
    ensures r == Failure(ReversedWindow) <==> t1 < t0
    ensures r == Failure(NoCondition) <==> t0 <= t1 && clauses == []
    ensures r == Failure(MixedModes) <==> t0 <= t1 && Mixed(clauses)
    ensures r.Success? ==>
              && (EventMode(r.value) || SpanMode(r.value))
              && r.value.t0 == t0 <= r.value.t1 == t1
              && r.value.limit == limit && r.value.verbose == verbose
              && SameMeaning(r.value.clauses, clauses)
              && ShownBy(r.value.clauses, show, r.value.show)
              && Reading(r.value.clauses, r.value.show, r.value.selected)
              && SidsBelow(r.value.selected, |signals|)
  {
    if t1 < t0 {
      return Failure(ReversedWindow);
    }
    if clauses == [] {
      return Failure(NoCondition);
    }
    var distinct := DedupEach(signals, clauses);
    var kept := DedupClauses(distinct);
    KeptMeaning(signals, clauses, distinct, kept);
    var shown, selected := Choose(signals, kept, show);
    var s := Setup(kept, shown, selected, t0, t1, limit, verbose);
    if EventMode(s) || SpanMode(s) {
      OneModeGiven(signals, clauses, distinct, kept);
      return Success(s);
    }
    MixWasGiven(clauses, distinct, kept);
    return Failure(MixedModes);
  }

  /** The two clause lists hold in the same situations. */
  ghost predicate SameMeaning(a: seq<Clause>, b: seq<Clause>) {
    forall state, changed :: AnyClauseHolds(state, changed, a) <==> AnyClauseHolds(state, changed, b)
  }

  /** `b[i]` is `a[i]` with repeated terms dropped. */
  ghost predicate Thinned(b: seq<Clause>, a: seq<Clause>) {
    |b| == |a| && forall i :: 0 <= i < |a| ==> SameTerms(a[i], b[i])
  }

  ghost predicate SameTerms(a: Clause, b: Clause) {
    forall c :: c in a <==> c in b
  }

  method DedupEach(signals: seq<SignalInfo>, clauses: seq<Clause>) returns (r: seq<Clause>)
    requires forall i :: 0 <= i < |clauses| ==> ResolvedClause(signals, clauses[i])
    ensures Thinned(r, clauses)
    ensures forall i :: 0 <= i < |r| ==> ResolvedClause(signals, r[i])
  {
    r := [];
    for k := 0 to |clauses|
      invariant |r| == k && forall i :: 0 <= i < k ==> SameTerms(clauses[i], r[i]) && ResolvedClause(signals, r[i])
    {
      var kept := DedupTerms(signals, clauses[k]);
      r := r + [kept];
    }
  }

  lemma ThinnedHolds(state: State, changed: set<nat>, a: seq<Clause>, b: seq<Clause>)
    requires Thinned(b, a)
    ensures AnyClauseHolds(state, changed, a) <==> AnyClauseHolds(state, changed, b)
  {
    forall i | 0 <= i < |a|
      ensures ClauseHolds(state, changed, a[i]) <==> ClauseHolds(state, changed, b[i])
    {
      assert SameTerms(a[i], b[i]);
      SameTermsHoldAlike(state, changed, a[i], b[i]);
    }
  }

  lemma KeptMeaning(signals: seq<SignalInfo>, clauses: seq<Clause>, distinct: seq<Clause>, kept: seq<Clause>)
    requires Thinned(distinct, clauses)
    requires forall i :: 0 <= i < |distinct| ==> ResolvedClause(signals, distinct[i])
    requires Covers(kept, distinct) && Covers(distinct, kept) && forall c :: c in kept ==> c in distinct
    ensures SameMeaning(kept, clauses)
    ensures forall i :: 0 <= i < |kept| ==> ResolvedClause(signals, kept[i])
  {
    forall i | 0 <= i < |kept| ensures ResolvedClause(signals, kept[i]) {
      assert kept[i] in distinct;
    }
    forall state, changed
      ensures AnyClauseHolds(state, changed, kept) <==> AnyClauseHolds(state, changed, clauses)
    {
      ThinnedHolds(state, changed, clauses, distinct);
      CoveringHoldsAlike(signals, state, changed, kept, distinct);
    }
  }

  lemma ThinnedMode(a: Clause, b: Clause)
    requires SameTerms(a, b)
    ensures HasChanged(a) <==> HasChanged(b)
  {
    if HasChanged(a) {
      var i :| 0 <= i < |a| && a[i].term.Changed?;
      assert a[i] in b;
    }
    if HasChanged(b) {
      var i :| 0 <= i < |b| && b[i].term.Changed?;
      assert b[i] in a;
    }
  }

  lemma GivenAs(clauses: seq<Clause>, distinct: seq<Clause>, c: Clause) returns (i: nat)
    requires Thinned(distinct, clauses) && c in distinct
    ensures i < |clauses| && (HasChanged(clauses[i]) <==> HasChanged(c))
  {
    i :| 0 <= i < |distinct| && distinct[i] == c;
    assert SameTerms(clauses[i], distinct[i]);
    ThinnedMode(clauses[i], distinct[i]);
  }

  lemma MixWasGiven(clauses: seq<Clause>, distinct: seq<Clause>, kept: seq<Clause>)
    requires Thinned(distinct, clauses) && clauses != []
    requires Covers(kept, distinct) && forall c :: c in kept ==> c in distinct
    requires (exists i :: 0 <= i < |kept| && HasChanged(kept[i])) || kept == []
    requires (exists i :: 0 <= i < |kept| && !HasChanged(kept[i])) || kept == []
    ensures Mixed(clauses)
  {
    assert ClauseKey(distinct[0]) in ClauseKeys(kept);
    var i :| 0 <= i < |kept| && HasChanged(kept[i]);
    var j :| 0 <= j < |kept| && !HasChanged(kept[j]);
    var i' := GivenAs(clauses, distinct, kept[i]);
    var j' := GivenAs(clauses, distinct, kept[j]);
    assert HasChanged(clauses[i']) && !HasChanged(clauses[j']);
  }

  /** Every given clause has a kept one of its mode. */
  lemma KeptAs(signals: seq<SignalInfo>, clauses: seq<Clause>, distinct: seq<Clause>, kept: seq<Clause>, i: nat)
    returns (k: nat)
    requires Thinned(distinct, clauses) && Covers(kept, distinct) && i < |clauses|
    requires forall j :: 0 <= j < |distinct| ==> ResolvedClause(signals, distinct[j])
    requires forall j :: 0 <= j < |kept| ==> ResolvedClause(signals, kept[j])
    ensures k < |kept| && (HasChanged(kept[k]) <==> HasChanged(clauses[i]))
  {
    assert ClauseKey(distinct[i]) in ClauseKeys(kept);
    k :| 0 <= k < |kept| && ClauseKeys(kept)[k] == ClauseKey(distinct[i]);
    forall c ensures c in distinct[i] <==> c in kept[k] {
      if c in distinct[i] {
        SameKeySameTerms(signals, distinct[i], kept[k], c);
      }
      if c in kept[k] {
        SameKeySameTerms(signals, kept[k], distinct[i], c);
      }
    }
    assert SameTerms(clauses[i], distinct[i]);
    ThinnedMode(distinct[i], kept[k]);
    ThinnedMode(clauses[i], distinct[i]);
  }

  /** If all kept clauses are of one mode, so are the given ones. */
  lemma OneModeGiven(signals: seq<SignalInfo>, clauses: seq<Clause>, distinct: seq<Clause>, kept: seq<Clause>)
    requires Thinned(distinct, clauses) && Covers(kept, distinct)
    requires forall j :: 0 <= j < |distinct| ==> ResolvedClause(signals, distinct[j])
    requires forall j :: 0 <= j < |kept| ==> ResolvedClause(signals, kept[j])
    requires forall i, j :: 0 <= i < |kept| && 0 <= j < |kept| ==> (HasChanged(kept[i]) <==> HasChanged(kept[j]))
    ensures !Mixed(clauses)
  {
    forall i, j | 0 <= i < |clauses| && 0 <= j < |clauses|
      ensures HasChanged(clauses[i]) <==> HasChanged(clauses[j])
    {
      var k := KeptAs(signals, clauses, distinct, kept, i);
      var l := KeptAs(signals, clauses, distinct, kept, j);
    }
  }

  // ----- what a search asks of a state -----

  function Shown(signals: seq<SignalInfo>, state: State, s: nat): (string, string) {
    if s < |signals| then
      (signals[s].path, if s in state then Display.FmtVal(state[s], signals[s].kind, signals[s].width) else "(undef)")
    else ("", "(undef)")
  }

  function ShowValues(signals: seq<SignalInfo>, show: seq<nat>, state: State): Values {
    seq(|show|, i requires 0 <= i < |show| => Shown(signals, state, show[i]))
  }

  function ShowMeta(signals: seq<SignalInfo>, show: seq<nat>, state: State): seq<Meta> {
    seq(|show|, i requires 0 <= i < |show| =>
      if show[i] < |signals| then Meta(signals[show[i]].path, RawOf(state, show[i]), signals[show[i]].width)
      else Meta("", None, 0))
  }

  function QueryOf(signals: seq<SignalInfo>, s: Setup): Query {
    Query((state: State, changed: set<nat>) => AnyClauseHolds(state, changed, s.clauses),
          (state: State) => ShowValues(signals, s.show, state),
          (state: State) => ShowMeta(signals, s.show, state),
          (r: nat) => r < |signals| && signals[r].kind == EventKind,
          s.show != [], s.t0, s.t1, s.limit, s.verbose)
  }

  lemma SpanQuery(signals: seq<SignalInfo>, s: Setup)
    requires s.t0 <= s.t1
    ensures Intervals.Wellformed(QueryOf(signals, s))
  {
    forall state: State ensures s.show == [] ==> ShowValues(signals, s.show, state) == [] {}
  }

  lemma EventQuery(signals: seq<SignalInfo>, s: Setup)
    requires s.t0 <= s.t1 && EventMode(s)
    ensures EventSearch.Wellformed(QueryOf(signals, s))
  {
    forall state: State ensures !AnyClauseHolds(state, {}, s.clauses) {
      forall i | 0 <= i < |s.clauses| ensures !ClauseHolds(state, {}, s.clauses[i]) {
        var j :| 0 <= j < |s.clauses[i]| && s.clauses[i][j].term.Changed?;
        assert !TermHolds(state, {}, s.clauses[i][j]);
      }
    }
  }

  // ----- the two searches -----

  /** Interval and segment mode: replay the selected signals from tick 0 and
      collect the rows.  `calls` is the replay. */
  method SearchSpans(w: Wave<string>, s: Setup, sel: seq<nat>)
    returns (rows: seq<Intervals.Row>, total: nat, truncated: bool, calls: seq<Emit<string>>)
    requires w.Valid() && w.Known(sel) && Distinct(sel) && s.t0 <= s.t1
    modifies w`traces
    ensures w.Valid()
    ensures IsReplay(w.Sources(sel), w.Decl(), 0, Some(s.t1), calls) && w.Sources(sel).Keys == (set r | r in sel)
    ensures InOrder(SamplesOf(calls)) && Intervals.Wellformed(QueryOf(w.signals, s))
    ensures var all := Intervals.AllRows(QueryOf(w.signals, s), SamplesOf(calls));
            && rows == Limited(all, s.limit)
            && (truncated <==> s.limit != 0 && |all| > s.limit)
            && total == |rows| + if truncated then 1 else 0
  {
    calls := Calls(w, s.t1, sel);
    SpanQuery(w.signals, s);
    rows, total, truncated := Intervals.SearchIntervals(QueryOf(w.signals, s), SamplesOf(calls));
  }

  /** Event mode. */
  method SearchTicks(w: Wave<string>, s: Setup, sel: seq<nat>)
    returns (events: seq<EventSearch.Ev>, total: nat, truncated: bool, calls: seq<Emit<string>>)
    requires w.Valid() && w.Known(sel) && Distinct(sel) && s.t0 <= s.t1 && EventMode(s)
    modifies w`traces
    ensures w.Valid()
    ensures IsReplay(w.Sources(sel), w.Decl(), 0, Some(s.t1), calls) && w.Sources(sel).Keys == (set r | r in sel)
    ensures InOrder(SamplesOf(calls)) && EventSearch.Wellformed(QueryOf(w.signals, s))
    ensures var all := EventSearch.AllEvents(QueryOf(w.signals, s), SamplesOf(calls));
            && events == Limited(all, s.limit)
            && (truncated <==> s.limit != 0 && |all| > s.limit)
            && total == |events| + if truncated then 1 else 0
  {
    calls := Calls(w, s.t1, sel);
    EventQuery(w.signals, s);
    events, total, truncated := EventSearch.SearchEvents(QueryOf(w.signals, s), SamplesOf(calls));
  }

  method Calls(w: Wave<string>, t1: int, sel: seq<nat>) returns (calls: seq<Emit<string>>)
    requires w.Valid() && w.Known(sel) && Distinct(sel)
    modifies w`traces
    ensures w.Valid()
    ensures IsReplay(w.Sources(sel), w.Decl(), 0, Some(t1), calls) && w.Sources(sel).Keys == (set r | r in sel)
    ensures InOrder(SamplesOf(calls)) && forall i :: 0 <= i < |calls| ==> SamplesOf(calls)[i].tick <= t1
  {
    w.EnsureLoaded(sel);
    calls := w.ForEachEvent(0, Some(t1), Some(sel));
    ReplayInOrder(w.Sources(sel), w.Decl(), t1, calls);
  }
}
