/** Event search: the ticks at which signals change while a condition holds. */
module EventSearch {
  import opened Wrappers
  import opened SearchState

  datatype Ev = Ev(tick: int, values: Values, meta: Option<seq<Meta>>)

  /** The window is not reversed, and a condition needs some change. */
  ghost predicate Wellformed(q: Query) {
    q.t0 <= q.t1 && forall s :: !q.holds(s, {})
  }

  /** Whether a sample at tick `t` counts as a change of its signal, given the
      state before `t`. */
  predicate Transitions(q: Query, before: State, t: int, x: Sample) {
    if t == 0 && x.sid !in before then false
    else if q.isEvent(x.sid) then true
    else if x.sid !in before then false
    else before[x.sid] != x.raw
  }

  function ChangedBy(q: Query, before: State, t: int, group: seq<Sample>): set<nat> {
    set i | 0 <= i < |group| && Transitions(q, before, t, group[i]) :: group[i].sid
  }

  // ----- the reference: look at every tick -----

  /** The signals that change at `t`: those with a sample at `t` that counts
      against the state just before. */
  ghost function ChangedAt(q: Query, stream: seq<Sample>, t: int): set<nat>
    requires InOrder(stream)
  {
    set i | 0 <= i < |stream| && stream[i].tick == t && Transitions(q, StateAt(stream, t - 1), t, stream[i])
      :: stream[i].sid
  }

  /** Some clause has all its changes at `t` and its levels right after. */
  ghost predicate Fires(q: Query, stream: seq<Sample>, t: int)
    requires InOrder(stream)
  {
    q.holds(StateAt(stream, t), ChangedAt(q, stream, t))
  }

  function EvFor(q: Query, stream: seq<Sample>, t: int): Ev
    requires InOrder(stream)
  {
    Ev(t, q.shown(StateAt(stream, t)), if q.verbose then Some(q.details(StateAt(stream, t))) else None)
  }

  /** The events found by looking at `t0`, `t0 + 1`, ... up to `t`. */
  ghost function FiredTo(q: Query, stream: seq<Sample>, t: int): seq<Ev>
    requires InOrder(stream)
    decreases t - q.t0
  {
    if t < q.t0 then []
    else FiredTo(q, stream, t - 1) + if Fires(q, stream, t) then [EvFor(q, stream, t)] else []
  }

  ghost function AllEvents(q: Query, stream: seq<Sample>): seq<Ev>
    requires InOrder(stream)
  {
    FiredTo(q, stream, q.t1)
  }

  // ----- facts about the reference -----

  lemma NothingFires(q: Query, stream: seq<Sample>, t: int)
    requires Wellformed(q) && InOrder(stream) && Quiet(stream, t - 1, t)
    ensures !Fires(q, stream, t)
  {
    assert ChangedAt(q, stream, t) == {};
  }

  /** Where no sample arrives, nothing fires. */
  lemma {:induction false} FiredQuiet(q: Query, stream: seq<Sample>, t: int, u: int)
    requires Wellformed(q) && InOrder(stream) && q.t0 - 1 <= t <= u && Quiet(stream, t, u)
    ensures FiredTo(q, stream, u) == FiredTo(q, stream, t)
    decreases u - t
  {
    if t < u {
      NothingFires(q, stream, u);
      FiredQuiet(q, stream, t, u - 1);
    }
  }

  lemma {:induction false} FiredGrows(q: Query, stream: seq<Sample>, t: int, u: int)
    requires InOrder(stream) && q.t0 - 1 <= t <= u
    ensures FiredTo(q, stream, t) <= FiredTo(q, stream, u)
    decreases u - t
  {
    if t < u {
      FiredGrows(q, stream, t, u - 1);
    }
  }

  /** A complete group contains exactly the samples at its tick. */
  lemma GroupChanges(q: Query, stream: seq<Sample>, g: nat, i: nat, t: int)
    requires InOrder(stream) && GroupAt(stream, g, i, t)
    requires i == |stream| || t < stream[i].tick
    ensures ChangedBy(q, StateAt(stream, t - 1), t, stream[g..i]) == ChangedAt(q, stream, t)
  {
    var before, group := StateAt(stream, t - 1), stream[g..i];
    forall s | s in ChangedAt(q, stream, t)
      ensures s in ChangedBy(q, before, t, group)
    {
      var k :| 0 <= k < |stream| && stream[k].tick == t && Transitions(q, before, t, stream[k]) && stream[k].sid == s;
      assert g <= k < i;
      assert group[k - g] == stream[k];
    }
    forall s | s in ChangedBy(q, before, t, group)
      ensures s in ChangedAt(q, stream, t)
    {
      var k :| 0 <= k < |group| && Transitions(q, before, t, group[k]) && group[k].sid == s;
      assert stream[g + k] == group[k];
    }
  }

  // ----- the collector -----

  /** The state of the event-driven collection. */
  class Collector {
    const q: Query
    var state: State
    var events: seq<Ev>
    var total: nat
    var truncated: bool
    var curT: Option<int>
    var group: seq<Sample>

    constructor (q: Query)
      ensures this.q == q && state == map[] && curT == None && group == []
      ensures events == [] && total == 0 && !truncated
    {
      this.q := q;
      state := map[];
      events := [];
      total := 0;
      truncated := false;
      curT := None;
      group := [];
    }

    /** The collection stands where the reference stands at `t`. */
    ghost predicate At(stream: seq<Sample>, t: int)
      requires InOrder(stream)
      reads this`state, this`events, this`total, this`truncated
    {
      && state == StateAt(stream, t)
      && !truncated
      && events == FiredTo(q, stream, t) && total == |events|
      && (q.limit == 0 || |events| <= q.limit)
    }

    /** The collection stopped at the limit although the reference has more. */
    ghost predicate Cut(stream: seq<Sample>)
      requires InOrder(stream)
      reads this`events, this`total, this`truncated
    {
      && truncated && q.limit != 0 && |events| == q.limit && total == q.limit + 1
      && events <= AllEvents(q, stream) && q.limit < |AllEvents(q, stream)|
    }

    /** So far every sample came before `t0`. */
    ghost predicate Baseline(stream: seq<Sample>, i: nat)
      requires i <= |stream|
      reads this
    {
      && curT == None && group == []
      && state == After(stream[..i])
      && events == [] && total == 0 && !truncated
      && forall k :: 0 <= k < i ==> stream[k].tick < q.t0
    }

    /** The group at `curT` is being gathered. */
    ghost predicate Gathering(stream: seq<Sample>, i: nat)
      requires InOrder(stream) && i <= |stream|
      reads this
    {
      && curT.Some? && q.t0 <= curT.value <= q.t1
      && Gathered(stream, group, curT.value, i)
      && At(stream, curT.value - 1)
    }

    lemma Coast(stream: seq<Sample>, t: int, u: int)
      requires Wellformed(q) && InOrder(stream) && q.t0 - 1 <= t <= u
      requires At(stream, t) && Quiet(stream, t, u)
      ensures At(stream, u)
    {
      FiredQuiet(q, stream, t, u);
      StateQuiet(stream, t, u);
    }

    /** Applies the group at tick `t` and says whether the search fires. */
    method ProcessGroup(t: int) returns (fired: bool)
      modifies this`state
      ensures state == Applied(old(state), group)
      ensures fired <==> q.holds(state, ChangedBy(q, old(state), t, group))
    {
      ghost var before := state;
      var changed: set<nat> := {};
      for i := 0 to |group|
        invariant state == before
        invariant changed == ChangedBy(q, state, t, group[..i])
      {
        ChangedByStep(q, state, t, group, i);
        if Transitions(q, state, t, group[i]) {
          changed := changed + {group[i].sid};
        }
      }
      assert group[..|group|] == group;
      for i := 0 to |group|
        invariant state == Applied(before, group[..i])
      {
        assert group[..i + 1][..i] == group[..i];
        state := state[group[i].sid := group[i].raw];
      }
      assert group[..|group|] == group;
      fired := q.holds(state, changed);
    }

    /** The gathered group is complete: nothing more arrives up to `u`. */
    method Turn(ghost stream: seq<Sample>, ghost i: nat, ghost u: int)
      requires Wellformed(q) && InOrder(stream) && i <= |stream|
      requires Gathering(stream, i) && group != [] && curT.value <= u
      requires forall k :: i <= k < |stream| ==> u < stream[k].tick
      modifies this`state, this`events, this`total, this`truncated
      ensures At(stream, u) || Cut(stream)
    {
      var t := curT.value;
      GroupReady(stream, group, i, t, u);
      GroupChanges(q, stream, i - |group|, i, t);
      EndGroup(stream, t);
      if !truncated {
        Coast(stream, t, u);
      }
    }

    /** The group of samples at tick `t` is complete. */
    method EndGroup(ghost stream: seq<Sample>, t: int)
      requires InOrder(stream) && q.t0 <= t <= q.t1 && At(stream, t - 1)
      requires Applied(state, group) == StateAt(stream, t)
      requires ChangedBy(q, state, t, group) == ChangedAt(q, stream, t)
      modifies this`state, this`events, this`total, this`truncated
      ensures At(stream, t) || Cut(stream)
    {
      FiredGrows(q, stream, t, q.t1);
      var fired := ProcessGroup(t);
      if fired {
        Emit(t);
      }
    }

    /** Counts one event and keeps it if the limit allows. */
    method Emit(t: int)
      requires !truncated
      modifies this`events, this`total, this`truncated
      ensures total == old(total) + 1
      ensures truncated <==> q.limit != 0 && old(|events|) >= q.limit
      ensures events == if truncated then old(events)
                        else old(events) + [Ev(t, q.shown(state), if q.verbose then Some(q.details(state)) else None)]
    {
      total := total + 1;
      if q.limit != 0 && |events| >= q.limit {
        truncated := true;
      } else {
        events := events + [Ev(t, q.shown(state), if q.verbose then Some(q.details(state)) else None)];
      }
    }

    /** The first sample of the window has arrived. */
    method Begin(stream: seq<Sample>, i: nat)
      requires Wellformed(q) && InOrder(stream) && i < |stream| && q.t0 <= stream[i].tick <= q.t1
      requires Baseline(stream, i)
      modifies this`curT
      ensures Gathering(stream, i) && group == [] && curT == Some(stream[i].tick)
    {
      StateAtBoundary(stream, q.t0 - 1, i);
      Coast(stream, q.t0 - 1, stream[i].tick - 1);
      GatheredStart(stream, stream[i].tick, i);
      curT := Some(stream[i].tick);
    }

    /** Sample `i` belongs to a later tick than the gathered group. */
    method Later(stream: seq<Sample>, i: nat)
      requires Wellformed(q) && InOrder(stream) && i < |stream| && stream[i].tick <= q.t1
      requires Gathering(stream, i) && group != [] && curT != Some(stream[i].tick)
      modifies this
      ensures Cut(stream) || (Gathering(stream, i) && group == [] && curT == Some(stream[i].tick))
    {
      var t := stream[i].tick;
      GatheredNext(stream, group, curT.value, i);
      Turn(stream, i, t - 1);
      if !truncated {
        curT, group := Some(t), [];
      }
    }

    method Push(stream: seq<Sample>, i: nat)
      requires InOrder(stream) && i < |stream|
      requires Gathering(stream, i) && curT == Some(stream[i].tick)
      modifies this`group
      ensures Gathering(stream, i + 1) && group != []
    {
      GatheredMore(stream, group, stream[i].tick, i);
      group := group + [stream[i]];
    }

    /** One sample of the stream. */
    method OnSample(stream: seq<Sample>, i: nat)
      requires Wellformed(q) && InOrder(stream) && i < |stream| && stream[i].tick <= q.t1
      requires Baseline(stream, i) || (Gathering(stream, i) && group != [])
      modifies this
      ensures Cut(stream) || Baseline(stream, i + 1) || (Gathering(stream, i + 1) && group != [])
    {
      var Sample(t, sid, raw) := stream[i];
      if t < q.t0 {
        AfterStep(stream, i);
        state := state[sid := raw];
        return;
      }
      if curT.None? {
        Begin(stream, i);
      }
      if Some(t) != curT {
        Later(stream, i);
        if truncated {
          return;
        }
      }
      Push(stream, i);
    }

    /** The end of the stream: the last group. */
    method OnEnd(stream: seq<Sample>)
      requires Wellformed(q) && InOrder(stream)
      requires forall k :: 0 <= k < |stream| ==> stream[k].tick <= q.t1
      requires Cut(stream) || Baseline(stream, |stream|) || (Gathering(stream, |stream|) && group != [])
      modifies this
      ensures Cut(stream) || (!truncated && events == AllEvents(q, stream) && total == |events|)
      ensures q.limit == 0 || |events| <= q.limit
    {
      if group != [] && !truncated {
        Turn(stream, |stream|, q.t1);
      } else if !truncated {
        FiredQuiet(q, stream, q.t0 - 1, q.t1);
      }
    }
  }

  lemma ChangedByStep(q: Query, before: State, t: int, group: seq<Sample>, i: nat)
    requires i < |group|
    ensures ChangedBy(q, before, t, group[..i + 1]) ==
            ChangedBy(q, before, t, group[..i]) + if Transitions(q, before, t, group[i]) then {group[i].sid} else {}
  {
    var less, more := group[..i], group[..i + 1];
    assert forall k :: 0 <= k < i ==> more[k] == less[k];
    assert more[i] == group[i];
  }

  /** Collects the events of the window from the replayed samples.  They are
      the beginning of what looking at every single tick yields, cut exactly at
      the limit. */
  method SearchEvents(q: Query, stream: seq<Sample>) returns (events: seq<Ev>, total: nat, truncated: bool)
    requires Wellformed(q) && InOrder(stream)
    requires forall i :: 0 <= i < |stream| ==> stream[i].tick <= q.t1
    ensures events == Limited(AllEvents(q, stream), q.limit)
    ensures truncated <==> q.limit != 0 && |AllEvents(q, stream)| > q.limit
    ensures total == |events| + if truncated then 1 else 0
  {
    var c := new Collector(q);
    var i := 0;
    while i < |stream| && !c.truncated
      invariant 0 <= i <= |stream| && c.q == q && fresh(c)
      invariant c.Cut(stream) || c.Baseline(stream, i) || (c.Gathering(stream, i) && c.group != [])
    {
      c.OnSample(stream, i);
      i := i + 1;
    }
    c.OnEnd(stream);
    events, total, truncated := c.events, c.total, c.truncated;
  }

  // ----- what the events are -----

  /** The events come in strictly increasing tick order, and a tick of the
      window has one exactly when the search fires there. */
  lemma {:induction false} EventsAreExact(q: Query, stream: seq<Sample>, t: int)
    requires InOrder(stream)
    ensures var evs := FiredTo(q, stream, t);
            && (forall i :: 0 <= i < |evs| ==> q.t0 <= evs[i].tick <= t && evs[i] == EvFor(q, stream, evs[i].tick))
            && (forall i, j :: 0 <= i < j < |evs| ==> evs[i].tick < evs[j].tick)
            && (forall u :: q.t0 <= u <= t ==> (Fires(q, stream, u) <==> EvFor(q, stream, u) in evs))
    decreases t - q.t0
  {
    if q.t0 <= t {
      EventsAreExact(q, stream, t - 1);
      var less, evs := FiredTo(q, stream, t - 1), FiredTo(q, stream, t);
      forall u | q.t0 <= u <= t
        ensures Fires(q, stream, u) <==> EvFor(q, stream, u) in evs
      {
        if u == t && !Fires(q, stream, t) {
          assert forall i :: 0 <= i < |less| ==> less[i].tick < t;
        }
      }
    }
  }
}
