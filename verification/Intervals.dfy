/** Interval and segment search: the spans where a condition holds. */
module Intervals {
  import opened Wrappers
  import opened SearchState

  datatype Row = Row(begin: int, end: int, values: Option<Values>, meta: Option<seq<Meta>>)

  /** The window is not reversed, and without `--show` nothing is displayed. */
  ghost predicate Wellformed(q: Query) {
    q.t0 <= q.t1 && (!q.hasShow ==> forall s :: q.shown(s) == [])
  }

  /** What a search can tell apart in a state: whether the condition holds,
      and then the displayed tuple. */
  function Observed(q: Query, state: State): Option<Values>
  {
    if q.holds(state, {}) then Some(q.shown(state)) else None
  }

  function ObservedAt(q: Query, stream: seq<Sample>, t: int): Option<Values>
    requires Wellformed(q) && InOrder(stream)
  {
    Observed(q, StateAt(stream, t))
  }

  /** The row for a span: it shows what was displayed when it began. */
  function RowFor(q: Query, stream: seq<Sample>, begin: int, end: int): Row
    requires Wellformed(q) && InOrder(stream)
  {
    Row(begin, end,
        if q.hasShow then Some(q.shown(StateAt(stream, begin))) else None,
        if q.hasShow && q.verbose then Some(q.details(StateAt(stream, begin))) else None)
  }

  // ----- the reference: look at every tick -----

  /** Closed rows so far, and where the open one began. */
  datatype Scan = Scan(rows: seq<Row>, start: Option<int>)

  /** Looking at `t0`, then at one tick after another up to `t`: whenever the
      observation differs from the tick before, an open row ends and, if the
      condition holds, a new one begins. */
  ghost function ScanTo(q: Query, stream: seq<Sample>, t: int): Scan
    requires Wellformed(q) && InOrder(stream) && q.t0 <= t
    decreases t - q.t0
  {
    if t == q.t0 then Scan([], Begin(q, stream, t))
    else Step(q, stream, ScanTo(q, stream, t - 1), t)
  }

  ghost function Begin(q: Query, stream: seq<Sample>, t: int): Option<int>
    requires Wellformed(q) && InOrder(stream)
  {
    if ObservedAt(q, stream, t).Some? then Some(t) else None
  }

  ghost function Step(q: Query, stream: seq<Sample>, before: Scan, t: int): Scan
    requires Wellformed(q) && InOrder(stream)
  {
    if ObservedAt(q, stream, t) == ObservedAt(q, stream, t - 1) then before
    else Scan(Closed(q, stream, before, t), Begin(q, stream, t))
  }

  ghost function Closed(q: Query, stream: seq<Sample>, scan: Scan, t: int): seq<Row>
    requires Wellformed(q) && InOrder(stream)
  {
    if scan.start.Some? then scan.rows + [RowFor(q, stream, scan.start.value, t)] else scan.rows
  }

  /** All rows of `[t0, t1]`: the scan to `t1`, with the open row ended there.
      A window of no length has none. */
  ghost function AllRows(q: Query, stream: seq<Sample>): seq<Row>
    requires Wellformed(q) && InOrder(stream)
  {
    if q.t0 == q.t1 then [] else Closed(q, stream, ScanTo(q, stream, q.t1), q.t1)
  }

  // ----- facts about the reference -----

  lemma StandStill(q: Query, stream: seq<Sample>, t: int)
    requires Wellformed(q) && InOrder(stream) && q.t0 < t
    requires StateAt(stream, t) == StateAt(stream, t - 1)
    ensures ScanTo(q, stream, t) == ScanTo(q, stream, t - 1)
  {}

  /** While no sample arrives, the scan stands still. */
  lemma {:induction false} ScanQuiet(q: Query, stream: seq<Sample>, t: int, u: int)
    requires Wellformed(q) && InOrder(stream) && q.t0 <= t <= u
    requires Quiet(stream, t, u)
    ensures ScanTo(q, stream, u) == ScanTo(q, stream, t)
    decreases u - t
  {
    if t < u {
      ScanQuiet(q, stream, t, u - 1);
      QuietTick(q, stream, u);
    }
  }

  lemma QuietTick(q: Query, stream: seq<Sample>, t: int)
    requires Wellformed(q) && InOrder(stream) && q.t0 < t && Quiet(stream, t - 1, t)
    ensures ScanTo(q, stream, t) == ScanTo(q, stream, t - 1)
  {
    StateQuiet(stream, t - 1, t);
    StandStill(q, stream, t);
  }

  lemma StepGrows(q: Query, stream: seq<Sample>, before: Scan, t: int)
    requires Wellformed(q) && InOrder(stream)
    ensures before.rows <= Step(q, stream, before, t).rows
  {}

  /** Rows are only ever added. */
  lemma {:induction false} RowsGrow(q: Query, stream: seq<Sample>, t: int, u: int)
    requires Wellformed(q) && InOrder(stream) && q.t0 <= t <= u
    ensures ScanTo(q, stream, t).rows <= ScanTo(q, stream, u).rows
    decreases u - t
  {
    if t < u {
      RowsGrow(q, stream, t, u - 1);
      StepGrows(q, stream, ScanTo(q, stream, u - 1), u);
    }
  }

  lemma RowsWithinAll(q: Query, stream: seq<Sample>, t: int)
    requires Wellformed(q) && InOrder(stream) && q.t0 <= t <= q.t1 && q.t0 < q.t1
    ensures ScanTo(q, stream, t).rows <= AllRows(q, stream)
  {
    RowsGrow(q, stream, t, q.t1);
  }

  /** The open row began when the present observation was first made. */
  lemma {:induction false} OpenSince(q: Query, stream: seq<Sample>, t: int)
    requires Wellformed(q) && InOrder(stream) && q.t0 <= t
    ensures var start := ScanTo(q, stream, t).start;
            && (start.Some? <==> ObservedAt(q, stream, t).Some?)
            && (start.Some? ==>
                  && q.t0 <= start.value <= t
                  && forall u :: start.value <= u <= t ==> ObservedAt(q, stream, u) == ObservedAt(q, stream, t))
    decreases t - q.t0
  {
    if q.t0 < t {
      OpenSince(q, stream, t - 1);
    }
  }

  // ----- the collector -----

  /** The state of a collection, without the group being gathered. */
  datatype Progress = Progress(state: State, active: bool, segStart: int, segValues: Option<Values>,
                               segMeta: Option<seq<Meta>>, results: seq<Row>, total: nat, truncated: bool)

  ghost predicate Standing(q: Query, p: Progress, stream: seq<Sample>, t: int)
    requires Wellformed(q) && InOrder(stream) && q.t0 <= t
  {
    var scan := ScanTo(q, stream, t);
    && p.state == StateAt(stream, t)
    && !p.truncated
    && p.results == scan.rows && p.total == |p.results|
    && (q.limit == 0 || |p.results| <= q.limit)
    && Remembers(q, p, stream, scan.start)
  }

  ghost predicate Remembers(q: Query, p: Progress, stream: seq<Sample>, start: Option<int>)
    requires Wellformed(q) && InOrder(stream)
  {
    && (p.active <==> start.Some?)
    && (p.active ==> p.segStart == start.value)
    && (p.active && q.hasShow ==> p.segValues == Some(q.shown(StateAt(stream, p.segStart))))
    && (p.active && q.hasShow && q.verbose ==> p.segMeta == Some(q.details(StateAt(stream, p.segStart))))
    && (!(q.hasShow && q.verbose) ==> p.segMeta == None)
  }

  /** The state of the event-driven collection. */
  class Collector {
    const q: Query
    var state: State
    var active: bool
    var segStart: int
    var segValues: Option<Values>
    var segMeta: Option<seq<Meta>>
    var results: seq<Row>
    var total: nat
    var truncated: bool
    var initDone: bool
    var curT: Option<int>
    var group: seq<Sample>

    constructor (q: Query)
      ensures this.q == q && !initDone && curT == None && group == []
      ensures state == map[] && !active && segMeta == None && results == [] && total == 0 && !truncated
    {
      this.q := q;
      state := map[];
      active := false;
      segStart := 0;
      segValues := None;
      segMeta := None;
      results := [];
      total := 0;
      truncated := false;
      initDone := false;
      curT := None;
      group := [];
    }

    /** What has been collected so far, and what is remembered of the open row. */
    function Now(): Progress
      reads this`state, this`active, this`segStart, this`segValues, this`segMeta
      reads this`results, this`total, this`truncated
    {
      Progress(state, active, segStart, segValues, segMeta, results, total, truncated)
    }

    /** The collection stands where the reference scan stands at `t`. */
    ghost predicate At(stream: seq<Sample>, t: int)
      requires Wellformed(q) && InOrder(stream) && q.t0 <= t
      reads this`state, this`active, this`segStart, this`segValues, this`segMeta
      reads this`results, this`total, this`truncated
    {
      Standing(q, Now(), stream, t)
    }

    /** What is remembered of the open row. */
    ghost predicate Holding(stream: seq<Sample>, start: Option<int>)
      requires Wellformed(q) && InOrder(stream)
      reads this`state, this`active, this`segStart, this`segValues, this`segMeta
      reads this`results, this`total, this`truncated
    {
      Remembers(q, Now(), stream, start)
    }

    /** The collection stopped at the limit although the reference has more. */
    ghost predicate Cut(stream: seq<Sample>)
      requires Wellformed(q) && InOrder(stream)
      reads this`results, this`total, this`truncated
    {
      && truncated && q.limit != 0 && |results| == q.limit && total == q.limit + 1
      && results <= AllRows(q, stream) && q.limit < |AllRows(q, stream)|
    }

    /** Begins a row at `t` in the present state. */
    method Open(t: int)
      requires Wellformed(q)
      modifies this`active, this`segStart, this`segValues, this`segMeta
      ensures active && segStart == t
      ensures q.hasShow ==> segValues == Some(q.shown(state))
      ensures segMeta == if q.hasShow && q.verbose then Some(q.details(state)) else None
    {
      active, segStart := true, t;
      segValues, segMeta := None, None;
      if q.hasShow {
        segValues := Some(q.shown(state));
        if q.verbose {
          segMeta := Some(q.details(state));
        }
      }
    }

    /** Counts the open row, ended at `t`, and keeps it if the limit allows. */
    method Append(t: int)
      requires Wellformed(q) && !truncated
      modifies this`results, this`total, this`truncated
      ensures total == old(total) + 1
      ensures truncated <==> q.limit != 0 && old(|results|) >= q.limit
      ensures results ==
              if truncated then old(results)
              else old(results) + [Row(segStart, t, if q.hasShow then segValues else None,
                                       if q.hasShow then segMeta else None)]
    {
      total := total + 1;
      if q.limit != 0 && |results| >= q.limit {
        truncated := true;
      } else {
        results := results + [Row(segStart, t, if q.hasShow then segValues else None,
                                  if q.hasShow then segMeta else None)];
      }
    }

    /** The check at `t0`, on the state that includes changes at `t0` itself. */
    method InitCheck(ghost stream: seq<Sample>)
      requires Wellformed(q) && InOrder(stream)
      requires state == StateAt(stream, q.t0) && !active && results == [] && total == 0 && !truncated
      requires segMeta == None
      modifies this`active, this`segStart, this`segValues, this`segMeta
      ensures At(stream, q.t0)
    {
      var ok := q.holds(state, {});
      if ok {
        Open(q.t0);
      }
    }

    method Apply(group: seq<Sample>)
      modifies this`state
      ensures state == Applied(old(state), group)
    {
      for i := 0 to |group|
        invariant state == Applied(old(state), group[..i])
      {
        assert group[..i + 1][..i] == group[..i];
        state := state[group[i].sid := group[i].raw];
      }
      assert group[..|group|] == group;
    }

    /** The group of samples at tick `t` is complete: update the state and
        compare with the open row. */
    method EndGroup(ghost stream: seq<Sample>, group: seq<Sample>, t: int)
      requires Wellformed(q) && InOrder(stream) && q.t0 < t <= q.t1
      requires At(stream, t - 1) && Applied(state, group) == StateAt(stream, t)
      modifies this`state, this`active, this`segStart, this`segValues, this`segMeta,
               this`results, this`total, this`truncated
      ensures At(stream, t) || Cut(stream)
    {
      Apply(group);
      if q.hasShow {
        EndSegment(stream, t);
      } else {
        EndSpan(stream, t);
      }
    }

    /** The state is that of tick `t`; everything else still stands before it. */
    ghost predicate Moved(stream: seq<Sample>, t: int)
      requires Wellformed(q) && InOrder(stream) && q.t0 < t
      reads this`state, this`active, this`segStart, this`segValues, this`segMeta
      reads this`results, this`total, this`truncated
    {
      state == StateAt(stream, t) && Standing(q, Now().(state := StateAt(stream, t - 1)), stream, t - 1)
    }

    /** Without displayed signals only holding or not matters. */
    method EndSpan(ghost stream: seq<Sample>, t: int)
      requires Wellformed(q) && InOrder(stream) && q.t0 < t <= q.t1 && Moved(stream, t) && !q.hasShow
      modifies this`active, this`segStart, this`segValues, this`segMeta, this`results, this`total, this`truncated
      ensures At(stream, t) || Cut(stream)
    {
      var ok := q.holds(state, {});
      OpenSince(q, stream, t - 1);
      if ok && !active {
        Open(t);
      } else if !ok && active {
        Close(stream, t);
      }
    }

    /** With displayed signals a new tuple starts a new segment. */
    method EndSegment(ghost stream: seq<Sample>, t: int)
      requires Wellformed(q) && InOrder(stream) && q.t0 < t <= q.t1 && Moved(stream, t) && q.hasShow
      modifies this`active, this`segStart, this`segValues, this`segMeta, this`results, this`total, this`truncated
      ensures At(stream, t) || Cut(stream)
    {
      var ok := q.holds(state, {});
      OpenSince(q, stream, t - 1);
      assert active ==> ObservedAt(q, stream, segStart) == ObservedAt(q, stream, t - 1);
      if !ok {
        if active {
          Close(stream, t);
        }
      } else {
        var newValues := q.shown(state);
        if !active {
          Open(t);
        } else if Some(newValues) != segValues {
          Close(stream, t);
          if truncated {
            return;
          }
          Open(t);
        }
      }
    }

    /** The open row ends at `t`. */
    method Close(ghost stream: seq<Sample>, t: int)
      requires Wellformed(q) && InOrder(stream) && q.t0 < t <= q.t1
      requires !truncated && active && total == |results| && (q.limit == 0 || |results| <= q.limit)
      requires results == ScanTo(q, stream, t - 1).rows
      requires Holding(stream, ScanTo(q, stream, t - 1).start)
      requires ObservedAt(q, stream, t) != ObservedAt(q, stream, t - 1)
      modifies this`active, this`segStart, this`segValues, this`segMeta, this`results, this`total, this`truncated
      ensures truncated ==> Cut(stream)
      ensures !truncated ==> !active && segMeta == None && results == ScanTo(q, stream, t).rows
      ensures !truncated ==> total == |results| && (q.limit == 0 || |results| <= q.limit)
    {
      RowsWithinAll(q, stream, t);
      Append(t);
      if !truncated {
        active, segValues, segMeta := false, None, None;
      }
    }

    /** Where no sample arrives, standing at `t` is standing at `u`. */
    lemma Coast(stream: seq<Sample>, t: int, u: int)
      requires Wellformed(q) && InOrder(stream) && q.t0 <= t <= u
      requires At(stream, t) && Quiet(stream, t, u)
      ensures At(stream, u)
    {
      ScanQuiet(q, stream, t, u);
      StateQuiet(stream, t, u);
    }

    // ----- sample by sample -----

    /** So far every sample was part of the baseline at `t0`. */
    ghost predicate Baseline(stream: seq<Sample>, i: nat)
      requires i <= |stream|
      reads this
    {
      && !initDone && curT == None && group == []
      && state == After(stream[..i])
      && !active && segMeta == None && results == [] && total == 0 && !truncated
      && forall k :: 0 <= k < i ==> stream[k].tick <= q.t0
    }

    /** The group at `curT` is being gathered; the collection stands just
        before it. */
    ghost predicate Gathering(stream: seq<Sample>, i: nat)
      requires Wellformed(q) && InOrder(stream) && i <= |stream|
      reads this
    {
      && initDone
      && curT.Some? && q.t0 < curT.value <= q.t1
      && Gathered(stream, group, curT.value, i)
      && At(stream, curT.value - 1)
    }

    /** Checks at `t0`, and stands just before sample `i`. */
    method CatchUp(stream: seq<Sample>, i: nat, u: int)
      requires Wellformed(q) && InOrder(stream) && i <= |stream| && q.t0 <= u
      requires Baseline(stream, i) && forall k :: i <= k < |stream| ==> u < stream[k].tick
      modifies this`active, this`segStart, this`segValues, this`segMeta
      ensures At(stream, u)
    {
      StateAtBoundary(stream, q.t0, i);
      InitCheck(stream);
      Coast(stream, q.t0, u);
    }

    /** The first sample after `t0` has arrived. */
    method Begin(stream: seq<Sample>, i: nat)
      requires Wellformed(q) && InOrder(stream) && i < |stream| && q.t0 < stream[i].tick <= q.t1
      requires Baseline(stream, i)
      modifies this
      ensures Gathering(stream, i) && group == [] && curT == Some(stream[i].tick)
    {
      CatchUp(stream, i, stream[i].tick - 1);
      initDone := true;
      StartGroup(stream, i);
    }

    /** Sample `i` starts a group. */
    method StartGroup(stream: seq<Sample>, i: nat)
      requires Wellformed(q) && InOrder(stream) && i < |stream| && q.t0 < stream[i].tick <= q.t1
      requires initDone && At(stream, stream[i].tick - 1)
      requires forall k :: 0 <= k < i ==> stream[k].tick < stream[i].tick
      modifies this`curT, this`group
      ensures Gathering(stream, i) && group == [] && curT == Some(stream[i].tick)
    {
      GatheredStart(stream, stream[i].tick, i);
      curT, group := Some(stream[i].tick), [];
    }

    /** The gathered group is complete: nothing more arrives up to `u`. */
    method Turn(ghost stream: seq<Sample>, ghost i: nat, ghost u: int)
      requires Wellformed(q) && InOrder(stream) && i <= |stream|
      requires Gathering(stream, i) && group != [] && curT.value <= u
      requires forall k :: i <= k < |stream| ==> u < stream[k].tick
      modifies this`state, this`active, this`segStart, this`segValues, this`segMeta,
               this`results, this`total, this`truncated
      ensures At(stream, u) || Cut(stream)
    {
      var t := curT.value;
      GroupReady(stream, group, i, t, u);
      EndGroup(stream, group, t);
      if !truncated {
        Coast(stream, t, u);
      }
    }

    method Push(stream: seq<Sample>, i: nat)
      requires Wellformed(q) && InOrder(stream) && i < |stream|
      requires Gathering(stream, i) && curT == Some(stream[i].tick)
      modifies this`group
      ensures Gathering(stream, i + 1) && group != []
    {
      ghost var t := stream[i].tick;
      GatheredMore(stream, group, t, i);
      group := group + [stream[i]];
      assert At(stream, t - 1);
    }

    /** One sample of the stream. */
    method OnSample(stream: seq<Sample>, i: nat)
      requires Wellformed(q) && InOrder(stream) && i < |stream| && stream[i].tick <= q.t1
      requires Baseline(stream, i) || (Gathering(stream, i) && group != [])
      modifies this
      ensures Cut(stream) || Baseline(stream, i + 1) || (Gathering(stream, i + 1) && group != [])
    {
      var Sample(t, sid, raw) := stream[i];
      if t <= q.t0 {
        AfterStep(stream, i);
        state := state[sid := raw];
        return;
      }
      if !initDone {
        Begin(stream, i);
      }
      if Some(t) != curT {
        Later(stream, i);
        if truncated {
          return;
        }
      }
      Push(stream, i);
    }

    /** Sample `i` belongs to a later tick than the gathered group. */
    method Later(stream: seq<Sample>, i: nat)
      requires Wellformed(q) && InOrder(stream) && i < |stream| && stream[i].tick <= q.t1
      requires Gathering(stream, i) && group != [] && curT != Some(stream[i].tick)
      modifies this
      ensures Cut(stream) || (Gathering(stream, i) && group == [] && curT == Some(stream[i].tick))
    {
      var t := stream[i].tick;
      GatheredNext(stream, group, curT.value, i);
      Turn(stream, i, t - 1);
      if !truncated {
        StartGroup(stream, i);
      }
    }

    /** The end of the stream: the check at `t0` if it is still due, the last
        group, and the row still open. */
    method OnEnd(stream: seq<Sample>)
      requires Wellformed(q) && InOrder(stream)
      requires forall k :: 0 <= k < |stream| ==> stream[k].tick <= q.t1
      requires Cut(stream) || Baseline(stream, |stream|) || (Gathering(stream, |stream|) && group != [])
      modifies this
      ensures Cut(stream) || (!truncated && results == AllRows(q, stream) && total == |results|)
      ensures q.limit == 0 || |results| <= q.limit
    {
      if !initDone && !truncated && q.t0 < q.t1 {
        CatchUp(stream, |stream|, q.t1);
      }
      if group != [] && !truncated {
        Turn(stream, |stream|, q.t1);
      }
      if active && !truncated {
        Append(q.t1);
      }
    }
  }

  /** Collects the intervals (or, with displayed signals, the segments) of the
      window from the replayed samples.  The rows are the beginning of what
      looking at every single tick yields, cut exactly at the limit. */
  method SearchIntervals(q: Query, stream: seq<Sample>) returns (rows: seq<Row>, total: nat, truncated: bool)
    requires Wellformed(q) && InOrder(stream)
    requires forall i :: 0 <= i < |stream| ==> stream[i].tick <= q.t1
    ensures rows == Limited(AllRows(q, stream), q.limit)
    ensures truncated <==> q.limit != 0 && |AllRows(q, stream)| > q.limit
    ensures total == |rows| + if truncated then 1 else 0
  {
    var c := new Collector(q);
    var i := 0;
    while i < |stream| && !c.truncated
      invariant 0 <= i <= |stream| && c.q == q && fresh(c)
      invariant c.Cut(stream) || c.Baseline(stream, i) || (c.Gathering(stream, i) && c.group != [])
    {
      c.OnSample(stream, i);
      i := i + 1;
    }
    c.OnEnd(stream);
    rows, total, truncated := c.results, c.total, c.truncated;
  }
}
