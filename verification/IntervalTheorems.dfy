/** What the rows of an interval or segment search mean. */
module IntervalTheorems {
  import opened Wrappers
  import opened SearchState
  import opened Intervals

  /** The observation does not change on `[b, e)`, the condition holds there,
      and it was different just before, unless the window starts at `b`. */
  ghost predicate Steady(q: Query, stream: seq<Sample>, b: int, e: int)
    requires Wellformed(q) && InOrder(stream)
  {
    && q.t0 <= b && ObservedAt(q, stream, b).Some?
    && (forall u :: b <= u < e ==> ObservedAt(q, stream, u) == ObservedAt(q, stream, b))
    && (b == q.t0 || ObservedAt(q, stream, b - 1) != ObservedAt(q, stream, b))
  }

  /** A maximal span: it ends where the observation changes, or with the
      window.  A change exactly at `t1` also gives the empty span `[t1, t1)`. */
  ghost predicate Span(q: Query, stream: seq<Sample>, b: int, e: int)
    requires Wellformed(q) && InOrder(stream)
  {
    && q.t0 < q.t1 && b <= e <= q.t1 && Steady(q, stream, b, e)
    && (b == e ==> b == q.t1)
    && (e < q.t1 ==> ObservedAt(q, stream, e) != ObservedAt(q, stream, b))
  }

  /** A row for a span closed by a change of the observation. */
  ghost predicate ClosedSpan(q: Query, stream: seq<Sample>, r: Row)
    requires Wellformed(q) && InOrder(stream)
  {
    && r.begin < r.end && Steady(q, stream, r.begin, r.end)
    && ObservedAt(q, stream, r.end) != ObservedAt(q, stream, r.begin)
    && r == RowFor(q, stream, r.begin, r.end)
  }

  /** Rows do not overlap and come in order. */
  ghost predicate Ascending(rows: seq<Row>) {
    forall i, j :: 0 <= i < j < |rows| ==> rows[i].end <= rows[j].begin
  }

  /** Closed rows in order, all ended by `bound`. */
  ghost predicate RowsUpTo(q: Query, stream: seq<Sample>, rows: seq<Row>, bound: int)
    requires Wellformed(q) && InOrder(stream)
  {
    && Ascending(rows)
    && forall k :: 0 <= k < |rows| ==> ClosedSpan(q, stream, rows[k]) && rows[k].end <= bound
  }

  lemma RowsAppend(q: Query, stream: seq<Sample>, rows: seq<Row>, r: Row)
    requires Wellformed(q) && InOrder(stream)
    requires RowsUpTo(q, stream, rows, r.begin) && ClosedSpan(q, stream, r)
    ensures RowsUpTo(q, stream, rows + [r], r.end)
  {}

  lemma RowsLater(q: Query, stream: seq<Sample>, rows: seq<Row>, bound: int, later: int)
    requires Wellformed(q) && InOrder(stream) && bound <= later
    requires RowsUpTo(q, stream, rows, bound)
    ensures RowsUpTo(q, stream, rows, later)
  {}

  lemma SteadyExtends(q: Query, stream: seq<Sample>, b: int, e: int)
    requires Wellformed(q) && InOrder(stream) && Steady(q, stream, b, e)
    requires ObservedAt(q, stream, e) == ObservedAt(q, stream, b)
    ensures Steady(q, stream, b, e + 1)
  {}

  ghost predicate Covered(rows: seq<Row>, t: int) {
    exists k :: 0 <= k < |rows| && rows[k].begin <= t < rows[k].end
  }

  /** The closed rows are spans in order, and the open one has begun. */
  ghost predicate RowFacts(q: Query, stream: seq<Sample>, t: int, scan: Scan)
    requires Wellformed(q) && InOrder(stream)
  {
    match scan.start
    case None => RowsUpTo(q, stream, scan.rows, t)
    case Some(b) => b <= t && Steady(q, stream, b, t + 1) && RowsUpTo(q, stream, scan.rows, b)
  }

  /** Wherever the condition holds up to `t`, a row covers it. */
  ghost predicate CoverFacts(q: Query, stream: seq<Sample>, t: int, scan: Scan)
    requires Wellformed(q) && InOrder(stream)
  {
    forall u :: q.t0 <= u <= t && ObservedAt(q, stream, u).Some? ==>
                  Covered(scan.rows, u) || (scan.start.Some? && scan.start.value <= u)
  }

  /** What is known of the scan once it stands at `t`. */
  ghost predicate ScanFacts(q: Query, stream: seq<Sample>, t: int, scan: Scan)
    requires Wellformed(q) && InOrder(stream)
  {
    RowFacts(q, stream, t, scan) && CoverFacts(q, stream, t, scan)
  }

  lemma ScanIsExact(q: Query, stream: seq<Sample>, t: int) returns (scan: Scan)
    requires Wellformed(q) && InOrder(stream) && q.t0 <= t
    ensures scan == ScanTo(q, stream, t) && ScanFacts(q, stream, t, scan)
  {
    var scans := ScansTo(q, stream, t);
    scan := scans[t - q.t0];
    ScanFollowed(q, stream, scans, t);
  }

  /** The scans at every tick up to `t`. */
  lemma {:induction false} ScansTo(q: Query, stream: seq<Sample>, t: int) returns (scans: seq<Scan>)
    requires Wellformed(q) && InOrder(stream) && q.t0 <= t
    ensures |scans| == t - q.t0 + 1 && scans[0] == ScanTo(q, stream, q.t0) && scans[t - q.t0] == ScanTo(q, stream, t)
    ensures forall j :: 0 < j < |scans| ==> ScanTurn(q, stream, q.t0 + j, scans[j - 1], scans[j])
    decreases t - q.t0
  {
    if t == q.t0 {
      scans := [ScanTo(q, stream, t)];
    } else {
      var before := ScansTo(q, stream, t - 1);
      ScanStep(q, stream, t);
      scans := before + [ScanTo(q, stream, t)];
    }
  }

  /** One turn of the scan, at `t`. */
  ghost predicate ScanTurn(q: Query, stream: seq<Sample>, t: int, before: Scan, scan: Scan)
    requires Wellformed(q) && InOrder(stream)
  {
    && scan == Step(q, stream, before, t)
    && (before.start.Some? <==> ObservedAt(q, stream, t - 1).Some?)
  }

  lemma {:induction false} ScanFollowed(q: Query, stream: seq<Sample>, scans: seq<Scan>, t: int)
    requires Wellformed(q) && InOrder(stream) && q.t0 <= t < q.t0 + |scans| && scans[0] == ScanTo(q, stream, q.t0)
    requires forall j :: 0 < j < |scans| ==> ScanTurn(q, stream, q.t0 + j, scans[j - 1], scans[j])
    ensures ScanFacts(q, stream, t, scans[t - q.t0])
    decreases t - q.t0
  {
    var k := t - q.t0;
    if k == 0 {
      FirstTick(q, stream, scans[0]);
    } else {
      ScanFollowed(q, stream, scans, t - 1);
      assert ScanTurn(q, stream, q.t0 + k, scans[k - 1], scans[k]);
      NextTick(q, stream, t, scans[k - 1], scans[k]);
    }
  }

  lemma FirstTick(q: Query, stream: seq<Sample>, scan: Scan)
    requires Wellformed(q) && InOrder(stream) && scan == ScanTo(q, stream, q.t0)
    ensures ScanFacts(q, stream, q.t0, scan)
  {}

  lemma ScanStep(q: Query, stream: seq<Sample>, t: int)
    requires Wellformed(q) && InOrder(stream) && q.t0 < t
    ensures ScanTurn(q, stream, t, ScanTo(q, stream, t - 1), ScanTo(q, stream, t))
  {
    OpenSince(q, stream, t - 1);
  }

  lemma NextTick(q: Query, stream: seq<Sample>, t: int, before: Scan, scan: Scan)
    requires Wellformed(q) && InOrder(stream) && q.t0 < t && ScanFacts(q, stream, t - 1, before)
    requires ScanTurn(q, stream, t, before, scan)
    ensures ScanFacts(q, stream, t, scan)
  {
    if ObservedAt(q, stream, t) == ObservedAt(q, stream, t - 1) {
      ContinuedRows(q, stream, t, scan);
      ContinuedCover(q, stream, t, scan);
    } else {
      ChangedRows(q, stream, t, before, scan);
      ChangedCover(q, stream, t, before, scan);
    }
  }

  lemma ContinuedCover(q: Query, stream: seq<Sample>, t: int, scan: Scan)
    requires Wellformed(q) && InOrder(stream) && q.t0 < t && ScanFacts(q, stream, t - 1, scan)
    requires scan.start.Some? <==> ObservedAt(q, stream, t).Some?
    ensures CoverFacts(q, stream, t, scan)
  {}

  lemma ContinuedRows(q: Query, stream: seq<Sample>, t: int, scan: Scan)
    requires Wellformed(q) && InOrder(stream) && q.t0 < t && RowFacts(q, stream, t - 1, scan)
    requires ObservedAt(q, stream, t) == ObservedAt(q, stream, t - 1)
    ensures RowFacts(q, stream, t, scan)
  {
    match scan.start
    case None => RowsLater(q, stream, scan.rows, t - 1, t);
    case Some(b) =>
      assert ObservedAt(q, stream, t - 1) == ObservedAt(q, stream, b);
      SteadyExtends(q, stream, b, t);
  }

  lemma ChangedRows(q: Query, stream: seq<Sample>, t: int, before: Scan, scan: Scan)
    requires Wellformed(q) && InOrder(stream) && q.t0 < t
    requires ObservedAt(q, stream, t) != ObservedAt(q, stream, t - 1)
    requires RowFacts(q, stream, t - 1, before)
    requires scan == Scan(Closed(q, stream, before, t), Intervals.Begin(q, stream, t))
    ensures RowFacts(q, stream, t, scan)
  {
    match before.start
    case None =>
      RowsLater(q, stream, before.rows, t - 1, t);
    case Some(b) =>
      assert ObservedAt(q, stream, t - 1) == ObservedAt(q, stream, b);
      RowsAppend(q, stream, before.rows, RowFor(q, stream, b, t));
  }

  lemma ChangedCover(q: Query, stream: seq<Sample>, t: int, before: Scan, scan: Scan)
    requires Wellformed(q) && InOrder(stream) && q.t0 < t
    requires CoverFacts(q, stream, t - 1, before)
    requires scan == Scan(Closed(q, stream, before, t), Intervals.Begin(q, stream, t))
    ensures CoverFacts(q, stream, t, scan)
  {
    forall u | q.t0 <= u <= t && ObservedAt(q, stream, u).Some?
      ensures Covered(scan.rows, u) || (scan.start.Some? && scan.start.value <= u)
    {
      if u < t {
        CoverageKept(before.rows, scan.rows, u);
        if before.start.Some? && before.start.value <= u {
          assert scan.rows[|before.rows|].begin <= u < scan.rows[|before.rows|].end;
        }
      }
    }
  }

  lemma CoverageKept(rows: seq<Row>, more: seq<Row>, t: int)
    requires rows <= more
    ensures Covered(rows, t) ==> Covered(more, t)
  {
    if Covered(rows, t) {
      var k :| 0 <= k < |rows| && rows[k].begin <= t < rows[k].end;
      assert more[k] == rows[k];
    }
  }

  // ----- the theorems -----

  /** Every row is the row of a maximal span, and rows come in order. */
  lemma RowsAreSpans(q: Query, stream: seq<Sample>)
    requires Wellformed(q) && InOrder(stream)
    ensures Ascending(AllRows(q, stream))
    ensures forall k :: 0 <= k < |AllRows(q, stream)| ==>
                          var r := AllRows(q, stream)[k];
                          Span(q, stream, r.begin, r.end) && r == RowFor(q, stream, r.begin, r.end)
  {
    if q.t0 < q.t1 {
      var rows := AllRows(q, stream);
      var scan := ScanIsExact(q, stream, q.t1);
      RowsInOrder(q, stream, scan);
      forall k | 0 <= k < |rows|
        ensures SpanRow(q, stream, rows[k])
      {
        RowIsSpan(q, stream, scan, k);
      }
    }
  }

  ghost predicate SpanRow(q: Query, stream: seq<Sample>, r: Row)
    requires Wellformed(q) && InOrder(stream)
  {
    Span(q, stream, r.begin, r.end) && r == RowFor(q, stream, r.begin, r.end)
  }

  lemma RowIsSpan(q: Query, stream: seq<Sample>, scan: Scan, k: nat)
    requires Wellformed(q) && InOrder(stream) && q.t0 < q.t1 && RowFacts(q, stream, q.t1, scan)
    requires k < |Closed(q, stream, scan, q.t1)|
    ensures SpanRow(q, stream, Closed(q, stream, scan, q.t1)[k])
  {
    if k < |scan.rows| {
      assert ClosedSpan(q, stream, scan.rows[k]);
    }
  }

  lemma RowsInOrder(q: Query, stream: seq<Sample>, scan: Scan)
    requires Wellformed(q) && InOrder(stream) && q.t0 < q.t1 && RowFacts(q, stream, q.t1, scan)
    ensures Ascending(Closed(q, stream, scan, q.t1))
  {}

  /** The condition holds at a tick of the window exactly when a row covers
      the tick. */
  lemma HoldsIffCovered(q: Query, stream: seq<Sample>, t: int)
    requires Wellformed(q) && InOrder(stream) && q.t0 <= t < q.t1
    ensures q.holds(StateAt(stream, t), {}) <==> Covered(AllRows(q, stream), t)
  {
    var rows := AllRows(q, stream);
    if q.holds(StateAt(stream, t), {}) {
      var scan := ScanIsExact(q, stream, q.t1);
      assert ObservedAt(q, stream, t).Some?;
      CoverageKept(scan.rows, rows, t);
      if !Covered(scan.rows, t) {
        assert rows[|scan.rows|].begin <= t < rows[|scan.rows|].end;
      }
    }
    if Covered(rows, t) {
      var k :| 0 <= k < |rows| && rows[k].begin <= t < rows[k].end;
      RowsAreSpans(q, stream);
      assert ObservedAt(q, stream, t) == ObservedAt(q, stream, rows[k].begin);
    }
  }

  /** The displayed tuple of a row is what the signals show at every tick of
      the row. */
  lemma RowShowsThroughout(q: Query, stream: seq<Sample>, k: nat, t: int)
    requires Wellformed(q) && InOrder(stream) && k < |AllRows(q, stream)|
    requires AllRows(q, stream)[k].begin <= t < AllRows(q, stream)[k].end
    ensures q.holds(StateAt(stream, t), {})
    ensures q.hasShow ==> AllRows(q, stream)[k].values == Some(q.shown(StateAt(stream, t)))
  {
    RowsAreSpans(q, stream);
    var r := AllRows(q, stream)[k];
    assert ObservedAt(q, stream, t) == ObservedAt(q, stream, r.begin);
  }

  /** Two spans that share a tick are one. */
  lemma SpansMeetOnce(q: Query, stream: seq<Sample>, b: int, e: int, b': int, e': int, t: int)
    requires Wellformed(q) && InOrder(stream)
    requires Span(q, stream, b, e) && Span(q, stream, b', e')
    requires b <= t < e && b' <= t < e'
    ensures b == b' && e == e'
  {
    if b < b' {
      SameWithin(q, stream, b, e, b' - 1, b');
    } else if b' < b {
      SameWithin(q, stream, b', e', b - 1, b);
    } else if e < e' {
      SameWithin(q, stream, b', e', e, b);
    } else if e' < e {
      SameWithin(q, stream, b, e, e', b);
    }
  }

  lemma SameWithin(q: Query, stream: seq<Sample>, b: int, e: int, u: int, v: int)
    requires Wellformed(q) && InOrder(stream) && Steady(q, stream, b, e)
    requires b <= u < e && b <= v < e
    ensures ObservedAt(q, stream, u) == ObservedAt(q, stream, v)
  {}

  /** Every maximal span has its row: with `RowsAreSpans`, the rows are exactly
      the maximal spans of the window. */
  lemma EverySpanHasRow(q: Query, stream: seq<Sample>, b: int, e: int)
    requires Wellformed(q) && InOrder(stream) && Span(q, stream, b, e)
    ensures RowFor(q, stream, b, e) in AllRows(q, stream)
  {
    var rows := AllRows(q, stream);
    RowsAreSpans(q, stream);
    if b < e {
      HoldsIffCovered(q, stream, b);
      var k :| 0 <= k < |rows| && rows[k].begin <= b < rows[k].end;
      SpansMeetOnce(q, stream, b, e, rows[k].begin, rows[k].end, b);
      assert rows[k] in rows;
    } else {
      EmptySpan(q, stream);
      assert rows[|rows| - 1] in rows;
    }
  }

  /** A change of the observation exactly at `t1`, to one where the condition
      holds, leaves the empty row `[t1, t1)` at the end. */
  lemma EmptySpan(q: Query, stream: seq<Sample>)
    requires Wellformed(q) && InOrder(stream) && Span(q, stream, q.t1, q.t1)
    ensures var rows := AllRows(q, stream);
            rows != [] && rows[|rows| - 1] == RowFor(q, stream, q.t1, q.t1)
  {}

  /** Every row but the last has a length. */
  lemma OnlyLastIsEmpty(q: Query, stream: seq<Sample>, k: nat)
    requires Wellformed(q) && InOrder(stream) && k + 1 < |AllRows(q, stream)|
    ensures AllRows(q, stream)[k].begin < AllRows(q, stream)[k].end
  {
    if q.t0 < q.t1 {
      var scan := ScanIsExact(q, stream, q.t1);
      assert ClosedSpan(q, stream, scan.rows[k]);
    }
  }

  /** Neighbouring rows that touch differ in what they display; without
      displayed signals, rows never touch. */
  lemma TouchingRowsDiffer(q: Query, stream: seq<Sample>, k: nat)
    requires Wellformed(q) && InOrder(stream) && k + 1 < |AllRows(q, stream)|
    ensures var r, s := AllRows(q, stream)[k], AllRows(q, stream)[k + 1];
            && r.end <= s.begin
            && (r.end == s.begin ==> q.hasShow && r.values != s.values)
  {
    RowsAreSpans(q, stream);
    var r, s := AllRows(q, stream)[k], AllRows(q, stream)[k + 1];
    if r.end == s.begin {
      RowEndsWithChange(q, stream, k);
    }
  }

  /** Only the last row can end for no other reason than the window's end. */
  lemma RowEndsWithChange(q: Query, stream: seq<Sample>, k: nat)
    requires Wellformed(q) && InOrder(stream) && k + 1 < |AllRows(q, stream)|
    ensures var r := AllRows(q, stream)[k];
            ObservedAt(q, stream, r.end) != ObservedAt(q, stream, r.begin)
  {
    if q.t0 < q.t1 {
      var scan := ScanIsExact(q, stream, q.t1);
      assert ClosedSpan(q, stream, scan.rows[k]);
    }
  }

  /** A window of no length has no rows. */
  lemma NoLengthNoRows(q: Query, stream: seq<Sample>)
    requires Wellformed(q) && InOrder(stream)
    ensures q.t0 == q.t1 ==> AllRows(q, stream) == []
  {}
}
