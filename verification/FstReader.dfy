/** The two-phase windowed read of several signals. */
module FstReader {
  import opened Wrappers
  import opened Traces
  import opened FstCollector
  import opened FstWindow

  datatype Emission<+V> = Emission(time: nat, handle: nat, value: V)

  /** The emissions of one signal, in order. */
  function ForHandle<V>(ems: seq<Emission<V>>, h: nat): Trace<V> {
    if ems == [] then []
    else
      var e := ems[|ems| - 1];
      ForHandle(ems[..|ems| - 1], h) + if e.handle == h then [Change(e.time, e.value)] else []
  }

  /** The changes from a section start on, as far as the read goes. */
  function Between<V>(tr: Trace<V>, start: int, end: Option<int>): Trace<V> {
    if tr == [] then []
    else
      var c := tr[|tr| - 1];
      Between(tr[..|tr| - 1], start, end) + if start <= c.tick && AtMost(c.tick, end) then [c] else []
  }

  // ----- the emissions of one signal, marked as suspect or not -----

  function Marked<V>(ems: seq<Emission<V>>, suspect: Option<nat>, h: nat): seq<Flagged<V>> {
    if ems == [] then []
    else
      var e := ems[|ems| - 1];
      Marked(ems[..|ems| - 1], suspect, h)
      + if e.handle == h then [Flagged(Change(e.time, e.value), suspect == Some(e.time))] else []
  }

  lemma {:induction false} MarkedEchoes<V>(ems: seq<Emission<V>>, suspect: Option<nat>, h: nat)
    requires forall i :: 0 <= i < |ems| ==> suspect == Some(ems[i].time)
    ensures forall i :: 0 <= i < |Marked(ems, suspect, h)| ==> Marked(ems, suspect, h)[i].suspect
  {
    if ems != [] {
      MarkedEchoes(ems[..|ems| - 1], suspect, h);
    }
  }

  lemma {:induction false} MarkedGenuine<V>(ems: seq<Emission<V>>, suspect: Option<nat>, h: nat)
    requires forall i :: 0 <= i < |ems| ==> suspect != Some(ems[i].time)
    ensures Marked(ems, suspect, h) == Genuine(ForHandle(ems, h))
  {
    if ems != [] {
      MarkedGenuine(ems[..|ems| - 1], suspect, h);
    }
  }

  lemma {:induction false} MarkedConcat<V>(a: seq<Emission<V>>, b: seq<Emission<V>>, suspect: Option<nat>, h: nat)
    ensures Marked(a + b, suspect, h) == Marked(a, suspect, h) + Marked(b, suspect, h)
  {
    if b == [] {
      assert a + b == a;
    } else {
      var n := |b| - 1;
      assert (a + b)[..|a| + n] == a + b[..n];
      MarkedConcat(a, b[..n], suspect, h);
    }
  }

  // ----- reading from a section start loses nothing -----

  lemma {:induction false} BetweenOrdered<V>(tr: Trace<V>, start: int, end: Option<int>)
    requires Ordered(tr)
    ensures Ordered(Between(tr, start, end))
    ensures var b := Between(tr, start, end); b != [] ==> tr != [] && b[|b| - 1].tick <= tr[|tr| - 1].tick
  {
    if tr != [] {
      PrefixOrdered(tr);
      BetweenOrdered(tr[..|tr| - 1], start, end);
      var c := tr[|tr| - 1];
      KeptOrdered(Between(tr[..|tr| - 1], start, end), c, start <= c.tick && AtMost(c.tick, end));
    }
  }

  lemma KeptOrdered<V>(b: Trace<V>, c: Change<V>, keep: bool)
    requires Ordered(b) && (b != [] ==> b[|b| - 1].tick <= c.tick)
    ensures var r := b + if keep then [c] else [];
            Ordered(r) && (r != [] ==> r[|r| - 1].tick <= c.tick)
  {
    OrderedAppend(b, c);
    assert b + [] == b;
  }

  /** A read that covers the window has all of its changes. */
  lemma {:induction false} BetweenInside<V>(tr: Trace<V>, start: int, end: Option<int>, from: int, to: Option<int>)
    requires forall i :: 0 <= i < |tr| ==> InsideIsRead(tr[i].tick, start, end, from, to)
    ensures Inside(Between(tr, start, end), from, to) == Inside(tr, from, to)
  {
    if tr != [] {
      var n := |tr| - 1;
      BetweenInside(tr[..n], start, end, from, to);
      InsideOneMore(Between(tr[..n], start, end), tr[n], start, end, from, to);
    }
  }

  lemma InsideOneMore<V>(b: Trace<V>, c: Change<V>, start: int, end: Option<int>, from: int, to: Option<int>)
    requires InsideIsRead(c.tick, start, end, from, to)
    ensures Inside(b + (if start <= c.tick && AtMost(c.tick, end) then [c] else []), from, to) ==
            Inside(b, from, to) + if from < c.tick && AtMost(c.tick, to) then [c] else []
  {
    InsideAppend(b, c, from, to);
    assert b + [] == b && Inside(b, from, to) + [] == Inside(b, from, to);
  }

  lemma InsideAppend<V>(b: Trace<V>, c: Change<V>, from: int, to: Option<int>)
    ensures Inside(b + [c], from, to) == Inside(b, from, to) + if from < c.tick && AtMost(c.tick, to) then [c] else []
  {
    assert (b + [c])[..|b|] == b;
  }

  /** A tick inside the window is within the read. */
  predicate InsideIsRead(t: int, start: int, end: Option<int>, from: int, to: Option<int>) {
    from < t && AtMost(t, to) ==> start <= t && AtMost(t, end)
  }

  /** A read whose end is not before the last change up to `from` finds that
      change if it starts early enough, and otherwise nothing up to `from`. */
  lemma {:induction false} BetweenLast<V>(tr: Trace<V>, start: int, end: Option<int>, from: int)
    requires Ordered(tr)
    requires forall i :: 0 <= i < |tr| && tr[i].tick <= from ==> AtMost(tr[i].tick, end)
    ensures LastUpTo(Between(tr, start, end), from) ==
            match LastUpTo(tr, from)
            case Some(x) => if start <= x.tick then Some(x) else None
            case None => None
  {
    if tr != [] {
      PrefixOrdered(tr);
      var n := |tr| - 1;
      BetweenLast(tr[..n], start, end, from);
      var b := Between(tr[..n], start, end);
      assert (b + [tr[n]])[..|b|] == b && b + [] == b;
      if tr[n].tick <= from && tr[n].tick < start {
        BetweenNone(tr[..n], start, end);
      }
    }
  }

  lemma {:induction false} BetweenNone<V>(tr: Trace<V>, start: int, end: Option<int>)
    requires Ordered(tr) && (tr == [] || tr[|tr| - 1].tick < start)
    ensures Between(tr, start, end) == []
  {
    if tr != [] {
      PrefixOrdered(tr);
      BetweenNone(tr[..|tr| - 1], start, end);
    }
  }

  // ----- one signal -----

  /** Seek point of phase 1, clamped to the recorded range. */
  function SeekPoint(from: int, fileEnd: nat): nat {
    var f := if from < 0 then 0 else from;
    if f < fileEnd then f else fileEnd
  }

  /** End of phase 1, never before the seek point. */
  function SeekEnd(from: int, to: Option<int>, fileEnd: nat): Option<int> {
    match to
    case None => None
    case Some(t) =>
      var e := if t < 0 then 0 else t;
      Some(if e < SeekPoint(from, fileEnd) then SeekPoint(from, fileEnd) else e)
  }

  /** Recorded ticks are neither negative nor beyond the end of the file. */
  ghost predicate InFile<V>(raw: Trace<V>, fileEnd: nat) {
    Ordered(raw) && forall i :: 0 <= i < |raw| ==> 0 <= raw[i].tick <= fileEnd
  }

  /** A phase-1 read of `[start, end]` may begin earlier and go on longer. */
  ghost predicate Covering(start: int, end: Option<int>, from: int, to: Option<int>, fileEnd: nat) {
    && start <= SeekPoint(from, fileEnd)
    && (end.Some? ==> to.Some? && SeekEnd(from, to, fileEnd).value <= end.value)
  }

  /** The first phase has the whole window, and may have the seed. */
  lemma WindowSuffices<V>(raw: Trace<V>, from: int, to: Option<int>, fileEnd: nat, start: int, end: Option<int>)
    requires InFile(raw, fileEnd) && Covering(start, end, from, to, fileEnd)
    ensures var r := Between(raw, start, end);
            && Ordered(r)
            && Inside(r, from, to) == Inside(raw, from, to)
            && (LastUpTo(r, from).Some? ==> LastUpTo(r, from) == LastUpTo(raw, from))
  {
    BetweenOrdered(raw, start, end);
    BetweenInside(raw, start, end, from, to);
    BetweenLast(raw, start, end, from);
  }

  /** The second phase has the seed. */
  lemma HistorySuffices<V>(raw: Trace<V>, from: int, fileEnd: nat, end2: Option<int>)
    requires InFile(raw, fileEnd) && (end2.Some? ==> SeekPoint(from, fileEnd) <= end2.value)
    ensures Ordered(Between(raw, 0, end2)) && LastUpTo(Between(raw, 0, end2), from) == LastUpTo(raw, from)
  {
    BetweenOrdered(raw, 0, end2);
    BetweenLast(raw, 0, end2, from);
    LastIsEntry(raw, from);
  }

  lemma {:induction false} LastIsEntry<V>(raw: Trace<V>, from: int)
    ensures LastUpTo(raw, from).Some? ==> LastUpTo(raw, from).value in raw
  {
    if raw != [] {
      LastIsEntry(raw[..|raw| - 1], from);
    }
  }

  /** The reduction of one signal's emissions, whatever section the first read
      started in and whether or not either read echoed a frame: the windowed
      trace of the raw history, with the second read's echo as the seed if the
      history has none. */
  lemma OneSignal<V>(kind: WinKind, raw: Trace<V>, echoes: seq<Flagged<V>>, from: int, to: Option<int>, fileEnd: nat,
                     start: int, end: Option<int>, echoes2: Trace<V>, end2: Option<int>)
    requires InFile(raw, fileEnd) && Covering(start, end, from, to, fileEnd)
    requires end2.Some? ==> SeekPoint(from, fileEnd) <= end2.value
    requires forall i :: 0 <= i < |echoes| ==> echoes[i].suspect
    ensures var c := Run(Fresh(kind), echoes + Genuine(Between(raw, start, end)), from, to);
            var d := if NeedsPhase2(c) then RunPhase2(c.(demoted := true), echoes2 + Between(raw, 0, end2), from)
                     else c;
            Finish(d) == Decoded(kind, raw, echoes2, from, to)
  {
    WindowSuffices(raw, from, to, fileEnd, start, end);
    HistorySuffices(raw, from, fileEnd, end2);
    var r := Between(raw, start, end);
    RunTracks(kind, echoes, r, from, to);
    var c := Run(Fresh(kind), echoes + Genuine(r), from, to);
    if NeedsPhase2(c) {
      Phase2KeepsLast(c.(demoted := true), echoes2 + Between(raw, 0, end2), from);
      LastUpToConcat(echoes2, Between(raw, 0, end2), from);
    }
    FinishIs(c, kind, r, Later(LastUpTo(echoes2, from), LastUpTo(raw, from)), from, to);
  }
}
