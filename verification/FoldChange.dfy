/** Folding a backend's emissions into a trace, one at a time and in place. */
module FoldChange {
  import opened Wrappers
  import opened Traces
  import opened Signals

  // ----- the two-step reference -----

  /** Of the emissions at one tick, the last one wins. */
  function LastPerTick<V>(ems: Trace<V>): Trace<V> {
    if ems == [] then []
    else
      var r, c := LastPerTick(ems[..|ems| - 1]), ems[|ems| - 1];
      if r != [] && r[|r| - 1].tick == c.tick then r[..|r| - 1] + [c] else r + [c]
  }

  /** An entry that repeats the value before it is no change. */
  function DropRepeats<V(==)>(tr: Trace<V>): Trace<V> {
    if tr == [] then []
    else
      var r, c := DropRepeats(tr[..|tr| - 1]), tr[|tr| - 1];
      if r != [] && r[|r| - 1].value == c.value then r else r + [c]
  }

  function NetTrace<V(==)>(ems: Trace<V>): Trace<V> {
    DropRepeats(LastPerTick(ems))
  }

  ghost predicate AdjacentDiffer<V>(tr: Trace<V>) {
    forall i :: 0 <= i < |tr| - 1 ==> tr[i].value != tr[i + 1].value
  }

  // ----- facts about the reference -----

  lemma StrictAppend<V>(tr: Trace<V>, c: Change<V>)
    requires StrictlyOrdered(tr) && (tr == [] || tr[|tr| - 1].tick < c.tick)
    ensures StrictlyOrdered(tr + [c])
  {
    forall i, j | 0 <= i < j < |tr| + 1 ensures (tr + [c])[i].tick < (tr + [c])[j].tick {
      if j == |tr| {
        assert tr[i].tick <= tr[|tr| - 1].tick;
      }
    }
  }

  lemma StrictPrefix<V>(tr: Trace<V>, n: nat)
    requires StrictlyOrdered(tr) && n < |tr|
    ensures StrictlyOrdered(tr[..n]) && (n > 0 ==> tr[n - 1].tick < tr[n].tick)
  {}

  lemma {:induction false} LastPerTickShape<V>(ems: Trace<V>)
    requires Ordered(ems)
    ensures StrictlyOrdered(LastPerTick(ems))
    ensures ems != [] ==> var r := LastPerTick(ems); r != [] && r[|r| - 1] == ems[|ems| - 1]
  {
    if ems != [] {
      var n := |ems| - 1;
      PrefixOrdered(ems);
      LastPerTickShape(ems[..n]);
      var r, c := LastPerTick(ems[..n]), ems[n];
      if r != [] && r[|r| - 1].tick == c.tick {
        StrictPrefix(r, |r| - 1);
        StrictAppend(r[..|r| - 1], c);
      } else {
        StrictAppend(r, c);
      }
    }
  }

  lemma {:induction false} DropRepeatsShape<V>(tr: Trace<V>)
    requires StrictlyOrdered(tr)
    ensures StrictlyOrdered(DropRepeats(tr)) && AdjacentDiffer(DropRepeats(tr))
    ensures var r := DropRepeats(tr);
            && (tr == [] <==> r == [])
            && (tr != [] ==> r[|r| - 1].tick <= tr[|tr| - 1].tick && r[|r| - 1].value == tr[|tr| - 1].value)
  {
    if tr != [] {
      var n := |tr| - 1;
      StrictPrefix(tr, n);
      DropRepeatsShape(tr[..n]);
      StrictAppendIf(DropRepeats(tr[..n]), tr[n]);
    }
  }

  lemma StrictAppendIf<V>(r: Trace<V>, c: Change<V>)
    requires StrictlyOrdered(r) && AdjacentDiffer(r) && (r == [] || r[|r| - 1].tick < c.tick)
    ensures StrictlyOrdered(r + [c])
    ensures r == [] || r[|r| - 1].value != c.value ==> AdjacentDiffer(r + [c])
  {
    StrictAppend(r, c);
  }

  /** A net trace never has two entries at a tick nor a repeated value. */
  lemma NetTraceShape<V>(ems: Trace<V>)
    requires Ordered(ems)
    ensures StrictlyOrdered(NetTrace(ems)) && AdjacentDiffer(NetTrace(ems))
  {
    LastPerTickShape(ems);
    DropRepeatsShape(LastPerTick(ems));
  }

  lemma {:induction false} ValueAtLater<V>(tr: Trace<V>, c: Change<V>, t: int)
    ensures ValueAt(tr + [c], t) == if c.tick <= t then Some(c.value) else ValueAt(tr, t)
  {
    assert (tr + [c])[..|tr|] == tr;
  }

  lemma {:induction false} LastPerTickValue<V>(ems: Trace<V>, t: int)
    requires Ordered(ems)
    ensures ValueAt(LastPerTick(ems), t) == ValueAt(ems, t)
  {
    if ems != [] {
      var n := |ems| - 1;
      var r, c := LastPerTick(ems[..n]), ems[n];
      LastPerTickValue(ems[..n], t);
      LastPerTickShape(ems[..n]);
      if r != [] && r[|r| - 1].tick == c.tick {
        ValueAtLater(r[..|r| - 1], c, t);
      } else {
        ValueAtLater(r, c, t);
      }
    }
  }

  lemma {:induction false} DropRepeatsValue<V>(tr: Trace<V>, t: int)
    requires StrictlyOrdered(tr)
    ensures ValueAt(DropRepeats(tr), t) == ValueAt(tr, t)
  {
    if tr != [] {
      var n := |tr| - 1;
      DropRepeatsValue(tr[..n], t);
      DropRepeatsShape(tr[..n]);
      var r := DropRepeats(tr[..n]);
      ValueAtLater(r, tr[n], t);
    }
  }

  /** At every tick the net trace has the value of the last emission at or
      before it. */
  lemma NetTraceValue<V>(ems: Trace<V>, t: int)
    requires Ordered(ems)
    ensures ValueAt(NetTrace(ems), t) == ValueAt(ems, t)
  {
    LastPerTickShape(ems);
    LastPerTickValue(ems, t);
    DropRepeatsValue(LastPerTick(ems), t);
  }

  // ----- the online algorithm -----

  /** What one emission does to the trace so far. */
  function FoldStep<V(==)>(tr: Trace<V>, c: Change<V>): Trace<V> {
    var n := |tr|;
    if n > 0 && tr[n - 1].tick == c.tick then
      if n >= 2 && tr[n - 2].value == c.value then tr[..n - 1] else tr[..n - 1] + [c]
    else if n > 0 && tr[n - 1].value == c.value then tr
    else tr + [c]
  }

  /** One emission takes the net trace of what came before to the net trace of
      everything so far. */
  lemma FoldStepIsNet<V>(ems: Trace<V>, c: Change<V>)
    requires Ordered(ems + [c])
    ensures FoldStep(NetTrace(ems), c) == NetTrace(ems + [c])
  {
    var all := ems + [c];
    assert all[..|ems|] == ems;
    assert Ordered(ems) by {
      assert forall i :: 0 <= i < |ems| ==> ems[i] == all[i];
    }
    var l := LastPerTick(ems);
    LastPerTickShape(ems);
    if l != [] {
      assert l[|l| - 1].tick <= c.tick by {
        assert all[|ems| - 1].tick <= all[|ems|].tick;
      }
      FoldAfter(l[..|l| - 1], l[|l| - 1], c);
    } else {
      assert LastPerTick(all) == [c];
      assert [c][..0] == [];
    }
  }

  lemma FoldAfter<V>(l: Trace<V>, x: Change<V>, c: Change<V>)
    requires StrictlyOrdered(l + [x]) && x.tick <= c.tick
    ensures FoldStep(DropRepeats(l + [x]), c) == DropRepeats(if x.tick == c.tick then l + [c] else l + [x] + [c])
  {
    StrictPrefix(l + [x], |l|);
    assert (l + [x])[..|l|] == l;
    DropRepeatsShape(l);
    DropAppend(l, x);
    DropAppend(l, c);
    DropAppend(l + [x], c);
    StepKept(DropRepeats(l), x, c);
  }

  /** Appending a change unless it repeats the last value. */
  function WithChange<V(==)>(d: Trace<V>, c: Change<V>): Trace<V> {
    if d != [] && d[|d| - 1].value == c.value then d else d + [c]
  }

  lemma DropAppend<V>(tr: Trace<V>, c: Change<V>)
    ensures DropRepeats(tr + [c]) == WithChange(DropRepeats(tr), c)
  {
    assert (tr + [c])[..|tr|] == tr;
  }

  lemma StepKept<V>(d: Trace<V>, x: Change<V>, c: Change<V>)
    requires d == [] || d[|d| - 1].tick < x.tick
    requires x.tick <= c.tick
    ensures FoldStep(WithChange(d, x), c) ==
            if x.tick == c.tick then WithChange(d, c) else WithChange(WithChange(d, x), c)
  {
    assert (d + [x])[..|d|] == d;
  }

  lemma NextEmission<V>(ems: Trace<V>, i: nat)
    requires Ordered(ems) && i < |ems|
    ensures ems[..i + 1] == ems[..i] + [ems[i]]
    ensures NetTrace(ems[..i + 1]) == FoldStep(NetTrace(ems[..i]), ems[i])
  {
    assert ems[..i + 1] == ems[..i] + [ems[i]];
    FoldStepIsNet(ems[..i], ems[i]);
  }

  /** A trace under construction: parallel lists, updated in place. */
  class SignalTrace<V(==)> {
    var times: seq<int>
    var values: seq<V>

    ghost predicate Valid()
      reads this
    {
      |times| == |values|
    }

    ghost function Contents(): (tr: Trace<V>)
      requires Valid()
      reads this
      ensures |tr| == |times|
    {
      seq(|times|, i requires 0 <= i < |times| && Valid() reads this => Change(times[i], values[i]))
    }

    constructor ()
      ensures Valid() && Contents() == []
    {
      times, values := [], [];
    }

    /** Folds one emission in: events always count, other kinds keep one entry
        per tick and no repeats. */
    method FoldChange(kind: ValueKind, tick: int, raw: V)
      requires Valid()
      modifies this
      ensures Valid()
      ensures kind == EventKind ==> Contents() == old(Contents()) + [Change(tick, raw)]
      ensures kind != EventKind ==> Contents() == FoldStep(old(Contents()), Change(tick, raw))
    {
      if kind == EventKind {
        times, values := times + [tick], values + [raw];
        return;
      }
      var n := |times|;
      if n > 0 && times[n - 1] == tick {
        values := values[n - 1 := raw];
        if n >= 2 && values[n - 1] == values[n - 2] {
          times, values := times[..n - 1], values[..n - 1];
        }
      } else if n > 0 && values[n - 1] == raw {
      } else {
        times, values := times + [tick], values + [raw];
      }
    }

    /** Folding a whole emission stream yields its net trace, or, for events,
        the stream itself. */
    constructor FromEmissions(kind: ValueKind, ems: Trace<V>)
      requires Ordered(ems)
      ensures Valid()
      ensures Contents() == if kind == EventKind then ems else NetTrace(ems)
    {
      times, values := [], [];
      new;
      for i := 0 to |ems|
        invariant Valid()
        invariant Contents() == if kind == EventKind then ems[..i] else NetTrace(ems[..i])
      {
        NextEmission(ems, i);
        FoldChange(kind, ems[i].tick, ems[i].value);
      }
      assert ems[..|ems|] == ems;
    }
  }
}
