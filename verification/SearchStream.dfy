/** From recorded traces to the states and changes a search sees. */
module SearchStream {
  import opened Wrappers
  import opened Traces
  import opened Replay
  import opened SearchState

  /** The replay as a search buffers it. */
  function SamplesOf(out: seq<Emit<string>>): (r: seq<Sample>)
    ensures |r| == |out|
    ensures forall i :: 0 <= i < |r| ==> r[i] == Sample(out[i].tick, out[i].sid, out[i].value)
  {
    seq(|out|, i requires 0 <= i < |out| => Sample(out[i].tick, out[i].sid, out[i].value))
  }

  /** The value of a trace at `t`; replay starts at tick 0, so entries before
      that do not count. */
  function Recorded(tr: Trace<string>, t: int): Option<string>
    requires Ordered(tr)
  {
    match LastAtOrBefore(tr, t)
    case None => None
    case Some(p) => if tr[p].tick < 0 then None else Some(tr[p].value)
  }

  /** The value written last in `[from, t]`. */
  ghost function ValueWithin(tr: Trace<string>, from: int, t: int): Option<string> {
    if tr == [] then None
    else if from <= tr[|tr| - 1].tick <= t then Some(tr[|tr| - 1].value)
    else ValueWithin(tr[..|tr| - 1], from, t)
  }

  lemma {:induction false} NothingWithin(tr: Trace<string>, from: int, t: int)
    requires forall i :: 0 <= i < |tr| ==> tr[i].tick < from
    ensures ValueWithin(tr, from, t).None?
  {
    if tr != [] {
      NothingWithin(tr[..|tr| - 1], from, t);
    }
  }

  lemma {:induction false} RecordedWithin(tr: Trace<string>, t: int, n: nat)
    requires Ordered(tr) && n <= |tr|
    requires forall i :: 0 <= i < n ==> tr[i].tick <= t
    requires forall i :: n <= i < |tr| ==> t < tr[i].tick
    ensures ValueWithin(tr, 0, t) == if n == 0 || tr[n - 1].tick < 0 then None else Some(tr[n - 1].value)
  {
    if n < |tr| {
      PrefixOrdered(tr);
      RecordedWithin(tr[..|tr| - 1], t, n);
    } else if n > 0 && tr[n - 1].tick < 0 {
      NothingWithin(tr, 0, t);
    }
  }

  lemma RecordedIs(tr: Trace<string>, t: int)
    requires Ordered(tr)
    ensures Recorded(tr, t) == ValueWithin(tr, 0, t)
  {
    RecordedWithin(tr, t, UpperBound(tr, t));
  }

  /** The state the traces themselves define at `t`. */
  ghost function TraceState(sources: map<nat, Trace<string>>, t: int): State
    requires forall s :: s in sources ==> Ordered(sources[s])
  {
    map s | s in sources && Recorded(sources[s], t).Some? :: Recorded(sources[s], t).value
  }

  lemma ReplayInOrder(sources: map<nat, Trace<string>>, decl: seq<nat>, t1: int, out: seq<Emit<string>>)
    requires Inputs(sources, decl) && IsReplay(sources, decl, 0, Some(t1), out)
    ensures InOrder(SamplesOf(out))
    ensures forall i :: 0 <= i < |out| ==> 0 <= SamplesOf(out)[i].tick <= t1
  {
    forall i | 0 <= i < |out| ensures 0 <= out[i].tick <= t1 {
      assert out[i] in out;
    }
    forall i, j | 0 <= i < j < |out| ensures out[i].tick <= out[j].tick {
      assert Before(out[i], out[j]);
    }
  }

  /** The last of the samples of signal `s`, if there is one. */
  ghost predicate LastSampleOf(samples: seq<Sample>, s: nat, k: nat) {
    k < |samples| && samples[k].sid == s && forall i :: k < i < |samples| ==> samples[i].sid != s
  }

  lemma {:induction false} AfterIsLast(samples: seq<Sample>, s: nat) returns (k: nat)
    ensures s in After(samples) ==> LastSampleOf(samples, s, k) && After(samples)[s] == samples[k].raw
    ensures s !in After(samples) ==> forall i :: 0 <= i < |samples| ==> samples[i].sid != s
  {
    k := 0;
    if samples != [] {
      var n := |samples| - 1;
      if samples[n].sid == s {
        k := n;
      } else {
        k := AfterIsLast(samples[..n], s);
      }
    }
  }

  /** Where the replay has the entry a trace ends with at `t`. */
  lemma LastEntryReplayed(sources: map<nat, Trace<string>>, decl: seq<nat>, t1: int, out: seq<Emit<string>>,
                          s: nat, t: int, p: nat, n: nat) returns (j: nat)
    requires Inputs(sources, decl) && IsReplay(sources, decl, 0, Some(t1), out) && t <= t1
    requires InOrder(SamplesOf(out)) && n == CountUpTo(SamplesOf(out), t, |out|)
    requires s in sources && LastAtOrBefore(sources[s], t) == Some(p) && 0 <= sources[s][p].tick
    ensures j < n && out[j] == EntryOf(sources, decl, s, p)
    ensures forall i :: j < i < n ==> out[i].sid != s
  {
    var e := EntryOf(sources, decl, s, p);
    assert IsEntry(sources, decl, e);
    j :| 0 <= j < |out| && out[j] == e;
    assert SamplesOf(out)[j].tick <= t;
    forall i | j < i < n ensures out[i].sid != s {
      assert out[i] in out && Before(out[j], out[i]);
      assert SamplesOf(out)[i].tick <= t;
    }
  }

  lemma NoEntryReplayed(sources: map<nat, Trace<string>>, decl: seq<nat>, t1: int, out: seq<Emit<string>>,
                        s: nat, t: int, i: nat)
    requires Inputs(sources, decl) && IsReplay(sources, decl, 0, Some(t1), out)
    requires s !in sources || Recorded(sources[s], t).None?
    requires i < |out| && out[i].tick <= t
    ensures out[i].sid != s
  {
    assert out[i] in out;
  }

  /** The state after the replayed samples up to `t` is the state the traces
      define at `t`. */
  lemma StreamIsTraces(sources: map<nat, Trace<string>>, decl: seq<nat>, t1: int, out: seq<Emit<string>>, t: int)
    requires Inputs(sources, decl) && IsReplay(sources, decl, 0, Some(t1), out) && t <= t1
    requires InOrder(SamplesOf(out))
    ensures StateAt(SamplesOf(out), t) == TraceState(sources, t)
  {
    forall s: nat
      ensures s in StateAt(SamplesOf(out), t) <==> s in TraceState(sources, t)
      ensures s in TraceState(sources, t) && s in StateAt(SamplesOf(out), t) ==>
                StateAt(SamplesOf(out), t)[s] == TraceState(sources, t)[s]
    {
      StreamValue(sources, decl, t1, out, t, s);
    }
  }

  lemma StreamValue(sources: map<nat, Trace<string>>, decl: seq<nat>, t1: int, out: seq<Emit<string>>, t: int, s: nat)
    requires Inputs(sources, decl) && IsReplay(sources, decl, 0, Some(t1), out) && t <= t1
    requires InOrder(SamplesOf(out))
    ensures s in StateAt(SamplesOf(out), t) <==> s in sources && Recorded(sources[s], t).Some?
    ensures s in StateAt(SamplesOf(out), t) && s in sources ==>
              Recorded(sources[s], t) == Some(StateAt(SamplesOf(out), t)[s])
  {
    var n := CountUpTo(SamplesOf(out), t, |out|);
    var k := AfterIsLast(SamplesOf(out)[..n], s);
    if s in sources && Recorded(sources[s], t).Some? {
      var p := LastAtOrBefore(sources[s], t).value;
      var j := LastEntryReplayed(sources, decl, t1, out, s, t, p, n);
      assert SamplesOf(out)[..n][j].sid == s;
    } else {
      forall i | 0 <= i < n ensures SamplesOf(out)[..n][i].sid != s {
        assert SamplesOf(out)[i].tick <= t;
        NoEntryReplayed(sources, decl, t1, out, s, t, i);
      }
    }
  }
}
