/** The windowed decode of a list of slots, from the file to the traces. */
module FstDecode {
  import opened Wrappers
  import opened Traces
  import opened FstCollector
  import opened FstWindow
  import opened FstReader
  import opened FstLoad

  /** What a read of phase 1 yields: emissions at one time in no table, then
      the changes of the wanted handles between two points. */
  ghost predicate WindowRead<V>(rd: Reader<V>, ems: seq<Emission<V>>, echoes: nat,
                                start: int, stop: Option<int>, wanted: seq<nat>)
  {
    && echoes <= |ems|
    && (forall i :: 0 <= i < echoes ==> ems[i].time == ems[0].time && ems[i].time !in rd.table)
    && (forall i :: echoes <= i < |ems| ==> ems[i].time in rd.table)
    && forall h :: h in wanted ==> ForHandle(ems[echoes..], h) == Between(rd.Raw(h), start, stop)
  }

  /** Looking at the first emission only is enough to tell every echo from
      every change. */
  lemma EchoesFirst<V>(rd: Reader<V>, ems: seq<Emission<V>>, echoes: nat,
                       start: int, stop: Option<int>, wanted: seq<nat>, h: nat) returns (xs: seq<Flagged<V>>)
    requires WindowRead(rd, ems, echoes, start, stop, wanted) && h in wanted
    ensures Marked(ems, Suspect(ems, rd.table), h) == xs + Genuine(Between(rd.Raw(h), start, stop))
    ensures forall i :: 0 <= i < |xs| ==> xs[i].suspect
  {
    var first, rest, suspect := ems[..echoes], ems[echoes..], Suspect(ems, rd.table);
    assert ems == first + rest;
    MarkedConcat(first, rest, suspect, h);
    xs := Marked(first, suspect, h);
    MarkedEchoes(first, suspect, h);
    forall i | 0 <= i < |rest|
      ensures suspect != Some(rest[i].time)
    {
      assert rest[i] == ems[echoes + i] && rest[i].time in rd.table;
    }
    MarkedGenuine(rest, suspect, h);
  }

  /** One collector, after phase 1 and perhaps phase 2. */
  lemma OneDone<V>(kind: WinKind, rd: Reader<V>, ems: seq<Emission<V>>, echoes: nat,
                   start: int, stop: Option<int>, wanted: seq<nat>, h: nat, from: int, to: Option<int>,
                   echoes2: Trace<V>, stop2: Option<int>)
    requires rd.table != [] && InFile(rd.Raw(h), rd.table[|rd.table| - 1])
    requires WindowRead(rd, ems, echoes, start, stop, wanted) && h in wanted
    requires Covering(start, stop, from, to, rd.table[|rd.table| - 1])
    requires stop2.Some? ==> SeekPoint(from, rd.table[|rd.table| - 1]) <= stop2.value
    ensures var c := Run(Fresh(kind), Marked(ems, Suspect(ems, rd.table), h), from, to);
            && !c.demoted
            && Finish(if NeedsPhase2(c) then RunPhase2(Demoted(c), echoes2 + Between(rd.Raw(h), 0, stop2), from) else c)
               == Decoded(kind, rd.Raw(h), echoes2, from, to)
  {
    var xs := EchoesFirst(rd, ems, echoes, start, stop, wanted, h);
    var r := Between(rd.Raw(h), start, stop);
    OneSignal(kind, rd.Raw(h), xs, from, to, rd.table[|rd.table| - 1], start, stop, echoes2, stop2);
    BetweenOrdered(rd.Raw(h), start, stop);
    RunTracks(kind, xs, r, from, to);
  }

  /** The same, with phase 2 run only when some handle wants it, and then past
      every collector. */
  lemma HandleDone<V>(kind: WinKind, rd: Reader<V>, ems: seq<Emission<V>>, echoes: nat, start: int, stop: Option<int>,
                      uniq: seq<nat>, h: nat, from: int, to: Option<int>, wanted: seq<nat>,
                      second: seq<Emission<V>>, frame: seq<Emission<V>>, stop2: Option<int>, last: Collected<V>)
    requires rd.table != [] && InFile(rd.Raw(h), rd.table[|rd.table| - 1])
    requires WindowRead(rd, ems, echoes, start, stop, uniq) && h in uniq
    requires Covering(start, stop, from, to, rd.table[|rd.table| - 1])
    requires stop2.Some? ==> SeekPoint(from, rd.table[|rd.table| - 1]) <= stop2.value
    requires h in wanted <==> NeedsPhase2(Run(Fresh(kind), Marked(ems, Suspect(ems, rd.table), h), from, to))
    requires h in wanted ==> ForHandle(second, h) == ForHandle(frame, h) + Between(rd.Raw(h), 0, stop2)
    requires var c := Demoted(Run(Fresh(kind), Marked(ems, Suspect(ems, rd.table), h), from, to));
             last == if wanted == [] then c else RunPhase2(c, ForHandle(second, h), from)
    ensures Finish(last) == Decoded(kind, rd.Raw(h), ForHandle(frame, h), from, to)
  {
    OneDone(kind, rd, ems, echoes, start, stop, uniq, h, from, to, ForHandle(frame, h), stop2);
    var c := Run(Fresh(kind), Marked(ems, Suspect(ems, rd.table), h), from, to);
    if h !in wanted {
      NotDemotedUnchanged(c, ForHandle(second, h), from);
    }
  }

  lemma FrameFirst<V>(second: seq<Emission<V>>, n: nat, h: nat)
    requires n <= |second|
    ensures ForHandle(second, h) == ForHandle(second[..n], h) + ForHandle(second[n..], h)
  {
    assert second == second[..n] + second[n..];
    ForHandleConcat(second[..n], second[n..], h);
  }

  /** Both reads and all that they are fed to; `frame` is what the second read
      echoed. */
  method TwoPhases<V(==)>(rd: Reader<V>, slots: seq<(nat, WinKind)>, slotOf: map<nat, nat>, uniq: seq<nat>,
                          collectors: seq<Collector<V>>, from: int, to: Option<int>)
    returns (ok: bool, ghost frame: seq<Emission<V>>)
    requires rd.Valid() && rd.table != [] && Registered(slots, slotOf, uniq, collectors)
    requires forall i :: 0 <= i < |collectors| ==> collectors[i].View() == Fresh(collectors[i].kind)
    modifies collectors
    ensures FirstFrame(frame, rd.table)
    ensures ok ==> forall i :: 0 <= i < |collectors| ==>
                                 Finish(collectors[i].View()) ==
                                 Decoded(collectors[i].kind, rd.Raw(uniq[i]), ForHandle(frame, uniq[i]), from, to)
  {
    ghost var views := Views(collectors);
    frame := [];
    var fileEnd := rd.table[|rd.table| - 1];
    var seek, end := SeekPoint(from, fileEnd), SeekEnd(from, to, fileEnd);
    var read1, echoes, start, stop := rd.ReadWindow(seek, end, uniq);
    if read1.None? {
      return false, frame;
    }
    var ems := read1.value;
    FeedPhase1(ems, rd.table, slots, slotOf, uniq, collectors, from, to);
    ghost var mid := Views(collectors);
    var wanted := DemoteSeedless(slots, slotOf, uniq, collectors);
    ghost var demoted := Views(collectors);
    ghost var stop2: Option<int> := None;
    ghost var second: seq<Emission<V>> := [];
    if wanted != [] {
      var read2, echoes2, stopped := rd.ReadHistory(seek, wanted);
      if read2.None? {
        return false, frame;
      }
      stop2, second, frame := stopped, read2.value, read2.value[..echoes2];
      forall h | h in wanted
        ensures ForHandle(second, h) == ForHandle(frame, h) + Between(rd.Raw(h), 0, stop2)
      {
        FrameFirst(second, echoes2, h);
      }
      FeedPhase2(read2.value, slots, slotOf, uniq, collectors, from);
    }
    forall i | 0 <= i < |collectors|
      ensures Finish(collectors[i].View()) ==
              Decoded(collectors[i].kind, rd.Raw(uniq[i]), ForHandle(frame, uniq[i]), from, to)
    {
      rd.RawInFile(uniq[i]);
      assert mid[i] == Run(views[i], Marked(ems, Suspect(ems, rd.table), uniq[i]), from, to);
      assert views[i] == Fresh(collectors[i].kind) && demoted[i] == Demoted(mid[i]);
      HandleDone(collectors[i].kind, rd, ems, echoes, start, stop, uniq, uniq[i], from, to, wanted,
                 second, frame, stop2, Views(collectors)[i]);
    }
    ok := true;
  }

  lemma SlotCollector(slots: seq<(nat, WinKind)>, slotOf: map<nat, nat>, uniq: seq<nat>, kinds: seq<WinKind>, k: nat)
    requires Assigned(slots, slotOf, uniq, kinds) && k < |slots|
    ensures HasSlot(slots, slots[k].0) && slots[k].0 in slotOf
    ensures var i := slotOf[slots[k].0];
            i < |uniq| && uniq[i] == slots[k].0 && kinds[i] == KindFor(slots, slots[k].0)
    ensures |uniq| == |slots| ==> slotOf[slots[k].0] == k
  {}

  /** One trace per slot: the collectors' own order when there are no duplicate
      slots, and otherwise copies. */
  method Assemble<V(==)>(slots: seq<(nat, WinKind)>, slotOf: map<nat, nat>, uniq: seq<nat>,
                         collectors: seq<Collector<V>>) returns (traces: seq<Trace<V>>)
    requires Registered(slots, slotOf, uniq, collectors)
    ensures |traces| == |slots|
    ensures forall k :: 0 <= k < |slots| ==>
                          slots[k].0 in slotOf && slotOf[slots[k].0] < |collectors|
                          && traces[k] == Finish(collectors[slotOf[slots[k].0]].View())
  {
    forall k | 0 <= k < |slots|
      ensures slots[k].0 in slotOf && slotOf[slots[k].0] < |collectors|
      ensures |uniq| == |slots| ==> slotOf[slots[k].0] == k
    {
      SlotCollector(slots, slotOf, uniq, KindsOf(collectors), k);
    }
    var finished: seq<Trace<V>> := [];
    for n := 0 to |collectors|
      invariant |finished| == n
      invariant forall i :: 0 <= i < n ==> finished[i] == Finish(collectors[i].View())
    {
      var tr := collectors[n].FinishTrace();
      finished := finished + [tr];
    }
    if |finished| == |slots| {
      return finished;
    }
    traces := Copies(slots, slotOf, finished);
  }

  /** One copy per slot of its handle's trace. */
  method Copies<V>(slots: seq<(nat, WinKind)>, slotOf: map<nat, nat>, finished: seq<Trace<V>>)
    returns (traces: seq<Trace<V>>)
    requires forall k :: 0 <= k < |slots| ==> slots[k].0 in slotOf && slotOf[slots[k].0] < |finished|
    ensures |traces| == |slots| && forall k :: 0 <= k < |slots| ==> traces[k] == finished[slotOf[slots[k].0]]
  {
    traces := [];
    for k := 0 to |slots|
      invariant |traces| == k && forall i :: 0 <= i < k ==> traces[i] == finished[slotOf[slots[i].0]]
    {
      traces := traces + [finished[slotOf[slots[k].0]]];
    }
  }

  /** Each slot gets the window of its own signal, in slot order; duplicate
      slots get equal traces, by the kind of the first of them.  `frame` is what
      the second read echoed.  No trace at all means that a read failed, and
      that the caller has to decode the whole file. */
  method LoadWindowed<V(==)>(rd: Reader<V>, slots: seq<(nat, WinKind)>, from: int, to: Option<int>)
    returns (traces: seq<Trace<V>>, ghost failed: bool, ghost frame: seq<Emission<V>>)
    requires rd.Valid()
    ensures FirstFrame(frame, rd.table)
    ensures failed ==> traces == []
    ensures !failed ==> |traces| == |slots|
    ensures traces != [] ==> |traces| == |slots|
    ensures traces != [] ==>
              forall k :: 0 <= k < |slots| ==> SlotServed(rd, slots, k, frame, from, to, traces[k])
  {
    failed, frame := false, [];
    if slots == [] {
      return [], false, frame;
    }
    if rd.table == [] {
      traces := seq(|slots|, _ => []);
      forall k | 0 <= k < |slots|
        ensures SlotServed(rd, slots, k, frame, from, to, traces[k])
      {
        rd.RawInFile(slots[k].0);
      }
      return;
    }
    var slotOf, uniq, collectors := Register<V>(slots);
    var ok;
    ok, frame := TwoPhases(rd, slots, slotOf, uniq, collectors, from, to);
    if !ok {
      return [], true, frame;
    }
    traces := Assemble(slots, slotOf, uniq, collectors);
    forall k | 0 <= k < |slots|
      ensures SlotServed(rd, slots, k, frame, from, to, traces[k])
    {
      SlotCollector(slots, slotOf, uniq, KindsOf(collectors), k);
    }
  }

  ghost predicate SlotServed<V>(rd: Reader<V>, slots: seq<(nat, WinKind)>, k: nat, frame: seq<Emission<V>>,
                                from: int, to: Option<int>, tr: Trace<V>)
    requires k < |slots|
  {
    var h := slots[k].0;
    HasSlot(slots, h) && tr == Decoded(KindFor(slots, h), rd.Raw(h), ForHandle(frame, h), from, to)
  }

  /** What the second read echoes lies before all that the file records, so a
      slot's trace is the window of the signal's changes, or of its changes
      after the echo. */
  lemma ServedWindow<V>(rd: Reader<V>, slots: seq<(nat, WinKind)>, k: nat, frame: seq<Emission<V>>,
                        from: int, to: Option<int>, tr: Trace<V>)
    requires rd.Valid() && k < |slots| && FirstFrame(frame, rd.table)
    requires SlotServed(rd, slots, k, frame, from, to, tr)
    ensures var h := slots[k].0;
            var seen := if frame != [] && frame[0].time <= from then ForHandle(frame, h) else [];
            && Ordered(seen + rd.Raw(h))
            && tr == Windowed(KindFor(slots, h), seen + rd.Raw(h), from, to)
  {
    var h := slots[k].0;
    FrameBefore(rd, frame, h);
    FrameSeen(KindFor(slots, h), rd.Raw(h), frame, h, from, to);
  }

  lemma FrameSeen<V>(kind: WinKind, raw: Trace<V>, frame: seq<Emission<V>>, h: nat, from: int, to: Option<int>)
    requires forall i :: 0 <= i < |frame| ==> frame[i].time == frame[0].time
    ensures var seen := if frame != [] && frame[0].time <= from then ForHandle(frame, h) else [];
            Decoded(kind, raw, ForHandle(frame, h), from, to) == Windowed(kind, seen + raw, from, to)
  {
    FrameTicks(frame, if frame != [] then frame[0].time else 0, h);
    if frame != [] && frame[0].time <= from {
      EchoIsChange(kind, raw, ForHandle(frame, h), from, to);
    } else {
      assert [] + raw == raw;
      NoneUpTo(ForHandle(frame, h), from);
    }
  }

  lemma {:induction false} FrameTicks<V>(frame: seq<Emission<V>>, t: nat, h: nat)
    requires forall i :: 0 <= i < |frame| ==> frame[i].time == t
    ensures forall i :: 0 <= i < |ForHandle(frame, h)| ==> ForHandle(frame, h)[i].tick == t
    ensures frame == [] ==> ForHandle(frame, h) == []
  {
    if frame != [] {
      FrameTicks(frame[..|frame| - 1], t, h);
    }
  }

  lemma FrameBefore<V>(rd: Reader<V>, frame: seq<Emission<V>>, h: nat)
    requires rd.Valid() && FirstFrame(frame, rd.table)
    ensures Ordered(ForHandle(frame, h) + rd.Raw(h)) && Ordered([] + rd.Raw(h))
  {
    FrameTicks(frame, if frame != [] then frame[0].time else 0, h);
    forall i | 0 <= i < |rd.Raw(h)| && frame != []
      ensures frame[0].time <= rd.Raw(h)[i].tick
    {
      assert rd.Raw(h)[i].tick in rd.table;
    }
  }

  lemma {:induction false} NoneUpTo<V>(tr: Trace<V>, from: int)
    requires forall i :: 0 <= i < |tr| ==> from < tr[i].tick
    ensures LastUpTo(tr, from) == None
  {
    if tr != [] {
      NoneUpTo(tr[..|tr| - 1], from);
    }
  }
}
