/** Loading the windows of several signals with two reads of the file. */
module FstLoad {
  import opened Wrappers
  import opened Traces
  import opened FstCollector
  import opened FstReader

  /** The file: the raw changes of every handle, and the table of all change
      times, ascending. */
  class Reader<V(==)> {
    const raw: map<nat, Trace<V>>
    const table: seq<nat>

    constructor (raw: map<nat, Trace<V>>, table: seq<nat>)
      requires forall h, i :: h in raw && 0 <= i < |raw[h]| ==> raw[h][i].tick in table
      requires forall h :: h in raw ==> Ordered(raw[h])
      requires forall i, j :: 0 <= i < j < |table| ==> table[i] < table[j]
      ensures this.raw == raw && this.table == table && Valid()
    {
      this.raw := raw;
      this.table := table;
    }

    ghost predicate Valid() {
      && (forall h, i :: h in raw && 0 <= i < |raw[h]| ==> raw[h][i].tick in table)
      && (forall h :: h in raw ==> Ordered(raw[h]))
      && forall i, j :: 0 <= i < j < |table| ==> table[i] < table[j]
    }

    function Raw(h: nat): Trace<V> {
      if h in raw then raw[h] else []
    }

    lemma RawInFile(h: nat)
      requires Valid()
      ensures table != [] ==> InFile(Raw(h), table[|table| - 1])
      ensures table == [] ==> Raw(h) == []
    {
      if Raw(h) != [] {
        assert Raw(h)[0].tick in table;
        forall i | 0 <= i < |Raw(h)|
          ensures table != [] && 0 <= Raw(h)[i].tick <= table[|table| - 1]
        {
          assert Raw(h)[i].tick in table;
        }
      }
    }

    /** The read of phase 1.  It may echo a frame first: `echoes` emissions at
        one time that is in no table.  After that come the changes of the
        requested handles from some section start on. */
    method ReadWindow(seek: nat, end: Option<int>, wanted: seq<nat>)
      returns (r: Option<seq<Emission<V>>>, ghost echoes: nat, ghost start: int, ghost stop: Option<int>)
      requires Valid() && forall i, j :: 0 <= i < j < |wanted| ==> wanted[i] != wanted[j]
      ensures r.Some? ==>
                && echoes <= |r.value|
                && start <= seek && (stop.Some? ==> end.Some? && end.value <= stop.value)
                && (forall i :: 0 <= i < echoes ==> r.value[i].time == r.value[0].time && r.value[i].time !in table)
                && (forall i :: echoes <= i < |r.value| ==> r.value[i].time in table)
                && forall h :: h in wanted ==> ForHandle(r.value[echoes..], h) == Between(Raw(h), start, stop)
    {
      echoes, start, stop := 0, 0, None;
      if * {
        return None, 0, 0, None;
      }
      var ems := Everything(wanted);
      assert ems[0..] == ems;
      r := Some(ems);
    }

    /** The read of phase 2: maybe the frame of the file's first section, at
        one time before every recorded one, then every change up to the seek
        point, and maybe beyond. */
    method ReadHistory(seek: nat, wanted: seq<nat>)
      returns (r: Option<seq<Emission<V>>>, ghost echoes: nat, ghost stop: Option<int>)
      requires Valid() && forall i, j :: 0 <= i < j < |wanted| ==> wanted[i] != wanted[j]
      ensures r.Some? ==>
                && echoes <= |r.value|
                && (stop.Some? ==> seek <= stop.value)
                && FirstFrame(r.value[..echoes], table)
                && forall h :: h in wanted ==> ForHandle(r.value[echoes..], h) == Between(Raw(h), 0, stop)
    {
      echoes, stop := 0, None;
      if * {
        return None, 0, None;
      }
      var ems := Everything(wanted);
      assert ems[0..] == ems;
      r := Some(ems);
    }

    /** All changes of the given handles. */
    method Everything(wanted: seq<nat>) returns (ems: seq<Emission<V>>)
      requires Valid() && forall i, j :: 0 <= i < j < |wanted| ==> wanted[i] != wanted[j]
      ensures forall i :: 0 <= i < |ems| ==> ems[i].time in table
      ensures forall h :: h in wanted ==> ForHandle(ems, h) == Between(Raw(h), 0, None)
    {
      ems := [];
      for k := 0 to |wanted|
        invariant forall i :: 0 <= i < |ems| ==> ems[i].time in table
        invariant forall h :: ForHandle(ems, h) == if h in wanted[..k] then Between(Raw(h), 0, None) else []
      {
        var h := wanted[k];
        RawInFile(h);
        var more := EmissionsOf(Raw(h), h);
        AllJoined(ems, more, wanted, k);
        ems := ems + more;
      }
      assert wanted[..|wanted|] == wanted;
    }

    lemma AllJoined(ems: seq<Emission<V>>, more: seq<Emission<V>>, wanted: seq<nat>, k: nat)
      requires forall i, j :: 0 <= i < j < |wanted| ==> wanted[i] != wanted[j]
      requires k < |wanted| && (forall i :: 0 <= i < |Raw(wanted[k])| ==> 0 <= Raw(wanted[k])[i].tick)
      requires more == EmissionsOf(Raw(wanted[k]), wanted[k])
      requires forall g :: ForHandle(ems, g) == if g in wanted[..k] then Between(Raw(g), 0, None) else []
      ensures forall g :: ForHandle(ems + more, g) == if g in wanted[..k + 1] then Between(Raw(g), 0, None) else []
    {
      forall g
        ensures ForHandle(ems + more, g) == if g in wanted[..k + 1] then Between(Raw(g), 0, None) else []
      {
        Joined(ems, more, wanted, k, g);
      }
    }

    lemma Joined(ems: seq<Emission<V>>, more: seq<Emission<V>>, wanted: seq<nat>, k: nat, g: nat)
      requires forall i, j :: 0 <= i < j < |wanted| ==> wanted[i] != wanted[j]
      requires k < |wanted| && (forall i :: 0 <= i < |Raw(wanted[k])| ==> 0 <= Raw(wanted[k])[i].tick)
      requires more == EmissionsOf(Raw(wanted[k]), wanted[k])
      requires ForHandle(ems, g) == if g in wanted[..k] then Between(Raw(g), 0, None) else []
      ensures ForHandle(ems + more, g) == if g in wanted[..k + 1] then Between(Raw(g), 0, None) else []
    {
      ForHandleConcat(ems, more, g);
      ForHandleOf(Raw(wanted[k]), more, wanted[k], g);
    }
  }

  /** A frame from before the first recorded change, echoed at one time. */
  ghost predicate FirstFrame<V>(ems: seq<Emission<V>>, table: seq<nat>) {
    forall i :: 0 <= i < |ems| ==> ems[i].time == ems[0].time && (table != [] ==> ems[i].time < table[0])
  }

  function EmissionsOf<V>(tr: Trace<V>, h: nat): (ems: seq<Emission<V>>)
    requires forall i :: 0 <= i < |tr| ==> 0 <= tr[i].tick
    ensures |ems| == |tr| && forall i :: 0 <= i < |tr| ==> ems[i] == Emission(tr[i].tick, h, tr[i].value)
  {
    seq(|tr|, i requires 0 <= i < |tr| && 0 <= tr[i].tick => Emission(tr[i].tick, h, tr[i].value))
  }

  lemma {:induction false} ForHandleConcat<V>(a: seq<Emission<V>>, b: seq<Emission<V>>, h: nat)
    ensures ForHandle(a + b, h) == ForHandle(a, h) + ForHandle(b, h)
  {
    if b == [] {
      assert a + b == a;
    } else {
      var n := |b| - 1;
      assert (a + b)[..|a| + n] == a + b[..n];
      ForHandleConcat(a, b[..n], h);
    }
  }

  lemma {:induction false} ForHandleOf<V>(tr: Trace<V>, ems: seq<Emission<V>>, h: nat, g: nat)
    requires |ems| == |tr|
    requires forall i :: 0 <= i < |tr| ==> 0 <= tr[i].tick && ems[i] == Emission(tr[i].tick, h, tr[i].value)
    ensures ForHandle(ems, g) == if g == h then tr else []
    ensures Between(tr, 0, None) == tr
  {
    if tr != [] {
      ForHandleOf(tr[..|tr| - 1], ems[..|ems| - 1], h, g);
    }
  }

  // ----- slots and their collectors -----

  predicate HasSlot(slots: seq<(nat, WinKind)>, h: nat) {
    exists k :: 0 <= k < |slots| && slots[k].0 == h
  }

  /** The kind of a handle is that of its first slot. */
  function KindFor(slots: seq<(nat, WinKind)>, h: nat): WinKind
    requires HasSlot(slots, h)
  {
    var n := |slots| - 1;
    if HasSlot(slots[..n], h) then KindFor(slots[..n], h) else slots[n].1
  }

  lemma SlotAppend(slots: seq<(nat, WinKind)>, x: (nat, WinKind), h: nat)
    ensures HasSlot(slots + [x], h) <==> HasSlot(slots, h) || x.0 == h
    ensures HasSlot(slots + [x], h) ==>
              KindFor(slots + [x], h) == if HasSlot(slots, h) then KindFor(slots, h) else x.1
  {
    var all := slots + [x];
    assert all[..|slots|] == slots && all[|slots|] == x;
    assert forall k :: 0 <= k < |slots| ==> all[k] == slots[k];
  }

  /** Duplicate handles share one collector; `slotOf` says which. */
  ghost predicate Assigned(slots: seq<(nat, WinKind)>, slotOf: map<nat, nat>, uniq: seq<nat>, kinds: seq<WinKind>) {
    && |uniq| == |kinds| <= |slots|
    && (forall i :: 0 <= i < |uniq| ==> uniq[i] in slotOf && slotOf[uniq[i]] == i)
    && (forall h :: h in slotOf ==> slotOf[h] < |uniq| && uniq[slotOf[h]] == h)
    && (forall h :: h in slotOf <==> HasSlot(slots, h))
    && (forall h :: h in slotOf ==> kinds[slotOf[h]] == KindFor(slots, h))
    && (|uniq| == |slots| ==> forall k :: 0 <= k < |slots| ==> uniq[k] == slots[k].0)
  }

  lemma AssignNew(slots: seq<(nat, WinKind)>, slotOf: map<nat, nat>, uniq: seq<nat>, kinds: seq<WinKind>,
                  h: nat, kind: WinKind)
    requires Assigned(slots, slotOf, uniq, kinds) && h !in slotOf
    ensures Assigned(slots + [(h, kind)], slotOf[h := |uniq|], uniq + [h], kinds + [kind])
  {
    forall g {
      SlotAppend(slots, (h, kind), g);
    }
  }

  lemma AssignOld(slots: seq<(nat, WinKind)>, slotOf: map<nat, nat>, uniq: seq<nat>, kinds: seq<WinKind>,
                  h: nat, kind: WinKind)
    requires Assigned(slots, slotOf, uniq, kinds) && h in slotOf
    ensures Assigned(slots + [(h, kind)], slotOf, uniq, kinds)
  {
    forall g {
      SlotAppend(slots, (h, kind), g);
    }
  }

  /** One collector object per handle, all different. */
  ghost predicate Separate<V>(collectors: seq<Collector<V>>) {
    forall i, j :: 0 <= i < j < |collectors| ==> collectors[i] != collectors[j]
  }

  ghost predicate Registered<V>(slots: seq<(nat, WinKind)>, slotOf: map<nat, nat>, uniq: seq<nat>,
                                collectors: seq<Collector<V>>) {
    && Separate(collectors)
    && Assigned(slots, slotOf, uniq, KindsOf(collectors))
  }

  function KindsOf<V>(collectors: seq<Collector<V>>): (r: seq<WinKind>)
    ensures |r| == |collectors| && forall i :: 0 <= i < |r| ==> r[i] == collectors[i].kind
  {
    seq(|collectors|, i requires 0 <= i < |collectors| => collectors[i].kind)
  }

  method Register<V(==)>(slots: seq<(nat, WinKind)>)
    returns (slotOf: map<nat, nat>, uniq: seq<nat>, collectors: seq<Collector<V>>)
    ensures Registered(slots, slotOf, uniq, collectors)
    ensures forall i :: 0 <= i < |collectors| ==>
                          fresh(collectors[i]) && collectors[i].View() == Fresh(collectors[i].kind)
  {
    slotOf, uniq, collectors := map[], [], [];
    for k := 0 to |slots|
      invariant Registered(slots[..k], slotOf, uniq, collectors)
      invariant forall i :: 0 <= i < |collectors| ==>
                              fresh(collectors[i]) && collectors[i].View() == Fresh(collectors[i].kind)
    {
      var (h, kind) := slots[k];
      assert slots[..k + 1] == slots[..k] + [(h, kind)];
      if h !in slotOf {
        AssignNew(slots[..k], slotOf, uniq, KindsOf(collectors), h, kind);
        slotOf, uniq := slotOf[h := |uniq|], uniq + [h];
        var c := new Collector<V>(kind);
        assert KindsOf(collectors + [c]) == KindsOf(collectors) + [kind];
        collectors := collectors + [c];
      } else {
        AssignOld(slots[..k], slotOf, uniq, KindsOf(collectors), h, kind);
      }
    }
    assert slots[..|slots|] == slots;
  }

  /** The first emission decides which time, if any, is that of a frame. */
  function Suspect<V>(ems: seq<Emission<V>>, table: seq<nat>): Option<nat> {
    if ems != [] && ems[0].time !in table then Some(ems[0].time) else None
  }

  lemma RunMarkedStep<V>(c: Collected<V>, ems: seq<Emission<V>>, n: nat, suspect: Option<nat>, h: nat,
                         from: int, to: Option<int>)
    requires n < |ems|
    ensures var before := Run(c, Marked(ems[..n], suspect, h), from, to);
            var e := ems[n];
            Run(c, Marked(ems[..n + 1], suspect, h), from, to) ==
            if e.handle == h
            then Phase1(before, Flagged(Change(e.time, e.value), suspect == Some(e.time)), from, to)
            else before
  {
    assert ems[..n + 1][..n] == ems[..n];
    var m, e := Marked(ems[..n], suspect, h), ems[n];
    var x := Flagged(Change(e.time as int, e.value), suspect == Some(e.time));
    assert (m + [x])[..|m|] == m && m + [] == m;
  }

  lemma RunPhase2Step<V>(c: Collected<V>, ems: seq<Emission<V>>, n: nat, h: nat, from: int)
    requires n < |ems|
    ensures var before := RunPhase2(c, ForHandle(ems[..n], h), from);
            var e := ems[n];
            RunPhase2(c, ForHandle(ems[..n + 1], h), from) ==
            if e.handle == h && e.time <= from && before.demoted
            then before.(seed2 := Some(Change(e.time, e.value))) else before
  {
    assert ems[..n + 1][..n] == ems[..n];
    var m, e := ForHandle(ems[..n], h), ems[n];
    var x := Change(e.time as int, e.value);
    assert (m + [x])[..|m|] == m && m + [] == m;
  }

  lemma {:induction false} NotDemotedUnchanged<V>(c: Collected<V>, xs: Trace<V>, from: int)
    requires !c.demoted
    ensures RunPhase2(c, xs, from) == c
  {
    if xs != [] {
      NotDemotedUnchanged(c, xs[..|xs| - 1], from);
    }
  }

  // ----- the collectors together, as values -----

  ghost function Views<V>(collectors: seq<Collector<V>>): (r: seq<Collected<V>>)
    reads collectors
    ensures |r| == |collectors| && forall i :: 0 <= i < |r| ==> r[i] == collectors[i].View()
  {
    seq(|collectors|, i requires 0 <= i < |collectors| reads collectors => collectors[i].View())
  }

  /** Every collector after the emissions of its handle. */
  ghost function AllPhase1<V>(views: seq<Collected<V>>, uniq: seq<nat>, ems: seq<Emission<V>>, suspect: Option<nat>,
                              from: int, to: Option<int>): (r: seq<Collected<V>>)
    requires |views| == |uniq|
    ensures |r| == |views|
  {
    seq(|views|, i requires 0 <= i < |views| && |views| == |uniq| =>
      Run(views[i], Marked(ems, suspect, uniq[i]), from, to))
  }

  ghost function AllPhase2<V>(views: seq<Collected<V>>, uniq: seq<nat>, ems: seq<Emission<V>>, from: int)
    : (r: seq<Collected<V>>)
    requires |views| == |uniq|
    ensures |r| == |views|
  {
    seq(|views|, i requires 0 <= i < |views| && |views| == |uniq| => RunPhase2(views[i], ForHandle(ems, uniq[i]), from))
  }

  /** One emission reaches the collector of its handle only. */
  ghost predicate Dispatched1<V>(before: seq<Collected<V>>, after: seq<Collected<V>>, uniq: seq<nat>, e: Emission<V>,
                                 suspect: bool, from: int, to: Option<int>)
  {
    && |before| == |after| == |uniq|
    && forall i :: 0 <= i < |uniq| ==>
                     after[i] == if e.handle == uniq[i]
                                 then Phase1(before[i], Flagged(Change(e.time, e.value), suspect), from, to)
                                 else before[i]
  }

  ghost predicate Dispatched2<V>(before: seq<Collected<V>>, after: seq<Collected<V>>, uniq: seq<nat>, e: Emission<V>,
                                 from: int)
  {
    && |before| == |after| == |uniq|
    && forall i :: 0 <= i < |uniq| ==>
                     after[i] == if e.handle == uniq[i] && e.time <= from && before[i].demoted
                                 then before[i].(seed2 := Some(Change(e.time, e.value))) else before[i]
  }

  lemma AllPhase1Step<V>(views: seq<Collected<V>>, uniq: seq<nat>, ems: seq<Emission<V>>, n: nat, suspect: Option<nat>,
                         from: int, to: Option<int>, after: seq<Collected<V>>)
    requires |views| == |uniq| && n < |ems|
    requires Dispatched1(AllPhase1(views, uniq, ems[..n], suspect, from, to), after, uniq, ems[n],
                         suspect == Some(ems[n].time), from, to)
    ensures after == AllPhase1(views, uniq, ems[..n + 1], suspect, from, to)
  {
    var now := AllPhase1(views, uniq, ems[..n + 1], suspect, from, to);
    forall i | 0 <= i < |views| ensures after[i] == now[i] {
      RunMarkedStep(views[i], ems, n, suspect, uniq[i], from, to);
    }
  }

  lemma AllPhase2Step<V>(views: seq<Collected<V>>, uniq: seq<nat>, ems: seq<Emission<V>>, n: nat, from: int,
                         after: seq<Collected<V>>)
    requires |views| == |uniq| && n < |ems|
    requires Dispatched2(AllPhase2(views, uniq, ems[..n], from), after, uniq, ems[n], from)
    ensures after == AllPhase2(views, uniq, ems[..n + 1], from)
  {
    var now := AllPhase2(views, uniq, ems[..n + 1], from);
    forall i | 0 <= i < |views| ensures after[i] == now[i] {
      RunPhase2Step(views[i], ems, n, uniq[i], from);
    }
  }

  /** Hands one emission to the collector of its handle, if it has one. */
  method Dispatch1<V(==)>(e: Emission<V>, slots: seq<(nat, WinKind)>, slotOf: map<nat, nat>, uniq: seq<nat>,
                          collectors: seq<Collector<V>>, from: int, to: Option<int>, suspect: bool)
    requires Registered(slots, slotOf, uniq, collectors)
    modifies collectors
    ensures Dispatched1(old(Views(collectors)), Views(collectors), uniq, e, suspect, from, to)
  {
    if e.handle in slotOf {
      collectors[slotOf[e.handle]].OnPhase1(e.time, e.value, from, to, suspect);
    }
  }

  method Dispatch2<V(==)>(e: Emission<V>, slots: seq<(nat, WinKind)>, slotOf: map<nat, nat>, uniq: seq<nat>,
                          collectors: seq<Collector<V>>, from: int)
    requires Registered(slots, slotOf, uniq, collectors)
    modifies collectors
    ensures Dispatched2(old(Views(collectors)), Views(collectors), uniq, e, from)
  {
    if e.handle in slotOf {
      collectors[slotOf[e.handle]].OnPhase2(e.time, e.value, from);
    }
  }

  /** Feeds the phase-1 stream to the collectors. */
  method FeedPhase1<V(==)>(ems: seq<Emission<V>>, table: seq<nat>, slots: seq<(nat, WinKind)>, slotOf: map<nat, nat>,
                           uniq: seq<nat>, collectors: seq<Collector<V>>, from: int, to: Option<int>)
    requires Registered(slots, slotOf, uniq, collectors)
    modifies collectors
    ensures Views(collectors) == AllPhase1(old(Views(collectors)), uniq, ems, Suspect(ems, table), from, to)
  {
    ghost var views := Views(collectors);
    var suspect: Option<nat> := None;
    var firstSeen := false;
    assert AllPhase1(views, uniq, ems[..0], Suspect(ems, table), from, to) == views;
    for n := 0 to |ems|
      invariant firstSeen <==> n > 0
      invariant suspect == if n > 0 then Suspect(ems, table) else None
      invariant Views(collectors) == AllPhase1(views, uniq, ems[..n], Suspect(ems, table), from, to)
    {
      var e := ems[n];
      if !firstSeen {
        firstSeen := true;
        if e.time !in table {
          suspect := Some(e.time);
        }
      }
      Dispatch1(e, slots, slotOf, uniq, collectors, from, to, suspect == Some(e.time));
      AllPhase1Step(views, uniq, ems, n, suspect, from, to, Views(collectors));
    }
    assert ems[..|ems|] == ems;
  }

  /** Feeds the phase-2 stream to the collectors. */
  method FeedPhase2<V(==)>(ems: seq<Emission<V>>, slots: seq<(nat, WinKind)>, slotOf: map<nat, nat>,
                           uniq: seq<nat>, collectors: seq<Collector<V>>, from: int)
    requires Registered(slots, slotOf, uniq, collectors)
    modifies collectors
    ensures Views(collectors) == AllPhase2(old(Views(collectors)), uniq, ems, from)
  {
    ghost var views := Views(collectors);
    assert AllPhase2(views, uniq, ems[..0], from) == views;
    for n := 0 to |ems|
      invariant Views(collectors) == AllPhase2(views, uniq, ems[..n], from)
    {
      Dispatch2(ems[n], slots, slotOf, uniq, collectors, from);
      AllPhase2Step(views, uniq, ems, n, from, Views(collectors));
    }
    assert ems[..|ems|] == ems;
  }

  /** The first `n` collectors have been looked at. */
  ghost predicate Demoting<V>(before: seq<Collected<V>>, now: seq<Collected<V>>, n: nat) {
    |now| == |before| && forall i :: 0 <= i < |before| ==> now[i] == if i < n then Demoted(before[i]) else before[i]
  }

  /** `wanted` lists, once each, those of the first `n` handles whose collector
      has no trustworthy seed. */
  ghost predicate Wanted<V>(before: seq<Collected<V>>, uniq: seq<nat>, wanted: seq<nat>, n: nat) {
    && n <= |before| == |uniq|
    && (forall h :: h in wanted <==> exists i :: 0 <= i < n && uniq[i] == h && NeedsPhase2(before[i]))
    && forall i, j :: 0 <= i < j < |wanted| ==> wanted[i] != wanted[j]
  }

  lemma WantedStep<V>(before: seq<Collected<V>>, uniq: seq<nat>, wanted: seq<nat>, n: nat)
    requires Wanted(before, uniq, wanted, n) && n < |before|
    requires forall i :: 0 <= i < n ==> uniq[i] != uniq[n]
    ensures Wanted(before, uniq, if NeedsPhase2(before[n]) then wanted + [uniq[n]] else wanted, n + 1)
  {
    if NeedsPhase2(before[n]) {
      assert uniq[n] !in wanted;
    }
  }

  method DemoteOne<V(==)>(collectors: seq<Collector<V>>, n: nat) returns (needed: bool)
    requires n < |collectors| && Separate(collectors)
    modifies collectors[n]
    ensures needed <==> NeedsPhase2(old(collectors[n].View()))
    ensures Views(collectors) == old(Views(collectors))[n := Demoted(old(collectors[n].View()))]
  {
    needed := NeedsPhase2(collectors[n].View());
    if needed {
      collectors[n].Demote();
    }
  }

  /** Demotes the collectors without a trustworthy seed, and names their
      handles. */
  method DemoteSeedless<V(==)>(slots: seq<(nat, WinKind)>, slotOf: map<nat, nat>, uniq: seq<nat>,
                               collectors: seq<Collector<V>>) returns (wanted: seq<nat>)
    requires Registered(slots, slotOf, uniq, collectors)
    modifies collectors
    ensures forall i :: 0 <= i < |collectors| ==>
                          Views(collectors)[i] == Demoted(old(Views(collectors))[i])
    ensures forall i :: 0 <= i < |uniq| ==> (uniq[i] in wanted <==> NeedsPhase2(old(Views(collectors))[i]))
    ensures forall i, j :: 0 <= i < j < |wanted| ==> wanted[i] != wanted[j]
  {
    ghost var views := Views(collectors);
    UniqDistinct(slots, slotOf, uniq, KindsOf(collectors));
    wanted := [];
    for n := 0 to |collectors|
      invariant Demoting(views, Views(collectors), n)
      invariant Wanted(views, uniq, wanted, n)
    {
      var needed := DemoteOne(collectors, n);
      WantedStep(views, uniq, wanted, n);
      if needed {
        wanted := wanted + [uniq[n]];
      }
    }
  }

  lemma UniqDistinct(slots: seq<(nat, WinKind)>, slotOf: map<nat, nat>, uniq: seq<nat>, kinds: seq<WinKind>)
    requires Assigned(slots, slotOf, uniq, kinds)
    ensures forall i, j :: 0 <= i < j < |uniq| ==> uniq[i] != uniq[j]
  {
    forall i, j | 0 <= i < j < |uniq| ensures uniq[i] != uniq[j] {
      assert slotOf[uniq[i]] == i && slotOf[uniq[j]] == j;
    }
  }

  function Demoted<V>(c: Collected<V>): Collected<V> {
    if NeedsPhase2(c) then c.(demoted := true) else c
  }
}
