/** What a time-ordered replay of several signals is, and what it determines. */
module Replay {
  import opened Wrappers
  import opened Traces

  /** One replayed change: entry `pos` of the trace of signal `sid`, whose
      place in declaration order is `decl`. */
  datatype Emit<+V> = Emit(tick: int, decl: nat, sid: nat, pos: nat, value: V)

  /** Signal `s` contributes trace `sources[s]`; `decl[s]` is its place in
      declaration order, different for every signal. */
  ghost predicate Inputs<V>(sources: map<nat, Trace<V>>, decl: seq<nat>) {
    && (forall s :: s in sources ==> s < |decl| && Ordered(sources[s]))
    && forall s, r :: s in sources && r in sources && s != r ==> decl[s] != decl[r]
  }

  /** Order of replay: by tick, then declaration, then position in the trace. */
  predicate Before<V>(a: Emit<V>, b: Emit<V>) {
    a.tick < b.tick || (a.tick == b.tick && (a.decl < b.decl || (a.decl == b.decl && a.pos < b.pos)))
  }

  predicate InWindow(t: int, t0: int, t1: Option<int>) {
    t0 <= t && AtMost(t, t1)
  }

  ghost predicate IsEntry<V>(sources: map<nat, Trace<V>>, decl: seq<nat>, e: Emit<V>)
    requires Inputs(sources, decl)
  {
    && e.sid in sources && e.pos < |sources[e.sid]|
    && sources[e.sid][e.pos] == Change(e.tick, e.value) && e.decl == decl[e.sid]
  }

  /** The emission for entry `p` of signal `s`. */
  function EntryOf<V>(sources: map<nat, Trace<V>>, decl: seq<nat>, s: nat, p: nat): Emit<V>
    requires s in sources && s < |decl| && p < |sources[s]|
  {
    Emit(sources[s][p].tick, decl[s], s, p, sources[s][p].value)
  }

  ghost predicate Sorted<V>(out: seq<Emit<V>>) {
    forall i, j :: 0 <= i < j < |out| ==> Before(out[i], out[j])
  }

  /** `out` is the replay of `sources` over `[t0, t1]`: it holds exactly the
      entries of the traces inside the window, in strictly increasing order,
      so each of them once. */
  ghost predicate IsReplay<V(!new)>(sources: map<nat, Trace<V>>, decl: seq<nat>, t0: int, t1: Option<int>,
                                    out: seq<Emit<V>>)
    requires Inputs(sources, decl)
  {
    && Sorted(out)
    && forall e :: e in out <==> IsEntry(sources, decl, e) && InWindow(e.tick, t0, t1)
  }

  /** A sorted list is determined by its members, so a replay is determined
      by its inputs. */
  lemma {:induction false} SortedUnique<V>(a: seq<Emit<V>>, b: seq<Emit<V>>)
    requires Sorted(a) && Sorted(b)
    requires forall e :: e in a ==> e in b
    requires forall e :: e in b ==> e in a
    ensures a == b
  {
    if a == [] {
      if b != [] {
        HasMember(b);
      }
    } else if b == [] {
      HasMember(a);
    } else {
      var x, y := a[|a| - 1], b[|b| - 1];
      assert x in b && y in a;
      assert x == y;
      var a', b' := a[..|a| - 1], b[..|b| - 1];
      assert a == a' + [x] && b == b' + [y];
      assert x !in a' && x !in b';
      assert forall e :: e in a' ==> e in a && e != x;
      assert forall e :: e in b' ==> e in b && e != x;
      SortedUnique(a', b');
    }
  }

  lemma ReplayUnique<V(!new)>(sources: map<nat, Trace<V>>, decl: seq<nat>, t0: int, t1: Option<int>,
                              a: seq<Emit<V>>, b: seq<Emit<V>>)
    requires Inputs(sources, decl)
    requires IsReplay(sources, decl, t0, t1, a) && IsReplay(sources, decl, t0, t1, b)
    ensures a == b
  {
    SortedUnique(a, b);
  }

  // ----- the merge, step by step -----

  /** Entry `next[s]` is the one signal `s` offers next. */
  ghost predicate Offers<V>(sources: map<nat, Trace<V>>, next: map<nat, nat>, s: nat) {
    s in sources && s in next && next[s] < |sources[s]|
  }

  /** Everything before the entries on offer has been dealt with, and comes
      before them. */
  ghost predicate MergeState<V(!new)>(sources: map<nat, Trace<V>>, decl: seq<nat>, t0: int, t1: Option<int>,
                                      next: map<nat, nat>, out: seq<Emit<V>>)
    requires Inputs(sources, decl)
  {
    && next.Keys == sources.Keys
    && (forall s :: s in sources ==> next[s] <= |sources[s]|)
    && Sorted(out)
    && (forall e :: e in out <==>
                    IsEntry(sources, decl, e) && e.pos < next[e.sid] && t0 <= e.tick)
    && (forall e :: e in out ==> AtMost(e.tick, t1))
    && forall e, s :: e in out && Offers(sources, next, s) ==>
                        Before(e, EntryOf(sources, decl, s, next[s]))
  }

  /** `s` makes an offer, and no other signal's offer comes before it. */
  ghost predicate Foremost<V>(sources: map<nat, Trace<V>>, decl: seq<nat>, next: map<nat, nat>, s: nat)
    requires Inputs(sources, decl)
  {
    && Offers(sources, next, s)
    && forall r :: Offers(sources, next, r) && r != s ==>
                     Before(EntryOf(sources, decl, s, next[s]), EntryOf(sources, decl, r, next[r]))
  }

  /** What is emitted next, given the foremost offer `c`. */
  function Extended<V(!new)>(out: seq<Emit<V>>, t0: int, c: Emit<V>): (r: seq<Emit<V>>)
    ensures forall e :: e in r <==> e in out || (e == c && t0 <= c.tick)
  {
    if t0 <= c.tick then out + [c] else out
  }

  lemma StepMembers<V(!new)>(sources: map<nat, Trace<V>>, decl: seq<nat>, t0: int, t1: Option<int>,
                             next: map<nat, nat>, out: seq<Emit<V>>, s: nat)
    requires Inputs(sources, decl) && MergeState(sources, decl, t0, t1, next, out) && Offers(sources, next, s)
    ensures var c := EntryOf(sources, decl, s, next[s]);
            forall e :: e in Extended(out, t0, c) <==>
                    IsEntry(sources, decl, e) && e.pos < next[s := next[s] + 1][e.sid] && t0 <= e.tick
  {
    var c := EntryOf(sources, decl, s, next[s]);
    forall e
      ensures e in Extended(out, t0, c) <==>
              IsEntry(sources, decl, e) && e.pos < next[s := next[s] + 1][e.sid] && t0 <= e.tick
    {
      if IsEntry(sources, decl, e) && e.sid == s && e.pos == next[s] {
        assert e == c;
      }
    }
  }

  lemma StepFrontier<V(!new)>(sources: map<nat, Trace<V>>, decl: seq<nat>, t0: int, t1: Option<int>,
                              next: map<nat, nat>, out: seq<Emit<V>>, s: nat, e: Emit<V>, r: nat)
    requires Inputs(sources, decl) && MergeState(sources, decl, t0, t1, next, out)
    requires Foremost(sources, decl, next, s)
    requires Offers(sources, next[s := next[s] + 1], r)
    requires e in out || e == EntryOf(sources, decl, s, next[s])
    ensures Before(e, EntryOf(sources, decl, r, next[s := next[s] + 1][r]))
  {
    var c := EntryOf(sources, decl, s, next[s]);
    if r == s {
      assert c.tick <= sources[s][next[s] + 1].tick;
      assert e == c || Before(e, c);
    } else {
      assert Offers(sources, next, r);
    }
  }

  /** Emitting the foremost offer and moving its signal on keeps the state. */
  lemma MergeStep<V(!new)>(sources: map<nat, Trace<V>>, decl: seq<nat>, t0: int, t1: Option<int>,
                           next: map<nat, nat>, out: seq<Emit<V>>, s: nat)
    requires Inputs(sources, decl) && MergeState(sources, decl, t0, t1, next, out)
    requires Foremost(sources, decl, next, s) && AtMost(sources[s][next[s]].tick, t1)
    ensures MergeState(sources, decl, t0, t1, next[s := next[s] + 1],
                       Extended(out, t0, EntryOf(sources, decl, s, next[s])))
  {
    var next' := next[s := next[s] + 1];
    var out' := Extended(out, t0, EntryOf(sources, decl, s, next[s]));
    StepMembers(sources, decl, t0, t1, next, out, s);
    forall e, r | e in out' && Offers(sources, next', r)
      ensures Before(e, EntryOf(sources, decl, r, next'[r]))
    {
      StepFrontier(sources, decl, t0, t1, next, out, s, e, r);
    }
    assert Sorted(out') by {
      forall i | 0 <= i < |out| ensures Before(out[i], EntryOf(sources, decl, s, next[s])) {
        assert out[i] in out;
      }
    }
  }

  /** When nothing is left, or what is left lies beyond `t1`, the output is
      the whole replay. */
  lemma MergeDone<V(!new)>(sources: map<nat, Trace<V>>, decl: seq<nat>, t0: int, t1: Option<int>,
                           next: map<nat, nat>, out: seq<Emit<V>>)
    requires Inputs(sources, decl) && MergeState(sources, decl, t0, t1, next, out)
    requires forall s :: Offers(sources, next, s) ==> !AtMost(sources[s][next[s]].tick, t1)
    ensures IsReplay(sources, decl, t0, t1, out)
  {
    forall e | IsEntry(sources, decl, e) && InWindow(e.tick, t0, t1)
      ensures e in out
    {
      if next[e.sid] <= e.pos {
        assert Offers(sources, next, e.sid);
      }
    }
  }
}
