/** The heap contents that a replay keeps: one cursor per signal with entries
    left, keyed so that the earliest entry is the largest item. */
module MergeHeap {
  import opened Wrappers
  import opened Traces
  import opened BinaryHeaps
  import opened Replay

  datatype Cursor = Cursor(sid: nat, pos: nat)

  function CursorItem<V>(sources: map<nat, Trace<V>>, decl: seq<nat>, s: nat, p: nat): Item<Cursor>
    requires s in sources && s < |decl| && p < |sources[s]|
  {
    Item(-sources[s][p].tick, -(decl[s] as int), Cursor(s, p))
  }

  ghost function Cursors<V>(sources: map<nat, Trace<V>>, decl: seq<nat>, next: map<nat, nat>, S: set<nat>)
    : set<Item<Cursor>>
    requires Inputs(sources, decl)
  {
    set s | s in S && Offers(sources, next, s) :: CursorItem(sources, decl, s, next[s])
  }

  lemma MergeStart<V(!new)>(sources: map<nat, Trace<V>>, decl: seq<nat>, t0: int, t1: Option<int>)
    requires Inputs(sources, decl)
    ensures MergeState(sources, decl, t0, t1, Start(sources), [])
  {}

  /** Every signal starts at its first entry. */
  ghost function Start<V>(sources: map<nat, Trace<V>>): map<nat, nat> {
    map s | s in sources :: 0
  }

  lemma AllSeeded<V>(sources: map<nat, Trace<V>>, decl: seq<nat>, next: map<nat, nat>, S: set<nat>)
    requires Inputs(sources, decl) && sources.Keys <= S
    ensures Cursors(sources, decl, next, S) == Cursors(sources, decl, next, sources.Keys)
  {}

  lemma MultisetAdd<T>(A: set<T>, x: T)
    requires x !in A
    ensures multiset(A + {x}) == multiset(A) + multiset{x}
  {}

  lemma MultisetRemove<T>(A: set<T>, x: T)
    requires x in A
    ensures multiset(A - {x}) == multiset(A) - multiset{x}
  {}

  /** Seeding: signal `s` puts its first cursor on the heap. */
  lemma CursorsSeed<V>(sources: map<nat, Trace<V>>, decl: seq<nat>, next: map<nat, nat>, S: set<nat>, s: nat)
    requires Inputs(sources, decl) && s !in S
    ensures multiset(Cursors(sources, decl, next, S + {s})) ==
            multiset(Cursors(sources, decl, next, S))
            + if Offers(sources, next, s) then multiset{CursorItem(sources, decl, s, next[s])} else multiset{}
  {
    var A := Cursors(sources, decl, next, S);
    if Offers(sources, next, s) {
      var x := CursorItem(sources, decl, s, next[s]);
      assert Cursors(sources, decl, next, S + {s}) == A + {x};
      MultisetAdd(A, x);
    } else {
      assert Cursors(sources, decl, next, S + {s}) == A;
    }
  }

  /** Advancing: the cursor of `s` is replaced by its next one, if any. */
  lemma CursorsAdvance<V>(sources: map<nat, Trace<V>>, decl: seq<nat>, next: map<nat, nat>, s: nat)
    requires Inputs(sources, decl) && Offers(sources, next, s)
    ensures var next' := next[s := next[s] + 1];
            multiset(Cursors(sources, decl, next', sources.Keys)) ==
            multiset(Cursors(sources, decl, next, sources.Keys)) - multiset{CursorItem(sources, decl, s, next[s])}
            + if Offers(sources, next', s) then multiset{CursorItem(sources, decl, s, next[s] + 1)} else multiset{}
  {
    var next' := next[s := next[s] + 1];
    var A := Cursors(sources, decl, next, sources.Keys);
    var x := CursorItem(sources, decl, s, next[s]);
    MultisetRemove(A, x);
    var rest := Cursors(sources, decl, next, sources.Keys - {s});
    assert A - {x} == rest;
    assert rest == Cursors(sources, decl, next', sources.Keys - {s}) by {
      assert forall r :: r in sources.Keys - {s} ==> (Offers(sources, next, r) <==> Offers(sources, next', r));
    }
    CursorsSeed(sources, decl, next', sources.Keys - {s}, s);
    assert sources.Keys - {s} + {s} == sources.Keys;
  }

  /** The largest item on the heap is the foremost offer. */
  lemma LargestIsForemost<V>(sources: map<nat, Trace<V>>, decl: seq<nat>, next: map<nat, nat>, x: Item<Cursor>)
    requires Inputs(sources, decl)
    requires x in Cursors(sources, decl, next, sources.Keys)
    requires forall y :: y in Cursors(sources, decl, next, sources.Keys) ==> !Less(x, y)
    ensures var s := x.payload.sid;
            Foremost(sources, decl, next, s) && x == CursorItem(sources, decl, s, next[s])
  {
    var s := x.payload.sid;
    forall r | Offers(sources, next, r) && r != s
      ensures Before(EntryOf(sources, decl, s, next[s]), EntryOf(sources, decl, r, next[r]))
    {
      assert CursorItem(sources, decl, r, next[r]) in Cursors(sources, decl, next, sources.Keys);
    }
  }

  /** Entries of the first `n` signals not yet taken. */
  ghost function Left<V>(sources: map<nat, Trace<V>>, next: map<nat, nat>, n: nat): int {
    if n == 0 then 0
    else Left(sources, next, n - 1)
         + if n - 1 in sources && n - 1 in next then |sources[n - 1]| - next[n - 1] else 0
  }

  lemma {:induction false} LeftDrops<V>(sources: map<nat, Trace<V>>, next: map<nat, nat>, n: nat, s: nat)
    requires s in sources && s in next
    ensures Left(sources, next[s := next[s] + 1], n) == Left(sources, next, n) - if s < n then 1 else 0
  {
    if n > 0 {
      LeftDrops(sources, next, n - 1, s);
    }
  }

  lemma {:induction false} LeftNonNegative<V>(sources: map<nat, Trace<V>>, next: map<nat, nat>, n: nat)
    requires forall s :: s in sources && s in next ==> next[s] <= |sources[s]|
    ensures 0 <= Left(sources, next, n)
  {
    if n > 0 {
      LeftNonNegative(sources, next, n - 1);
    }
  }

  /** `x` is the largest of the cursors on offer, the rest still queued. */
  ghost predicate Popped<V>(sources: map<nat, Trace<V>>, decl: seq<nat>, next: map<nat, nat>, x: Item<Cursor>,
                            rest: multiset<Item<Cursor>>)
    requires Inputs(sources, decl)
  {
    var all := Cursors(sources, decl, next, sources.Keys);
    && x in all
    && rest == multiset(all) - multiset{x}
    && forall y :: y in all ==> !Less(x, y)
  }

  /** One turn of the merge loop: the popped entry is emitted and its signal
      moves on. */
  lemma ReplayStep<V(!new)>(sources: map<nat, Trace<V>>, decl: seq<nat>, t0: int, t1: Option<int>,
                            next: map<nat, nat>, out: seq<Emit<V>>, x: Item<Cursor>, rest: multiset<Item<Cursor>>,
                            s: nat, p: nat)
    requires Inputs(sources, decl) && MergeState(sources, decl, t0, t1, next, out)
    requires Popped(sources, decl, next, x, rest) && x.payload == Cursor(s, p)
    requires s in sources && p < |sources[s]| && AtMost(sources[s][p].tick, t1)
    ensures MergeState(sources, decl, t0, t1, next[s := p + 1], Extended(out, t0, EntryOf(sources, decl, s, p)))
  {
    LargestIsForemost(sources, decl, next, x);
    MergeStep(sources, decl, t0, t1, next, out, s);
  }

  lemma PoppedIsOffer<V>(sources: map<nat, Trace<V>>, decl: seq<nat>, next: map<nat, nat>,
                         x: Item<Cursor>, rest: multiset<Item<Cursor>>, s: nat, p: nat)
    requires Inputs(sources, decl) && Popped(sources, decl, next, x, rest) && x.payload == Cursor(s, p)
    ensures Offers(sources, next, s) && p == next[s] && x == CursorItem(sources, decl, s, p)
  {
    LargestIsForemost(sources, decl, next, x);
  }

  /** The heap lacks only the next cursor of the signal just emitted. */
  lemma ReplayStepHeap<V>(sources: map<nat, Trace<V>>, decl: seq<nat>, next: map<nat, nat>,
                          x: Item<Cursor>, rest: multiset<Item<Cursor>>, s: nat, p: nat)
    requires Inputs(sources, decl) && next.Keys == sources.Keys
    requires Popped(sources, decl, next, x, rest) && x.payload == Cursor(s, p)
    ensures s in sources && p < |sources[s]| && p == next[s]
    ensures multiset(Cursors(sources, decl, next[s := p + 1], sources.Keys)) ==
            rest + (if p + 1 < |sources[s]| then multiset{CursorItem(sources, decl, s, p + 1)} else multiset{})
  {
    PoppedIsOffer(sources, decl, next, x, rest, s, p);
    CursorsAdvance(sources, decl, next, s);
  }

  /** One entry less is left. */
  lemma OneLess<V>(sources: map<nat, Trace<V>>, next: map<nat, nat>, n: nat, s: nat)
    requires s in sources && s < n && next.Keys == sources.Keys && next[s] < |sources[s]|
    requires forall r :: r in sources ==> next[r] <= |sources[r]|
    ensures 0 <= Left(sources, next[s := next[s] + 1], n) < Left(sources, next, n)
  {
    LeftDrops(sources, next, n, s);
    LeftNonNegative(sources, next[s := next[s] + 1], n);
  }

  lemma NoneOnOffer<V>(sources: map<nat, Trace<V>>, decl: seq<nat>, next: map<nat, nat>, s: nat)
    requires Inputs(sources, decl) && Offers(sources, next, s)
    ensures CursorItem(sources, decl, s, next[s]) in Cursors(sources, decl, next, sources.Keys)
  {}

  lemma LeastBeyond<V>(sources: map<nat, Trace<V>>, decl: seq<nat>, next: map<nat, nat>, t1: Option<int>,
                       x: Item<Cursor>, rest: multiset<Item<Cursor>>)
    requires Inputs(sources, decl) && Popped(sources, decl, next, x, rest)
    requires var Cursor(s, p) := x.payload;
             s in sources && p < |sources[s]| && !AtMost(sources[s][p].tick, t1)
    ensures forall s :: Offers(sources, next, s) ==> !AtMost(sources[s][next[s]].tick, t1)
  {
    LargestIsForemost(sources, decl, next, x);
    forall s | Offers(sources, next, s) ensures !AtMost(sources[s][next[s]].tick, t1) {
      NoneOnOffer(sources, decl, next, s);
    }
  }

  // ----- the merge loop -----

  /** The heap entry for entry `p` of the cached trace of `s`. */
  function CursorAt<V>(traces: seq<Option<Trace<V>>>, decl: seq<nat>, s: nat, p: nat): Item<Cursor>
    requires s < |traces| && s < |decl| && traces[s].Some? && p < |traces[s].value|
  {
    Item(-traces[s].value[p].tick, -(decl[s] as int), Cursor(s, p))
  }

  ghost predicate Cached<V>(traces: seq<Option<Trace<V>>>, sources: map<nat, Trace<V>>) {
    forall s :: s in sources ==> s < |traces| && traces[s] == Some(sources[s])
  }

  /** Where the merge loop stands before it looks at the popped cursor. */
  ghost predicate Merging<V(!new)>(sources: map<nat, Trace<V>>, decl: seq<nat>, t0: int, t1: Option<int>,
                                   next: map<nat, nat>, out: seq<Emit<V>>, popped: Option<Item<Cursor>>,
                                   rest: multiset<Item<Cursor>>)
    requires Inputs(sources, decl)
  {
    && MergeState(sources, decl, t0, t1, next, out)
    && 0 <= Left(sources, next, |decl|)
    && match popped
       case None => forall s :: !Offers(sources, next, s)
       case Some(x) => Popped(sources, decl, next, x, rest)
  }

  lemma StillMerging<V(!new)>(sources: map<nat, Trace<V>>, decl: seq<nat>, t0: int, t1: Option<int>,
                              next: map<nat, nat>, out: seq<Emit<V>>, popped: Option<Item<Cursor>>,
                              rest: multiset<Item<Cursor>>)
    requires Inputs(sources, decl) && MergeState(sources, decl, t0, t1, next, out)
    requires 0 <= Left(sources, next, |decl|)
    requires popped.None? ==> forall s :: !Offers(sources, next, s)
    requires popped.Some? ==> Popped(sources, decl, next, popped.value, rest)
    ensures Merging(sources, decl, t0, t1, next, out, popped, rest)
  {}

  lemma FewerLeft<V(!new)>(sources: map<nat, Trace<V>>, decl: seq<nat>, t0: int, t1: Option<int>,
                           next: map<nat, nat>, out: seq<Emit<V>>, x: Item<Cursor>, rest: multiset<Item<Cursor>>,
                           s: nat, p: nat, next': map<nat, nat>)
    requires Inputs(sources, decl) && MergeState(sources, decl, t0, t1, next, out)
    requires Popped(sources, decl, next, x, rest) && x.payload == Cursor(s, p) && next' == next[s := p + 1]
    ensures 0 <= Left(sources, next', |decl|) < Left(sources, next, |decl|)
  {
    PoppedIsOffer(sources, decl, next, x, rest, s, p);
    OneLess(sources, next, |decl|, s);
  }

  /** Everything that one turn changes, apart from what is popped next. */
  lemma Turned<V(!new)>(sources: map<nat, Trace<V>>, decl: seq<nat>, t0: int, t1: Option<int>,
                        next: map<nat, nat>, out: seq<Emit<V>>, x: Item<Cursor>, rest: multiset<Item<Cursor>>,
                        s: nat, p: nat, e: Emit<V>, next': map<nat, nat>)
    requires Inputs(sources, decl) && Merging(sources, decl, t0, t1, next, out, Some(x), rest)
    requires x.payload == Cursor(s, p) && s in sources && p < |sources[s]| && AtMost(sources[s][p].tick, t1)
    requires e == EntryOf(sources, decl, s, p) && next' == next[s := p + 1]
    ensures MergeState(sources, decl, t0, t1, next', Extended(out, t0, e))
    ensures multiset(Cursors(sources, decl, next', sources.Keys)) ==
            rest + (if p + 1 < |sources[s]| then multiset{CursorItem(sources, decl, s, p + 1)} else multiset{})
    ensures 0 <= Left(sources, next', |decl|) < Left(sources, next, |decl|)
  {
    ReplayStep(sources, decl, t0, t1, next, out, x, rest, s, p);
    ReplayStepHeap(sources, decl, next, x, rest, s, p);
    FewerLeft(sources, decl, t0, t1, next, out, x, rest, s, p, next');
  }

  lemma MergeEnds<V(!new)>(sources: map<nat, Trace<V>>, decl: seq<nat>, t0: int, t1: Option<int>,
                           next: map<nat, nat>, out: seq<Emit<V>>, popped: Option<Item<Cursor>>,
                           rest: multiset<Item<Cursor>>)
    requires Inputs(sources, decl) && Merging(sources, decl, t0, t1, next, out, popped, rest)
    requires popped.Some? ==> Beyond(sources, decl, t1, popped.value)
    ensures IsReplay(sources, decl, t0, t1, out)
  {
    if popped.Some? {
      LeastBeyond(sources, decl, next, t1, popped.value, rest);
    }
    MergeDone(sources, decl, t0, t1, next, out);
  }

  /** The popped cursor stands at an entry later than `t1`. */
  ghost predicate Beyond<V>(sources: map<nat, Trace<V>>, decl: seq<nat>, t1: Option<int>, x: Item<Cursor>) {
    x.payload.sid in sources && x.payload.pos < |sources[x.payload.sid]|
    && !AtMost(sources[x.payload.sid][x.payload.pos].tick, t1)
  }

  lemma PoppedIsEntry<V(!new)>(sources: map<nat, Trace<V>>, decl: seq<nat>, t0: int, t1: Option<int>,
                               next: map<nat, nat>, out: seq<Emit<V>>, x: Item<Cursor>, rest: multiset<Item<Cursor>>)
    requires Inputs(sources, decl) && Merging(sources, decl, t0, t1, next, out, Some(x), rest)
    ensures x.payload.sid in sources && x.payload.pos < |sources[x.payload.sid]|
  {
    LargestIsForemost(sources, decl, next, x);
  }

  /** Pops cursors until none is left or the earliest lies beyond `t1`,
      emitting each entry no earlier than `t0` and queueing the signal's next
      one. */
  method Drain<V(!new)>(heap: BinaryHeap<Cursor>, traces: seq<Option<Trace<V>>>, decl: seq<nat>,
                        ghost sources: map<nat, Trace<V>>, t0: int, t1: Option<int>) returns (out: seq<Emit<V>>)
    requires Inputs(sources, decl) && Cached(traces, sources) && heap.Valid()
    requires multiset(heap.data) == multiset(Cursors(sources, decl, Start(sources), sources.Keys))
    modifies heap
    ensures IsReplay(sources, decl, t0, t1, out)
  {
    ghost var next: map<nat, nat> := Start(sources);
    out := [];
    MergeStart(sources, decl, t0, t1);
    LeftNonNegative(sources, next, |decl|);
    var popped := PopEarliest(heap, decl, sources, next);
    StillMerging(sources, decl, t0, t1, next, out, popped, multiset(heap.data));
    while popped.Some?
      invariant heap.Valid()
      invariant Merging(sources, decl, t0, t1, next, out, popped, multiset(heap.data))
      decreases Left(sources, next, |decl|)
    {
      PoppedIsEntry(sources, decl, t0, t1, next, out, popped.value, multiset(heap.data));
      var Cursor(s, p) := popped.value.payload;
      var c := traces[s].value[p];
      if !AtMost(c.tick, t1) {
        break;
      }
      var e := Emit(c.tick, decl[s], s, p, c.value);
      ghost var next' := next[s := p + 1];
      Turned(sources, decl, t0, t1, next, out, popped.value, multiset(heap.data), s, p, e, next');
      out, next := Extended(out, t0, e), next';
      popped := QueueNext(heap, traces, decl, sources, t0, t1, next, out, s, p + 1);
    }
    MergeEnds(sources, decl, t0, t1, next, out, popped, multiset(heap.data));
  }

  method PopEarliest<V>(heap: BinaryHeap<Cursor>, decl: seq<nat>,
                        ghost sources: map<nat, Trace<V>>, ghost next: map<nat, nat>)
    returns (popped: Option<Item<Cursor>>)
    requires Inputs(sources, decl) && heap.Valid()
    requires multiset(heap.data) == multiset(Cursors(sources, decl, next, sources.Keys))
    modifies heap
    ensures heap.Valid()
    ensures popped.None? ==> forall s :: !Offers(sources, next, s)
    ensures popped.Some? ==> Popped(sources, decl, next, popped.value, multiset(heap.data))
  {
    popped := heap.Pop();
    if popped.None? {
      assert multiset(Cursors(sources, decl, next, sources.Keys)) == multiset{};
      forall s ensures !Offers(sources, next, s) {
        if Offers(sources, next, s) {
          NoneOnOffer(sources, decl, next, s);
        }
      }
    }
  }

  /** Queues the next cursor of the signal just emitted, and pops again. */
  method QueueNext<V(!new)>(heap: BinaryHeap<Cursor>, traces: seq<Option<Trace<V>>>, decl: seq<nat>,
                            ghost sources: map<nat, Trace<V>>, ghost t0: int, ghost t1: Option<int>,
                            ghost next: map<nat, nat>, ghost out: seq<Emit<V>>, s: nat, p: nat)
    returns (popped: Option<Item<Cursor>>)
    requires Inputs(sources, decl) && Cached(traces, sources) && heap.Valid() && s in sources
    requires multiset(Cursors(sources, decl, next, sources.Keys)) ==
             multiset(heap.data)
             + if p < |sources[s]| then multiset{CursorItem(sources, decl, s, p)} else multiset{}
    requires MergeState(sources, decl, t0, t1, next, out) && 0 <= Left(sources, next, |decl|)
    modifies heap
    ensures heap.Valid()
    ensures Merging(sources, decl, t0, t1, next, out, popped, multiset(heap.data))
  {
    PushCursor(heap, traces, decl, s, p);
    popped := PopEarliest(heap, decl, sources, next);
    StillMerging(sources, decl, t0, t1, next, out, popped, multiset(heap.data));
  }

  /** Queues the cursor at entry `p` of `s`, if there is one. */
  method PushCursor<V>(heap: BinaryHeap<Cursor>, traces: seq<Option<Trace<V>>>, decl: seq<nat>, s: nat, p: nat)
    requires heap.Valid() && s < |traces| && s < |decl| && traces[s].Some?
    modifies heap
    ensures heap.Valid()
    ensures multiset(heap.data) ==
            old(multiset(heap.data))
            + if p < |traces[s].value| then multiset{CursorAt(traces, decl, s, p)} else multiset{}
  {
    if p < |traces[s].value| {
      heap.Push(CursorAt(traces, decl, s, p));
    }
  }
}
