/** The per-signal reduction of a windowed FST read. */
module FstCollector {
  import opened Wrappers
  import opened Traces

  datatype WinKind = Bits | Real | Str | Event

  /** The entries after `from` and up to `to`. */
  function Inside<V>(tr: Trace<V>, from: int, to: Option<int>): Trace<V> {
    if tr == [] then []
    else
      var c := tr[|tr| - 1];
      Inside(tr[..|tr| - 1], from, to) + if from < c.tick && AtMost(c.tick, to) then [c] else []
  }

  /** The last entry at or before `from`. */
  function LastUpTo<V>(tr: Trace<V>, from: int): Option<Change<V>> {
    if tr == [] then None
    else if tr[|tr| - 1].tick <= from then Some(tr[|tr| - 1])
    else LastUpTo(tr[..|tr| - 1], from)
  }

  /** Dropping entries that repeat the value before them, starting from a
      known value or from none. */
  function DedupFrom<V(==)>(base: Option<V>, tr: Trace<V>): Trace<V> {
    if tr == [] then []
    else
      var r, c := DedupFrom(base, tr[..|tr| - 1]), tr[|tr| - 1];
      if Latest(base, r) == Some(c.value) then r else r + [c]
  }

  function Latest<V>(base: Option<V>, tr: Trace<V>): Option<V> {
    if tr != [] then Some(tr[|tr| - 1].value) else base
  }

  function ValueOf<V>(c: Option<Change<V>>): Option<V> {
    if c.Some? then Some(c.value.value) else None
  }

  function ListOf<V>(c: Option<Change<V>>): Trace<V> {
    if c.Some? then [c.value] else []
  }

  // ----- the collector, as a value -----

  datatype Collected<V> = Collected(
    kind: WinKind, seed: Option<Change<V>>, seedSuspect: bool, win: Trace<V>, demoted: bool, seed2: Option<Change<V>>)

  /** An emission of phase 1; `suspect` marks what may be a frame echo. */
  datatype Flagged<+V> = Flagged(change: Change<V>, suspect: bool)

  function Fresh<V>(kind: WinKind): Collected<V> {
    Collected(kind, None, false, [], false, None)
  }

  function Baseline<V>(c: Collected<V>): Option<V> {
    Latest(if c.seedSuspect then None else ValueOf(c.seed), c.win)
  }

  function Phase1<V(==)>(c: Collected<V>, x: Flagged<V>, from: int, to: Option<int>): Collected<V> {
    if x.change.tick <= from then c.(seed := Some(x.change), seedSuspect := x.suspect)
    else if x.suspect || !AtMost(x.change.tick, to) then c
    else if c.kind != Event && Baseline(c) == Some(x.change.value) then c
    else c.(win := c.win + [x.change])
  }

  function NeedsPhase2<V>(c: Collected<V>): bool {
    c.seed.None? || c.seedSuspect
  }

  function Finish<V(==)>(c: Collected<V>): Trace<V> {
    var seed := if c.demoted then c.seed2 else if c.seedSuspect then None else c.seed;
    var win :=
      if c.demoted && c.kind != Event && seed.Some? && c.win != [] && c.win[0].value == seed.value.value
      then c.win[1..] else c.win;
    ListOf(seed) + win
  }

  function Run<V(==)>(c: Collected<V>, xs: seq<Flagged<V>>, from: int, to: Option<int>): Collected<V> {
    if xs == [] then c
    else Phase1(Run(c, xs[..|xs| - 1], from, to), xs[|xs| - 1], from, to)
  }

  function RunPhase2<V>(c: Collected<V>, xs: Trace<V>, from: int): Collected<V> {
    if xs == [] then c
    else
      var r, x := RunPhase2(c, xs[..|xs| - 1], from), xs[|xs| - 1];
      if x.tick > from || !r.demoted then r else r.(seed2 := Some(x))
  }

  // ----- the collector, as the source has it -----

  class Collector<V(==)> {
    const kind: WinKind
    var seed: Option<Change<V>>
    var seedSuspect: bool
    var win: Trace<V>
    var demoted: bool
    var seed2: Option<Change<V>>

    function View(): Collected<V>
      reads this
    {
      Collected(kind, seed, seedSuspect, win, demoted, seed2)
    }

    constructor (kind: WinKind)
      ensures View() == Fresh(kind)
    {
      this.kind := kind;
      seed, seedSuspect, win, demoted, seed2 := None, false, [], false, None;
    }

    method OnPhase1(t: int, v: V, from: int, to: Option<int>, suspect: bool)
      modifies this
      ensures View() == Phase1(old(View()), Flagged(Change(t, v), suspect), from, to)
    {
      if t <= from {
        seed, seedSuspect := Some(Change(t, v)), suspect;
      } else {
        if suspect {
          return;
        }
        if to.Some? && t > to.value {
          return;
        }
        if kind != Event {
          var baseline := if win != [] then Some(win[|win| - 1].value)
                          else if seedSuspect then None else ValueOf(seed);
          if baseline == Some(v) {
            return;
          }
        }
        win := win + [Change(t, v)];
      }
    }

    method Demote()
      modifies this`demoted
      ensures View() == old(View()).(demoted := true)
    {
      demoted := true;
    }

    /** Phase 2 keeps the last change at or before `from`. */
    method OnPhase2(t: int, v: V, from: int)
      modifies this`seed2
      ensures View() == if t > from || !old(demoted) then old(View())
                        else old(View()).(seed2 := Some(Change(t, v)))
    {
      if t > from || !demoted {
        return;
      }
      seed2 := Some(Change(t, v));
    }

    method FinishTrace() returns (tr: Trace<V>)
      ensures tr == Finish(View())
    {
      var first := if demoted then seed2 else if seedSuspect then None else seed;
      var rest := win;
      if demoted && kind != Event {
        if first.Some? && rest != [] && first.value.value == rest[0].value {
          rest := rest[1..];
        }
      }
      tr := [];
      if first.Some? {
        tr := tr + [first.value];
      }
      tr := tr + rest;
    }
  }

  // ----- what the collector computes -----

  /** After nothing but frame echoes: no window entries, and at most a seed
      that is not trusted. */
  ghost predicate OnlyEchoes<V>(c: Collected<V>, kind: WinKind) {
    c.kind == kind && c.win == [] && (c.seed.Some? ==> c.seedSuspect) && !c.demoted && c.seed2 == None
  }

  lemma {:induction false} EchoesChangeNothing<V>(kind: WinKind, xs: seq<Flagged<V>>, from: int, to: Option<int>)
    requires forall i :: 0 <= i < |xs| ==> xs[i].suspect
    ensures OnlyEchoes(Run(Fresh(kind), xs, from, to), kind)
  {
    if xs != [] {
      EchoesChangeNothing(kind, xs[..|xs| - 1], from, to);
    }
  }

  /** After the genuine changes `r`: the seed is the last of them up to `from`,
      and the window holds the others, repeats dropped. */
  ghost predicate Tracks<V>(c: Collected<V>, kind: WinKind, r: Trace<V>, from: int, to: Option<int>) {
    && c.kind == kind && !c.demoted && c.seed2 == None
    && (match LastUpTo(r, from)
        case Some(x) => c.seed == Some(x) && !c.seedSuspect
        case None => c.seed == None || c.seedSuspect)
    && c.win == Deduped(kind, ValueOf(LastUpTo(r, from)), Inside(r, from, to))
  }

  function Deduped<V(==)>(kind: WinKind, base: Option<V>, tr: Trace<V>): Trace<V> {
    if kind == Event then tr else DedupFrom(base, tr)
  }

  lemma {:induction false} NothingInside<V>(r: Trace<V>, from: int, to: Option<int>)
    requires Ordered(r) && (r == [] || r[|r| - 1].tick <= from)
    ensures Inside(r, from, to) == []
  {
    if |r| > 1 {
      assert r[|r| - 2].tick <= r[|r| - 1].tick;
      NothingInside(r[..|r| - 1], from, to);
    }
  }

  lemma TracksStep<V>(c: Collected<V>, kind: WinKind, r: Trace<V>, x: Change<V>, from: int, to: Option<int>)
    requires Tracks(c, kind, r, from, to) && Ordered(r) && (r == [] || r[|r| - 1].tick <= x.tick)
    ensures Tracks(Phase1(c, Flagged(x, false), from, to), kind, r + [x], from, to)
  {
    assert (r + [x])[..|r|] == r;
    if x.tick <= from {
      NothingInside(r, from, to);
    } else {
      var mid := Inside(r, from, to);
      assert mid + [] == mid && (mid + [x])[..|mid|] == mid;
      assert LastUpTo(r + [x], from) == LastUpTo(r, from);
      assert Inside(r + [x], from, to) == if AtMost(x.tick, to) then mid + [x] else mid;
    }
  }

  function Genuine<V>(r: Trace<V>): (xs: seq<Flagged<V>>)
    ensures |xs| == |r| && forall i :: 0 <= i < |xs| ==> xs[i] == Flagged(r[i], false)
  {
    seq(|r|, i requires 0 <= i < |r| => Flagged(r[i], false))
  }

  lemma {:induction false} RunTracks<V>(kind: WinKind, echoes: seq<Flagged<V>>, r: Trace<V>, from: int, to: Option<int>)
    requires forall i :: 0 <= i < |echoes| ==> echoes[i].suspect
    requires Ordered(r)
    ensures Tracks(Run(Fresh(kind), echoes + Genuine(r), from, to), kind, r, from, to)
  {
    if r == [] {
      EchoesChangeNothing(kind, echoes, from, to);
      assert echoes + Genuine(r) == echoes;
    } else {
      PrefixOrdered(r);
      RunTracks(kind, echoes, r[..|r| - 1], from, to);
      RunLast(kind, echoes, r, from, to);
      TracksLast(Run(Fresh(kind), echoes + Genuine(r[..|r| - 1]), from, to), kind, r, from, to);
    }
  }

  lemma TracksLast<V>(c: Collected<V>, kind: WinKind, r: Trace<V>, from: int, to: Option<int>)
    requires Ordered(r) && r != [] && Tracks(c, kind, r[..|r| - 1], from, to)
    ensures Tracks(Phase1(c, Flagged(r[|r| - 1], false), from, to), kind, r, from, to)
  {
    var n := |r| - 1;
    PrefixOrdered(r);
    TracksStep(c, kind, r[..n], r[n], from, to);
    assert r == r[..n] + [r[n]];
  }

  lemma RunLast<V>(kind: WinKind, echoes: seq<Flagged<V>>, r: Trace<V>, from: int, to: Option<int>)
    requires r != []
    ensures var n := |r| - 1;
            Run(Fresh(kind), echoes + Genuine(r), from, to) ==
            Phase1(Run(Fresh(kind), echoes + Genuine(r[..n]), from, to), Flagged(r[n], false), from, to)
  {
    var xs := echoes + Genuine(r);
    assert xs[..|xs| - 1] == echoes + Genuine(r[..|r| - 1]);
  }

  /** Phase 2 keeps the last emission up to `from`, in whatever order they
      come. */
  lemma {:induction false} Phase2KeepsLast<V>(c: Collected<V>, xs: Trace<V>, from: int)
    requires c.demoted && c.seed2 == None
    ensures RunPhase2(c, xs, from) == c.(seed2 := LastUpTo(xs, from))
  {
    if xs != [] {
      Phase2KeepsLast(c, xs[..|xs| - 1], from);
    }
  }

  /** What comes later wins. */
  function Later<V>(first: Option<Change<V>>, second: Option<Change<V>>): Option<Change<V>> {
    if second.Some? then second else first
  }

  lemma {:induction false} LastUpToConcat<V>(a: Trace<V>, b: Trace<V>, from: int)
    ensures LastUpTo(a + b, from) == Later(LastUpTo(a, from), LastUpTo(b, from))
  {
    if b == [] {
      assert a + b == a;
    } else {
      assert (a + b)[..|a + b| - 1] == a + b[..|b| - 1];
      LastUpToConcat(a, b[..|b| - 1], from);
    }
  }

  /** Knowing the value before afterwards is as good as knowing it at once:
      only the first entry can still turn out to be a repeat. */
  lemma {:induction false} LateBase<V>(v: V, tr: Trace<V>)
    ensures var r := DedupFrom(None, tr);
            && (tr != [] ==> r != [])
            && DedupFrom(Some(v), tr) == if r != [] && r[0].value == v then r[1..] else r
  {
    if tr != [] {
      LateBase(v, tr[..|tr| - 1]);
    }
  }

  /** The finished trace: the seed found, and the window with repeats dropped
      against it. */
  lemma FinishIs<V>(c: Collected<V>, kind: WinKind, r: Trace<V>, seed: Option<Change<V>>, from: int, to: Option<int>)
    requires Tracks(c, kind, r, from, to)
    requires LastUpTo(r, from).Some? ==> seed == LastUpTo(r, from)
    ensures var d := if NeedsPhase2(c) then c.(demoted := true, seed2 := seed) else c;
            Finish(d) == ListOf(seed) + Deduped(kind, ValueOf(seed), Inside(r, from, to))
  {
    if LastUpTo(r, from).None? && seed.Some? {
      LateBase(seed.value.value, Inside(r, from, to));
    }
  }
}
