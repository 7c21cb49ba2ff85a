/** What a waveform backend delivers: full histories, and windows of them. */
module Backends {
  import opened Wrappers
  import opened Traces

  /** The carried value of a window either keeps its own tick or is tagged
      with the tick just before the window. */
  datatype SeedShape = TrueTick | TaggedBefore

  /** End of the entries at or before `to`, never below `n`. */
  function EndOf<V>(full: Trace<V>, n: nat, to: Option<int>): (hi: nat)
    requires Ordered(full) && n <= |full|
    ensures n <= hi <= |full|
  {
    if to.None? then |full|
    else if UpperBound(full, to.value) < n then n else UpperBound(full, to.value)
  }

  /** The window `[from, to]` of a history in either shape: the value entering
      it, then the changes inside it. */
  function WindowOf<V>(full: Trace<V>, from: int, to: Option<int>, shape: SeedShape): Trace<V>
    requires Ordered(full)
  {
    match shape
    case TrueTick =>
      var n := UpperBound(full, from);
      (if n > 0 then [full[n - 1]] else []) + full[n..EndOf(full, n, to)]
    case TaggedBefore =>
      var n := LowerBound(full, from);
      (if n > 0 then [Change(from - 1, full[n - 1].value)] else []) + full[n..EndOf(full, n, to)]
  }

  /** A whole history, or a window in one of the two documented shapes. */
  ghost predicate Documented<V>(full: Trace<V>, from: int, to: Option<int>, w: Trace<V>)
    requires Ordered(full)
  {
    w == full || w == WindowOf(full, from, to, TrueTick) || w == WindowOf(full, from, to, TaggedBefore)
  }

  /** Common form of a window: entry `n - 1` is carried in as `pre`, dated
      anywhere up to `from`, and everything before entry `n` is no later than
      `from`. */
  ghost predicate CarriedIn<V>(full: Trace<V>, from: int, pre: Trace<V>, n: nat)
    requires Ordered(full)
  {
    && n <= |full|
    && |pre| == (if n > 0 then 1 else 0)
    && (n > 0 ==> pre[0].tick <= from && pre[0].value == full[n - 1].value)
    && (forall i :: 0 <= i < n ==> full[i].tick <= from)
    && (forall i :: n <= i < |full| ==> from <= full[i].tick)
  }

  /** `w` carries in the value before entry `n` and goes on with entry `n`. */
  ghost predicate WindowAt<V>(full: Trace<V>, from: int, to: Option<int>, w: Trace<V>, n: nat)
    requires Ordered(full)
  {
    var k := if n > 0 then 1 else 0;
    && n <= |full| && k <= |w|
    && CarriedIn(full, from, w[..k], n)
    && w[k..] == full[n..EndOf(full, n, to)]
  }

  /** What a query confined to `[from, to]` may be handed for a signal: the
      whole history from a backend that does not seek, or any window that
      carries in the value entering it, whatever date that value is given. */
  ghost predicate Serves<V>(full: Trace<V>, from: int, to: Option<int>, w: Trace<V>)
    requires Ordered(full)
  {
    w == full || exists n: nat :: WindowAt(full, from, to, w, n)
  }

  /** `value` at `t` is fixed by where the entries at or before `t` end. */
  lemma {:induction false} ValueAtIs<V>(tr: Trace<V>, t: int, n: nat)
    requires Ordered(tr) && n <= |tr|
    requires forall i :: 0 <= i < n ==> tr[i].tick <= t
    requires forall i :: n <= i < |tr| ==> t < tr[i].tick
    ensures ValueAt(tr, t) == if n == 0 then None else Some(tr[n - 1].value)
  {
    LastAtOrBeforeIsValueAt(tr, t);
  }

  lemma CarriedWindow<V>(full: Trace<V>, from: int, to: Option<int>, w: Trace<V>) returns (pre: Trace<V>, n: nat)
    requires Ordered(full) && Serves(full, from, to, w) && w != full
    ensures CarriedIn(full, from, pre, n) && w == pre + full[n..EndOf(full, n, to)]
  {
    n :| WindowAt(full, from, to, w, n);
    pre := w[..if n > 0 then 1 else 0];
  }

  lemma CarriedServes<V>(full: Trace<V>, from: int, to: Option<int>, pre: Trace<V>, n: nat)
    requires Ordered(full) && CarriedIn(full, from, pre, n)
    ensures Serves(full, from, to, pre + full[n..EndOf(full, n, to)])
  {
    var w := pre + full[n..EndOf(full, n, to)];
    assert w[..|pre|] == pre;
    assert WindowAt(full, from, to, w, n);
  }

  lemma TrueTickCarried<V>(full: Trace<V>, from: int, to: Option<int>) returns (pre: Trace<V>, n: nat)
    requires Ordered(full)
    ensures n == UpperBound(full, from) && pre == if n > 0 then [full[n - 1]] else []
    ensures CarriedIn(full, from, pre, n) && WindowOf(full, from, to, TrueTick) == pre + full[n..EndOf(full, n, to)]
  {
    n := UpperBound(full, from);
    pre := if n > 0 then [full[n - 1]] else [];
  }

  lemma TaggedCarried<V>(full: Trace<V>, from: int, to: Option<int>) returns (pre: Trace<V>, n: nat)
    requires Ordered(full)
    ensures n == LowerBound(full, from) && pre == if n > 0 then [Change(from - 1, full[n - 1].value)] else []
    ensures CarriedIn(full, from, pre, n) && WindowOf(full, from, to, TaggedBefore) == pre + full[n..EndOf(full, n, to)]
  {
    n := LowerBound(full, from);
    pre := if n > 0 then [Change(from - 1, full[n - 1].value)] else [];
  }

  /** Both documented shapes are admissible. */
  lemma DocumentedServes<V>(full: Trace<V>, from: int, to: Option<int>, w: Trace<V>)
    requires Ordered(full) && Documented(full, from, to, w)
    ensures Serves(full, from, to, w)
  {
    var pre, n := TrueTickCarried(full, from, to);
    CarriedServes(full, from, to, pre, n);
    var tagged, m := TaggedCarried(full, from, to);
    CarriedServes(full, from, to, tagged, m);
  }

  lemma WindowOrdered<V>(full: Trace<V>, from: int, to: Option<int>, w: Trace<V>)
    requires Ordered(full) && Serves(full, from, to, w)
    ensures Ordered(w)
  {
    if w != full {
      var pre, n := CarriedWindow(full, from, to, w);
      CarriedOrdered(full, from, pre, n, EndOf(full, n, to));
    }
  }

  lemma CarriedOrdered<V>(full: Trace<V>, from: int, pre: Trace<V>, n: nat, hi: nat)
    requires Ordered(full) && CarriedIn(full, from, pre, n) && n <= hi <= |full|
    ensures Ordered(pre + full[n..hi])
  {}

  /** A window answers every point query inside it as the history does. */
  lemma WindowValue<V>(full: Trace<V>, from: int, to: Option<int>, w: Trace<V>, t: int)
    requires Ordered(full) && Serves(full, from, to, w)
    requires from <= t && AtMost(t, to)
    ensures Ordered(w) && ValueAt(w, t) == ValueAt(full, t)
  {
    WindowOrdered(full, from, to, w);
    if w != full {
      var pre, n := CarriedWindow(full, from, to, w);
      CarriedValue(full, from, to, pre, n, t);
    }
  }

  lemma CarriedValue<V>(full: Trace<V>, from: int, to: Option<int>, pre: Trace<V>, n: nat, t: int)
    requires Ordered(full) && CarriedIn(full, from, pre, n)
    requires Ordered(pre + full[n..EndOf(full, n, to)])
    requires from <= t && AtMost(t, to)
    ensures ValueAt(pre + full[n..EndOf(full, n, to)], t) == ValueAt(full, t)
  {
    var hi := EndOf(full, n, to);
    var m := UpperBound(full, t);
    assert n == 0 || full[n - 1].tick <= t;
    ValueAtIs(full, t, m);
    ValueAtIs(pre + full[n..hi], t, |pre| + (m - n));
  }

  /** The entries of `tr` with ticks in `[from, to]`. */
  function InRange<V>(tr: Trace<V>, from: int, to: Option<int>): (r: Trace<V>)
    requires Ordered(tr)
    ensures Ordered(r)
    ensures forall i :: 0 <= i < |r| ==> from <= r[i].tick
    ensures AtMost(from, to) ==>
              forall i :: 0 <= i < |r| && to.Some? ==> r[i].tick <= to.value
  {
    tr[LowerBound(tr, from)..EndOf(tr, LowerBound(tr, from), to)]
  }

  /** The window shows exactly the history's entries in range. */
  ghost predicate KeepsEntries<V>(full: Trace<V>, from: int, to: Option<int>, w: Trace<V>)
    requires Ordered(full)
  {
    Ordered(w) && InRange(w, from, to) == InRange(full, from, to)
  }

  /** Entries at exactly `from`. */
  function EntriesAt<V>(full: Trace<V>, from: int): (r: Trace<V>)
    requires Ordered(full)
    ensures LowerBound(full, from) + |r| == UpperBound(full, from)
    ensures forall i :: 0 <= i < |r| ==> r[i] == full[LowerBound(full, from) + i] && r[i].tick == from
  {
    CountBeforeGrows(full, from, from + 1, |full|);
    full[LowerBound(full, from)..UpperBound(full, from)]
  }

  /** What the carried value adds to the entries at `from`. */
  function ShownAt<V>(pre: Trace<V>, from: int): Trace<V> {
    if pre != [] && pre[0].tick == from then pre else []
  }

  lemma ShownRange<V>(pre: Trace<V>, r: Trace<V>, from: int, to: Option<int>)
    requires Ordered(pre + r) && |pre| <= 1 && (pre != [] ==> pre[0].tick <= from) && AtMost(from, to)
    requires forall i :: 0 <= i < |r| ==> from <= r[i].tick && AtMost(r[i].tick, to)
    ensures InRange(pre + r, from, to) == ShownAt(pre, from) + r
  {
    if pre != [] && pre[0].tick == from {
      assert [] + (pre + r) == pre + r;
      RangeIs([], pre + r, from, to);
    } else {
      assert [] + r == r;
      RangeIs(pre, r, from, to);
    }
  }

  lemma CarriedBounds<V>(full: Trace<V>, from: int, to: Option<int>, pre: Trace<V>, n: nat)
    requires Ordered(full) && CarriedIn(full, from, pre, n) && AtMost(from, to)
    ensures LowerBound(full, from) <= n <= EndOf(full, n, to)
    ensures EndOf(full, LowerBound(full, from), to) == EndOf(full, n, to)
    ensures forall i :: LowerBound(full, from) <= i < n ==> full[i].tick == from
    ensures forall i :: n <= i < EndOf(full, n, to) ==> from <= full[i].tick && AtMost(full[i].tick, to)
  {
    if n < |full| {
      assert from <= full[n].tick;
    }
  }

  lemma Parts<T>(s: seq<T>, i: nat, j: nat, k: nat)
    requires i <= j <= k <= |s|
    ensures s[i..k] == s[i..j] + s[j..k]
  {}

  lemma SameFront<T>(a: seq<T>, b: seq<T>, r: seq<T>)
    ensures a + r == b + r <==> a == b
  {
    assert |a + r| == |a| + |r| && |b + r| == |b| + |r|;
    assert (a + r)[..|a|] == a && (b + r)[..|b|] == b;
  }

  lemma CarriedRange<V>(full: Trace<V>, from: int, to: Option<int>, pre: Trace<V>, n: nat)
    requires Ordered(full) && CarriedIn(full, from, pre, n) && AtMost(from, to)
    ensures Ordered(pre + full[n..EndOf(full, n, to)])
    ensures InRange(pre + full[n..EndOf(full, n, to)], from, to) == ShownAt(pre, from) + full[n..EndOf(full, n, to)]
  {
    CarriedBounds(full, from, to, pre, n);
    CarriedOrdered(full, from, pre, n, EndOf(full, n, to));
    ShownRange(pre, full[n..EndOf(full, n, to)], from, to);
  }

  lemma FullRange<V>(full: Trace<V>, from: int, to: Option<int>, pre: Trace<V>, n: nat)
    requires Ordered(full) && CarriedIn(full, from, pre, n) && AtMost(from, to)
    ensures LowerBound(full, from) <= n
    ensures InRange(full, from, to) == full[LowerBound(full, from)..n] + full[n..EndOf(full, n, to)]
  {
    CarriedBounds(full, from, to, pre, n);
    Parts(full, LowerBound(full, from), n, EndOf(full, n, to));
  }

  /** The carried value is the history's one entry at `from` before entry `n`,
      if there is just one. */
  lemma ShownIsEntry<V>(full: Trace<V>, from: int, pre: Trace<V>, n: nat)
    requires Ordered(full) && CarriedIn(full, from, pre, n) && LowerBound(full, from) <= n
    ensures ShownAt(pre, from) == full[LowerBound(full, from)..n] <==>
            n - LowerBound(full, from) == |ShownAt(pre, from)|
  {
    var lo := LowerBound(full, from);
    if n - lo == 1 {
      assert full[lo..n] == [full[lo]] && full[lo].tick == from;
    }
  }

  /** A window shows exactly the history's entries in range if and only if the
      carried value shows at `from` just when it stands for one entry there. */
  lemma CarriedEntries<V>(full: Trace<V>, from: int, to: Option<int>, pre: Trace<V>, n: nat)
    requires Ordered(full) && CarriedIn(full, from, pre, n) && AtMost(from, to)
    ensures KeepsEntries(full, from, to, pre + full[n..EndOf(full, n, to)]) <==>
            n - LowerBound(full, from) == |ShownAt(pre, from)|
  {
    CarriedRange(full, from, to, pre, n);
    FullRange(full, from, to, pre, n);
    ShownIsEntry(full, from, pre, n);
    SameFront(ShownAt(pre, from), full[LowerBound(full, from)..n], full[n..EndOf(full, n, to)]);
  }

  /** A carried value tagged before the window never shows. */
  lemma TaggedEntries<V>(full: Trace<V>, from: int, to: Option<int>)
    requires Ordered(full) && AtMost(from, to)
    ensures KeepsEntries(full, from, to, WindowOf(full, from, to, TaggedBefore))
  {
    var pre, n := TaggedCarried(full, from, to);
    CarriedEntries(full, from, to, pre, n);
  }

  /** A carried value with its own tick shows when it lies at `from`, which is
      right unless there are several entries at that tick. */
  lemma TrueTickEntries<V>(full: Trace<V>, from: int, to: Option<int>)
    requires Ordered(full) && AtMost(from, to)
    ensures KeepsEntries(full, from, to, WindowOf(full, from, to, TrueTick)) <==> |EntriesAt(full, from)| <= 1
  {
    var pre, n := TrueTickCarried(full, from, to);
    CarriedEntries(full, from, to, pre, n);
    assert EntriesAt(full, from) != [] ==> full[n - 1].tick == from;
  }

  lemma StrictBounds<V>(full: Trace<V>, from: int)
    requires StrictlyOrdered(full) && Ordered(full)
    ensures UpperBound(full, from) <= LowerBound(full, from) + 1
  {
    var n := LowerBound(full, from);
    UpperBoundIs(full, from, if n < |full| && full[n].tick == from then n + 1 else n);
  }

  /** With at most one change per tick, both documented shapes hold exactly
      the history's entries in range. */
  lemma WindowEntries<V>(full: Trace<V>, from: int, to: Option<int>, w: Trace<V>)
    requires StrictlyOrdered(full) && Ordered(full) && Documented(full, from, to, w) && AtMost(from, to)
    ensures KeepsEntries(full, from, to, w)
  {
    TaggedEntries(full, from, to);
    TrueTickEntries(full, from, to);
    StrictBounds(full, from);
    if w == full {
      assert KeepsEntries(full, from, to, full);
    }
  }

  /** The entries in range of `pre + r`, when `pre` lies before the range and
      `r` inside it. */
  lemma RangeIs<V>(pre: Trace<V>, r: Trace<V>, from: int, to: Option<int>)
    requires Ordered(pre + r)
    requires forall i :: 0 <= i < |pre| ==> pre[i].tick < from
    requires forall i :: 0 <= i < |r| ==> from <= r[i].tick && AtMost(r[i].tick, to)
    requires AtMost(from, to)
    ensures InRange(pre + r, from, to) == r
  {
    LowerBoundIs(pre + r, from, |pre|);
    if to.Some? {
      UpperBoundIs(pre + r, to.value, |pre + r|);
    }
  }

  /** With two changes at the tick `from`, a window that keeps the carried
      value's own tick shows only the second of them. */
  lemma WindowEntriesNeedStrictness()
    ensures var full := [Change(5, 'a'), Change(5, 'b')];
            && Ordered(full) && !StrictlyOrdered(full)
            && Ordered(WindowOf(full, 5, None, TrueTick))
            && InRange(WindowOf(full, 5, None, TrueTick), 5, None) != InRange(full, 5, None)
  {
    var full := [Change(5, 'a'), Change(5, 'b')];
    assert UpperBound(full, 5) == 2 && LowerBound(full, 5) == 0;
    var w := WindowOf(full, 5, None, TrueTick);
    assert w == [full[1]] && LowerBound(w, 5) == 0;
  }

  /** A backend: a history per handle, whether it can seek by time, and
      whether the windows it then hands out keep to the history's entries. */
  class Backend<V(==)> {
    const histories: map<nat, Trace<V>>
    const seeks: bool
    const exact: bool

    constructor (histories: map<nat, Trace<V>>, seeks: bool, exact: bool)
      requires forall b :: b in histories ==> Ordered(histories[b])
      ensures this.histories == histories && this.seeks == seeks && this.exact == exact && Valid()
    {
      this.histories := histories;
      this.seeks := seeks;
      this.exact := exact;
    }

    ghost predicate Valid() {
      forall b :: b in histories ==> Ordered(histories[b])
    }

    /** An unknown handle has an empty history. */
    function History(b: nat): (tr: Trace<V>)
      requires Valid()
      ensures Ordered(tr)
    {
      if b in histories then histories[b] else []
    }

    method LoadTraces(bsids: seq<nat>) returns (r: seq<Trace<V>>)
      requires Valid()
      ensures |r| == |bsids| && forall k :: 0 <= k < |r| ==> r[k] == History(bsids[k])
    {
      r := seq(|bsids|, k requires 0 <= k < |bsids| && Valid() => History(bsids[k]));
    }

    /** An admissible answer, and one with exactly the history's entries from
        a backend that keeps to them. */
    ghost predicate Answers(b: nat, from: int, to: Option<int>, w: Trace<V>)
      requires Valid()
    {
      && Serves(History(b), from, to, w)
      && (exact && AtMost(from, to) ==> KeepsEntries(History(b), from, to, w))
    }

    /** How a backend dates the carried value is its own business, signal by
        signal. */
    method LoadWindow(b: nat, from: int, to: Option<int>) returns (w: Trace<V>)
      requires Valid()
      ensures Answers(b, from, to, w)
    {
      var full := History(b);
      if exact {
        if AtMost(from, to) {
          TaggedEntries(full, from, to);
        }
        DocumentedServes(full, from, to, WindowOf(full, from, to, TaggedBefore));
        return WindowOf(full, from, to, TaggedBefore);
      }
      var date: int :| date <= from;
      var n := UpperBound(full, from);
      var pre := if n > 0 then [Change(date, full[n - 1].value)] else [];
      CarriedServes(full, from, to, pre, n);
      w := pre + full[n..EndOf(full, n, to)];
    }

    method LoadTracesWindowed(bsids: seq<nat>, from: int, to: Option<int>) returns (r: seq<Trace<V>>)
      requires Valid()
      ensures |r| == |bsids| && forall k :: 0 <= k < |r| ==> Answers(bsids[k], from, to, r[k])
    {
      r := [];
      for k := 0 to |bsids|
        invariant |r| == k
        invariant forall j :: 0 <= j < k ==> Answers(bsids[j], from, to, r[j])
      {
        var w := LoadWindow(bsids[k], from, to);
        r := r + [w];
      }
    }
  }
}
