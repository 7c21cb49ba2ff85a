/** Change histories: the data every command reads.

    A trace lists the changes of one signal; entry `i` pairs the source's
    `times[i]` with `values[i]`.  The value type is a parameter: all that the
    code in these modules asks of a value is equality. */
module Traces {
  import opened Wrappers

  datatype Change<+V> = Change(tick: int, value: V)

  type Trace<+V> = seq<Change<V>>

  /** Not beyond the end of a window; no end at all means unbounded. */
  predicate AtMost(t: int, hi: Option<int>) {
    hi.None? || t <= hi.value
  }

  /** Ticks never decrease: what every backend delivers. */
  ghost predicate Ordered<V>(tr: Trace<V>) {
    forall i, j :: 0 <= i < j < |tr| ==> tr[i].tick <= tr[j].tick
  }

  /** At most one entry per tick. */
  ghost predicate StrictlyOrdered<V>(tr: Trace<V>) {
    forall i, j :: 0 <= i < j < |tr| ==> tr[i].tick < tr[j].tick
  }

  lemma PrefixOrdered<V>(tr: Trace<V>)
    requires Ordered(tr) && tr != []
    ensures Ordered(tr[..|tr| - 1])
    ensures |tr| > 1 ==> tr[|tr| - 2].tick <= tr[|tr| - 1].tick
  {}

  lemma OrderedAppend<V>(tr: Trace<V>, c: Change<V>)
    requires Ordered(tr) && (tr == [] || tr[|tr| - 1].tick <= c.tick)
    ensures Ordered(tr + [c])
  {
    forall i | 0 <= i < |tr| ensures tr[i].tick <= c.tick {
      assert i == |tr| - 1 || tr[i].tick <= tr[|tr| - 1].tick;
    }
  }

  /** Number of leading changes before `t`, among the first `k`. */
  function CountBefore<V>(tr: Trace<V>, t: int, k: nat): (n: nat)
    requires Ordered(tr) && k <= |tr|
    ensures n <= k
    ensures forall i :: 0 <= i < n ==> tr[i].tick < t
    ensures forall i :: n <= i < k ==> t <= tr[i].tick
  {
    if k == 0 then 0 else if tr[k - 1].tick < t then k else CountBefore(tr, t, k - 1)
  }

  /** Index of the first change at or after `t`.  The source asks the standard
      library's `partition_point`, whose promise on ordered input is this
      contract. */
  function LowerBound<V>(tr: Trace<V>, t: int): (n: nat)
    requires Ordered(tr)
    ensures n <= |tr|
    ensures forall i :: 0 <= i < n ==> tr[i].tick < t
    ensures forall i :: n <= i < |tr| ==> t <= tr[i].tick
  {
    CountBefore(tr, t, |tr|)
  }

  /** Number of changes at or before `t`. */
  function UpperBound<V>(tr: Trace<V>, t: int): (n: nat)
    requires Ordered(tr)
    ensures n <= |tr|
    ensures forall i :: 0 <= i < n ==> tr[i].tick <= t
    ensures forall i :: n <= i < |tr| ==> t < tr[i].tick
  {
    CountBefore(tr, t + 1, |tr|)
  }

  /** Index of the last change at or before `t`, found by bisection. */
  function LastAtOrBefore<V>(tr: Trace<V>, t: int): (r: Option<nat>)
    requires Ordered(tr)
    ensures r.None? <==> forall i :: 0 <= i < |tr| ==> t < tr[i].tick
    ensures r.Some? ==> r.value < |tr| && tr[r.value].tick <= t
    ensures r.Some? ==> forall i :: r.value < i < |tr| ==> t < tr[i].tick
  {
    if tr == [] || tr[0].tick > t then None
    else Some(UpperBound(tr, t) - 1)
  }

  /** The value a signal holds at `t`, defined without any search: the value
      written last among the changes at or before `t`. */
  function ValueAt<V>(tr: Trace<V>, t: int): Option<V> {
    if tr == [] then None
    else if tr[|tr| - 1].tick <= t then Some(tr[|tr| - 1].value)
    else ValueAt(tr[..|tr| - 1], t)
  }

  /** The bisection finds exactly the value in effect. */
  lemma {:induction false} LastAtOrBeforeIsValueAt<V>(tr: Trace<V>, t: int)
    requires Ordered(tr)
    ensures ValueAt(tr, t) ==
            match LastAtOrBefore(tr, t)
            case None => None
            case Some(p) => Some(tr[p].value)
  {
    if tr != [] && t < tr[|tr| - 1].tick {
      LastAtOrBeforeIsValueAt(tr[..|tr| - 1], t);
    }
  }

  lemma {:induction false} CountBeforeIs<V>(tr: Trace<V>, t: int, k: nat, n: nat)
    requires Ordered(tr) && n <= k <= |tr|
    requires forall i :: 0 <= i < n ==> tr[i].tick < t
    requires forall i :: n <= i < k ==> t <= tr[i].tick
    ensures CountBefore(tr, t, k) == n
  {
    if k > 0 && t <= tr[k - 1].tick {
      CountBeforeIs(tr, t, k - 1, n);
    }
  }

  lemma {:induction false} CountBeforeGrows<V>(tr: Trace<V>, t: int, u: int, k: nat)
    requires Ordered(tr) && k <= |tr| && t <= u
    ensures CountBefore(tr, t, k) <= CountBefore(tr, u, k)
  {
    if k > 0 && u <= tr[k - 1].tick {
      CountBeforeGrows(tr, t, u, k - 1);
    }
  }

  lemma LowerBoundIs<V>(tr: Trace<V>, t: int, n: nat)
    requires Ordered(tr) && n <= |tr|
    requires forall i :: 0 <= i < n ==> tr[i].tick < t
    requires forall i :: n <= i < |tr| ==> t <= tr[i].tick
    ensures LowerBound(tr, t) == n
  {
    CountBeforeIs(tr, t, |tr|, n);
  }

  lemma UpperBoundIs<V>(tr: Trace<V>, t: int, n: nat)
    requires Ordered(tr) && n <= |tr|
    requires forall i :: 0 <= i < n ==> tr[i].tick <= t
    requires forall i :: n <= i < |tr| ==> t < tr[i].tick
    ensures UpperBound(tr, t) == n
  {
    CountBeforeIs(tr, t + 1, |tr|, n);
  }
}
