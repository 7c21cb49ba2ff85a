/** Keeping the earliest `limit` events of a stream that arrives in any order. */
module BoundedEvents {
  import opened BinaryHeaps

  /** What an event carries besides its key. */
  datatype Sample<+V> = Sample(sid: nat, value: V)

  /** A change without its position: the key is (tick, declaration order). */
  type DumpEvent<+V> = Item<Sample<V>>

  function Event<V>(tick: int, decl: nat, sid: nat, value: V): DumpEvent<V> {
    Item(tick, decl, Sample(sid, value))
  }

  predicate SameKey<V>(a: DumpEvent<V>, b: DumpEvent<V>) {
    a.k1 == b.k1 && a.k2 == b.k2
  }

  ghost predicate KeySorted<V>(s: seq<DumpEvent<V>>) {
    forall i, j :: 0 <= i < j < |s| ==> !Less(s[j], s[i])
  }

  // ----- the stable sort by key -----

  /** The events at one key, in their order. */
  function AtKey<V>(s: seq<DumpEvent<V>>, t: int, d: int): seq<DumpEvent<V>> {
    if s == [] then []
    else
      var x := s[|s| - 1];
      AtKey(s[..|s| - 1], t, d) + if x.k1 == t && x.k2 == d then [x] else []
  }

  /** At every key, the same events in the same order. */
  ghost predicate SameAtKeys<V>(a: seq<DumpEvent<V>>, b: seq<DumpEvent<V>>) {
    forall t, d :: AtKey(a, t, d) == AtKey(b, t, d)
  }

  lemma AtKeyAppend<V>(s: seq<DumpEvent<V>>, x: DumpEvent<V>, t: int, d: int)
    ensures AtKey(s + [x], t, d) == AtKey(s, t, d) + if x.k1 == t && x.k2 == d then [x] else []
  {
    assert (s + [x])[..|s|] == s;
  }

  function InsertByKey<V>(s: seq<DumpEvent<V>>, x: DumpEvent<V>): (r: seq<DumpEvent<V>>)
    requires KeySorted(s)
    ensures KeySorted(r)
    ensures multiset(r) == multiset(s) + multiset{x}
    ensures forall i :: 0 <= i < |r| ==> r[i] == x || r[i] in s
  {
    if s == [] || !Less(x, s[|s| - 1]) then s + [x]
    else
      assert s == s[..|s| - 1] + [s[|s| - 1]];
      InsertByKey(s[..|s| - 1], x) + [s[|s| - 1]]
  }

  /** Insertion puts a new event behind those of its key. */
  lemma {:induction false} InsertIsStable<V>(s: seq<DumpEvent<V>>, x: DumpEvent<V>, t: int, d: int)
    requires KeySorted(s)
    ensures AtKey(InsertByKey(s, x), t, d) == AtKey(s, t, d) + if x.k1 == t && x.k2 == d then [x] else []
  {
    if s == [] || !Less(x, s[|s| - 1]) {
      AtKeyAppend(s, x, t, d);
    } else {
      var rest, last := s[..|s| - 1], s[|s| - 1];
      InsertIsStable(rest, x, t, d);
      AtKeyAppend(InsertByKey(rest, x), last, t, d);
      BothEmptyOr(AtKey(rest, t, d), x, last, t, d);
    }
  }

  /** Events of different keys do not meet at one key. */
  lemma BothEmptyOr<V>(s: seq<DumpEvent<V>>, x: DumpEvent<V>, y: DumpEvent<V>, t: int, d: int)
    requires Less(x, y)
    ensures s + (if x.k1 == t && x.k2 == d then [x] else []) + (if y.k1 == t && y.k2 == d then [y] else []) ==
            s + (if y.k1 == t && y.k2 == d then [y] else []) + (if x.k1 == t && x.k2 == d then [x] else [])
  {}

  lemma InsertSameAtKeys<V>(s: seq<DumpEvent<V>>, s': seq<DumpEvent<V>>, x: DumpEvent<V>)
    requires KeySorted(s) && SameAtKeys(s, s')
    ensures SameAtKeys(InsertByKey(s, x), s' + [x])
  {
    forall t, d ensures AtKey(InsertByKey(s, x), t, d) == AtKey(s' + [x], t, d) {
      InsertIsStable(s, x, t, d);
      AtKeyAppend(s', x, t, d);
    }
  }

  /** Sorted by key, and events of one key stay in their order. */
  function SortByKey<V>(s: seq<DumpEvent<V>>): (r: seq<DumpEvent<V>>)
    ensures KeySorted(r)
    ensures multiset(r) == multiset(s)
    ensures SameAtKeys(r, s)
  {
    if s == [] then []
    else
      var rest := SortByKey(s[..|s| - 1]);
      assert s == s[..|s| - 1] + [s[|s| - 1]];
      InsertSameAtKeys(rest, s[..|s| - 1], s[|s| - 1]);
      InsertByKey(rest, s[|s| - 1])
  }

  lemma {:induction false} AtKeyMembers<V>(s: seq<DumpEvent<V>>, t: int, d: int, x: DumpEvent<V>)
    ensures x in AtKey(s, t, d) <==> x in s && x.k1 == t && x.k2 == d
  {
    if s != [] {
      AtKeyMembers(s[..|s| - 1], t, d, x);
      assert s == s[..|s| - 1] + [s[|s| - 1]];
    }
  }

  /** In a sorted list with the same events at every key, the last key is not
      below that of `x`. */
  lemma LastNotBelow<V>(a: seq<DumpEvent<V>>, b: seq<DumpEvent<V>>, x: DumpEvent<V>)
    requires KeySorted(b) && SameAtKeys(a, b) && x in a
    ensures b != [] && !Less(b[|b| - 1], x)
  {
    AtKeyMembers(a, x.k1, x.k2, x);
    AtKeyMembers(b, x.k1, x.k2, x);
    var i :| 0 <= i < |b| && b[i] == x;
    assert i == |b| - 1 || !Less(b[|b| - 1], b[i]);
  }

  lemma LastAtKey<V>(s: seq<DumpEvent<V>>)
    requires s != []
    ensures var x := s[|s| - 1];
            AtKey(s, x.k1, x.k2) != [] && AtKey(s, x.k1, x.k2)[|AtKey(s, x.k1, x.k2)| - 1] == x
  {}

  lemma LastAgrees<V>(a: seq<DumpEvent<V>>, b: seq<DumpEvent<V>>)
    requires KeySorted(a) && KeySorted(b) && SameAtKeys(a, b) && a != []
    ensures b != [] && a[|a| - 1] == b[|b| - 1]
  {
    LastNotBelow(a, b, a[|a| - 1]);
    LastNotBelow(b, a, b[|b| - 1]);
    LastAtKey(a);
    LastAtKey(b);
  }

  lemma PrefixSameAtKeys<V>(a: seq<DumpEvent<V>>, b: seq<DumpEvent<V>>, x: DumpEvent<V>)
    requires SameAtKeys(a + [x], b + [x])
    ensures SameAtKeys(a, b)
  {
    forall t, d ensures AtKey(a, t, d) == AtKey(b, t, d) {
      AtKeyAppend(a, x, t, d);
      AtKeyAppend(b, x, t, d);
      SameEnds(AtKey(a, t, d), AtKey(b, t, d), if x.k1 == t && x.k2 == d then [x] else []);
    }
  }

  lemma SameEnds<T>(a: seq<T>, b: seq<T>, r: seq<T>)
    requires a + r == b + r
    ensures a == b
  {
    assert |a + r| == |a| + |r| && |b + r| == |b| + |r|;
    assert (a + r)[..|a|] == a && (b + r)[..|b|] == b;
  }

  /** A sorted list is determined by its events at each key and their order. */
  lemma {:induction false} StableUnique<V>(a: seq<DumpEvent<V>>, b: seq<DumpEvent<V>>)
    requires KeySorted(a) && KeySorted(b) && SameAtKeys(a, b)
    ensures a == b
  {
    if a == [] {
      if b != [] {
        LastAgrees(b, a);
      }
    } else {
      LastAgrees(a, b);
      var a', b', x := a[..|a| - 1], b[..|b| - 1], a[|a| - 1];
      assert a == a' + [x] && b == b' + [x];
      PrefixSameAtKeys(a', b', x);
      StableUnique(a', b');
    }
  }

  // ----- the bounded collection -----

  /** `top` is one that the heap may give out. */
  ghost predicate Largest<V>(keep: multiset<DumpEvent<V>>, top: DumpEvent<V>) {
    top in keep && forall y :: y in keep ==> !Less(top, y)
  }

  /** One arrival: kept while there is room, and afterwards in exchange for a
      largest kept event if it is smaller than that.  Which of several largest
      events goes is up to the heap. */
  ghost predicate Step<V>(keep: multiset<DumpEvent<V>>, ev: DumpEvent<V>, limit: nat, keep': multiset<DumpEvent<V>>) {
    if |keep| < limit then keep' == keep + multiset{ev}
    else exists top :: top in keep && Largest(keep, top) &&
                       keep' == if Less(ev, top) then keep - multiset{top} + multiset{ev} else keep
  }

  /** `keep` may be what is kept of the arrivals `arr`. */
  ghost predicate Keeps<V(!new)>(arr: seq<DumpEvent<V>>, limit: nat, keep: multiset<DumpEvent<V>>) {
    if arr == [] then keep == multiset{}
    else
      var rest, ev := arr[..|arr| - 1], arr[|arr| - 1];
      exists prev :: Keeps(rest, limit, prev) && Step(prev, ev, limit, keep)
  }

  lemma KeepsMore<V(!new)>(arr: seq<DumpEvent<V>>, prev: multiset<DumpEvent<V>>, ev: DumpEvent<V>, limit: nat,
                           keep: multiset<DumpEvent<V>>)
    requires Keeps(arr, limit, prev) && Step(prev, ev, limit, keep)
    ensures Keeps(arr + [ev], limit, keep)
  {
    assert (arr + [ev])[..|arr|] == arr;
  }

  /** What the bounded collection may return: kept events, sorted, those with
      equal keys in whatever order the heap left them. */
  ghost predicate Outcome<V(!new)>(arr: seq<DumpEvent<V>>, limit: nat, events: seq<DumpEvent<V>>) {
    KeySorted(events) && Keeps(arr, limit, multiset(events))
  }

  /** One arrival, on the heap. */
  method Offer<V(!new)>(heap: BinaryHeap<Sample<V>>, ev: DumpEvent<V>, limit: nat, ghost arr: seq<DumpEvent<V>>)
    requires heap.Valid() && limit > 0
    requires Keeps(arr, limit, multiset(heap.data))
    modifies heap
    ensures heap.Valid()
    ensures Step(old(multiset(heap.data)), ev, limit, multiset(heap.data))
    ensures Keeps(arr + [ev], limit, multiset(heap.data))
  {
    ghost var keep := multiset(heap.data);
    if |heap.data| < limit {
      heap.Push(ev);
    } else {
      var top := heap.Peek();
      assert Largest(keep, top.value);
      if Less(ev, top.value) {
        var gone := heap.Pop();
        assert Largest(keep, gone.value) && !Less(gone.value, top.value);
        heap.Push(ev);
      }
    }
    KeepsMore(arr, keep, ev, limit, multiset(heap.data));
  }
}
