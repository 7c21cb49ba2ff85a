/** What the bounded collection may return, read off the arrivals. */
module BoundedOutcomes {
  import opened Wrappers
  import opened BinaryHeaps
  import opened BoundedEvents

  type Bag<V(==)> = multiset<DumpEvent<V>>

  // ----- counting the events up to a key -----

  /** The events not above `x`. */
  function Lower<V>(s: seq<DumpEvent<V>>, x: DumpEvent<V>): (r: seq<DumpEvent<V>>)
    ensures |r| <= |s|
  {
    if s == [] then []
    else Lower(s[..|s| - 1], x) + if Less(x, s[|s| - 1]) then [] else [s[|s| - 1]]
  }

  lemma LowerAppend<V>(s: seq<DumpEvent<V>>, y: DumpEvent<V>, x: DumpEvent<V>)
    ensures Lower(s + [y], x) == Lower(s, x) + if Less(x, y) then [] else [y]
  {
    assert (s + [y])[..|s|] == s;
  }

  lemma {:induction false} LowerBag<V>(s: seq<DumpEvent<V>>, x: DumpEvent<V>, y: DumpEvent<V>)
    ensures multiset(Lower(s, x))[y] == if Less(x, y) then 0 else multiset(s)[y]
  {
    if s != [] {
      LowerBag(s[..|s| - 1], x, y);
      assert s == s[..|s| - 1] + [s[|s| - 1]];
    }
  }

  /** A higher key has no fewer events up to it. */
  lemma {:induction false} CountGrows<V>(s: seq<DumpEvent<V>>, x: DumpEvent<V>, y: DumpEvent<V>)
    requires !Less(y, x)
    ensures |Lower(s, x)| <= |Lower(s, y)|
  {
    if s != [] {
      CountGrows(s[..|s| - 1], x, y);
    }
  }

  /** A part of the events up to a key is no larger than their number. */
  lemma PartCount<V>(part: Bag<V>, s: seq<DumpEvent<V>>, x: DumpEvent<V>)
    requires part <= multiset(s) && forall y :: y in part ==> !Less(x, y)
    ensures |part| <= |Lower(s, x)|
  {
    forall y | y in part ensures part[y] <= multiset(Lower(s, x))[y] {
      LowerBag(s, x, y);
    }
    assert part <= multiset(Lower(s, x));
    SubBag(part, multiset(Lower(s, x)));
  }

  lemma LowerPart<V>(s: seq<DumpEvent<V>>, x: DumpEvent<V>)
    ensures multiset(Lower(s, x)) <= multiset(s)
    ensures forall y :: y in multiset(Lower(s, x)) ==> !Less(x, y)
  {
    forall y: DumpEvent<V>
      ensures multiset(Lower(s, x))[y] <= multiset(s)[y]
      ensures y in multiset(Lower(s, x)) ==> !Less(x, y)
    {
      LowerBag(s, x, y);
    }
  }

  /** The count depends on the events, not on their order. */
  lemma SameCount<V>(a: seq<DumpEvent<V>>, b: seq<DumpEvent<V>>, x: DumpEvent<V>)
    requires multiset(a) == multiset(b)
    ensures |Lower(a, x)| == |Lower(b, x)|
  {
    LowerPart(a, x);
    PartCount(multiset(Lower(a, x)), b, x);
    LowerPart(b, x);
    PartCount(multiset(Lower(b, x)), a, x);
  }

  lemma SubBag<T>(a: multiset<T>, b: multiset<T>)
    requires a <= b
    ensures |a| <= |b|
  {
    assert b == a + (b - a);
  }

  /** If some event is missing from a larger bag, it can be named. */
  lemma Missing<T>(a: multiset<T>, b: multiset<T>) returns (x: T)
    requires |a| < |b|
    ensures a[x] < b[x]
  {
    if forall y :: y in b ==> b[y] <= a[y] {
      SubBag(b, a);
    }
    x :| x in b && a[x] < b[x];
  }

  /** In a sorted list the events up to a key come first. */
  lemma {:induction false} LowerFirst<V>(s: seq<DumpEvent<V>>, x: DumpEvent<V>)
    requires KeySorted(s)
    ensures Lower(s, x) == s[..|Lower(s, x)|]
    ensures forall i :: 0 <= i < |s| ==> (i < |Lower(s, x)| <==> !Less(x, s[i]))
  {
    if s != [] {
      var n := |s| - 1;
      LowerFirst(s[..n], x);
      if !Less(x, s[n]) {
        assert forall i :: 0 <= i < n ==> !Less(x, s[i]);
        assert |Lower(s[..n], x)| == n;
      }
    }
  }

  // ----- the smallest events -----

  /** `keep` holds as many of the events of `seen` as `limit` allows, and none
      left out is smaller than one kept. */
  ghost predicate Smallest<V>(keep: Bag<V>, seen: Bag<V>, limit: nat) {
    && keep <= seen
    && |keep| == Clip(|seen|, limit)
    && forall x, y :: x in keep && y in seen - keep ==> !Less(y, x)
  }

  // ----- which arrivals can ever be kept -----

  /** The arrivals that met fewer than `limit` earlier ones up to their key. */
  function Admitted<V>(arr: seq<DumpEvent<V>>, limit: nat): seq<DumpEvent<V>> {
    if arr == [] then []
    else
      var rest, ev := arr[..|arr| - 1], arr[|arr| - 1];
      Admitted(rest, limit) + if |Lower(rest, ev)| < limit then [ev] else []
  }

  lemma AdmittedMore<V>(rest: seq<DumpEvent<V>>, ev: DumpEvent<V>, limit: nat)
    ensures multiset(Admitted(rest + [ev], limit)) ==
            multiset(Admitted(rest, limit)) + if |Lower(rest, ev)| < limit then multiset{ev} else multiset{}
  {
    assert (rest + [ev])[..|rest|] == rest;
  }

  lemma {:induction false} AdmittedArrived<V>(arr: seq<DumpEvent<V>>, limit: nat)
    ensures multiset(Admitted(arr, limit)) <= multiset(arr)
  {
    if arr != [] {
      var rest, ev := arr[..|arr| - 1], arr[|arr| - 1];
      assert arr == rest + [ev];
      AdmittedArrived(rest, limit);
      AdmittedMore(rest, ev, limit);
    }
  }

  /** Up to any key, the first `limit` arrivals are admitted. */
  lemma {:induction false} AdmittedCount<V>(arr: seq<DumpEvent<V>>, limit: nat, x: DumpEvent<V>)
    ensures |Lower(Admitted(arr, limit), x)| >= if |Lower(arr, x)| < limit then |Lower(arr, x)| else limit
  {
    if arr != [] {
      var rest, ev := arr[..|arr| - 1], arr[|arr| - 1];
      AdmittedCount(rest, limit, x);
      assert Admitted(rest, limit) + [] == Admitted(rest, limit);
      if |Lower(rest, ev)| < limit {
        LowerAppend(Admitted(rest, limit), ev, x);
      } else if !Less(x, ev) {
        CountGrows(rest, ev, x);
      }
    }
  }

  // ----- exactly what may be kept: one way -----

  lemma {:induction false} KeptSmallest<V(!new)>(arr: seq<DumpEvent<V>>, limit: nat, keep: Bag<V>)
    requires limit > 0 && Keeps(arr, limit, keep)
    ensures Smallest(keep, multiset(arr), limit) && keep <= multiset(Admitted(arr, limit))
  {
    if arr != [] {
      var rest, ev := arr[..|arr| - 1], arr[|arr| - 1];
      assert arr == rest + [ev];
      var prev := LastStep(rest, ev, limit, keep);
      KeptSmallest(rest, limit, prev);
      StepKept(prev, rest, ev, limit, keep);
    }
  }

  lemma LastStep<V(!new)>(rest: seq<DumpEvent<V>>, ev: DumpEvent<V>, limit: nat, keep: Bag<V>) returns (prev: Bag<V>)
    requires Keeps(rest + [ev], limit, keep)
    ensures Keeps(rest, limit, prev) && Step(prev, ev, limit, keep)
  {
    assert (rest + [ev])[..|rest|] == rest;
    prev :| Keeps(rest, limit, prev) && Step(prev, ev, limit, keep);
  }

  lemma StepKept<V>(prev: Bag<V>, rest: seq<DumpEvent<V>>, ev: DumpEvent<V>, limit: nat, keep: Bag<V>)
    requires limit > 0 && Smallest(prev, multiset(rest), limit) && Step(prev, ev, limit, keep)
    requires prev <= multiset(Admitted(rest, limit))
    ensures Smallest(keep, multiset(rest + [ev]), limit) && keep <= multiset(Admitted(rest + [ev], limit))
  {
    StepSmallest(prev, rest, ev, limit, keep);
    StepAdmitted(prev, rest, ev, limit, keep);
    assert multiset(rest + [ev]) == multiset(rest) + multiset{ev};
  }

  lemma StepSmallest<V>(prev: Bag<V>, rest: seq<DumpEvent<V>>, ev: DumpEvent<V>, limit: nat, keep: Bag<V>)
    requires limit > 0 && Smallest(prev, multiset(rest), limit) && Step(prev, ev, limit, keep)
    ensures Smallest(keep, multiset(rest) + multiset{ev}, limit)
  {
    var seen := multiset(rest);
    if |prev| < limit {
      RoomLeft(prev, seen, limit, ev);
    } else {
      var top := Displaced(prev, ev, limit, keep);
      if Less(ev, top) {
        Exchanged(prev, seen, limit, ev, top);
      } else {
        Refused(prev, seen, limit, ev, top);
      }
    }
  }

  lemma RoomLeft<V>(keep: Bag<V>, seen: Bag<V>, limit: nat, ev: DumpEvent<V>)
    requires Smallest(keep, seen, limit) && |keep| < limit
    ensures Smallest(keep + multiset{ev}, seen + multiset{ev}, limit)
  {
    assert |seen - keep| == 0;
    assert keep == seen;
  }

  /** An arrival not smaller than a largest kept event may be dropped. */
  lemma Refused<V>(keep: Bag<V>, seen: Bag<V>, limit: nat, ev: DumpEvent<V>, top: DumpEvent<V>)
    requires Smallest(keep, seen, limit) && |keep| == limit > 0
    requires !Less(ev, top) && Largest(keep, top)
    ensures Smallest(keep, seen + multiset{ev}, limit)
  {
    forall x, y | x in keep && y in seen + multiset{ev} - keep
      ensures !Less(y, x)
    {
      assert y == ev || y in seen - keep;
      assert !Less(top, x);
    }
  }

  /** A smaller arrival takes the place of a largest kept event. */
  lemma Exchanged<V>(keep: Bag<V>, seen: Bag<V>, limit: nat, ev: DumpEvent<V>, top: DumpEvent<V>)
    requires Smallest(keep, seen, limit) && |keep| == limit > 0
    requires Less(ev, top) && Largest(keep, top)
    ensures Smallest(keep - multiset{top} + multiset{ev}, seen + multiset{ev}, limit)
  {
    var keep', seen' := keep - multiset{top} + multiset{ev}, seen + multiset{ev};
    forall x, y | x in keep' && y in seen' - keep'
      ensures !Less(y, x)
    {
      assert y == top || y in seen - keep;
      assert x == ev || x in keep;
    }
  }

  /** Only an arrival with fewer than `limit` earlier ones up to its key gets
      in. */
  lemma StepAdds<V>(prev: Bag<V>, rest: seq<DumpEvent<V>>, ev: DumpEvent<V>, limit: nat, keep: Bag<V>)
    requires limit > 0 && Smallest(prev, multiset(rest), limit) && Step(prev, ev, limit, keep)
    ensures keep <= prev || (keep <= prev + multiset{ev} && |Lower(rest, ev)| < limit)
  {
    if |prev| < limit {
      assert |multiset(rest)| == |rest|;
    } else {
      var top := Displaced(prev, ev, limit, keep);
      if Less(ev, top) {
        FewBelow(prev, rest, ev, limit, top);
      }
    }
  }

  lemma Displaced<V>(prev: Bag<V>, ev: DumpEvent<V>, limit: nat, keep: Bag<V>) returns (top: DumpEvent<V>)
    requires |prev| >= limit && Step(prev, ev, limit, keep)
    ensures top in prev && Largest(prev, top)
    ensures keep == if Less(ev, top) then prev - multiset{top} + multiset{ev} else prev
  {
    top :| top in prev && Largest(prev, top) &&
           keep == if Less(ev, top) then prev - multiset{top} + multiset{ev} else prev;
  }

  lemma StepAdmitted<V>(prev: Bag<V>, rest: seq<DumpEvent<V>>, ev: DumpEvent<V>, limit: nat, keep: Bag<V>)
    requires limit > 0 && Smallest(prev, multiset(rest), limit) && Step(prev, ev, limit, keep)
    requires prev <= multiset(Admitted(rest, limit))
    ensures keep <= multiset(Admitted(rest + [ev], limit))
  {
    StepAdds(prev, rest, ev, limit, keep);
    AdmittedMore(rest, ev, limit);
  }

  /** Below a kept event there are fewer than `limit` arrivals. */
  lemma FewBelow<V>(keep: Bag<V>, s: seq<DumpEvent<V>>, ev: DumpEvent<V>, limit: nat, top: DumpEvent<V>)
    requires limit > 0 && Smallest(keep, multiset(s), limit) && top in keep && Less(ev, top)
    ensures |Lower(s, ev)| < limit
  {
    var low := multiset(Lower(s, ev));
    forall y | y in low ensures low[y] <= (keep - multiset{top})[y] {
      LowerBag(s, ev, y);
      assert y in multiset(s) - keep ==> !Less(y, top);
    }
    assert low <= keep - multiset{top};
    SubBag(low, keep - multiset{top});
  }

  // ----- exactly what may be kept: the other way -----

  lemma {:induction false} SmallestKept<V(!new)>(arr: seq<DumpEvent<V>>, limit: nat, keep: Bag<V>)
    requires limit > 0 && Smallest(keep, multiset(arr), limit) && keep <= multiset(Admitted(arr, limit))
    ensures Keeps(arr, limit, keep)
  {
    if arr != [] {
      var rest, ev := arr[..|arr| - 1], arr[|arr| - 1];
      assert arr == rest + [ev];
      var prev := StepBack(rest, ev, limit, keep);
      SmallestKept(rest, limit, prev);
    } else {
      assert keep == multiset{};
    }
  }

  /** What was kept before the last arrival, given what is kept after it. */
  lemma StepBack<V>(rest: seq<DumpEvent<V>>, ev: DumpEvent<V>, limit: nat, keep: Bag<V>) returns (prev: Bag<V>)
    requires limit > 0 && Smallest(keep, multiset(rest) + multiset{ev}, limit)
    requires keep <= multiset(Admitted(rest + [ev], limit))
    ensures Smallest(prev, multiset(rest), limit) && prev <= multiset(Admitted(rest, limit))
    ensures Step(prev, ev, limit, keep)
  {
    assert (rest + [ev])[..|rest|] == rest;
    if |rest| < limit {
      prev := AllBack(rest, ev, limit, keep);
    } else if |Lower(rest, ev)| < limit {
      prev := ExchangeBack(rest, ev, limit, keep);
    } else {
      RefusedBack(rest, ev, limit, keep);
      prev := keep;
    }
  }

  lemma {:induction false} AllAdmitted<V>(arr: seq<DumpEvent<V>>, limit: nat)
    requires |arr| <= limit
    ensures Admitted(arr, limit) == arr
  {
    if arr != [] {
      AllAdmitted(arr[..|arr| - 1], limit);
      assert arr == arr[..|arr| - 1] + [arr[|arr| - 1]];
    }
  }

  lemma AllBack<V>(rest: seq<DumpEvent<V>>, ev: DumpEvent<V>, limit: nat, keep: Bag<V>) returns (prev: Bag<V>)
    requires |rest| < limit && Smallest(keep, multiset(rest) + multiset{ev}, limit)
    ensures Smallest(prev, multiset(rest), limit) && prev <= multiset(Admitted(rest, limit))
    ensures Step(prev, ev, limit, keep)
  {
    prev := multiset(rest);
    AllAdmitted(rest, limit);
    assert |prev + multiset{ev} - keep| == 0;
    assert keep == prev + multiset{ev};
  }

  /** An arrival with `limit` earlier ones up to its key was refused. */
  lemma RefusedBack<V>(rest: seq<DumpEvent<V>>, ev: DumpEvent<V>, limit: nat, keep: Bag<V>)
    requires limit > 0 && |rest| >= limit && Smallest(keep, multiset(rest) + multiset{ev}, limit)
    requires keep <= multiset(Admitted(rest, limit)) && |Lower(rest, ev)| >= limit
    ensures Smallest(keep, multiset(rest), limit)
    ensures Step(keep, ev, limit, keep)
  {
    AdmittedArrived(rest, limit);
    assert forall y :: y in multiset(rest) - keep ==> y in multiset(rest) + multiset{ev} - keep;
    var top := LargestOf(keep);
    if Less(ev, top) {
      FewBelow(keep, rest, ev, limit, top);
    }
  }

  lemma {:induction false} LargestOf<V>(bag: Bag<V>) returns (top: DumpEvent<V>)
    requires |bag| > 0
    ensures Largest(bag, top)
    decreases |bag|
  {
    var x :| x in bag;
    top := x;
    var rest := bag - multiset{x};
    if |rest| > 0 {
      var y := LargestOf(rest);
      if Less(x, y) {
        top := y;
      }
    }
    assert forall z :: z in bag ==> z == x || z in rest;
  }

  lemma {:induction false} SmallestOf<V>(bag: Bag<V>) returns (low: DumpEvent<V>)
    requires |bag| > 0
    ensures low in bag && forall y :: y in bag ==> !Less(y, low)
    decreases |bag|
  {
    var x :| x in bag;
    low := x;
    var rest := bag - multiset{x};
    if |rest| > 0 {
      var y := SmallestOf(rest);
      if Less(y, x) {
        low := y;
      }
    }
    assert forall z :: z in bag ==> z == x || z in rest;
  }

  /** An admitted arrival is among the smallest. */
  lemma ArrivalKept<V>(rest: seq<DumpEvent<V>>, ev: DumpEvent<V>, limit: nat, keep: Bag<V>)
    requires limit > 0 && |rest| >= limit && Smallest(keep, multiset(rest) + multiset{ev}, limit)
    requires |Lower(rest, ev)| < limit
    ensures ev in keep
  {
    var all := multiset(rest) + multiset{ev};
    if ev !in keep {
      assert ev in all - keep;
      assert keep <= multiset(rest);
      PartCount(keep, rest, ev);
    }
  }

  /** An admitted arrival took the place of an event that was the smallest of
      those left out now. */
  lemma ExchangeBack<V>(rest: seq<DumpEvent<V>>, ev: DumpEvent<V>, limit: nat, keep: Bag<V>) returns (prev: Bag<V>)
    requires limit > 0 && |rest| >= limit && Smallest(keep, multiset(rest) + multiset{ev}, limit)
    requires |Lower(rest, ev)| < limit && keep <= multiset(Admitted(rest, limit)) + multiset{ev}
    ensures Smallest(prev, multiset(rest), limit) && prev <= multiset(Admitted(rest, limit))
    ensures Step(prev, ev, limit, keep)
  {
    ArrivalKept(rest, ev, limit, keep);
    var others := keep - multiset{ev};
    AdmittedArrived(rest, limit);
    var low, z := Replaced(rest, limit, others);
    prev := others + multiset{z};
    KeptUpTo(rest, ev, limit, keep, low);
    BackSmallest(rest, limit, others, low, z);
    BackStep(rest, ev, limit, keep, low, z);
  }

  /** Among the events left out, one with the smallest key was admitted. */
  lemma Replaced<V>(rest: seq<DumpEvent<V>>, limit: nat, others: Bag<V>) returns (low: DumpEvent<V>, z: DumpEvent<V>)
    requires others <= multiset(Admitted(rest, limit)) <= multiset(rest)
    requires |others| + 1 == limit <= |rest|
    requires forall x, y :: x in others && y in multiset(rest) - others ==> !Less(y, x)
    ensures low in multiset(rest) - others && forall y :: y in multiset(rest) - others ==> !Less(y, low)
    ensures z in multiset(rest) - others && !Less(low, z) && !Less(z, low)
    ensures others[z] < multiset(Admitted(rest, limit))[z]
    ensures |Lower(rest, low)| >= limit
  {
    var out := multiset(rest) - others;
    assert |out| == |rest| - |others|;
    low := SmallestOf(out);
    PartCount(others + multiset{low}, rest, low);
    AdmittedCount(rest, limit, low);
    z := Missing(others, multiset(Lower(Admitted(rest, limit), low)));
    LowerBag(Admitted(rest, limit), low, z);
  }

  lemma KeptUpTo<V>(rest: seq<DumpEvent<V>>, ev: DumpEvent<V>, limit: nat, keep: Bag<V>, low: DumpEvent<V>)
    requires Smallest(keep, multiset(rest) + multiset{ev}, limit) && ev in keep
    requires low in multiset(rest) - (keep - multiset{ev})
    ensures forall x :: x in keep ==> !Less(low, x)
  {
    assert low in multiset(rest) + multiset{ev} - keep;
  }

  lemma BackSmallest<V>(rest: seq<DumpEvent<V>>, limit: nat, others: Bag<V>, low: DumpEvent<V>, z: DumpEvent<V>)
    requires others <= multiset(Admitted(rest, limit)) <= multiset(rest)
    requires |others| + 1 == limit <= |rest|
    requires forall y :: y in multiset(rest) - others ==> !Less(y, low)
    requires forall x :: x in others ==> !Less(low, x)
    requires !Less(low, z) && !Less(z, low) && others[z] < multiset(Admitted(rest, limit))[z]
    ensures Smallest(others + multiset{z}, multiset(rest), limit)
    ensures others + multiset{z} <= multiset(Admitted(rest, limit))
  {
    OneMoreWithin(others, multiset(Admitted(rest, limit)), z);
    assert |multiset(rest)| == |rest|;
    BackBelow(multiset(rest), others, low, z);
  }

  lemma BackBelow<V>(seen: Bag<V>, others: Bag<V>, low: DumpEvent<V>, z: DumpEvent<V>)
    requires forall y :: y in seen - others ==> !Less(y, low)
    requires forall x :: x in others ==> !Less(low, x)
    requires !Less(low, z) && !Less(z, low)
    ensures forall x, y :: x in others + multiset{z} && y in seen - (others + multiset{z}) ==> !Less(y, x)
  {
    forall x, y | x in others + multiset{z} && y in seen - (others + multiset{z})
      ensures !Less(y, x)
    {
      assert y in seen - others;
      assert x == z || x in others;
    }
  }

  lemma OneMoreWithin<T>(a: multiset<T>, b: multiset<T>, x: T)
    requires a <= b && a[x] < b[x]
    ensures a + multiset{x} <= b
  {}

  lemma BackStep<V>(rest: seq<DumpEvent<V>>, ev: DumpEvent<V>, limit: nat, keep: Bag<V>, low: DumpEvent<V>,
                    z: DumpEvent<V>)
    requires ev in keep && |keep| == limit && |Lower(rest, ev)| < limit <= |Lower(rest, low)|
    requires forall x :: x in keep ==> !Less(low, x)
    requires !Less(low, z) && !Less(z, low)
    ensures Step(keep - multiset{ev} + multiset{z}, ev, limit, keep)
  {
    var prev := keep - multiset{ev} + multiset{z};
    if !Less(ev, z) {
      CountGrows(rest, low, ev);
    }
    assert forall x :: x in prev ==> x == z || x in keep;
    assert z in prev && Largest(prev, z);
    assert keep == prev - multiset{z} + multiset{ev};
  }

  /** Which bags may be kept: the smallest ones, among the arrivals ever
      admitted. */
  lemma KeepsExactly<V(!new)>(arr: seq<DumpEvent<V>>, limit: nat, keep: Bag<V>)
    requires limit > 0
    ensures Keeps(arr, limit, keep) <==>
            Smallest(keep, multiset(arr), limit) && keep <= multiset(Admitted(arr, limit))
  {
    if Keeps(arr, limit, keep) {
      KeptSmallest(arr, limit, keep);
    }
    if Smallest(keep, multiset(arr), limit) && keep <= multiset(Admitted(arr, limit)) {
      SmallestKept(arr, limit, keep);
    }
  }

  // ----- the beginning of the sorted arrivals -----

  /** The rows to expect: the first ones of the arrivals in stable order. */
  function Expected<V>(arr: seq<DumpEvent<V>>, limit: nat): (r: seq<DumpEvent<V>>)
    ensures |r| == Clip(|arr|, limit)
  {
    assert |SortByKey(arr)| == |multiset(SortByKey(arr))| == |multiset(arr)| == |arr|;
    SortByKey(arr)[..Clip(|arr|, limit)]
  }

  lemma InsertAt<V>(s: seq<DumpEvent<V>>, x: DumpEvent<V>)
    requires KeySorted(s)
    ensures var p := |Lower(s, x)|; InsertByKey(s, x) == s[..p] + [x] + s[p..]
  {
    LowerFirst(s, x);
    InsertPlace(s, x, |Lower(s, x)|);
  }

  lemma {:induction false} InsertPlace<V>(s: seq<DumpEvent<V>>, x: DumpEvent<V>, p: nat)
    requires KeySorted(s) && p <= |s| && forall i :: 0 <= i < |s| ==> (i < p <==> !Less(x, s[i]))
    ensures InsertByKey(s, x) == s[..p] + [x] + s[p..]
  {
    if s == [] || !Less(x, s[|s| - 1]) {
      assert p == |s|;
    } else {
      var rest := s[..|s| - 1];
      InsertPlace(rest, x, p);
      assert s[p..] == rest[p..] + [s[|s| - 1]];
    }
  }

  /** The expected rows are among those ever admitted. */
  lemma {:induction false} ExpectedAdmitted<V>(arr: seq<DumpEvent<V>>, limit: nat)
    requires limit > 0
    ensures multiset(Expected(arr, limit)) <= multiset(Admitted(arr, limit))
  {
    if arr != [] {
      var rest, ev := arr[..|arr| - 1], arr[|arr| - 1];
      ExpectedAdmitted(rest, limit);
      assert arr == rest + [ev];
      AdmittedMore(rest, ev, limit);
      ExpectedMore(rest, ev, limit);
    }
  }

  lemma SortAppend<V>(rest: seq<DumpEvent<V>>, ev: DumpEvent<V>)
    ensures var s, p := SortByKey(rest), |Lower(rest, ev)|;
            |s| == |rest| && p <= |s| && SortByKey(rest + [ev]) == s[..p] + [ev] + s[p..]
  {
    assert (rest + [ev])[..|rest|] == rest;
    assert |SortByKey(rest)| == |multiset(SortByKey(rest))| == |multiset(rest)|;
    InsertAt(SortByKey(rest), ev);
    SameCount(SortByKey(rest), rest, ev);
  }

  lemma ExpectedIs<V>(rest: seq<DumpEvent<V>>, ev: DumpEvent<V>, limit: nat, s: seq<DumpEvent<V>>, p: nat)
    requires s == SortByKey(rest) && |s| == |rest| && p <= |s|
    requires SortByKey(rest + [ev]) == s[..p] + [ev] + s[p..]
    ensures Expected(rest, limit) == s[..Clip(|rest|, limit)]
    ensures Expected(rest + [ev], limit) == (s[..p] + [ev] + s[p..])[..Clip(|rest| + 1, limit)]
  {}

  /** A new arrival enters the expected rows if fewer than `limit` earlier ones
      come up to its key. */
  lemma ExpectedMore<V>(rest: seq<DumpEvent<V>>, ev: DumpEvent<V>, limit: nat)
    requires limit > 0
    ensures multiset(Expected(rest + [ev], limit)) <=
            multiset(Expected(rest, limit)) + if |Lower(rest, ev)| < limit then multiset{ev} else multiset{}
  {
    var s, p := SortByKey(rest), |Lower(rest, ev)|;
    SortAppend(rest, ev);
    ExpectedIs(rest, ev, limit, s, p);
    InsertedPrefix(s, p, ev, Clip(|rest|, limit), Clip(|rest| + 1, limit));
  }

  lemma InsertedPrefix<T>(s: seq<T>, p: nat, x: T, n: nat, m: nat)
    requires p <= |s| && n <= |s| && m <= |s| + 1 && n <= m <= n + 1 && (m == n + 1 ==> n == |s|)
    ensures multiset((s[..p] + [x] + s[p..])[..m]) <= multiset(s[..n]) + if p < m then multiset{x} else multiset{}
  {
    var r := s[..p] + [x] + s[p..];
    if p < m {
      assert r[..m] == s[..p] + [x] + s[p..m - 1];
      assert s[..m - 1] == s[..p] + s[p..m - 1];
      assert s[..n] == s[..m - 1] + s[m - 1..n];
    } else {
      assert r[..m] == s[..m] && m == n;
    }
  }

  lemma PrefixBelow<V>(s: seq<DumpEvent<V>>, n: nat, x: DumpEvent<V>, y: DumpEvent<V>)
    requires KeySorted(s) && n <= |s| && x in s[..n] && y in s[n..]
    ensures !Less(y, x)
  {
    var i :| 0 <= i < n && s[..n][i] == x;
    var j :| 0 <= j < |s| - n && s[n..][j] == y;
    assert s[n + j] == y && s[i] == x;
  }

  /** The first ones of a sorted list are its smallest. */
  lemma PrefixSmallest<V>(s: seq<DumpEvent<V>>, limit: nat)
    requires KeySorted(s)
    ensures Smallest(multiset(s[..Clip(|s|, limit)]), multiset(s), limit)
  {
    var n := Clip(|s|, limit);
    assert s == s[..n] + s[n..];
    assert multiset(s) - multiset(s[..n]) == multiset(s[n..]);
    forall x, y | x in multiset(s[..n]) && y in multiset(s[n..])
      ensures !Less(y, x)
    {
      PrefixBelow(s, n, x, y);
    }
  }

  lemma ExpectedSmallest<V>(arr: seq<DumpEvent<V>>, limit: nat)
    ensures KeySorted(Expected(arr, limit)) && Smallest(multiset(Expected(arr, limit)), multiset(arr), limit)
  {
    var s := SortByKey(arr);
    assert |s| == |multiset(s)| == |multiset(arr)| == |arr|;
    PrefixSmallest(s, limit);
  }

  /** The expected rows are themselves a possible outcome. */
  lemma ExpectedIsOutcome<V(!new)>(arr: seq<DumpEvent<V>>, limit: nat)
    requires limit > 0
    ensures Outcome(arr, limit, Expected(arr, limit))
  {
    ExpectedSmallest(arr, limit);
    ExpectedAdmitted(arr, limit);
    KeepsExactly(arr, limit, multiset(Expected(arr, limit)));
  }

  // ----- what every outcome has in common -----

  lemma Overtaken<V>(a: seq<DumpEvent<V>>, b: seq<DumpEvent<V>>, all: Bag<V>, x: DumpEvent<V>) returns (y: DumpEvent<V>)
    requires multiset(a) <= all && |Lower(b, x)| < |Lower(a, x)|
    ensures y in all - multiset(b) && !Less(x, y)
  {
    y := Missing(multiset(Lower(b, x)), multiset(Lower(a, x)));
    LowerBag(a, x, y);
    LowerBag(b, x, y);
  }

  lemma NotBefore<V>(a: seq<DumpEvent<V>>, b: seq<DumpEvent<V>>, all: Bag<V>, limit: nat, i: nat)
    requires KeySorted(a) && KeySorted(b) && i < |a| && i < |b|
    requires Smallest(multiset(a), all, limit) && Smallest(multiset(b), all, limit)
    ensures !Less(a[i], b[i])
  {
    LowerFirst(a, a[i]);
    LowerFirst(b, a[i]);
    assert b[i] in multiset(b);
    if |Lower(b, a[i])| < |Lower(a, a[i])| {
      var y := Overtaken(a, b, all, a[i]);
    }
  }

  /** All outcomes agree in number and, row by row, in their keys. */
  lemma SameKeys<V(!new)>(arr: seq<DumpEvent<V>>, limit: nat, events: seq<DumpEvent<V>>)
    requires limit > 0 && Outcome(arr, limit, events)
    ensures |events| == |Expected(arr, limit)|
    ensures forall i :: 0 <= i < |events| ==> SameKey(events[i], Expected(arr, limit)[i])
  {
    var rows := Expected(arr, limit);
    KeptSmallest(arr, limit, multiset(events));
    ExpectedSmallest(arr, limit);
    assert |multiset(events)| == |events| && |multiset(rows)| == |rows| && |multiset(arr)| == |arr|;
    forall i | 0 <= i < |events| ensures SameKey(events[i], rows[i]) {
      NotBefore(events, rows, multiset(arr), limit, i);
      NotBefore(rows, events, multiset(arr), limit, i);
    }
  }

  // ----- when the outcome is settled -----

  /** The rows reach the key of `x`. */
  predicate ReachedBy<V>(rows: seq<DumpEvent<V>>, x: DumpEvent<V>) {
    rows != [] && !Less(rows[|rows| - 1], x)
  }

  /** The expected rows do. */
  predicate Reached<V>(arr: seq<DumpEvent<V>>, limit: nat, x: DumpEvent<V>) {
    ReachedBy(Expected(arr, limit), x)
  }

  /** Admitted arrivals with a common key that the rows reach are equal. */
  ghost predicate Settled<V(!new)>(arr: seq<DumpEvent<V>>, limit: nat) {
    forall x, y ::
      x in Admitted(arr, limit) && y in Admitted(arr, limit) && SameKey(x, y) && Reached(arr, limit, x) ==> x == y
  }

  lemma RowReached<V>(arr: seq<DumpEvent<V>>, limit: nat, x: DumpEvent<V>, i: nat)
    requires i < |Expected(arr, limit)| && SameKey(x, Expected(arr, limit)[i])
    ensures Reached(arr, limit, x)
  {
    var rows := Expected(arr, limit);
    ExpectedSmallest(arr, limit);
    assert i == |rows| - 1 || !Less(rows[|rows| - 1], rows[i]);
  }

  lemma RowAdmitted<V>(arr: seq<DumpEvent<V>>, limit: nat, i: nat)
    requires limit > 0 && i < |Expected(arr, limit)|
    ensures Expected(arr, limit)[i] in Admitted(arr, limit)
  {
    ExpectedAdmitted(arr, limit);
    assert Expected(arr, limit)[i] in multiset(Expected(arr, limit));
    assert Expected(arr, limit)[i] in multiset(Admitted(arr, limit));
  }

  lemma SettledRow<V(!new)>(arr: seq<DumpEvent<V>>, limit: nat, x: DumpEvent<V>, i: nat)
    requires limit > 0 && Settled(arr, limit) && i < |Expected(arr, limit)|
    requires x in Admitted(arr, limit) && SameKey(x, Expected(arr, limit)[i])
    ensures x == Expected(arr, limit)[i]
  {
    RowReached(arr, limit, x, i);
    RowAdmitted(arr, limit, i);
  }

  lemma SettledOutcome<V(!new)>(arr: seq<DumpEvent<V>>, limit: nat, events: seq<DumpEvent<V>>)
    requires limit > 0 && Settled(arr, limit) && Outcome(arr, limit, events)
    ensures events == Expected(arr, limit)
  {
    SameKeys(arr, limit, events);
    KeptSmallest(arr, limit, multiset(events));
    forall i | 0 <= i < |events| ensures events[i] == Expected(arr, limit)[i] {
      assert events[i] in multiset(events);
      assert events[i] in multiset(Admitted(arr, limit));
      SettledRow(arr, limit, events[i], i);
    }
  }

  /** Two kept events of one key may come in either order. */
  lemma OtherOrder<V(!new)>(arr: seq<DumpEvent<V>>, limit: nat, x: DumpEvent<V>, y: DumpEvent<V>)
    returns (events: seq<DumpEvent<V>>)
    requires limit > 0 && x != y && SameKey(x, y) && x in Expected(arr, limit) && y in Expected(arr, limit)
    ensures Outcome(arr, limit, events) && events != Expected(arr, limit)
  {
    var rows := Expected(arr, limit);
    var i :| 0 <= i < |rows| && rows[i] == x;
    var j :| 0 <= j < |rows| && rows[j] == y;
    events := Swapped(rows, i, j);
    ExpectedIsOutcome(arr, limit);
    assert events[i] == y;
  }

  /** Another event of the last key may stand in for the last of some sorted
      events. */
  lemma LastReplaced<V>(rows: seq<DumpEvent<V>>, x: DumpEvent<V>)
    requires rows != [] && KeySorted(rows) && SameKey(x, rows[|rows| - 1])
    ensures var n := |rows| - 1;
            && KeySorted(rows[..n] + [x])
            && Largest(multiset(rows), rows[n])
            && multiset(rows[..n] + [x]) == multiset(rows) - multiset{rows[n]} + multiset{x}
  {
    var n := |rows| - 1;
    assert rows == rows[..n] + [rows[n]];
    forall y | y in multiset(rows) ensures !Less(rows[n], y) {
      var i :| 0 <= i < |rows| && rows[i] == y;
      assert i == n || !Less(rows[n], rows[i]);
    }
  }

  /** An event left out has no lower key than any kept; one that the rows reach
      has that of the last row. */
  lemma LastKey<V>(rows: seq<DumpEvent<V>>, all: Bag<V>, limit: nat, x: DumpEvent<V>)
    requires Smallest(multiset(rows), all, limit) && rows != [] && x in all && x !in rows
    requires !Less(rows[|rows| - 1], x)
    ensures SameKey(x, rows[|rows| - 1])
  {
    assert rows[|rows| - 1] in multiset(rows) && x !in multiset(rows);
    assert x in all - multiset(rows);
  }

  /** An admitted event that the rows reach without holding it may take the
      place of the last one. */
  lemma OtherLast<V(!new)>(arr: seq<DumpEvent<V>>, limit: nat, x: DumpEvent<V>) returns (events: seq<DumpEvent<V>>)
    requires limit > 0 && x in Admitted(arr, limit) && x !in Expected(arr, limit) && Reached(arr, limit, x)
    ensures Outcome(arr, limit, events) && events != Expected(arr, limit)
  {
    var rows := Expected(arr, limit);
    var n := |rows| - 1;
    events := rows[..n] + [x];
    AdmittedArrived(arr, limit);
    ExpectedSmallest(arr, limit);
    ExpectedAdmitted(arr, limit);
    assert x in multiset(Admitted(arr, limit));
    LastKey(rows, multiset(arr), limit, x);
    LastReplaced(rows, x);
    LastSwapped(multiset(rows), multiset(arr), multiset(Admitted(arr, limit)), limit, rows[n], x);
    KeepsExactly(arr, limit, multiset(events));
    assert events[n] == x;
  }

  lemma LastSwapped<V>(keep: Bag<V>, all: Bag<V>, admitted: Bag<V>, limit: nat, z: DumpEvent<V>, x: DumpEvent<V>)
    requires Smallest(keep, all, limit) && keep <= admitted <= all
    requires Largest(keep, z) && x !in keep && x in admitted && SameKey(x, z)
    ensures Smallest(keep - multiset{z} + multiset{x}, all, limit)
    ensures keep - multiset{z} + multiset{x} <= admitted
  {
    var keep' := keep - multiset{z} + multiset{x};
    forall a, b | a in keep' && b in all - keep'
      ensures !Less(b, a)
    {
      assert a == x || a in keep;
      assert b == z || b in all - keep;
    }
  }

  /** Whatever the heap does, the outcome is the beginning of the sorted
      arrivals if and only if admitted arrivals with a common key that the rows
      reach are equal. */
  lemma OutcomesAgree<V(!new)>(arr: seq<DumpEvent<V>>, limit: nat)
    requires limit > 0
    ensures (forall events :: Outcome(arr, limit, events) ==> events == Expected(arr, limit)) <==> Settled(arr, limit)
  {
    if Settled(arr, limit) {
      forall events | Outcome(arr, limit, events) ensures events == Expected(arr, limit) {
        SettledOutcome(arr, limit, events);
      }
    } else {
      var x, y :| x in Admitted(arr, limit) && y in Admitted(arr, limit) && SameKey(x, y) && Reached(arr, limit, x)
                  && x != y;
      var events := Unsettled(arr, limit, x, y);
    }
  }

  lemma Unsettled<V(!new)>(arr: seq<DumpEvent<V>>, limit: nat, x: DumpEvent<V>, y: DumpEvent<V>)
    returns (events: seq<DumpEvent<V>>)
    requires limit > 0 && x in Admitted(arr, limit) && y in Admitted(arr, limit) && SameKey(x, y) && x != y
    requires Reached(arr, limit, x)
    ensures Outcome(arr, limit, events) && events != Expected(arr, limit)
  {
    if x !in Expected(arr, limit) {
      events := OtherLast(arr, limit, x);
    } else if y !in Expected(arr, limit) {
      events := OtherLast(arr, limit, y);
    } else {
      events := OtherOrder(arr, limit, x, y);
    }
  }

  // ----- the condition, on the arrivals themselves -----

  /** No two different events arrive at a key that the rows reach. */
  ghost predicate OneEventPerKey<V(!new)>(arr: seq<DumpEvent<V>>, limit: nat) {
    forall x, y :: x in arr && y in arr && SameKey(x, y) && Reached(arr, limit, x) ==> x == y
  }

  lemma AdmittedIn<V>(arr: seq<DumpEvent<V>>, limit: nat, x: DumpEvent<V>)
    requires x in Admitted(arr, limit)
    ensures x in arr
  {
    AdmittedArrived(arr, limit);
    assert x in multiset(Admitted(arr, limit));
    assert x in multiset(arr);
  }

  /** That is enough. */
  lemma OneEventSettles<V(!new)>(arr: seq<DumpEvent<V>>, limit: nat)
    requires OneEventPerKey(arr, limit)
    ensures Settled(arr, limit)
  {
    forall x, y | x in Admitted(arr, limit) && y in Admitted(arr, limit) && SameKey(x, y) && Reached(arr, limit, x)
      ensures x == y
    {
      AdmittedIn(arr, limit, x);
      AdmittedIn(arr, limit, y);
    }
  }

  /** When nothing is cut it is also needed. */
  lemma NothingCut<V(!new)>(arr: seq<DumpEvent<V>>, limit: nat)
    requires |arr| <= limit
    ensures Settled(arr, limit) <==> OneEventPerKey(arr, limit)
  {
    AllAdmitted(arr, limit);
  }

  lemma {:induction false} EarlyAdmitted<V>(arr: seq<DumpEvent<V>>, limit: nat, x: DumpEvent<V>)
    requires x in arr && |Lower(arr, x)| <= limit
    ensures x in Admitted(arr, limit)
  {
    var rest, ev := arr[..|arr| - 1], arr[|arr| - 1];
    assert arr == rest + [ev];
    if ev != x {
      EarlyAdmitted(rest, limit, x);
    }
  }

  /** Below the key of the last row every arrival is admitted, so there the
      condition is needed in any case. */
  lemma BelowLastRow<V(!new)>(arr: seq<DumpEvent<V>>, limit: nat, x: DumpEvent<V>, y: DumpEvent<V>)
    requires limit > 0 && Settled(arr, limit) && x in arr && y in arr && SameKey(x, y)
    requires var rows := Expected(arr, limit); rows != [] && Less(x, rows[|rows| - 1])
    ensures x == y
  {
    FewUpTo(arr, limit, x);
    FewUpTo(arr, limit, y);
    EarlyAdmitted(arr, limit, x);
    EarlyAdmitted(arr, limit, y);
  }

  lemma FewUpTo<V>(arr: seq<DumpEvent<V>>, limit: nat, x: DumpEvent<V>)
    requires limit > 0
    requires var rows := Expected(arr, limit); rows != [] && Less(x, rows[|rows| - 1])
    ensures |Lower(arr, x)| < limit
  {
    var rows := Expected(arr, limit);
    ExpectedSmallest(arr, limit);
    assert rows[|rows| - 1] in multiset(rows);
    FewBelow(multiset(rows), arr, x, limit, rows[|rows| - 1]);
  }

  // ----- examples -----

  lemma SortedStays<V>(s: seq<DumpEvent<V>>)
    requires KeySorted(s)
    ensures SortByKey(s) == s
  {
    StableUnique(SortByKey(s), s);
  }

  lemma ThreeAtKey<V>(x: DumpEvent<V>, y: DumpEvent<V>, z: DumpEvent<V>, t: int, d: int)
    ensures AtKey([x, y, z], t, d) ==
            (if x.k1 == t && x.k2 == d then [x] else []) + (if y.k1 == t && y.k2 == d then [y] else [])
            + (if z.k1 == t && z.k2 == d then [z] else [])
  {
    AtKeyAppend([], x, t, d);
    AtKeyAppend([x], y, t, d);
    AtKeyAppend([x, y], z, t, d);
    assert [] + [x] == [x] && [x] + [y] == [x, y] && [x, y] + [z] == [x, y, z];
  }

  lemma ThreeTurned<V>(x: DumpEvent<V>, y: DumpEvent<V>, z: DumpEvent<V>, t: int, d: int)
    requires Less(y, x) && SameKey(y, z)
    ensures AtKey([x, y, z], t, d) == AtKey([y, z, x], t, d)
  {
    ThreeAtKey(x, y, z, t, d);
    ThreeAtKey(y, z, x, t, d);
  }

  /** A stable sort moves the largest of three to the end and leaves the others
      as they lie. */
  lemma FirstToEnd<V>(x: DumpEvent<V>, y: DumpEvent<V>, z: DumpEvent<V>)
    requires Less(y, x) && SameKey(y, z)
    ensures SortByKey([x, y, z]) == [y, z, x]
  {
    forall t, d ensures AtKey([x, y, z], t, d) == AtKey([y, z, x], t, d) {
      ThreeTurned(x, y, z, t, d);
    }
    TurnedUnique([x, y, z], [y, z, x]);
  }

  lemma TurnedUnique<V>(s: seq<DumpEvent<V>>, r: seq<DumpEvent<V>>)
    requires KeySorted(r) && SameAtKeys(s, r)
    ensures SortByKey(s) == r
  {
    StableUnique(SortByKey(s), r);
  }

  lemma TwoPushed<T>(x: Item<T>, y: Item<T>)
    requires !Less(x, y)
    ensures Pushed(Pushed([], x), y) == [x, y]
  {
    assert [] + [x] == [x] && [x] + [y] == [x, y];
  }

  lemma PushedOnTop<T>(s: seq<Item<T>>, z: Item<T>)
    requires |s| == 2 && Less(s[0], z)
    ensures Pushed(s, z) == [z, s[1], s[0]]
  {
    assert Swapped(s + [z], 0, 2) == [z, s[1], s[0]];
  }

  /** Pushed one after another, the third goes to the root and the first behind
      the second, even if those two have one key. */
  lemma ThreePushed<T>(x: Item<T>, y: Item<T>, z: Item<T>)
    requires !Less(x, y) && Less(x, z)
    ensures Pushed(Pushed(Pushed([], x), y), z) == [z, y, x]
  {
    TwoPushed(x, y);
    PushedOnTop([x, y], z);
  }

  /** When nothing is cut, every sorted arrangement may come out. */
  lemma AnyArrangement<V(!new)>(arr: seq<DumpEvent<V>>, limit: nat, events: seq<DumpEvent<V>>)
    requires limit > 0 && |arr| <= limit && KeySorted(events) && multiset(events) == multiset(arr)
    ensures Outcome(arr, limit, events)
  {
    ExpectedIsOutcome(arr, limit);
    assert |SortByKey(arr)| == |multiset(SortByKey(arr))| == |multiset(arr)| == |arr|;
    assert Expected(arr, limit) == SortByKey(arr);
  }

  /** When nothing is cut and the arrivals come sorted, two different events of
      one key may still change places. */
  lemma TieSwapped<V(!new)>(arr: seq<DumpEvent<V>>, limit: nat, i: nat, j: nat)
    requires limit > 0 && |arr| <= limit && KeySorted(arr)
    requires i < j < |arr| && SameKey(arr[i], arr[j]) && arr[i] != arr[j]
    ensures Expected(arr, limit) == arr
    ensures Outcome(arr, limit, Swapped(arr, i, j)) && Swapped(arr, i, j) != arr
  {
    SortedStays(arr);
    assert Swapped(arr, i, j)[i] == arr[j];
    AnyArrangement(arr, limit, Swapped(arr, i, j));
  }

  lemma AdmittedAppend<V>(rest: seq<DumpEvent<V>>, ev: DumpEvent<V>, limit: nat)
    ensures Admitted(rest + [ev], limit) ==
            Admitted(rest, limit) + if |Lower(rest, ev)| < limit then [ev] else []
  {
    assert (rest + [ev])[..|rest|] == rest;
  }

  lemma SecondRefused<V>(a: DumpEvent<V>, b: DumpEvent<V>)
    requires SameKey(a, b)
    ensures Admitted([a, b], 1) == [a]
  {
    AllAdmitted([a], 1);
    LowerAppend([], a, b);
    assert [] + [a] == [a] && [a] + [b] == [a, b] && [a] + [] == [a];
    AdmittedAppend([a], b, 1);
  }

  /** At the last row itself the condition on all arrivals is not needed: with
      limit 1 the second of two events of one key is never kept. */
  lemma TieRefused<V(!new)>(a: DumpEvent<V>, b: DumpEvent<V>)
    requires SameKey(a, b) && a != b
    ensures Settled([a, b], 1) && !OneEventPerKey([a, b], 1)
  {
    SecondRefused(a, b);
    SortedStays([a, b]);
    assert a in [a, b] && b in [a, b];
    RowReached([a, b], 1, a, 0);
  }
}
