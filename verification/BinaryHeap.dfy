/** The max-heap behind the replay merge and the bounded collector: a binary
    heap laid out level by level in one sequence and ordered by a two-part key.
    The order looks at the key alone, so items with equal keys may come out in
    any order. */
module BinaryHeaps {
  import opened Wrappers

  datatype Item<+T> = Item(k1: int, k2: int, payload: T)

  predicate Less<T>(a: Item<T>, b: Item<T>) {
    a.k1 < b.k1 || (a.k1 == b.k1 && a.k2 < b.k2)
  }

  /** The item at `i` is not above its parent. */
  predicate Link<T>(s: seq<Item<T>>, i: int)
    requires 0 < i < |s|
  {
    !Less(s[(i - 1) / 2], s[i])
  }

  ghost predicate HeapOrdered<T>(s: seq<Item<T>>) {
    forall i :: 0 < i < |s| ==> Link(s, i)
  }

  /** The item at `i` is not above the parent of its parent `k`. */
  predicate Skip<T>(s: seq<Item<T>>, k: nat, i: int)
    requires 0 < k < |s| && 0 < i < |s|
  {
    !Less(s[(k - 1) / 2], s[i])
  }

  /** Ordered apart from the link between `k` and its parent. */
  ghost predicate OrderedButUp<T>(s: seq<Item<T>>, k: nat) {
    && (forall i :: 0 < i < |s| && i != k ==> Link(s, i))
    && (0 < k < |s| ==> forall i :: 0 < i < |s| && (i - 1) / 2 == k ==> Skip(s, k, i))
  }

  /** Ordered apart from the links between `k` and its children. */
  ghost predicate OrderedButDown<T>(s: seq<Item<T>>, k: nat) {
    && (forall i :: 0 < i < |s| && (i - 1) / 2 != k ==> Link(s, i))
    && (0 < k < |s| ==> forall i :: 0 < i < |s| && (i - 1) / 2 == k ==> Skip(s, k, i))
  }

  /** The root of an ordered heap carries a largest key. */
  lemma {:induction false} RootIsLargest<T>(s: seq<Item<T>>, i: nat)
    requires HeapOrdered(s) && i < |s|
    ensures !Less(s[0], s[i])
  {
    if i > 0 {
      assert Link(s, i);
      RootIsLargest(s, (i - 1) / 2);
    }
  }

  function Swapped<T>(s: seq<T>, i: nat, j: nat): (r: seq<T>)
    requires i < |s| && j < |s|
    ensures |r| == |s| && multiset(r) == multiset(s)
    ensures forall k :: 0 <= k < |s| ==> r[k] == if k == j then s[i] else if k == i then s[j] else s[k]
  {
    s[i := s[j]][j := s[i]]
  }

  /** One step of sifting up moves the only suspect link to the parent. */
  lemma SiftedUp<T>(s: seq<Item<T>>, i: nat)
    requires 0 < i < |s| && OrderedButUp(s, i) && Less(s[(i - 1) / 2], s[i])
    ensures OrderedButUp(Swapped(s, (i - 1) / 2, i), (i - 1) / 2)
  {
    var p := (i - 1) / 2;
    var r := Swapped(s, p, i);
    forall k | 0 < k < |r| && k != p
      ensures Link(r, k)
    {
      if k != i {
        assert Link(s, k);
        if (k - 1) / 2 == i {
          assert Skip(s, i, k);
        }
      }
    }
    if p > 0 {
      assert Link(s, p);
      forall k | 0 < k < |r| && (k - 1) / 2 == p
        ensures Skip(r, p, k)
      {
        if k != i {
          assert Link(s, k);
        }
      }
    }
  }

  /** One step of sifting down moves the suspect links to the larger child. */
  lemma SiftedDown<T>(s: seq<Item<T>>, i: nat, c: nat)
    requires OrderedButDown(s, i)
    requires i < c < |s| && (c - 1) / 2 == i && Less(s[i], s[c])
    requires LargestChild(s, i, c)
    ensures OrderedButDown(Swapped(s, i, c), c)
  {
    var r := Swapped(s, i, c);
    forall k | 0 < k < |r| && (k - 1) / 2 != c
      ensures Link(r, k)
    {
      if (k - 1) / 2 == i {
        assert !Less(s[c], s[k]);
      } else if k == i {
        assert Skip(s, i, c);
      } else {
        assert Link(s, k);
      }
    }
    forall k | 0 < k < |r| && (k - 1) / 2 == c
      ensures Skip(r, c, k)
    {
      assert Link(s, k);
    }
  }

  /** `c` is a child of `i`, and no child of `i` is above it. */
  ghost predicate LargestChild<T>(s: seq<Item<T>>, i: nat, c: nat) {
    && c < |s| && (c == 2 * i + 1 || c == 2 * i + 2)
    && !Less(s[c], s[2 * i + 1])
    && (2 * i + 2 < |s| ==> !Less(s[c], s[2 * i + 2]))
  }

  lemma Added<T>(s: seq<Item<T>>, x: Item<T>)
    requires HeapOrdered(s)
    ensures OrderedButUp(s + [x], |s|)
  {
    forall i | 0 < i < |s| ensures Link(s + [x], i) {
      assert Link(s, i);
    }
  }

  /** Sifting the item at `i` up. */
  function SiftUpFrom<T>(s: seq<Item<T>>, i: nat): (r: seq<Item<T>>)
    requires i < |s|
    decreases i
  {
    if i > 0 && Less(s[(i - 1) / 2], s[i]) then SiftUpFrom(Swapped(s, (i - 1) / 2, i), (i - 1) / 2) else s
  }

  /** The layout after a push. */
  function Pushed<T>(s: seq<Item<T>>, x: Item<T>): seq<Item<T>> {
    SiftUpFrom(s + [x], |s|)
  }

  lemma {:induction false} SiftUpKeeps<T>(s: seq<Item<T>>, i: nat)
    requires i < |s| && OrderedButUp(s, i)
    ensures HeapOrdered(SiftUpFrom(s, i))
    ensures multiset(SiftUpFrom(s, i)) == multiset(s) && |SiftUpFrom(s, i)| == |s|
    decreases i
  {
    if i > 0 && Less(s[(i - 1) / 2], s[i]) {
      SiftedUp(s, i);
      SiftUpKeeps(Swapped(s, (i - 1) / 2, i), (i - 1) / 2);
    }
  }

  /** A push adds one item and keeps the heap ordered. */
  lemma PushedKeeps<T>(s: seq<Item<T>>, x: Item<T>)
    requires HeapOrdered(s)
    ensures HeapOrdered(Pushed(s, x))
    ensures multiset(Pushed(s, x)) == multiset(s) + multiset{x} && |Pushed(s, x)| == |s| + 1
  {
    Added(s, x);
    SiftUpKeeps(s + [x], |s|);
  }

  lemma DropLast<T>(s: seq<T>)
    requires s != []
    ensures multiset(s) == multiset(s[..|s| - 1]) + multiset{s[|s| - 1]}
  {
    assert s == s[..|s| - 1] + [s[|s| - 1]];
  }

  /** Moving the last item into the root's place leaves only the root suspect. */
  lemma LastToRoot<T>(s: seq<Item<T>>)
    requires s != [] && HeapOrdered(s)
    ensures var r := Swapped(s, 0, |s| - 1)[..|s| - 1];
            OrderedButDown(r, 0) && multiset(r) == multiset(s) - multiset{s[0]} && |r| == |s| - 1
  {
    var all := Swapped(s, 0, |s| - 1);
    LastLeaves(all, s);
    RootSuspect(s, all[..|s| - 1]);
  }

  lemma LastLeaves<T>(all: seq<T>, s: seq<T>)
    requires s != [] && |all| == |s| && multiset(all) == multiset(s) && all[|s| - 1] == s[0]
    ensures multiset(all[..|s| - 1]) == multiset(s) - multiset{s[0]}
  {
    DropLast(all);
  }

  lemma RootSuspect<T>(s: seq<Item<T>>, r: seq<Item<T>>)
    requires HeapOrdered(s) && |r| < |s| && forall i :: 0 < i < |r| ==> r[i] == s[i]
    ensures OrderedButDown(r, 0)
  {
    forall k | 0 < k < |r| && (k - 1) / 2 != 0
      ensures Link(r, k)
    {
      assert Link(s, k);
    }
  }

  /** An item that is not below its largest child is in place. */
  lemma InPlace<T>(s: seq<Item<T>>, i: nat, c: nat)
    requires OrderedButDown(s, i) && i < |s|
    requires 2 * i + 1 < |s| ==> LargestChild(s, i, c) && !Less(s[i], s[c])
    ensures HeapOrdered(s)
  {
    forall k | 0 < k < |s| ensures Link(s, k) {
      if (k - 1) / 2 == i {
        assert k == 2 * i + 1 || k == 2 * i + 2;
      }
    }
  }

  class BinaryHeap<T> {
    var data: seq<Item<T>>

    ghost predicate Valid()
      reads this
    {
      HeapOrdered(data)
    }

    constructor ()
      ensures Valid() && data == []
    {
      data := [];
    }

    method Push(x: Item<T>)
      requires Valid()
      modifies this
      ensures Valid() && data == Pushed(old(data), x)
      ensures multiset(data) == old(multiset(data)) + multiset{x}
      ensures |data| == old(|data|) + 1
    {
      PushedKeeps(data, x);
      data := data + [x];
      var i := |data| - 1;
      while i > 0 && Less(data[(i - 1) / 2], data[i])
        invariant 0 <= i < |data|
        invariant SiftUpFrom(data, i) == Pushed(old(data), x)
      {
        data := Swapped(data, (i - 1) / 2, i);
        i := (i - 1) / 2;
      }
    }

    method Peek() returns (r: Option<Item<T>>)
      requires Valid()
      ensures data == [] ==> r.None?
      ensures data != [] ==> r == Some(data[0]) && r.value in multiset(data)
      ensures data != [] ==> forall y :: y in multiset(data) ==> !Less(r.value, y)
    {
      if data == [] {
        return None;
      }
      forall i | 0 <= i < |data| ensures !Less(data[0], data[i]) {
        RootIsLargest(data, i);
      }
      return Some(data[0]);
    }

    /** Restores the heap when only the root may be out of place. */
    method SiftDown()
      requires OrderedButDown(data, 0)
      modifies this
      ensures Valid() && multiset(data) == old(multiset(data)) && |data| == old(|data|)
    {
      var i := 0;
      while 2 * i + 1 < |data|
        invariant 0 <= i && (i < |data| || data == []) && |data| == old(|data|)
        invariant OrderedButDown(data, i)
        invariant multiset(data) == old(multiset(data))
        decreases |data| - i
      {
        var c := 2 * i + 1;
        if c + 1 < |data| && Less(data[c], data[c + 1]) {
          c := c + 1;
        }
        if !Less(data[i], data[c]) {
          InPlace(data, i, c);
          return;
        }
        SiftedDown(data, i, c);
        data := Swapped(data, i, c);
        i := c;
      }
      if data != [] {
        InPlace(data, i, 0);
      }
    }

    method Pop() returns (r: Option<Item<T>>)
      requires Valid()
      modifies this
      ensures Valid()
      ensures old(data) == [] ==> r.None? && data == []
      ensures old(data) != [] ==> r.Some?
      ensures r.Some? ==>
                && r.value in old(multiset(data))
                && multiset(data) == old(multiset(data)) - multiset{r.value}
                && |data| == old(|data|) - 1
                && forall y :: y in old(multiset(data)) ==> !Less(r.value, y)
    {
      r := Peek();
      if r.None? {
        return;
      }
      LastToRoot(data);
      data := Swapped(data, 0, |data| - 1)[..|data| - 1];
      SiftDown();
    }
  }
}
