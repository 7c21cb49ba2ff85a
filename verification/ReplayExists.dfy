/** Every set of traces has a replay, so that what is said of the replay is
    said of something. */
module ReplayExists {
  import opened Wrappers
  import opened Traces
  import opened Replay

  /** Entries of the signals before `s`, and of `s` itself those before `p`. */
  predicate Reached<V>(e: Emit<V>, s: nat, p: nat) {
    e.sid < s || (e.sid == s && e.pos < p)
  }

  ghost predicate Partial<V(!new)>(sources: map<nat, Trace<V>>, decl: seq<nat>, t0: int, t1: Option<int>,
                                   s: nat, p: nat, out: seq<Emit<V>>)
    requires Inputs(sources, decl)
  {
    && Sorted(out)
    && forall e :: e in out <==> IsEntry(sources, decl, e) && InWindow(e.tick, t0, t1) && Reached(e, s, p)
  }

  /** Different entries are never tied. */
  lemma Comparable<V>(sources: map<nat, Trace<V>>, decl: seq<nat>, a: Emit<V>, b: Emit<V>)
    requires Inputs(sources, decl) && IsEntry(sources, decl, a) && IsEntry(sources, decl, b)
    ensures a == b || Before(a, b) || Before(b, a)
  {
    if a.sid != b.sid {
      assert decl[a.sid] != decl[b.sid];
    }
  }

  lemma AppendSorted<V>(out: seq<Emit<V>>, x: Emit<V>)
    requires Sorted(out) && (out == [] || Before(out[|out| - 1], x))
    ensures Sorted(out + [x])
  {
    forall i | 0 <= i < |out| ensures Before(out[i], x) {
      assert i == |out| - 1 || Before(out[i], out[|out| - 1]);
    }
  }

  lemma {:induction false} Inserted<V>(out: seq<Emit<V>>, x: Emit<V>) returns (r: seq<Emit<V>>)
    requires Sorted(out) && forall i :: 0 <= i < |out| ==> Before(out[i], x) || Before(x, out[i])
    ensures Sorted(r) && multiset(r) == multiset(out) + multiset{x}
    ensures r != [] && (r[|r| - 1] == x || (out != [] && r[|r| - 1] == out[|out| - 1]))
  {
    if out == [] || Before(out[|out| - 1], x) {
      AppendSorted(out, x);
      r := out + [x];
    } else {
      var n := |out| - 1;
      var head := Inserted(out[..n], x);
      assert out == out[..n] + [out[n]];
      AppendSorted(head, out[n]);
      r := head + [out[n]];
    }
  }

  lemma InsertEntry<V(!new)>(sources: map<nat, Trace<V>>, decl: seq<nat>, t0: int, t1: Option<int>,
                             s: nat, p: nat, out: seq<Emit<V>>) returns (r: seq<Emit<V>>)
    requires Inputs(sources, decl) && Partial(sources, decl, t0, t1, s, p, out)
    requires s in sources && p < |sources[s]|
    ensures Partial(sources, decl, t0, t1, s, p + 1, r)
  {
    var x := EntryOf(sources, decl, s, p);
    assert IsEntry(sources, decl, x);
    r := out;
    if InWindow(x.tick, t0, t1) {
      forall i | 0 <= i < |out| ensures Before(out[i], x) || Before(x, out[i]) {
        assert out[i] in out;
        Comparable(sources, decl, out[i], x);
      }
      r := Inserted(out, x);
      forall e ensures e in r <==> e in out || e == x {
        assert e in r <==> e in multiset(r);
        assert e in out <==> e in multiset(out);
      }
    }
    forall e
      ensures e in r <==> IsEntry(sources, decl, e) && InWindow(e.tick, t0, t1) && Reached(e, s, p + 1)
    {
      if IsEntry(sources, decl, e) && e.sid == s && e.pos == p {
        assert e == x;
      }
    }
  }

  lemma {:induction false} Build<V(!new)>(sources: map<nat, Trace<V>>, decl: seq<nat>, t0: int, t1: Option<int>,
                                          s: nat, p: nat) returns (out: seq<Emit<V>>)
    requires Inputs(sources, decl)
    requires p <= if s in sources then |sources[s]| else 0
    ensures Partial(sources, decl, t0, t1, s, p, out)
  {
    if p > 0 {
      out := Build(sources, decl, t0, t1, s, p - 1);
      out := InsertEntry(sources, decl, t0, t1, s, p - 1, out);
    } else if s > 0 {
      var q := if s - 1 in sources then |sources[s - 1]| else 0;
      out := Build(sources, decl, t0, t1, s - 1, q);
      assert forall e :: IsEntry(sources, decl, e) ==> (Reached(e, s - 1, q) <==> Reached(e, s, 0));
    } else {
      out := [];
    }
  }

  lemma ReplayExists<V(!new)>(sources: map<nat, Trace<V>>, decl: seq<nat>, t0: int, t1: Option<int>)
    returns (out: seq<Emit<V>>)
    requires Inputs(sources, decl)
    ensures IsReplay(sources, decl, t0, t1, out)
  {
    out := Build(sources, decl, t0, t1, |decl|, 0);
  }
}
