/** What a query sees of a windowed FST decode. */
module FstAnswers {
  import opened Wrappers
  import opened Traces
  import opened Backends
  import opened FoldChange
  import opened FstCollector
  import opened FstWindow

  lemma {:induction false} LastUpToIs<V>(tr: Trace<V>, from: int)
    requires Ordered(tr)
    ensures var n := UpperBound(tr, from); LastUpTo(tr, from) == if n == 0 then None else Some(tr[n - 1])
  {
    if tr != [] {
      PrefixOrdered(tr);
      var rest := tr[..|tr| - 1];
      LastUpToIs(rest, from);
      UpperBoundIs(tr, from, if tr[|tr| - 1].tick <= from then |tr| else UpperBound(rest, from));
    }
  }

  lemma {:induction false} InsideBounds<V>(tr: Trace<V>, from: int, to: Option<int>, n: nat, hi: nat)
    requires n <= hi <= |tr|
    requires forall i :: 0 <= i < n ==> tr[i].tick <= from
    requires forall i :: n <= i < hi ==> from < tr[i].tick && AtMost(tr[i].tick, to)
    requires forall i :: hi <= i < |tr| ==> !AtMost(tr[i].tick, to)
    ensures Inside(tr, from, to) == tr[n..hi]
  {
    if tr != [] {
      var k := |tr| - 1;
      var n', hi' := if n <= k then n else k, if hi <= k then hi else k;
      InsideBounds(tr[..k], from, to, n', hi');
      if n <= k < hi {
        assert tr[..k][n..k] + [tr[k]] == tr[n..hi];
      } else {
        assert Inside(tr, from, to) == Inside(tr[..k], from, to) + [];
        assert tr[..k][n'..hi'] == tr[n..hi];
      }
    }
  }

  lemma InsideIs<V>(tr: Trace<V>, from: int, to: Option<int>)
    requires Ordered(tr)
    ensures var n := UpperBound(tr, from); Inside(tr, from, to) == tr[n..EndOf(tr, n, to)]
  {
    var n := UpperBound(tr, from);
    InsideBounds(tr, from, to, n, EndOf(tr, n, to));
  }

  lemma SliceIsWindow<V>(full: Trace<V>, from: int, to: Option<int>)
    requires Ordered(full)
    ensures Slice(full, from, to) == WindowOf(full, from, to, TrueTick)
  {
    LastUpToIs(full, from);
    InsideIs(full, from, to);
  }

  lemma FullOrdered<V>(kind: WinKind, raw: Trace<V>)
    requires Ordered(raw)
    ensures Ordered(FullDecode(kind, raw))
  {
    if kind != Event {
      DropRepeatsOrdered(raw);
    }
  }

  /** Written again or not, every point query inside the window gets the
      answer of the full decode. */
  lemma WindowedAnswers<V>(kind: WinKind, raw: Trace<V>, from: int, to: Option<int>, t: int)
    requires Ordered(raw) && from <= t && AtMost(t, to)
    ensures var w := Windowed(kind, raw, from, to);
            Ordered(w) && ValueAt(w, t) == ValueAt(FullDecode(kind, raw), t)
  {
    var pre, full, n := WindowedCarries(kind, raw, from, to);
    CarriedValue(full, from, to, pre, n, t);
  }

  lemma WindowedCarries<V>(kind: WinKind, raw: Trace<V>, from: int, to: Option<int>)
    returns (pre: Trace<V>, full: Trace<V>, n: nat)
    requires Ordered(raw)
    ensures full == FullDecode(kind, raw) && Ordered(full) && n == UpperBound(full, from)
    ensures pre == ListOf(LastUpTo(raw, from)) && CarriedIn(full, from, pre, n)
    ensures Windowed(kind, raw, from, to) == pre + full[n..EndOf(full, n, to)]
    ensures Ordered(pre + full[n..EndOf(full, n, to)])
  {
    FullOrdered(kind, raw);
    full := FullDecode(kind, raw);
    n := UpperBound(full, from);
    pre := ListOf(LastUpTo(raw, from));
    WindowRefinesFull(kind, raw, from, to);
    LastUpToIs(raw, from);
    LastUpToIs(full, from);
    InsideIs(full, from, to);
  }

  /** Written again or not, the windowed decode is a window such as any
      seeking backend may serve. */
  lemma WindowServes<V>(kind: WinKind, raw: Trace<V>, from: int, to: Option<int>)
    requires Ordered(raw)
    ensures Ordered(FullDecode(kind, raw))
    ensures Serves(FullDecode(kind, raw), from, to, Windowed(kind, raw, from, to))
  {
    var pre, full, n := WindowedCarries(kind, raw, from, to);
    CarriedServes(full, from, to, pre, n);
  }

  /** Unless the value entering the window was written again, it is a window
      in the documented shape. */
  lemma ExactWindow<V>(kind: WinKind, raw: Trace<V>, from: int, to: Option<int>)
    requires Ordered(raw) && (kind == Event || !Rewritten(raw, from))
    ensures Ordered(FullDecode(kind, raw))
    ensures Documented(FullDecode(kind, raw), from, to, Windowed(kind, raw, from, to))
  {
    FullOrdered(kind, raw);
    WindowIsSlice(kind, raw, from, to);
    SliceIsWindow(FullDecode(kind, raw), from, to);
  }

  // ----- what the full decode keeps at a tick, read off the raw changes -----

  /** The change at the end of `raw` is one the full decode keeps: an event,
      or a value other than the one just before. */
  predicate Kept<V(==)>(kind: WinKind, raw: Trace<V>)
    requires raw != []
  {
    kind == Event || |raw| == 1 || raw[|raw| - 2].value != raw[|raw| - 1].value
  }

  /** How many raw changes at `from` differ from the raw change just before
      them; for events, how many there are. */
  function KeptChanges<V(==)>(kind: WinKind, raw: Trace<V>, from: int): nat {
    if raw == [] then 0
    else
      KeptChanges(kind, raw[..|raw| - 1], from) + if raw[|raw| - 1].tick == from && Kept(kind, raw) then 1 else 0
  }

  lemma EntriesAppend<V>(tr: Trace<V>, c: Change<V>, from: int)
    requires Ordered(tr) && Ordered(tr + [c])
    ensures |EntriesAt(tr + [c], from)| == |EntriesAt(tr, from)| + if c.tick == from then 1 else 0
  {
    var lo, n, all := LowerBound(tr, from), UpperBound(tr, from), tr + [c];
    assert all[|tr|] == c && forall i :: 0 <= i < |tr| ==> all[i] == tr[i] && tr[i].tick <= c.tick;
    LowerBoundIs(all, from, if c.tick < from then |all| else lo);
    UpperBoundIs(all, from, if c.tick <= from then |all| else n);
    if c.tick <= from {
      UpperBoundIs(tr, from, |tr|);
    }
    if c.tick < from {
      LowerBoundIs(tr, from, |tr|);
    }
  }

  lemma EntriesKept<V>(full: Trace<V>, rest: Trace<V>, x: Change<V>, keep: bool, from: int)
    requires Ordered(rest) && Ordered(full) && full == rest + if keep then [x] else []
    ensures |EntriesAt(full, from)| == |EntriesAt(rest, from)| + if x.tick == from && keep then 1 else 0
  {
    if keep {
      EntriesAppend(rest, x, from);
    } else {
      assert full == rest;
    }
  }

  /** Counting on the raw changes counts what the full decode keeps. */
  lemma {:induction false} FullKeeps<V>(kind: WinKind, raw: Trace<V>, from: int)
    requires Ordered(raw)
    ensures Ordered(FullDecode(kind, raw))
    ensures |EntriesAt(FullDecode(kind, raw), from)| == KeptChanges(kind, raw, from)
  {
    FullOrdered(kind, raw);
    if raw != [] {
      var rest, x := raw[..|raw| - 1], raw[|raw| - 1];
      PrefixOrdered(raw);
      FullKeeps(kind, rest, from);
      assert raw == rest + [x];
      FullMore(kind, rest, x);
      EntriesKept(FullDecode(kind, raw), FullDecode(kind, rest), x, Kept(kind, raw), from);
    }
  }

  lemma FullMore<V>(kind: WinKind, rest: Trace<V>, x: Change<V>)
    requires Ordered(rest)
    ensures FullDecode(kind, rest + [x]) == FullDecode(kind, rest) + if Kept(kind, rest + [x]) then [x] else []
  {
    var d := FullDecode(kind, rest);
    assert d + [] == d;
    if kind != Event {
      DropMore(rest, x);
    }
  }

  lemma ShownIsThere<V>(raw: Trace<V>, from: int)
    requires Ordered(raw)
    ensures |ShownAt(ListOf(LastUpTo(raw, from)), from)| == if EntriesAt(raw, from) != [] then 1 else 0
  {
    LastUpToIs(raw, from);
  }

  /** For any raw history: a dump that starts at `from` shows the same entries
      after a windowed decode as after a full one if and only if, among the raw
      changes at `from`, exactly one differs from the raw change just before
      it, or there are none at all. */
  lemma DumpAgreesAlways<V>(kind: WinKind, raw: Trace<V>, from: int, to: Option<int>)
    requires Ordered(raw) && AtMost(from, to)
    ensures Ordered(FullDecode(kind, raw))
    ensures KeepsEntries(FullDecode(kind, raw), from, to, Windowed(kind, raw, from, to)) <==>
            KeptChanges(kind, raw, from) == if EntriesAt(raw, from) != [] then 1 else 0
  {
    var pre, full, n := WindowedCarries(kind, raw, from, to);
    CarriedEntries(full, from, to, pre, n);
    FullKeeps(kind, raw, from);
    ShownIsThere(raw, from);
  }

  /** With one raw change per tick, the count looks at one change only. */
  lemma {:induction false} KeptWhenStrict<V>(kind: WinKind, raw: Trace<V>, from: int)
    requires StrictlyOrdered(raw) && Ordered(raw)
    ensures var m := UpperBound(raw, from);
            && (EntriesAt(raw, from) != [] <==> m >= 1 && raw[m - 1].tick == from)
            && KeptChanges(kind, raw, from) ==
               if m >= 1 && raw[m - 1].tick == from && Kept(kind, raw[..m]) then 1 else 0
  {
    if raw != [] {
      var k := |raw| - 1;
      PrefixOrdered(raw);
      StrictPrefix(raw, k);
      KeptWhenStrict(kind, raw[..k], from);
      KeptStep(kind, raw, from);
    }
  }

  lemma KeptStep<V>(kind: WinKind, raw: Trace<V>, from: int)
    requires StrictlyOrdered(raw) && Ordered(raw) && raw != []
    requires Ordered(raw[..|raw| - 1])
    ensures var m, rest := UpperBound(raw, from), raw[..|raw| - 1];
            && m == (if raw[|raw| - 1].tick <= from then |raw| else UpperBound(rest, from))
            && (m < |raw| ==> raw[..m] == rest[..m])
            && (m == |raw| && raw[m - 1].tick == from && m >= 2 ==>
                  UpperBound(rest, from) == m - 1 && rest[m - 2].tick < from)
  {
    var rest := raw[..|raw| - 1];
    UpperBoundIs(raw, from, if raw[|raw| - 1].tick <= from then |raw| else UpperBound(rest, from));
  }

  /** With at most one raw change per tick, a dump that starts at `from` shows
      the same entries after a windowed decode as after a full one, except
      when a change at exactly `from` repeats the value before it. */
  lemma DumpAgrees<V>(kind: WinKind, raw: Trace<V>, from: int, to: Option<int>)
    requires StrictlyOrdered(raw) && Ordered(raw) && AtMost(from, to)
    ensures Ordered(FullDecode(kind, raw))
    ensures var m := UpperBound(raw, from);
            KeepsEntries(FullDecode(kind, raw), from, to, Windowed(kind, raw, from, to)) <==>
            kind == Event || !(m >= 2 && raw[m - 1].tick == from && raw[m - 2].value == raw[m - 1].value)
  {
    DumpAgreesAlways(kind, raw, from, to);
    KeptWhenStrict(kind, raw, from);
  }
}
