/** The windowed FST decode against the slice of the full decode. */
module FstWindow {
  import opened Wrappers
  import opened Traces
  import opened FoldChange
  import opened FstCollector

  // ----- the full decode, and its slice -----

  /** The full decode of a signal: consecutive repeats dropped, except that
      every event is kept. */
  function FullDecode<V(==)>(kind: WinKind, raw: Trace<V>): Trace<V> {
    if kind == Event then raw else DropRepeats(raw)
  }

  /** The window contract: the last change at or before `from`, then every
      change in `(from, to]`. */
  function Slice<V>(full: Trace<V>, from: int, to: Option<int>): Trace<V> {
    ListOf(LastUpTo(full, from)) + Inside(full, from, to)
  }

  /** What the windowed decode produces. */
  function Windowed<V(==)>(kind: WinKind, raw: Trace<V>, from: int, to: Option<int>): Trace<V> {
    ListOf(LastUpTo(raw, from)) + Deduped(kind, ValueOf(LastUpTo(raw, from)), Inside(raw, from, to))
  }

  /** What it produces when the second read begins with frame echoes: a signal
      without a change up to `from` gets its echo as the seed. */
  function Decoded<V(==)>(kind: WinKind, raw: Trace<V>, echoes: Trace<V>, from: int, to: Option<int>): Trace<V> {
    var seed := Later(LastUpTo(echoes, from), LastUpTo(raw, from));
    ListOf(seed) + Deduped(kind, ValueOf(seed), Inside(raw, from, to))
  }

  lemma {:induction false} LastUpToTick<V>(tr: Trace<V>, from: int)
    ensures LastUpTo(tr, from).Some? ==> LastUpTo(tr, from).value.tick <= from
  {
    if tr != [] {
      LastUpToTick(tr[..|tr| - 1], from);
    }
  }

  lemma {:induction false} InsideTicks<V>(tr: Trace<V>, from: int, to: Option<int>)
    ensures forall i :: 0 <= i < |Inside(tr, from, to)| ==> from < Inside(tr, from, to)[i].tick
  {
    if tr != [] {
      InsideTicks(tr[..|tr| - 1], from, to);
    }
  }

  lemma {:induction false} DedupTicks<V>(base: Option<V>, tr: Trace<V>, from: int)
    requires forall i :: 0 <= i < |tr| ==> from < tr[i].tick
    ensures forall i :: 0 <= i < |DedupFrom(base, tr)| ==> from < DedupFrom(base, tr)[i].tick
  {
    if tr != [] {
      DedupTicks(base, tr[..|tr| - 1], from);
    }
  }

  /** The windowed decode is that of the signal's changes alone if and only if
      no echo lies up to `from`, or a change does. */
  lemma DecodedIsWindowed<V>(kind: WinKind, raw: Trace<V>, echoes: Trace<V>, from: int, to: Option<int>)
    ensures Decoded(kind, raw, echoes, from, to) == Windowed(kind, raw, from, to) <==>
            LastUpTo(echoes, from).None? || LastUpTo(raw, from).Some?
  {
    if LastUpTo(raw, from).None? && LastUpTo(echoes, from).Some? {
      var a, b := Decoded(kind, raw, echoes, from, to), Windowed(kind, raw, from, to);
      LastUpToTick(echoes, from);
      assert a[0].tick <= from;
      InsideTicks(raw, from, to);
      DedupTicks(None, Inside(raw, from, to), from);
      assert b != [] ==> from < b[0].tick;
    }
  }

  lemma {:induction false} InsideConcat<V>(a: Trace<V>, b: Trace<V>, from: int, to: Option<int>)
    requires forall i :: 0 <= i < |a| ==> a[i].tick <= from
    ensures Inside(a + b, from, to) == Inside(b, from, to)
  {
    if b != [] {
      assert (a + b)[..|a + b| - 1] == a + b[..|b| - 1];
      InsideConcat(a, b[..|b| - 1], from, to);
    } else if a != [] {
      assert a + b == a;
      InsideConcat(a[..|a| - 1], [], from, to);
      assert a[..|a| - 1] + [] == a[..|a| - 1];
    }
  }

  /** An echo up to `from` counts as a change at its own time. */
  lemma EchoIsChange<V>(kind: WinKind, raw: Trace<V>, echoes: Trace<V>, from: int, to: Option<int>)
    requires forall i :: 0 <= i < |echoes| ==> echoes[i].tick <= from
    ensures Decoded(kind, raw, echoes, from, to) == Windowed(kind, echoes + raw, from, to)
  {
    LastUpToConcat(echoes, raw, from);
    InsideConcat(echoes, raw, from, to);
  }

  /** An example: a frame echoed by both reads becomes the seed of a signal
      whose only change lies behind `from`. */
  lemma EchoBecomesSeed()
    ensures var c := Run(Fresh(Bits), [Flagged(Change(3, 'x'), true), Flagged(Change(20, '0'), false)], 10, None);
            && NeedsPhase2(c)
            && Finish(RunPhase2(c.(demoted := true), [Change(3, 'x'), Change(20, '0')], 10))
               == [Change(3, 'x'), Change(20, '0')]
            && Windowed(Bits, [Change(20, '0')], 10, None) == [Change(20, '0')]
  {
    var one := [Flagged(Change(3, 'x'), true)];
    var xs := [Flagged(Change(3, 'x'), true), Flagged(Change(20, '0'), false)];
    assert xs[..1] == one && one[..0] == [];
    var c := Run(Fresh(Bits), xs, 10, None);
    assert Run(Fresh(Bits), one, 10, None) == Fresh(Bits).(seed := Some(Change(3, 'x')), seedSuspect := true);
    assert c.win == [Change(20, '0')];
    Phase2KeepsLast(c.(demoted := true), [Change(3, 'x'), Change(20, '0')], 10);
    assert [Change(3, 'x'), Change(20, '0')][..1] == [Change(3, 'x')];
    assert LastUpTo([Change(3, 'x'), Change(20, '0')], 10) == Some(Change(3, 'x'));
  }

  lemma {:induction false} DropRepeatsLast<V>(raw: Trace<V>)
    requires Ordered(raw)
    ensures var d := DropRepeats(raw);
            && (raw == [] <==> d == [])
            && (raw != [] ==> d[|d| - 1].value == raw[|raw| - 1].value && d[|d| - 1].tick <= raw[|raw| - 1].tick)
  {
    if raw != [] {
      PrefixOrdered(raw);
      DropRepeatsLast(raw[..|raw| - 1]);
    }
  }

  /** The seed of the slice has the value, though maybe not the tick, of the
      last raw change. */
  lemma {:induction false} SeedValue<V>(raw: Trace<V>, from: int)
    requires Ordered(raw)
    ensures ValueOf(LastUpTo(DropRepeats(raw), from)) == ValueOf(LastUpTo(raw, from))
  {
    if raw != [] {
      PrefixOrdered(raw);
      var rest, x := raw[..|raw| - 1], raw[|raw| - 1];
      SeedValue(rest, from);
      DropRepeatsLast(rest);
      var d := DropRepeats(rest);
      assert (d + [x])[..|d|] == d;
    }
  }

  lemma {:induction false} LatestDeduped<V>(base: Option<V>, tr: Trace<V>)
    ensures Latest(base, DedupFrom(base, tr)) == Latest(base, tr)
  {
    if tr != [] {
      LatestDeduped(base, tr[..|tr| - 1]);
    }
  }

  /** While nothing lies beyond `to`, the latest value is that of the window,
      or else of the seed. */
  lemma {:induction false} LatestRaw<V>(raw: Trace<V>, from: int, to: Option<int>)
    requires Ordered(raw) && (raw == [] || AtMost(raw[|raw| - 1].tick, to))
    ensures Latest(ValueOf(LastUpTo(raw, from)), Inside(raw, from, to)) == Latest(None, raw)
  {
    if raw != [] {
      PrefixOrdered(raw);
      if raw[|raw| - 1].tick <= from {
        NothingInside(raw, from, to);
      }
    }
  }

  /** Inside the window, dropping repeats of the whole history and dropping
      repeats from the seed on leave the same changes. */
  lemma {:induction false} InsideValue<V>(raw: Trace<V>, from: int, to: Option<int>)
    requires Ordered(raw)
    ensures Inside(DropRepeats(raw), from, to) == DedupFrom(ValueOf(LastUpTo(raw, from)), Inside(raw, from, to))
  {
    if raw != [] {
      PrefixOrdered(raw);
      var rest, x := raw[..|raw| - 1], raw[|raw| - 1];
      InsideValue(rest, from, to);
      if x.tick <= from {
        InsideEarly(raw, from, to);
      } else {
        assert raw == rest + [x];
        InsideLater(rest, x, from, to);
      }
    }
  }

  lemma InsideEarly<V>(raw: Trace<V>, from: int, to: Option<int>)
    requires Ordered(raw) && raw != [] && raw[|raw| - 1].tick <= from
    ensures Inside(raw, from, to) == [] && Inside(DropRepeats(raw), from, to) == []
  {
    NothingInside(raw, from, to);
    DropRepeatsLast(raw);
    DropRepeatsOrdered(raw);
    NothingInside(DropRepeats(raw), from, to);
  }

  lemma {:induction false} DropRepeatsOrdered<V>(raw: Trace<V>)
    requires Ordered(raw)
    ensures Ordered(DropRepeats(raw))
  {
    if raw != [] {
      PrefixOrdered(raw);
      DropRepeatsOrdered(raw[..|raw| - 1]);
      DropRepeatsLast(raw[..|raw| - 1]);
      var d := DropRepeats(raw[..|raw| - 1]);
      OrderedAppend(d, raw[|raw| - 1]);
    }
  }

  lemma LaterEntries<V>(rest: Trace<V>, x: Change<V>, from: int, to: Option<int>)
    requires from < x.tick
    ensures LastUpTo(rest + [x], from) == LastUpTo(rest, from)
    ensures Inside(rest + [x], from, to) == Inside(rest, from, to) + if AtMost(x.tick, to) then [x] else []
  {
    assert (rest + [x])[..|rest|] == rest;
  }

  lemma DedupMore<V>(base: Option<V>, mid: Trace<V>, x: Change<V>)
    ensures DedupFrom(base, mid + [x]) ==
            DedupFrom(base, mid) + if Latest(base, mid) == Some(x.value) then [] else [x]
  {
    assert (mid + [x])[..|mid|] == mid;
    LatestDeduped(base, mid);
    assert DedupFrom(base, mid) + [] == DedupFrom(base, mid);
  }

  lemma DropMore<V>(rest: Trace<V>, x: Change<V>)
    requires Ordered(rest)
    ensures DropRepeats(rest + [x]) ==
            DropRepeats(rest) + if Latest(None, rest) == Some(x.value) then [] else [x]
  {
    assert (rest + [x])[..|rest|] == rest;
    DropRepeatsLast(rest);
    assert DropRepeats(rest) + [] == DropRepeats(rest);
  }

  lemma InsideLater<V>(rest: Trace<V>, x: Change<V>, from: int, to: Option<int>)
    requires Ordered(rest) && (rest == [] || rest[|rest| - 1].tick <= x.tick) && from < x.tick
    requires Inside(DropRepeats(rest), from, to) == DedupFrom(ValueOf(LastUpTo(rest, from)), Inside(rest, from, to))
    ensures Inside(DropRepeats(rest + [x]), from, to) ==
            DedupFrom(ValueOf(LastUpTo(rest + [x], from)), Inside(rest + [x], from, to))
  {
    var d, mid, base := DropRepeats(rest), Inside(rest, from, to), ValueOf(LastUpTo(rest, from));
    LaterEntries(rest, x, from, to);
    DropMore(rest, x);
    LaterEntries(d, x, from, to);
    assert d + [] == d && mid + [] == mid && Inside(d, from, to) + [] == Inside(d, from, to);
    if AtMost(x.tick, to) {
      LatestRaw(rest, from, to);
      DedupMore(base, mid, x);
    }
  }

  // ----- windowed against full -----

  /** The windowed decode has the slice's changes inside the window and the
      slice's value entering it. */
  lemma WindowRefinesFull<V>(kind: WinKind, raw: Trace<V>, from: int, to: Option<int>)
    requires Ordered(raw)
    ensures var full := FullDecode(kind, raw);
            && Windowed(kind, raw, from, to) == ListOf(LastUpTo(raw, from)) + Inside(full, from, to)
            && Slice(full, from, to) == ListOf(LastUpTo(full, from)) + Inside(full, from, to)
            && ValueOf(LastUpTo(raw, from)) == ValueOf(LastUpTo(full, from))
  {
    if kind != Event {
      SeedValue(raw, from);
      InsideValue(raw, from, to);
    }
  }

  /** The last value of `raw` was written again at a later tick, without
      changing in between. */
  ghost predicate LateRepeat<V>(raw: Trace<V>) {
    exists k :: 0 <= k < |raw| && raw[k].tick < raw[|raw| - 1].tick && SameFrom(raw, k)
  }

  ghost predicate SameFrom<V>(raw: Trace<V>, k: nat) {
    forall i :: k <= i < |raw| ==> raw[i].value == raw[|raw| - 1].value
  }

  /** The value in effect at `from` was written again at a later tick, still
      at or before `from`, without changing in between. */
  ghost predicate Rewritten<V>(raw: Trace<V>, from: int)
    requires Ordered(raw)
  {
    LateRepeat(raw[..UpperBound(raw, from)])
  }

  /** The whole windowed trace, seed tick included, is the slice of the full
      decode exactly when the value entering the window was not written
      again; events always agree. */
  lemma WindowIsSlice<V>(kind: WinKind, raw: Trace<V>, from: int, to: Option<int>)
    requires Ordered(raw)
    ensures Windowed(kind, raw, from, to) == Slice(FullDecode(kind, raw), from, to) <==>
            kind == Event || !Rewritten(raw, from)
  {
    var full := FullDecode(kind, raw);
    WindowRefinesFull(kind, raw, from, to);
    if kind != Event {
      SeedTick(raw, from);
      var a, b := Windowed(kind, raw, from, to), Slice(full, from, to);
      if LastUpTo(raw, from).Some? {
        assert a[0] == LastUpTo(raw, from).value && b[0] == LastUpTo(full, from).value;
      }
    }
  }

  lemma {:induction false} SeedTick<V>(raw: Trace<V>, from: int)
    requires Ordered(raw)
    ensures LastUpTo(DropRepeats(raw), from) == LastUpTo(raw, from) <==> !Rewritten(raw, from)
  {
    if raw == [] {
    } else if raw[|raw| - 1].tick <= from {
      SeedTickAtEnd(raw, from);
    } else {
      SeedTickLater(raw, from);
      SeedTick(raw[..|raw| - 1], from);
    }
  }

  lemma SeedTickAtEnd<V>(raw: Trace<V>, from: int)
    requires Ordered(raw) && raw != [] && raw[|raw| - 1].tick <= from
    ensures LastUpTo(DropRepeats(raw), from) == LastUpTo(raw, from) <==> !Rewritten(raw, from)
  {
    UpperBoundIs(raw, from, |raw|);
    assert raw[..|raw|] == raw;
    var k := RunStart(raw);
    LateRepeatIs(raw, k);
  }

  lemma SeedTickLater<V>(raw: Trace<V>, from: int)
    requires Ordered(raw) && raw != [] && from < raw[|raw| - 1].tick
    ensures var rest := raw[..|raw| - 1];
            && Ordered(rest)
            && LastUpTo(DropRepeats(raw), from) == LastUpTo(DropRepeats(rest), from)
            && LastUpTo(raw, from) == LastUpTo(rest, from)
            && (Rewritten(raw, from) <==> Rewritten(rest, from))
  {
    PrefixOrdered(raw);
    var rest, x := raw[..|raw| - 1], raw[|raw| - 1];
    var n := UpperBound(rest, from);
    UpperBoundIs(raw, from, n);
    assert raw[..n] == rest[..n];
    var d := DropRepeats(rest);
    assert (d + [x])[..|d|] == d;
  }

  /** The last entry kept is the first of the final run of equal values. */
  lemma {:induction false} RunStart<V>(raw: Trace<V>) returns (k: nat)
    requires Ordered(raw) && raw != []
    ensures var d := DropRepeats(raw); d != [] && k < |raw| && d[|d| - 1] == raw[k]
    ensures SameFrom(raw, k) && (k > 0 ==> raw[k - 1].value != raw[k].value)
  {
    PrefixOrdered(raw);
    var rest := raw[..|raw| - 1];
    DropRepeatsLast(rest);
    if rest != [] && rest[|rest| - 1].value == raw[|raw| - 1].value {
      k := RunStart(rest);
    } else {
      k := |raw| - 1;
    }
  }

  lemma LateRepeatIs<V>(raw: Trace<V>, k: nat)
    requires Ordered(raw) && k < |raw| && SameFrom(raw, k) && (k > 0 ==> raw[k - 1].value != raw[k].value)
    ensures LateRepeat(raw) <==> raw[k].tick < raw[|raw| - 1].tick
  {
    if LateRepeat(raw) {
      var j :| 0 <= j < |raw| && raw[j].tick < raw[|raw| - 1].tick && SameFrom(raw, j);
      assert raw[k].value == raw[|raw| - 1].value;
      assert k <= j;
    }
  }

  /** With at most one raw change per tick, the condition is simply that the
      last raw change up to `from` repeats the one before it. */
  lemma RewrittenWhenStrict<V>(raw: Trace<V>, from: int)
    requires Ordered(raw) && StrictlyOrdered(raw)
    ensures var n := UpperBound(raw, from);
            Rewritten(raw, from) <==> n >= 2 && raw[n - 2].value == raw[n - 1].value
  {
    var n := UpperBound(raw, from);
    var pre := raw[..n];
    if n >= 2 && raw[n - 2].value == raw[n - 1].value {
      assert pre[n - 2].tick < pre[|pre| - 1].tick && SameFrom(pre, n - 2);
    }
  }

  /** An example: a repeated write at `from` moves the seed there, where the
      full decode has no change. */
  lemma RepeatMovesSeed()
    ensures var raw := [Change(5, '1'), Change(10, '1')];
            && Ordered(raw)
            && Windowed(Bits, raw, 10, None) == [Change(10, '1')]
            && Slice(FullDecode(Bits, raw), 10, None) == [Change(5, '1')]
  {
    var raw := [Change(5, '1'), Change(10, '1')];
    assert raw[..1] == [Change(5, '1')] && raw[..0] == [];
    assert raw[..1][..0] == [];
    assert DropRepeats(raw[..1]) == [Change(5, '1')];
    assert DropRepeats(raw) == [Change(5, '1')];
    assert Inside(raw, 10, None) == [] by { NothingInside(raw, 10, None); }
    assert Inside(DropRepeats(raw), 10, None) == [] by { NothingInside(DropRepeats(raw), 10, None); }
  }
}
