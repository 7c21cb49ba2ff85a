/** What a query sees of a windowed FST decode whose second read echoed a
    frame. */
module FstEchoes {
  import opened Wrappers
  import opened Traces
  import opened Backends
  import opened FoldChange
  import opened FstCollector
  import opened FstWindow
  import opened FstReader
  import opened FstLoad
  import opened FstDecode
  import opened FstAnswers

  // ----- values and entries of the decodes -----

  lemma {:induction false} ValueIsLast<V>(tr: Trace<V>, t: int)
    ensures ValueAt(tr, t) == ValueOf(LastUpTo(tr, t))
  {
    if tr != [] && t < tr[|tr| - 1].tick {
      ValueIsLast(tr[..|tr| - 1], t);
    }
  }

  /** The full decode has the value of the last raw change. */
  lemma FullValue<V>(kind: WinKind, raw: Trace<V>, t: int)
    requires Ordered(raw)
    ensures ValueAt(FullDecode(kind, raw), t) == ValueOf(LastUpTo(raw, t))
  {
    ValueIsLast(FullDecode(kind, raw), t);
    if kind != Event {
      SeedValue(raw, t);
    }
  }

  lemma LastUpToNone<V>(tr: Trace<V>, from: int)
    requires Ordered(tr) && LastUpTo(tr, from).None?
    ensures forall i :: 0 <= i < |tr| ==> from < tr[i].tick
  {
    LastUpToIs(tr, from);
  }

  lemma LastUpToLater<V>(tr: Trace<V>, from: int, t: int)
    requires Ordered(tr) && from <= t && LastUpTo(tr, from).Some?
    ensures LastUpTo(tr, t).Some?
  {
    LastUpToIs(tr, from);
    LastUpToIs(tr, t);
  }

  lemma EchoOrdered<V>(e: Change<V>, raw: Trace<V>)
    requires Ordered(raw) && forall i :: 0 <= i < |raw| ==> e.tick <= raw[i].tick
    ensures Ordered([e] + raw)
  {}

  lemma OneUpTo<V>(e: Change<V>, t: int)
    ensures LastUpTo([e], t) == if e.tick <= t then Some(e) else None
  {
    assert [e][..0] == [];
  }

  /** Only the last echo up to `from` matters. */
  lemma LastEcho<V>(kind: WinKind, raw: Trace<V>, echoes: Trace<V>, from: int, to: Option<int>)
    requires LastUpTo(echoes, from).Some?
    ensures LastUpTo(echoes, from).value.tick <= from
    ensures Decoded(kind, raw, echoes, from, to) == Windowed(kind, [LastUpTo(echoes, from).value] + raw, from, to)
  {
    var e := LastUpTo(echoes, from).value;
    LastUpToTick(echoes, from);
    OneUpTo(e, from);
    EchoIsChange(kind, raw, [e], from, to);
  }

  // ----- point queries -----

  /** A point query inside the window is answered as the full decode of the
      changes does if and only if no echo lies up to `from`, or a change lies up
      to the query's own tick. */
  lemma DecodedAnswers<V>(kind: WinKind, raw: Trace<V>, echoes: Trace<V>, from: int, to: Option<int>, t: int)
    requires Ordered(raw) && from <= t && AtMost(t, to)
    ensures ValueAt(Decoded(kind, raw, echoes, from, to), t) == ValueAt(FullDecode(kind, raw), t) <==>
            LastUpTo(echoes, from).None? || LastUpTo(raw, t).Some?
  {
    FullValue(kind, raw, t);
    DecodedValue(kind, raw, echoes, from, to, t);
    if LastUpTo(raw, from).Some? {
      LastUpToLater(raw, from, t);
    }
  }

  /** The value at a tick of the window: that of the last change up to it, and
      that of the echo where there is none. */
  lemma DecodedValue<V>(kind: WinKind, raw: Trace<V>, echoes: Trace<V>, from: int, to: Option<int>, t: int)
    requires Ordered(raw) && from <= t && AtMost(t, to)
    ensures Ordered(Decoded(kind, raw, echoes, from, to))
    ensures ValueAt(Decoded(kind, raw, echoes, from, to), t) ==
            ValueOf(Later(LastUpTo(echoes, from), LastUpTo(raw, t)))
  {
    if LastUpTo(echoes, from).None? || LastUpTo(raw, from).Some? {
      DecodedIsWindowed(kind, raw, echoes, from, to);
      WindowedAnswers(kind, raw, from, to, t);
      FullValue(kind, raw, t);
      if LastUpTo(raw, from).Some? {
        LastUpToLater(raw, from, t);
      }
    } else {
      EchoValue(kind, raw, echoes, from, to, t);
    }
  }

  lemma EchoValue<V>(kind: WinKind, raw: Trace<V>, echoes: Trace<V>, from: int, to: Option<int>, t: int)
    requires Ordered(raw) && from <= t && AtMost(t, to)
    requires LastUpTo(echoes, from).Some? && LastUpTo(raw, from).None?
    ensures Ordered(Decoded(kind, raw, echoes, from, to))
    ensures ValueAt(Decoded(kind, raw, echoes, from, to), t) ==
            ValueOf(Later(LastUpTo(echoes, from), LastUpTo(raw, t)))
  {
    var e := LastUpTo(echoes, from).value;
    LastEcho(kind, raw, echoes, from, to);
    LastUpToNone(raw, from);
    EchoOrdered(e, raw);
    WindowedAnswers(kind, [e] + raw, from, to, t);
    FullValue(kind, [e] + raw, t);
    LastUpToConcat([e], raw, t);
    OneUpTo(e, t);
  }

  // ----- entries -----

  lemma {:induction false} DedupFirst<V>(tr: Trace<V>)
    ensures var r := DedupFrom(None, tr); (tr == [] <==> r == []) && (tr != [] ==> r[0] == tr[0])
  {
    if tr != [] {
      DedupFirst(tr[..|tr| - 1]);
    }
  }

  /** What a base adds to suppressing repeats: the first entry may go. */
  lemma DedupedBase<V>(kind: WinKind, v: V, tr: Trace<V>)
    ensures Deduped(kind, Some(v), tr) == Deduped(kind, None, tr) <==>
            kind == Event || tr == [] || tr[0].value != v
    ensures Deduped(kind, None, tr) == [] <==> tr == []
  {
    DedupFirst(tr);
    LateBase(v, tr);
    var r := DedupFrom(None, tr);
    assert r != [] ==> |r[1..]| < |r|;
  }

  lemma RangeAfter<V>(full: Trace<V>, from: int, to: Option<int>)
    requires Ordered(full) && LastUpTo(full, from).None?
    ensures InRange(full, from, to) == Inside(full, from, to)
  {
    LastUpToNone(full, from);
    LowerBoundIs(full, from, 0);
    UpperBoundIs(full, from, 0);
    InsideIs(full, from, to);
  }

  /** Before the first change the full decode shows nothing, and from then on
      the changes with repeats dropped. */
  lemma FullAfter<V>(kind: WinKind, raw: Trace<V>, from: int, to: Option<int>)
    requires Ordered(raw) && LastUpTo(raw, from).None?
    ensures Ordered(FullDecode(kind, raw))
    ensures InRange(FullDecode(kind, raw), from, to) == Deduped(kind, None, Inside(raw, from, to))
  {
    FullOrdered(kind, raw);
    if kind != Event {
      SeedValue(raw, from);
      InsideValue(raw, from, to);
    }
    RangeAfter(FullDecode(kind, raw), from, to);
  }

  lemma DedupedRange<V>(kind: WinKind, base: Option<V>, raw: Trace<V>, from: int, to: Option<int>)
    requires Ordered(raw)
    ensures var d := Deduped(kind, base, Inside(raw, from, to));
            Ordered(d) && AllInside(d, from, to)
  {
    InsideIs(raw, from, to);
    if kind != Event {
      DedupKeeps(base, Inside(raw, from, to), from, to);
    }
  }

  ghost predicate AllInside<V>(d: Trace<V>, from: int, to: Option<int>) {
    forall i :: 0 <= i < |d| ==> from < d[i].tick && AtMost(d[i].tick, to)
  }

  lemma {:induction false} DedupKeeps<V>(base: Option<V>, tr: Trace<V>, from: int, to: Option<int>)
    requires Ordered(tr) && AllInside(tr, from, to)
    ensures var d := DedupFrom(base, tr);
            Ordered(d) && AllInside(d, from, to) && (d != [] ==> tr != [] && d[|d| - 1].tick <= tr[|tr| - 1].tick)
  {
    if tr != [] {
      PrefixOrdered(tr);
      DedupKeeps(base, tr[..|tr| - 1], from, to);
      OneMoreInside(DedupFrom(base, tr[..|tr| - 1]), tr[|tr| - 1], from, to);
    }
  }

  lemma OneMoreInside<V>(d: Trace<V>, c: Change<V>, from: int, to: Option<int>)
    requires Ordered(d) && AllInside(d, from, to) && (d != [] ==> d[|d| - 1].tick <= c.tick)
    requires from < c.tick && AtMost(c.tick, to)
    ensures Ordered(d + [c]) && AllInside(d + [c], from, to)
  {
    OrderedAppend(d, c);
  }

  /** A decoded trace shows its seed if that lies at `from`, and its window. */
  lemma SeededRange<V>(kind: WinKind, e: Change<V>, raw: Trace<V>, from: int, to: Option<int>)
    requires Ordered(raw) && e.tick <= from && AtMost(from, to)
    ensures var d := Deduped(kind, Some(e.value), Inside(raw, from, to));
            && Ordered([e] + d)
            && InRange([e] + d, from, to) == (if e.tick == from then [e] else []) + d
  {
    var d := Deduped(kind, Some(e.value), Inside(raw, from, to));
    DedupedRange(kind, Some(e.value), raw, from, to);
    EchoOrdered(e, d);
    ShownRange([e], d, from, to);
  }

  /** An echo as the seed leaves the entries right if and only if it lies before
      `from` and the first change of the window does not repeat it. */
  lemma EchoEntries<V>(kind: WinKind, e: Change<V>, raw: Trace<V>, from: int, to: Option<int>)
    requires Ordered(raw) && AtMost(from, to) && e.tick <= from && LastUpTo(raw, from).None?
    ensures Ordered(FullDecode(kind, raw))
    ensures KeepsEntries(FullDecode(kind, raw), from, to,
                         [e] + Deduped(kind, Some(e.value), Inside(raw, from, to))) <==>
            e.tick < from
            && (kind == Event || Inside(raw, from, to) == [] || Inside(raw, from, to)[0].value != e.value)
  {
    var w := Inside(raw, from, to);
    FullAfter(kind, raw, from, to);
    SeededRange(kind, e, raw, from, to);
    DedupedBase(kind, e.value, w);
    DedupedRange(kind, None, raw, from, to);
    EchoShown(e, Deduped(kind, Some(e.value), w), Deduped(kind, None, w), from);
  }

  lemma EchoShown<V>(e: Change<V>, d: Trace<V>, r: Trace<V>, from: int)
    requires e.tick <= from && forall i :: 0 <= i < |r| ==> from < r[i].tick
    ensures (if e.tick == from then [e] else []) + d == r <==> e.tick < from && d == r
  {
    if e.tick == from {
      assert ([e] + d)[0] == e;
    } else {
      assert [] + d == d;
    }
  }

  /** For any raw history and any echoes: a dump that starts at `from` shows the
      entries of the full decode under the condition of `DumpAgreesAlways` if
      the echo is not the seed; and if it is, if and only if it lies before
      `from` and the first change of the window does not repeat it. */
  lemma DecodedEntries<V>(kind: WinKind, raw: Trace<V>, echoes: Trace<V>, from: int, to: Option<int>)
    requires Ordered(raw) && AtMost(from, to)
    ensures Ordered(FullDecode(kind, raw))
    ensures KeepsEntries(FullDecode(kind, raw), from, to, Decoded(kind, raw, echoes, from, to)) <==>
            EntriesAgree(kind, raw, LastUpTo(echoes, from), from, to)
  {
    FullOrdered(kind, raw);
    if LastUpTo(echoes, from).None? || LastUpTo(raw, from).Some? {
      DecodedIsWindowed(kind, raw, echoes, from, to);
      DumpAgreesAlways(kind, raw, from, to);
    } else {
      LastUpToTick(echoes, from);
      EchoEntries(kind, LastUpTo(echoes, from).value, raw, from, to);
    }
  }

  ghost predicate EntriesAgree<V>(kind: WinKind, raw: Trace<V>, e: Option<Change<V>>, from: int, to: Option<int>)
    requires Ordered(raw)
  {
    if e.None? || LastUpTo(raw, from).Some? then
      KeptChanges(kind, raw, from) == if EntriesAt(raw, from) != [] then 1 else 0
    else
      && e.value.tick < from
      && (kind == Event || Inside(raw, from, to) == [] || Inside(raw, from, to)[0].value != e.value.value)
  }

  /** An example: a frame echoed by both reads swallows the only change of a
      signal, although nothing lies at `from`. */
  lemma EchoSwallowsRow()
    ensures var c := Run(Fresh(Bits), [Flagged(Change(3, '0'), true), Flagged(Change(20, '0'), false)], 10, None);
            && NeedsPhase2(c)
            && Finish(RunPhase2(c.(demoted := true), [Change(3, '0'), Change(20, '0')], 10)) == [Change(3, '0')]
    ensures var raw := [Change(20, '0')];
            && Ordered(raw) && KeptChanges(Bits, raw, 10) == 0 && EntriesAt(raw, 10) == []
            && Ordered(FullDecode(Bits, raw)) && !KeepsEntries(FullDecode(Bits, raw), 10, None, [Change(3, '0')])
  {
    SwallowedRun();
    var raw := [Change(20, '0')];
    OneChange(raw);
    EchoEntries(Bits, Change(3, '0'), raw, 10, None);
    LateBase('0', raw);
    assert [Change(3, '0')] + DedupFrom(Some('0'), raw) == [Change(3, '0')];
  }

  lemma OneChange(raw: Trace<char>)
    requires raw == [Change(20, '0')]
    ensures Ordered(raw) && KeptChanges(Bits, raw, 10) == 0 && EntriesAt(raw, 10) == []
    ensures LastUpTo(raw, 10) == None && Inside(raw, 10, None) == raw && DedupFrom(None, raw) == raw
  {
    assert raw[..0] == [];
    assert [] + raw == raw;
    UpperBoundIs(raw, 10, 0);
    LowerBoundIs(raw, 10, 0);
  }

  lemma SwallowedRun()
    ensures var c := Run(Fresh(Bits), [Flagged(Change(3, '0'), true), Flagged(Change(20, '0'), false)], 10, None);
            && NeedsPhase2(c)
            && Finish(RunPhase2(c.(demoted := true), [Change(3, '0'), Change(20, '0')], 10)) == [Change(3, '0')]
  {
    var one := [Flagged(Change(3, '0'), true)];
    var xs := [Flagged(Change(3, '0'), true), Flagged(Change(20, '0'), false)];
    assert xs[..1] == one && one[..0] == [];
    var c := Run(Fresh(Bits), xs, 10, None);
    assert Run(Fresh(Bits), one, 10, None) == Fresh(Bits).(seed := Some(Change(3, '0')), seedSuspect := true);
    assert c.win == [Change(20, '0')];
    Phase2KeepsLast(c.(demoted := true), [Change(3, '0'), Change(20, '0')], 10);
    assert [Change(3, '0'), Change(20, '0')][..1] == [Change(3, '0')];
    assert LastUpTo([Change(3, '0'), Change(20, '0')], 10) == Some(Change(3, '0'));
  }

  // ----- against a full decode that reads the frame as well -----

  /** What the full decode of the file itself makes of a frame: its value is
      recorded at the file's first change time `first`. */
  function FullWithFrame<V(==)>(kind: WinKind, raw: Trace<V>, e: Change<V>, first: int): Trace<V> {
    FullDecode(kind, [Change(first, e.value)] + raw)
  }

  /** Point queries then agree if and only if a change lies up to the query's
      tick, or the frame lies up to `from` just when the first change time lies
      up to that tick. */
  lemma FrameAnswers<V>(kind: WinKind, raw: Trace<V>, e: Change<V>, first: int, from: int, to: Option<int>, t: int)
    requires Ordered([Change(first, e.value)] + raw) && Ordered(raw) && e.tick < first
    requires from <= t && AtMost(t, to)
    ensures ValueAt(Decoded(kind, raw, [e], from, to), t) == ValueAt(FullWithFrame(kind, raw, e, first), t) <==>
            LastUpTo(raw, t).Some? || (e.tick <= from <==> first <= t)
  {
    var c := Change(first, e.value);
    FullValue(kind, [c] + raw, t);
    LastUpToConcat([c], raw, t);
    OneUpTo(c, t);
    OneUpTo(e, from);
    DecodedValue(kind, raw, [e], from, to, t);
  }

  /** Entries, when the file has begun by `from`: as without echoes, with the
      frame counted as a change at the first change time. */
  lemma FrameEntriesLater<V>(kind: WinKind, raw: Trace<V>, e: Change<V>, first: int, from: int, to: Option<int>)
    requires Ordered([Change(first, e.value)] + raw) && Ordered(raw) && e.tick < first <= from && AtMost(from, to)
    ensures Ordered(FullWithFrame(kind, raw, e, first))
    ensures KeepsEntries(FullWithFrame(kind, raw, e, first), from, to, Decoded(kind, raw, [e], from, to)) <==>
            KeptChanges(kind, [Change(first, e.value)] + raw, from) == if EntriesAt(raw, from) != [] then 1 else 0
  {
    var c := Change(first, e.value);
    var seen := [c] + raw;
    var seed := Later(Some(e), LastUpTo(raw, from));
    OneUpTo(e, from);
    OneUpTo(c, from);
    LastUpToConcat([c], raw, from);
    InsideConcat([c], raw, from, to);
    var pre, full, n := WindowedCarries(kind, seen, from, to);
    SameCarried(full, from, pre, [seed.value], n);
    SeedForm(kind, seen, raw, e, c, from, to, full, n);
    CarriedEntries(full, from, to, [seed.value], n);
    FullKeeps(kind, seen, from);
    LastUpToIs(raw, from);
  }

  lemma SameCarried<V>(full: Trace<V>, from: int, pre: Trace<V>, pre': Trace<V>, n: nat)
    requires Ordered(full) && CarriedIn(full, from, pre, n) && |pre| == |pre'| == 1
    requires pre'[0].tick <= from && pre'[0].value == pre[0].value
    ensures CarriedIn(full, from, pre', n)
  {}

  lemma SeedForm<V>(kind: WinKind, seen: Trace<V>, raw: Trace<V>, e: Change<V>, c: Change<V>, from: int,
                    to: Option<int>, full: Trace<V>, n: nat)
    requires Ordered(full) && n <= |full| && e.tick <= from && e.value == c.value
    requires LastUpTo(seen, from) == Later(Some(c), LastUpTo(raw, from))
    requires Inside(seen, from, to) == Inside(raw, from, to)
    requires Windowed(kind, seen, from, to) == ListOf(LastUpTo(seen, from)) + full[n..EndOf(full, n, to)]
    ensures Decoded(kind, raw, [e], from, to) ==
            [Later(Some(e), LastUpTo(raw, from)).value] + full[n..EndOf(full, n, to)]
  {
    OneUpTo(e, from);
    var d := Deduped(kind, ValueOf(LastUpTo(seen, from)), Inside(raw, from, to));
    SameTail(ListOf(LastUpTo(seen, from)), d, full[n..EndOf(full, n, to)]);
  }

  lemma SameTail<T>(a: seq<T>, b: seq<T>, c: seq<T>)
    requires a + b == a + c
    ensures b == c
  {
    assert (a + b)[|a|..] == b && (a + c)[|a|..] == c;
  }

  /** Entries, when the file begins after `from`: the full decode then shows the
      frame at the first change time and the windowed one does not, so they
      agree only if that time lies beyond `to` and no seed shows, or if the
      signal's own first change is just that and no echo is its seed. */
  lemma FrameEntriesEarlier<V>(kind: WinKind, raw: Trace<V>, e: Change<V>, first: int, from: int, to: Option<int>)
    requires Ordered([Change(first, e.value)] + raw) && Ordered(raw) && e.tick < first
    requires from < first && AtMost(from, to)
    ensures Ordered(FullWithFrame(kind, raw, e, first))
    ensures KeepsEntries(FullWithFrame(kind, raw, e, first), from, to, Decoded(kind, raw, [e], from, to)) <==>
            if e.tick <= from then e.tick != from && !AtMost(first, to)
            else !AtMost(first, to) || (kind != Event && raw != [] && raw[0] == Change(first, e.value))
  {
    var c := Change(first, e.value);
    FullAfterFrame(kind, raw, c, from, to);
    OneUpTo(e, from);
    if e.tick <= from {
      FrameSeed(kind, e, raw, c, from, to);
    } else {
      FrameUnseen(kind, e, raw, c, from, to);
    }
  }

  lemma InsideFrame<V>(c: Change<V>, raw: Trace<V>, from: int, to: Option<int>)
    requires Ordered([c] + raw) && Ordered(raw) && from < c.tick
    ensures LastUpTo(raw, from).None? && LastUpTo([c] + raw, from).None?
    ensures Inside([c] + raw, from, to) == (if AtMost(c.tick, to) then [c] else []) + Inside(raw, from, to)
    ensures !AtMost(c.tick, to) ==> Inside(raw, from, to) == []
    ensures Inside(raw, from, to) != [] ==> raw != [] && Inside(raw, from, to)[0] == raw[0]
    ensures AtMost(c.tick, to) && raw != [] && raw[0] == c ==> Inside(raw, from, to) != []
  {
    var seen := [c] + raw;
    assert forall i :: 0 <= i < |raw| ==> c.tick <= raw[i].tick by {
      forall i | 0 <= i < |raw| ensures c.tick <= raw[i].tick {
        assert seen[0] == c && seen[i + 1] == raw[i];
      }
    }
    NoneUpTo(raw, from);
    NoneUpTo(seen, from);
    UpperBoundIs(raw, from, 0);
    UpperBoundIs(seen, from, 0);
    InsideIs(raw, from, to);
    InsideIs(seen, from, to);
    InsideFrameEnd(c, raw, from, to);
  }

  lemma InsideFrameEnd<V>(c: Change<V>, raw: Trace<V>, from: int, to: Option<int>)
    requires Ordered([c] + raw) && Ordered(raw) && forall i :: 0 <= i < |raw| ==> c.tick <= raw[i].tick
    ensures EndOf([c] + raw, 0, to) == if AtMost(c.tick, to) then EndOf(raw, 0, to) + 1 else 0
    ensures !AtMost(c.tick, to) ==> EndOf(raw, 0, to) == 0
    ensures AtMost(c.tick, to) && raw != [] && raw[0] == c ==> EndOf(raw, 0, to) > 0
  {
    if to.Some? {
      var m := UpperBound(raw, to.value);
      if AtMost(c.tick, to) {
        UpperBoundIs([c] + raw, to.value, m + 1);
        if raw != [] && raw[0] == c {
          assert m > 0 || to.value < raw[0].tick;
        }
      } else {
        UpperBoundIs(raw, to.value, 0);
        UpperBoundIs([c] + raw, to.value, 0);
      }
    }
  }

  lemma FullAfterFrame<V>(kind: WinKind, raw: Trace<V>, c: Change<V>, from: int, to: Option<int>)
    requires Ordered([c] + raw) && Ordered(raw) && from < c.tick
    ensures Ordered(FullDecode(kind, [c] + raw))
    ensures InRange(FullDecode(kind, [c] + raw), from, to) ==
            if AtMost(c.tick, to) then [c] + Deduped(kind, Some(c.value), Inside(raw, from, to)) else []
  {
    InsideFrame(c, raw, from, to);
    FullAfter(kind, [c] + raw, from, to);
    if AtMost(c.tick, to) {
      DedupedHead(kind, c, Inside(raw, from, to));
    } else {
      assert [] + Inside(raw, from, to) == [];
    }
  }

  lemma {:induction false} DedupedHead<V>(kind: WinKind, c: Change<V>, tr: Trace<V>)
    ensures Deduped(kind, None, [c] + tr) == [c] + Deduped(kind, Some(c.value), tr)
  {
    if kind != Event {
      if tr == [] {
        assert [c] + tr == [c] && [c][..0] == [];
        assert DedupFrom(None, [c]) == [] + [c];
        assert [] + [c] == [c] && [c] + [] == [c];
      } else {
        DedupedHead(kind, c, tr[..|tr| - 1]);
        assert ([c] + tr)[..|tr|] == [c] + tr[..|tr| - 1];
        var d := DedupFrom(Some(c.value), tr[..|tr| - 1]);
        assert [c] + (d + [tr[|tr| - 1]]) == [c] + d + [tr[|tr| - 1]];
      }
    }
  }

  lemma FrameSeed<V>(kind: WinKind, e: Change<V>, raw: Trace<V>, c: Change<V>, from: int, to: Option<int>)
    requires Ordered([c] + raw) && Ordered(raw) && e.tick <= from < c.tick && AtMost(from, to) && e.value == c.value
    ensures var d := Decoded(kind, raw, [e], from, to);
            Ordered(d) && (InRange(d, from, to) ==
                           (if AtMost(c.tick, to) then [c] + Deduped(kind, Some(c.value), Inside(raw, from, to))
                            else [])
                           <==> e.tick != from && !AtMost(c.tick, to))
  {
    InsideFrame(c, raw, from, to);
    OneUpTo(e, from);
    SeededRange(kind, e, raw, from, to);
    var d := Deduped(kind, Some(e.value), Inside(raw, from, to));
    assert ListOf(Some(e)) + d == [e] + d;
    if AtMost(c.tick, to) {
      assert ([c] + d)[0] == c && |[c] + d| == |d| + 1;
      assert e.tick == from ==> ([e] + d)[0] == e;
    } else {
      assert d == [];
    }
  }

  lemma FrameUnseen<V>(kind: WinKind, e: Change<V>, raw: Trace<V>, c: Change<V>, from: int, to: Option<int>)
    requires Ordered([c] + raw) && Ordered(raw) && from < e.tick < c.tick && AtMost(from, to) && e.value == c.value
    ensures var d := Decoded(kind, raw, [e], from, to);
            Ordered(d) && (InRange(d, from, to) ==
                           (if AtMost(c.tick, to) then [c] + Deduped(kind, Some(c.value), Inside(raw, from, to))
                            else [])
                           <==> !AtMost(c.tick, to) || (kind != Event && raw != [] && raw[0] == c))
  {
    var w := Inside(raw, from, to);
    InsideFrame(c, raw, from, to);
    OneUpTo(e, from);
    var d := Deduped(kind, None, w);
    DedupedRange(kind, None, raw, from, to);
    assert Decoded(kind, raw, [e], from, to) == [] + d == d;
    ShownRange([], d, from, to);
    DedupFirst(w);
    LateBase(c.value, w);
    if AtMost(c.tick, to) {
      UnseenHead(kind, c, w);
    }
  }

  /** The window alone equals the frame's value put in front of it exactly when
      it begins with that very change. */
  lemma UnseenHead<V>(kind: WinKind, c: Change<V>, w: Trace<V>)
    ensures Deduped(kind, None, w) == [c] + Deduped(kind, Some(c.value), w) <==>
            kind != Event && w != [] && w[0] == c
  {
    DedupFirst(w);
    LateBase(c.value, w);
    var r, l := Deduped(kind, None, w), [c] + Deduped(kind, Some(c.value), w);
    assert l[0] == c && |l| == |Deduped(kind, Some(c.value), w)| + 1;
    if kind != Event && w != [] && w[0] == c {
      assert r == [r[0]] + r[1..];
    }
  }

  // ----- slot by slot -----

  /** What a point query finds in the trace a slot is served: the last change up
      to its tick, or else the echo up to `from`. */
  lemma SlotValue<V>(rd: Reader<V>, slots: seq<(nat, WinKind)>, k: nat, frame: seq<Emission<V>>,
                     from: int, to: Option<int>, tr: Trace<V>, t: int)
    requires rd.Valid() && k < |slots| && SlotServed(rd, slots, k, frame, from, to, tr)
    requires from <= t && AtMost(t, to)
    ensures Ordered(tr)
    ensures var h := slots[k].0;
            ValueAt(tr, t) == ValueOf(Later(LastUpTo(ForHandle(frame, h), from), LastUpTo(rd.Raw(h), t)))
  {
    var h := slots[k].0;
    DecodedValue(KindFor(slots, h), rd.Raw(h), ForHandle(frame, h), from, to, t);
  }

  /** Both conditions, for the trace a slot is served. */
  lemma SlotAnswers<V>(rd: Reader<V>, slots: seq<(nat, WinKind)>, k: nat, frame: seq<Emission<V>>,
                       from: int, to: Option<int>, tr: Trace<V>, t: int)
    requires rd.Valid() && k < |slots| && SlotServed(rd, slots, k, frame, from, to, tr)
    requires from <= t && AtMost(t, to)
    ensures var h := slots[k].0;
            ValueAt(tr, t) == ValueAt(FullDecode(KindFor(slots, h), rd.Raw(h)), t) <==>
            LastUpTo(ForHandle(frame, h), from).None? || LastUpTo(rd.Raw(h), t).Some?
  {
    var h := slots[k].0;
    DecodedAnswers(KindFor(slots, h), rd.Raw(h), ForHandle(frame, h), from, to, t);
  }

  lemma SlotEntries<V>(rd: Reader<V>, slots: seq<(nat, WinKind)>, k: nat, frame: seq<Emission<V>>,
                       from: int, to: Option<int>, tr: Trace<V>)
    requires rd.Valid() && k < |slots| && SlotServed(rd, slots, k, frame, from, to, tr) && AtMost(from, to)
    ensures var h := slots[k].0;
            var full := FullDecode(KindFor(slots, h), rd.Raw(h));
            Ordered(full) && (KeepsEntries(full, from, to, tr) <==>
                              EntriesAgree(KindFor(slots, h), rd.Raw(h), LastUpTo(ForHandle(frame, h), from), from, to))
  {
    var h := slots[k].0;
    DecodedEntries(KindFor(slots, h), rd.Raw(h), ForHandle(frame, h), from, to);
  }

  /** A slot's trace is a window such as any seeking backend may serve, of the
      signal's changes after the echo it has seen. */
  lemma SlotServes<V>(rd: Reader<V>, slots: seq<(nat, WinKind)>, k: nat, frame: seq<Emission<V>>,
                      from: int, to: Option<int>, tr: Trace<V>)
    requires rd.Valid() && k < |slots| && FirstFrame(frame, rd.table)
    requires SlotServed(rd, slots, k, frame, from, to, tr)
    ensures var h := slots[k].0;
            var seen := if frame != [] && frame[0].time <= from then ForHandle(frame, h) else [];
            var full := FullDecode(KindFor(slots, h), seen + rd.Raw(h));
            Ordered(full) && Serves(full, from, to, tr)
  {
    var h := slots[k].0;
    var seen := if frame != [] && frame[0].time <= from then ForHandle(frame, h) else [];
    ServedWindow(rd, slots, k, frame, from, to, tr);
    WindowServes(KindFor(slots, h), seen + rd.Raw(h), from, to);
  }
}
