/** When the terms of a condition hold, told from recorded characters. */
module Terms {
  import opened Wrappers
  import opened BigNat
  import opened Conditions
  import opened Clauses
  import opened Display
  import opened Numerals
  import opened Readings
  import opened Searchable
  import opened SearchState
  import opened Signals
  import opened Targets

  // ----- what a target asks of a value -----

  /** Bit `off` of a mask, from the right: extended to the left by an unknown
      bit it begins with, and else by 0. */
  function MaskAt(mask: string, off: nat): char {
    if off < |mask| then mask[|mask| - 1 - off]
    else if mask != "" && (mask[0] == 'x' || mask[0] == 'z') then mask[0]
    else '0'
  }

  /** Bit `off` of a value; beyond the width there are only low bits. */
  function LevelIn(raw: string, width: nat, off: nat): Level {
    if off < width then LevelAt(raw, width, off) else Low
  }

  /** The mask asks for bit `off`. */
  predicate Asks(mask: string, width: nat, off: nat) {
    (off < width || off < |mask|) && MaskAt(mask, off) != '?'
  }

  /** The value of a logic signal reads as the target. */
  ghost predicate Reads(raw: string, target: Target, width: nat) {
    match target.num
    case Some(n) => raw != "" && Known(raw) && Number(raw) == Val(n)
    case None =>
      forall off: nat :: Asks(target.raw, width, off) ==>
                           Letter(LevelIn(raw, width, off)) == MaskAt(target.raw, off)
  }

  /** Every bit of the value that the target asks for is a level. */
  ghost predicate Decided(raw: string, target: Target, width: nat) {
    match target.num
    case Some(_) => Known(raw)
    case None => forall off: nat :: Asks(target.raw, width, off) ==> IsKnown(LevelIn(raw, width, off))
  }

  /** What a recorded value is to a target: other signals than logic ones never
      read as a number, and as a pattern only letter by letter. */
  ghost predicate ReadsAs(kind: ValueKind, raw: string, target: Target, width: nat) {
    if kind == Bits then Reads(raw, target, width) else target.num.None? && raw == target.raw
  }

  ghost predicate Compares(kind: ValueKind, raw: string, target: Target, width: nat) {
    kind == Bits ==> Decided(raw, target, width)
  }

  /** The recorded value, if any, meets the comparison. */
  ghost predicate Meets(value: Option<string>, op: Op, target: Target, width: nat, kind: ValueKind) {
    && value.Some?
    && match op
       case Ne => Compares(kind, value.value, target, width) && !ReadsAs(kind, value.value, target, width)
       case _ => ReadsAs(kind, value.value, target, width)
  }

  // ----- the evaluation agrees -----

  lemma LevelIsBit(raw: string, width: nat, off: nat)
    ensures ValueBit(raw, width, off) == Letter(LevelIn(raw, width, off))
    ensures IsUnknown(ValueBit(raw, width, off)) <==> !IsKnown(LevelIn(raw, width, off))
  {
    if off < |raw| <= width {
      NormBitReads(raw[|raw| - 1 - off]);
    }
    if raw != "" {
      NormBitReads(raw[0]);
    }
  }

  lemma MaskIsPattern(mask: string, off: nat)
    ensures MaskAt(mask, off) == PatternBit(mask, off)
  {}

  lemma PatternReads(raw: string, target: Target, width: nat)
    requires target.num.None?
    ensures PatternEqual(raw, target.raw, width) <==> Reads(raw, target, width)
  {
    forall off: nat
      ensures ValueBit(raw, width, off) == Letter(LevelIn(raw, width, off))
      ensures PatternBit(target.raw, off) == MaskAt(target.raw, off)
      ensures Asks(target.raw, width, off) <==> off < Span(target.raw, width) && PatternBit(target.raw, off) != '?'
    {
      LevelIsBit(raw, width, off);
      MaskIsPattern(target.raw, off);
    }
  }

  lemma PatternDecided(raw: string, target: Target, width: nat)
    requires target.num.None?
    ensures CaredUnknown(raw, target.raw, width) <==> !Decided(raw, target, width)
  {
    forall off: nat
      ensures IsUnknown(ValueBit(raw, width, off)) <==> !IsKnown(LevelIn(raw, width, off))
      ensures Asks(target.raw, width, off) <==> off < Span(target.raw, width) && PatternBit(target.raw, off) != '?'
    {
      LevelIsBit(raw, width, off);
      MaskIsPattern(target.raw, off);
    }
  }

  lemma NumberReads(raw: string, target: Target, width: nat, text: string)
    requires target.num.Some? && ParseTarget(text) == Success(target)
    ensures ValueMatches(Some(raw), raw, target, width) <==> Reads(raw, target, width)
  {
    KnownIsClean(raw);
    NumberNormal(target, text);
    if raw != "" && Known(raw) {
      NumberIsValue(raw);
      var bits := FromDigits(2, Conditions.Digits(Normalize4State(raw)));
      SameLimbs(bits, target.num.value, Number(raw), Val(target.num.value));
    }
  }

  lemma MatchReads(kind: ValueKind, raw: string, target: Target, width: nat, text: string)
    requires ParseTarget(text) == Success(target)
    ensures ValueMatches(if kind == Bits then Some(raw) else None, raw, target, width) <==>
            ReadsAs(kind, raw, target, width)
  {
    if kind == Bits {
      if target.num.Some? {
        NumberReads(raw, target, width, text);
      } else {
        PatternReads(raw, target, width);
      }
    }
  }

  /** A term holds exactly when the value recorded for its signal meets it. */
  lemma TermMeets(state: State, changed: set<nat>, c: Cond, text: string)
    requires c.term.Level? && ParseTarget(text) == Success(c.term.target)
    ensures TermHolds(state, changed, c) <==>
            Meets(RawOf(state, c.sid), c.term.op, c.term.target, c.term.width, c.term.kind)
  {
    var value := RawOf(state, c.sid);
    var Level(op, target, width, kind) := c.term;
    if value.Some? {
      MatchReads(kind, value.value, target, width, text);
      KnownIsClean(value.value);
      if target.num.None? {
        PatternDecided(value.value, target, width);
        PatternReads(value.value, target, width);
      }
    }
  }

  // ----- equal and different -----

  /** One signal's comparison with one target, under two operators. */
  ghost predicate Opposed(eq: Cond, ne: Cond) {
    && eq.term.Level? && ne.term == Level(Ne, eq.term.target, eq.term.width, eq.term.kind)
    && eq.sid == ne.sid && eq.term.op != Ne
  }

  /** Equal and different never hold together, neither holds while the signal
      is undefined, and otherwise one of them does unless a bit that the target
      asks for is unknown.  On known values within the width, and on signals
      that are no logic, that leaves exactly one. */
  lemma ExactlyOne(state: State, changed: set<nat>, eq: Cond, ne: Cond, text: string)
    requires Opposed(eq, ne) && ParseTarget(text) == Success(eq.term.target)
    ensures !(TermHolds(state, changed, eq) && TermHolds(state, changed, ne))
    ensures TermHolds(state, changed, eq) || TermHolds(state, changed, ne) ==> eq.sid in state
    ensures eq.sid in state ==>
              var Level(_, target, width, kind) := eq.term;
              && (TermHolds(state, changed, eq) || TermHolds(state, changed, ne) <==>
                    ReadsAs(kind, state[eq.sid], target, width) || Compares(kind, state[eq.sid], target, width))
              && (kind != Bits || ShowsNumber(state[eq.sid], width) ==>
                    TermHolds(state, changed, eq) || TermHolds(state, changed, ne))
  {
    TermMeets(state, changed, eq, text);
    TermMeets(state, changed, ne, text);
  }

  /** A signal that is no logic never equals a number, and differs from every
      number once it has a value. */
  lemma NumbersNeedLogic(state: State, changed: set<nat>, eq: Cond, ne: Cond, text: string)
    requires Opposed(eq, ne) && ParseTarget(text) == Success(eq.term.target)
    requires eq.term.kind != Bits && eq.term.target.num.Some?
    ensures !TermHolds(state, changed, eq)
    ensures TermHolds(state, changed, ne) <==> eq.sid in state
  {
    TermMeets(state, changed, eq, text);
    TermMeets(state, changed, ne, text);
  }

  /** Texts that name one number hold alike under every operator; texts that
      name different numbers are never both equal to a value. */
  lemma BasesHoldAlike(state: State, changed: set<nat>, c: Cond, d: Cond, text: string, text': string, n: nat, n': nat)
    requires c.term.Level? && d.term.Level? && c.sid == d.sid
    requires c.term.width == d.term.width && c.term.kind == d.term.kind && c.term.op == d.term.op
    requires ParseTarget(text) == Success(c.term.target) && ParseTarget(text') == Success(d.term.target)
    requires Names(text, n) && Names(text', n')
    ensures n == n' ==> (TermHolds(state, changed, c) <==> TermHolds(state, changed, d))
    ensures n != n' && c.term.op != Ne ==> !(TermHolds(state, changed, c) && TermHolds(state, changed, d))
  {
    NumbersAreRead(text, n);
    NumbersAreRead(text', n');
    TermMeets(state, changed, c, text);
    TermMeets(state, changed, d, text');
  }

  // ----- searching for what is shown -----

  /** More bits than the signal has, spelling the number that `v` shows. */
  ghost predicate LongTwin(raw: string, v: string, width: nat) {
    |raw| > width && Known(raw) && ShowsNumber(v, width) && Number(raw) == Number(v)
  }

  lemma TwinIsLong(v: string, raw: string, width: nat)
    requires v != "" && raw != "" && width > 0
    ensures |raw| > width && OverLongTwin(v, raw, width) <==> LongTwin(raw, v, width)
  {
    SpelledClean(v, width);
    KnownIsClean(raw);
    if Known(raw) {
      NumberIsValue(raw);
    }
  }

  /** A logic signal compared with the display of `v`: equal holds exactly
      where a value is recorded that is displayed the same way, or that has too
      many bits but spells the number shown. */
  lemma FoundWhereShown(state: State, changed: set<nat>, c: Cond, v: string)
    requires v != "" && c.term.Level? && c.term.op != Ne && c.term.kind == Bits && 1 <= c.term.width <= 65536
    requires ParseTarget(Shows(v, Bits, c.term.width)) == Success(c.term.target)
    ensures TermHolds(state, changed, c) <==>
            && c.sid in state && state[c.sid] != ""
            && (Shows(state[c.sid], Bits, c.term.width) == Shows(v, Bits, c.term.width)
                || LongTwin(state[c.sid], v, c.term.width))
  {
    var w := c.term.width;
    if c.sid in state {
      if state[c.sid] == "" {
        EmptyNotFound(state, changed, c, v);
      } else {
        MatchesShown(state[c.sid], v, w, c.term.target);
      }
    }
  }

  lemma MatchesShown(raw: string, v: string, w: nat, t: Target)
    requires v != "" && raw != "" && 1 <= w <= 65536 && ParseTarget(Shows(v, Bits, w)) == Success(t)
    ensures ValueMatches(Some(raw), raw, t, w) <==> Shows(raw, Bits, w) == Shows(v, Bits, w) || LongTwin(raw, v, w)
  {
    DisplayReads(v, Bits, w);
    DisplayReads(raw, Bits, w);
    var t' := DisplayIsTarget(v, w);
    TwinIsLong(v, raw, w);
  }

  /** The target read from a display: the number shown, or all bits as a mask. */
  lemma ShownTarget(v: string, width: nat, t: Target)
    requires v != "" && 1 <= width <= 65536 && ParseTarget(Shows(v, Bits, width)) == Success(t)
    ensures ShowsNumber(v, width) ==> t.num.Some? && Val(t.num.value) == Number(v)
    ensures !ShowsNumber(v, width) ==> t == Target(Spelled(v, width), None)
  {
    var e := ShownBits(v, width);
    DisplayReads(v, Bits, width);
    SpelledClean(v, width);
    ShownIsSpelled(v, width);
    if AllBits(e) {
      var t' := CleanTarget(e, width);
      NumberShown(e, width);
    } else {
      MaskTarget(e);
    }
  }

  lemma NumberShown(e: string, w: nat)
    requires AllBits(e) && |e| == w && 1 <= w <= 65536
    ensures var text := if w == 1 then e else "0x" + BinaryToHexUnpadded(e).value;
            BinaryToHexUnpadded(e).Some? && Names(text, BinVal(e)) && ReadAs(text, BinVal(e))
  {
    HexIsWritten(e);
    if w == 1 {
      BitNamed(e);
      NumbersAreRead(e, BinVal(e));
    } else {
      HexOfBits(e);
      HexNamed(BinVal(e));
      NumbersAreRead("0x" + Written(16, BinVal(e)), BinVal(e));
    }
  }

  lemma BitNamed(e: string)
    requires AllBits(e) && |e| == 1
    ensures DecimalText(e, BinVal(e))
  {
    BitTarget(e);
    DigitTests(e);
    assert IsBit(e[0]);
    assert AllChars(IsDigit, e);
    NumberTextIs(10, e, BinVal(e));
  }

  lemma HexNamed(n: nat)
    requires |Written(16, n)| <= 16384
    ensures HexText("0x" + Written(16, n), n)
  {
    var text := "0x" + Written(16, n);
    assert text[2..] == Written(16, n);
    assert text[2..] == Repeat('0', 0) + Written(16, n);
  }

  lemma EmptyNotFound(state: State, changed: set<nat>, c: Cond, v: string)
    requires v != "" && c.term.Level? && c.term.op != Ne && c.term.kind == Bits && 1 <= c.term.width <= 65536
    requires ParseTarget(Shows(v, Bits, c.term.width)) == Success(c.term.target)
    requires c.sid in state && state[c.sid] == ""
    ensures !TermHolds(state, changed, c)
  {
    var w := c.term.width;
    TermMeets(state, changed, c, Shows(v, Bits, w));
    ShownTarget(v, w, c.term.target);
    if !ShowsNumber(v, w) {
      var off := UnknownBit(v, w);
      assert Asks(c.term.target.raw, w, off);
    }
  }

  /** A display that is no number has an unknown letter. */
  lemma UnknownBit(v: string, w: nat) returns (off: nat)
    requires w > 0 && !ShowsNumber(v, w)
    ensures off < w && !IsKnown(LevelAt(v, w, off)) && MaskAt(Spelled(v, w), off) == Letter(LevelAt(v, w, off))
  {
    if |v| > w {
      off := 0;
    } else {
      var i :| 0 <= i < |v| && !IsKnown(LevelOf(v[i]));
      off := |v| - 1 - i;
    }
  }

  /** Different holds, for a number shown, where a known value spells another
      number; and for a display with unknown bits, where a number is shown. */
  lemma DifferentFromShown(state: State, changed: set<nat>, c: Cond, v: string)
    requires v != "" && c.term.Level? && c.term.op == Ne && c.term.kind == Bits && 1 <= c.term.width <= 65536
    requires ParseTarget(Shows(v, Bits, c.term.width)) == Success(c.term.target)
    ensures TermHolds(state, changed, c) <==>
            && c.sid in state
            && if ShowsNumber(v, c.term.width)
               then Known(state[c.sid]) && (state[c.sid] == "" || Number(state[c.sid]) != Number(v))
               else ShowsNumber(state[c.sid], c.term.width)
  {
    var w, t := c.term.width, c.term.target;
    TermMeets(state, changed, c, Shows(v, Bits, w));
    ShownTarget(v, w, t);
    if c.sid in state && !ShowsNumber(v, w) {
      FullMask(state[c.sid], v, w);
    }
  }

  lemma FullMask(raw: string, v: string, w: nat)
    requires w > 0 && !ShowsNumber(v, w)
    ensures var t := Target(Spelled(v, w), None);
            && (Decided(raw, t, w) <==> ShowsNumber(raw, w))
            && (Decided(raw, t, w) ==> !Reads(raw, t, w))
  {
    var t := Target(Spelled(v, w), None);
    forall off: nat ensures Asks(t.raw, w, off) <==> off < w {
      assert off < w ==> MaskAt(t.raw, off) == Letter(LevelAt(v, w, off));
    }
    var off := UnknownBit(v, w);
    assert Asks(t.raw, w, off);
    AllDecided(raw, w);
  }

  /** All bits are levels exactly if the value shows as a number. */
  lemma AllDecided(raw: string, w: nat)
    requires w > 0
    ensures (forall off: nat :: off < w ==> IsKnown(LevelIn(raw, w, off))) <==> ShowsNumber(raw, w)
  {
    if !ShowsNumber(raw, w) {
      var off := UnknownBit(raw, w);
      assert !IsKnown(LevelIn(raw, w, off));
    } else {
      forall off: nat | off < w ensures IsKnown(LevelIn(raw, w, off)) {}
    }
  }
}
