/** What recorded values stand for, and how they are shown. */
module Readings {
  import opened Wrappers
  import opened BigNat
  import opened Conditions
  import opened Display
  import opened Numerals
  import opened Searchable
  import opened Signals

  // ----- recorded characters -----

  datatype Level = Low | High | Floating | Undefined

  /** Weak levels count as levels, and what is no level and does not float is
      undefined. */
  function LevelOf(c: char): Level {
    if c == '0' || c == 'l' || c == 'L' then Low
    else if c == '1' || c == 'h' || c == 'H' then High
    else if c == 'z' || c == 'Z' then Floating
    else Undefined
  }

  predicate IsKnown(v: Level) {
    v == Low || v == High
  }

  function Letter(v: Level): char {
    match v
    case Low => '0'
    case High => '1'
    case Floating => 'z'
    case Undefined => 'x'
  }

  /** Every recorded character is a level. */
  predicate Known(raw: string) {
    forall i :: 0 <= i < |raw| ==> IsKnown(LevelOf(raw[i]))
  }

  /** The number that recorded levels spell, most significant first. */
  function Number(raw: string): nat {
    if raw == "" then 0
    else 2 * Number(raw[..|raw| - 1]) + if LevelOf(raw[|raw| - 1]) == High then 1 else 0
  }

  /** Bit `off`, from the right, of a value read at `width` bits.  Short values
      are extended by what they begin with, if that is no level, and else by
      low bits; values with too many bits are undefined throughout. */
  function LevelAt(raw: string, width: nat, off: nat): Level {
    if |raw| > width then Undefined
    else if off < |raw| then LevelOf(raw[|raw| - 1 - off])
    else if raw == "" || IsKnown(LevelOf(raw[0])) then Low
    else LevelOf(raw[0])
  }

  // ----- what is shown -----

  /** The display of a recorded value. */
  function Shows(raw: string, kind: ValueKind, width: nat): string {
    match kind
    case EventKind => "triggered"
    case Real => raw
    case Str => raw
    case Bits => ShowsBits(raw, if width > 1 then width else 1)
  }

  /** All characters are levels, and they fit. */
  predicate ShowsNumber(raw: string, w: nat) {
    Known(raw) && |raw| <= w
  }

  /** Such a value shows as a bit, or as a number in hexadecimal; all else shows
      bit by bit behind a `b`. */
  function ShowsBits(raw: string, w: nat): string
    requires w > 0
  {
    if !ShowsNumber(raw, w) then "b" + Spelled(raw, w)
    else if w == 1 then [if Number(raw) == 1 then '1' else '0']
    else "0x" + Written(16, Number(raw))
  }

  /** All `w` bits, most significant first. */
  function Spelled(raw: string, w: nat): (r: string)
    ensures |r| == w
  {
    seq(w, i requires 0 <= i < w => Letter(LevelAt(raw, w, w - 1 - i)))
  }

  lemma NormBitReads(c: char)
    ensures NormBit(c) == Letter(LevelOf(c))
    ensures IsBit(NormBit(c)) <==> IsKnown(LevelOf(c))
  {}

  lemma KnownIsClean(raw: string)
    ensures Known(raw) <==> AllBits(Normalize4State(raw))
    ensures IsCleanBinary(raw) <==> raw != "" && Known(raw)
    ensures HasUnknown(Some(raw)) <==> !Known(raw)
  {
    forall i | 0 <= i < |raw| ensures IsBit(NormBit(raw[i])) <==> IsKnown(LevelOf(raw[i])) {
      NormBitReads(raw[i]);
    }
  }

  lemma {:induction false} NumberIsValue(raw: string)
    requires Known(raw)
    ensures BinVal(Normalize4State(raw)) == Number(raw)
  {
    if raw == "" {
      assert Normalize4State(raw) == "";
    } else {
      var n := |raw| - 1;
      NumberIsValue(raw[..n]);
      NormBitReads(raw[n]);
      assert IsKnown(LevelOf(raw[n]));
      BinValStep(Normalize4State(raw));
      assert Normalize4State(raw)[..n] == Normalize4State(raw[..n]);
    }
  }

  /** The bits the display works on are the letters of the levels. */
  lemma ShownIsSpelled(raw: string, w: nat)
    requires w > 0
    ensures ShownBits(raw, w) == Spelled(raw, w)
  {
    forall i | 0 <= i < w ensures ShownBits(raw, w)[i] == Letter(LevelAt(raw, w, w - 1 - i)) {
      ShownLetter(raw, w, i);
    }
  }

  lemma ShownLetter(raw: string, w: nat, i: nat)
    requires i < w
    ensures ShownBits(raw, w)[i] == Letter(LevelAt(raw, w, w - 1 - i))
  {
    if raw != "" && |raw| <= w {
      NormBitReads(raw[0]);
      if i >= w - |raw| {
        NormBitReads(raw[i - (w - |raw|)]);
      }
    }
  }

  /** The display is clean exactly when all recorded characters are levels and
      they fit, and then it has their number. */
  lemma SpelledClean(raw: string, w: nat)
    requires w > 0
    ensures AllBits(ShownBits(raw, w)) <==> ShowsNumber(raw, w)
    ensures ShowsNumber(raw, w) ==> BinVal(ShownBits(raw, w)) == Number(raw)
  {
    KnownIsClean(raw);
    if raw == "" {
      assert ShownBits(raw, w) == Repeat('0', w) + "";
      LeadingZeros(w, "");
    } else {
      ShownClean(raw, w);
      if Known(raw) {
        NumberIsValue(raw);
      }
    }
  }

  lemma HexIsWritten(bits: string)
    requires AllBits(bits) && bits != ""
    ensures BinaryToHexUnpadded(bits) == Some(Written(16, BinVal(bits)))
  {
    var h, n := BinaryToHexUnpadded(bits), BinVal(bits);
    HexOfBits(bits);
    WrittenValue(16, n);
    WrittenCanonical(n);
    CanonicalUnique(h.value, Written(16, n));
  }

  lemma WrittenCanonical(n: nat)
    ensures IsCanonical(Written(16, n)) && HexVal(Written(16, n)) == n
  {
    WrittenValue(16, n);
    forall i | 0 <= i < |Written(16, n)| ensures IsHexDigit(Written(16, n)[i]) {
      NumeralIs(16, Written(16, n)[i]);
    }
    assert Written(16, 0) == "0";
  }

  lemma OneBit(bits: string)
    requires AllBits(bits) && |bits| == 1
    ensures bits == [if BinVal(bits) == 1 then '1' else '0']
  {
    BinValStep(bits);
    assert bits[..0] == "" && BinVal("") == 0;
    assert IsBit(bits[0]);
  }

  /** Every value of every kind is shown as its recorded characters say. */
  lemma DisplayReads(raw: string, kind: ValueKind, width: nat)
    ensures FmtVal(raw, kind, width) == Shows(raw, kind, width)
  {
    if kind == Bits {
      var w := if width == 0 then 1 else width;
      var e := ShownBits(raw, w);
      SpelledClean(raw, w);
      if AllBits(e) {
        HexIsWritten(e);
        if w == 1 {
          OneBit(e);
        }
      } else {
        ShownIsSpelled(raw, w);
      }
    }
  }

  lemma PlainBits(raw: string)
    requires forall i :: 0 <= i < |raw| ==> raw[i] in "01"
    ensures AllBits(raw) && Known(raw) && Normalize4State(raw) == raw && Number(raw) == Value(2, raw)
  {
    forall i | 0 <= i < |raw| ensures IsKnown(LevelOf(raw[i])) && NormBit(raw[i]) == raw[i] && IsBit(raw[i]) {
      assert raw[i] in "01";
    }
    assert Normalize4State(raw) == raw;
    NumberIsValue(raw);
  }

  /** In particular, of a value written in 0 and 1 the number is shown. */
  lemma CleanIsShown(raw: string, width: nat)
    requires raw != "" && |raw| <= width && forall i :: 0 <= i < |raw| ==> raw[i] in "01"
    ensures width == 1 ==> FmtVal(raw, Bits, width) == raw
    ensures width > 1 ==>
              exists h :: FmtVal(raw, Bits, width) == "0x" + h && AllNumerals(16, h) && HexVal(h) == Value(2, raw)
  {
    PlainBits(raw);
    DisplayReads(raw, Bits, width);
    WrittenValue(16, Number(raw));
    if width == 1 {
      OneBit(raw);
    } else {
      assert HexVal(Written(16, Number(raw))) == Value(2, raw);
    }
  }
}
