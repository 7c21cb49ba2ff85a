/** What is displayed can be searched for. */
module Searchable {
  import opened Wrappers
  import opened BigNat
  import opened Conditions
  import opened Display

  // ----- digit strings and their values -----

  lemma DigitsPrefix(s: string, n: nat)
    requires n <= |s|
    ensures Digits(s)[..n] == Digits(s[..n])
  {}

  lemma BinValStep(s: string)
    requires s != ""
    ensures BinVal(s) == 2 * BinVal(s[..|s| - 1]) + DigitValue(s[|s| - 1])
  {
    DigitsPrefix(s, |s| - 1);
  }

  lemma HexValStep(s: string)
    requires s != ""
    ensures HexVal(s) == 16 * HexVal(s[..|s| - 1]) + DigitValue(s[|s| - 1])
  {
    DigitsPrefix(s, |s| - 1);
  }

  /** Bit strings of one length are equal when their values are. */
  lemma {:induction false} BitsUnique(a: string, b: string)
    requires AllBits(a) && AllBits(b) && |a| == |b|
    ensures a == b <==> BinVal(a) == BinVal(b)
  {
    if a != "" && BinVal(a) == BinVal(b) {
      BinValStep(a);
      BinValStep(b);
      var n := |a| - 1;
      BitsUnique(a[..n], b[..n]);
      assert a == a[..n] + [a[n]] && b == b[..n] + [b[n]];
    }
  }

  lemma {:induction false} LeadingZeros(n: nat, s: string)
    ensures BinVal(Repeat('0', n) + s) == BinVal(s)
  {
    var t := Repeat('0', n) + s;
    if s != "" {
      BinValStep(t);
      BinValStep(s);
      assert t[..|t| - 1] == Repeat('0', n) + s[..|s| - 1];
      LeadingZeros(n, s[..|s| - 1]);
    } else if n > 0 {
      BinValStep(t);
      assert t[..n - 1] == Repeat('0', n - 1) + s;
      LeadingZeros(n - 1, s);
    } else {
      assert t == s;
    }
  }

  /** Grouping bits by fours keeps the value. */
  lemma {:induction false} NibblesValue(bits: string)
    requires AllBits(bits) && |bits| % 4 == 0
    ensures HexVal(Nibbles(bits)) == BinVal(bits)
  {
    if bits != "" {
      var n := |bits| - 4;
      var low := bits[n..];
      NibbleSmall(low);
      NibblesValue(bits[..n]);
      HexDigitAppend(Nibbles(bits[..n]), BinVal(low));
      LastFour(bits);
    }
  }

  lemma HexDigitAppend(s: string, d: nat)
    requires d < 16
    ensures HexVal(s + [HexChar(d)]) == 16 * HexVal(s) + d
  {
    var t := s + [HexChar(d)];
    HexValStep(t);
    assert t[..|t| - 1] == s && t[|t| - 1] == HexChar(d);
  }

  lemma LastFour(bits: string)
    requires AllBits(bits) && |bits| >= 4
    ensures BinVal(bits) == 16 * BinVal(bits[..|bits| - 4]) + BinVal(bits[|bits| - 4..])
  {
    var n := |bits| - 4;
    NibbleSmall(bits[n..]);
    BinValStep(bits);
    BinValStep(bits[..n + 3]);
    BinValStep(bits[..n + 2]);
    BinValStep(bits[..n + 1]);
    assert bits[..n + 3][..n + 2] == bits[..n + 2];
    assert bits[..n + 2][..n + 1] == bits[..n + 1];
    assert bits[..n + 1][..n] == bits[..n];
  }

  predicate AllHex(s: string) {
    forall i :: 0 <= i < |s| ==> IsHexDigit(s[i])
  }

  lemma {:induction false} TrimZerosValue(s: string)
    requires AllHex(s)
    ensures HexVal(TrimZeros(s)) == HexVal(s) && AllHex(TrimZeros(s)) && |TrimZeros(s)| <= |s|
    ensures TrimZeros(s) != "" ==> TrimZeros(s)[0] != '0'
  {
    if s != "" && s[0] == '0' {
      TrimZerosValue(s[1..]);
      LeadingHexZero(s);
    }
  }

  lemma {:induction false} LeadingHexZero(s: string)
    requires s != "" && s[0] == '0'
    ensures HexVal(s) == HexVal(s[1..])
  {
    HexValStep(s);
    if |s| > 1 {
      HexValStep(s[1..]);
      assert s[1..][..|s| - 2] == s[..|s| - 1][1..];
      LeadingHexZero(s[..|s| - 1]);
    } else {
      assert s[..0] == "" && s[1..] == "";
    }
  }

  ghost predicate IsCanonical(h: string) {
    AllHex(h) && h != "" && (|h| == 1 || h[0] != '0')
  }

  lemma CanonicalValue(h: string)
    requires AllHex(h)
    ensures IsCanonical(Canonical(h)) && HexVal(Canonical(h)) == HexVal(h)
    ensures |Canonical(h)| <= |h| || |Canonical(h)| == 1
  {
    TrimZerosValue(h);
    assert HexVal("0") == HexVal("") by { HexValStep("0"); }
  }

  lemma {:induction false} LeadingNonZero(h: string)
    requires AllHex(h) && h != "" && h[0] != '0'
    ensures HexVal(h) >= 1
  {
    HexValStep(h);
    if |h| > 1 {
      LeadingNonZero(h[..|h| - 1]);
    }
  }

  lemma HexDigitUnique(a: char, b: char)
    requires IsHexDigit(a) && IsHexDigit(b) && DigitValue(a) == DigitValue(b)
    ensures a == b
  {}

  /** Canonical hex texts are equal when their values are. */
  lemma {:induction false} CanonicalUnique(a: string, b: string)
    requires IsCanonical(a) && IsCanonical(b) && HexVal(a) == HexVal(b)
    ensures a == b
  {
    HexValStep(a);
    HexValStep(b);
    var m, n := |a| - 1, |b| - 1;
    HexDigitUnique(a[m], b[n]);
    if m > 0 {
      LeadingNonZero(a[..m]);
    }
    if n > 0 {
      LeadingNonZero(b[..n]);
    }
    if m > 0 && n > 0 {
      CanonicalUnique(a[..m], b[..n]);
    }
    assert a == a[..m] + [a[m]] && b == b[..n] + [b[n]];
  }

  // ----- what is shown -----

  /** Hex rendering is injective on bit strings of one length. */
  lemma HexShown(a: string, b: string)
    requires AllBits(a) && AllBits(b) && |a| == |b| > 0
    ensures BinaryToHexUnpadded(a) == BinaryToHexUnpadded(b) <==> a == b
  {
    HexOfBits(a);
    HexOfBits(b);
    BitsUnique(a, b);
  }

  lemma HexOfBits(a: string)
    requires AllBits(a) && a != ""
    ensures var h := BinaryToHexUnpadded(a);
            h.Some? && IsCanonical(h.value) && HexVal(h.value) == BinVal(a) && |h.value| <= (|a| + 3) / 4
  {
    var p := PadTo4(a);
    LeadingZeros((4 - |a| % 4) % 4, a);
    NibblesValue(p);
    CanonicalValue(Nibbles(p));
  }

  lemma ShownBit(v: string, w: nat, off: nat)
    requires v != "" && off < w
    ensures ShownBits(v, w)[w - 1 - off] == ValueBit(v, w, off)
  {}

  /** A fully spelled pattern matches exactly the values shown that way. */
  lemma PatternShown(v: string, e: string, w: nat)
    requires v != "" && w > 0 && |e| == w && AllChars(Is4State, e)
    ensures PatternEqual(v, e, w) <==> ShownBits(v, w) == e
  {
    forall off | 0 <= off < w
      ensures ValueBit(v, w, off) == ShownBits(v, w)[w - 1 - off] && PatternBit(e, off) == e[w - 1 - off]
      ensures PatternBit(e, off) != '?'
    {
      ShownBit(v, w, off);
      assert Is4State(e[w - 1 - off]);
    }
    if PatternEqual(v, e, w) {
      forall i | 0 <= i < w ensures ShownBits(v, w)[i] == e[i] {
        var off := w - 1 - i;
        assert PatternBit(e, off) == '?' || ValueBit(v, w, off) == PatternBit(e, off);
      }
    }
  }

  lemma MaskTarget(e: string)
    requires AllChars(Is4State, e) && !AllBits(e) && |e| <= MAX_SIGNAL_WIDTH
    ensures ParseTarget("b" + e) == Success(Target(e, None))
  {
    var text := "b" + e;
    assert text[0] == 'b' && text[1..] == e;
    assert !("0x" <= text) && !("0b" <= text);
    if AllChars(IsBit, e) {
      assert AllBits(e);
    }
    assert IsMaskBits(e) by {
      assert forall i :: 0 <= i < |e| ==> Is4State(e[i]);
    }
  }

  lemma HexTarget(h: string)
    requires AllHex(h) && h != "" && |h| <= MAX_HEX_VALUE_DIGITS
    ensures ParseTarget("0x" + h) == Success(Target("0x" + h, Some(FromDigits(16, Digits(h)))))
  {
    var text := "0x" + h;
    assert text[0] == '0' && text[2..] == h;
    assert AllChars(IsHexDigit, h);
  }

  lemma BitTarget(e: string)
    requires AllBits(e) && |e| == 1
    ensures ParseTarget(e) == Success(Target(e, Some(FromDigits(10, Digits(e)))))
    ensures DigitsVal(10, Digits(e)) == BinVal(e)
  {
    assert IsBit(e[0]);
    assert AllChars(IsDigit, e);
    var d := Digits(e);
    assert d[..|d| - 1] == [];
    assert DigitsVal(10, d[..|d| - 1]) == 0 && DigitsVal(2, d[..|d| - 1]) == 0;
  }

  /** A value is shown without unknowns exactly when all its bits are levels
      and it is not over-long. */
  lemma ShownClean(v: string, w: nat)
    requires v != "" && w > 0
    ensures AllBits(ShownBits(v, w)) <==> IsCleanBinary(v) && |v| <= w
    ensures AllBits(ShownBits(v, w)) ==> BinVal(ShownBits(v, w)) == BinVal(Normalize4State(v))
  {
    var e, n := ShownBits(v, w), Normalize4State(v);
    if |v| <= w {
      var k := w - |v|;
      assert e == Repeat(PadOf(n[0]), k) + n;
      if IsCleanBinary(v) {
        assert IsBit(NormBit(v[0]));
        LeadingZeros(k, n);
      } else {
        var i :| 0 <= i < |v| && !IsBit(NormBit(v[i]));
        assert e[k + i] == n[i];
      }
    } else {
      assert e[0] == 'x';
    }
  }

  /** Numeric targets: a value matches exactly when it is clean and has the
      number's value. */
  lemma NumberMatches(v: string, digits: seq<Limb>, base: Limb, raw: string, w: nat)
    ensures ValueMatches(Some(v), v, Target(raw, Some(FromDigits(base, digits))), w) <==>
            IsCleanBinary(v) && BinVal(Normalize4State(v)) == DigitsVal(base, digits)
  {
    SameNumber(2, Digits(Normalize4State(v)), base, digits);
  }

  /** The target read back from a clean value's display. */
  lemma CleanTarget(e: string, w: nat) returns (t: Target)
    requires AllBits(e) && |e| == w && 1 <= w <= MAX_SIGNAL_WIDTH
    ensures ParseTarget(if w == 1 then e else "0x" + BinaryToHexUnpadded(e).value) == Success(t)
    ensures BinaryToHexUnpadded(e).Some?
    ensures forall v :: ValueMatches(Some(v), v, t, w) <==> IsCleanBinary(v) && BinVal(Normalize4State(v)) == BinVal(e)
  {
    HexOfBits(e);
    if w == 1 {
      BitTarget(e);
      t := Target(e, Some(FromDigits(10, Digits(e))));
      forall v
        ensures ValueMatches(Some(v), v, t, w) <==> IsCleanBinary(v) && BinVal(Normalize4State(v)) == BinVal(e)
      {
        NumberMatches(v, Digits(e), 10, e, w);
      }
    } else {
      var h := BinaryToHexUnpadded(e).value;
      HexTarget(h);
      t := Target("0x" + h, Some(FromDigits(16, Digits(h))));
      forall v
        ensures ValueMatches(Some(v), v, t, w) <==> IsCleanBinary(v) && BinVal(Normalize4State(v)) == BinVal(e)
      {
        NumberMatches(v, Digits(h), 16, "0x" + h, w);
      }
    }
  }

  /** Two values are shown alike exactly when their shown bits agree. */
  lemma ShownAlike(v: string, v': string, w: nat)
    requires v != "" && v' != "" && w > 0
    ensures FmtBits(v, w) == FmtBits(v', w) <==> ShownBits(v, w) == ShownBits(v', w)
  {
    var e, e' := ShownBits(v, w), ShownBits(v', w);
    if AllBits(e) {
      HexOfBits(e);
      assert FmtBits(v, w)[0] == e[0] || FmtBits(v, w)[0] == '0';
    } else {
      assert FmtBits(v, w)[0] == 'b' && FmtBits(v, w)[1..] == e;
    }
    if AllBits(e') {
      HexOfBits(e');
      assert FmtBits(v', w)[0] == e'[0] || FmtBits(v', w)[0] == '0';
    } else {
      assert FmtBits(v', w)[0] == 'b' && FmtBits(v', w)[1..] == e';
    }
    if AllBits(e) && AllBits(e') && w > 1 {
      HexShown(e, e');
      assert FmtBits(v, w)[2..] == BinaryToHexUnpadded(e).value;
      assert FmtBits(v', w)[2..] == BinaryToHexUnpadded(e').value;
    }
  }

  /** The display of any value is a target, and the values it matches are
      those shown the same way, together with, for a clean display, over-long
      values that happen to have the same number. */
  lemma DisplayIsTarget(v: string, w: nat) returns (t: Target)
    requires v != "" && 1 <= w <= MAX_SIGNAL_WIDTH
    ensures ParseTarget(FmtBits(v, w)) == Success(t)
    ensures forall v' :: v' != "" ==>
                           (ValueMatches(Some(v'), v', t, w) <==>
                            || FmtBits(v, w) == FmtBits(v', w)
                            || (|v'| > w && OverLongTwin(v, v', w)))
  {
    var e := ShownBits(v, w);
    if AllBits(e) {
      t := CleanTarget(e, w);
      forall v' | v' != ""
        ensures ValueMatches(Some(v'), v', t, w) <==>
                FmtBits(v, w) == FmtBits(v', w) || (|v'| > w && OverLongTwin(v, v', w))
      {
        CleanCase(v, v', w);
      }
    } else {
      MaskTarget(e);
      t := Target(e, None);
      forall v' | v' != ""
        ensures ValueMatches(Some(v'), v', t, w) <==>
                FmtBits(v, w) == FmtBits(v', w) || (|v'| > w && OverLongTwin(v, v', w))
      {
        PatternShown(v', e, w);
        ShownAlike(v, v', w);
      }
    }
  }

  /** `v` is shown as a number, and `v'` has the same number in more bits than
      the signal has. */
  ghost predicate OverLongTwin(v: string, v': string, w: nat) {
    AllBits(ShownBits(v, w)) && IsCleanBinary(v') && BinVal(Normalize4State(v')) == BinVal(ShownBits(v, w))
  }

  lemma CleanCase(v: string, v': string, w: nat)
    requires v != "" && v' != "" && w > 0 && AllBits(ShownBits(v, w))
    ensures IsCleanBinary(v') && BinVal(Normalize4State(v')) == BinVal(ShownBits(v, w)) <==>
            FmtBits(v, w) == FmtBits(v', w) || (|v'| > w && OverLongTwin(v, v', w))
  {
    ShownAlike(v, v', w);
    ShownClean(v', w);
    if AllBits(ShownBits(v', w)) {
      BitsUnique(ShownBits(v, w), ShownBits(v', w));
    }
  }

  /** What is displayed can be searched for: for values within their declared
      width, the display of `v` matches exactly the values displayed alike. */
  lemma DisplayedMatches(v: string, v': string, w: nat)
    requires v != "" && v' != "" && 1 <= w <= MAX_SIGNAL_WIDTH
    ensures ParseTarget(FmtBits(v, w)).Success?
    ensures var t := ParseTarget(FmtBits(v, w)).value;
            && ValueMatches(Some(v), v, t, w)
            && (|v'| <= w ==> (ValueMatches(Some(v'), v', t, w) <==> FmtBits(v, w) == FmtBits(v', w)))
  {
    var t := DisplayIsTarget(v, w);
  }

  /** The width bound is needed: any clean value written with more bits than
      the signal has is displayed as unknown, yet matches the display of the
      number it spells. */
  lemma OverLongMatchesNumber(v: string, w: nat, k: nat)
    requires IsCleanBinary(v) && |v| == w <= MAX_SIGNAL_WIDTH && k > 0
    ensures var long := Repeat('0', k) + v;
            && FmtBits(v, w) != FmtBits(long, w)
            && ParseTarget(FmtBits(v, w)).Success?
            && ValueMatches(Some(long), long, ParseTarget(FmtBits(v, w)).value, w)
  {
    var long := Repeat('0', k) + v;
    PaddedTwin(v, w, k);
    ShownClean(v, w);
    ShownClean(long, w);
    ShownAlike(v, long, w);
    var t := DisplayIsTarget(v, w);
  }

  lemma PaddedTwin(v: string, w: nat, k: nat)
    requires IsCleanBinary(v) && |v| == w && k > 0
    ensures OverLongTwin(v, Repeat('0', k) + v, w)
  {
    ShownClean(v, w);
    PaddedBits(v, k);
    LeadingZeros(k, Normalize4State(v));
  }

  lemma PaddedBits(v: string, k: nat)
    ensures Normalize4State(Repeat('0', k) + v) == Repeat('0', k) + Normalize4State(v)
  {}

  /** For a target written in 0 and 1, comparing as numbers and comparing as
      patterns are the same test. */
  lemma NumbersAgreeWithPatterns(v: string, p: string, w: nat)
    requires v != "" && |v| <= w && p != "" && AllBits(p)
    ensures ValueMatches(Some(v), v, Target("b" + p, Some(FromDigits(2, Digits(p)))), w) <==> PatternEqual(v, p, w)
  {
    NumberMatches(v, Digits(p), 2, "b" + p, w);
    if IsCleanBinary(v) {
      var n, bits := Span(p, w), Normalize4State(v);
      var wide, pattern := Repeat('0', n - |v|) + bits, Repeat('0', n - |p|) + p;
      LeadingZeros(n - |v|, bits);
      LeadingZeros(n - |p|, p);
      BitsUnique(wide, pattern);
      BitByBit(v, p, w, wide, pattern);
    } else {
      var i :| 0 <= i < |v| && !IsBit(NormBit(v[i]));
      var off := |v| - 1 - i;
      assert ValueBit(v, w, off) == NormBit(v[i]);
      assert IsBit(PatternBit(p, off)) by { BitPattern(p, off); }
    }
  }

  lemma BitPattern(p: string, off: nat)
    requires p != "" && AllBits(p)
    ensures IsBit(PatternBit(p, off))
  {
    assert IsBit(p[0]);
  }

  lemma BitByBit(v: string, p: string, w: nat, wide: string, pattern: string)
    requires IsCleanBinary(v) && |v| <= w && p != "" && AllBits(p)
    requires var n := Span(p, w);
             wide == Repeat('0', n - |v|) + Normalize4State(v) && pattern == Repeat('0', n - |p|) + p
    ensures PatternEqual(v, p, w) <==> wide == pattern
  {
    var n := Span(p, w);
    assert IsBit(NormBit(v[0]));
    forall off | 0 <= off < n
      ensures ValueBit(v, w, off) == wide[n - 1 - off] && PatternBit(p, off) == pattern[n - 1 - off]
      ensures PatternBit(p, off) != '?'
    {
      BitPattern(p, off);
    }
    if PatternEqual(v, p, w) {
      forall i | 0 <= i < n ensures wide[i] == pattern[i] {
        var off := n - 1 - i;
        assert PatternBit(p, off) == '?' || ValueBit(v, w, off) == PatternBit(p, off);
      }
    }
  }
}
