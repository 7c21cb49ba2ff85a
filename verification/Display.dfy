/** How recorded values are shown. */
module Display {
  import opened Wrappers
  import opened BigNat
  import opened Conditions
  import opened Signals

  /** The natural a string of 0 and 1 stands for. */
  function BinVal(bits: string): nat {
    DigitsVal(2, Digits(bits))
  }

  function HexVal(hex: string): nat {
    DigitsVal(16, Digits(hex))
  }

  function Repeat(c: char, n: nat): (r: string)
    ensures |r| == n && forall i :: 0 <= i < n ==> r[i] == c
  {
    seq(n, i => c)
  }

  /** The bits shown for a value of `width` bits: the 4-state reading,
      left-extended, or all unknown if it has too many bits. */
  function ShownBits(raw: string, width: nat): (r: string)
    ensures width > 0 ==> |r| == width
    ensures forall i :: 0 <= i < |r| ==> Is4State(r[i])
  {
    var value := Normalize4State(raw);
    if |value| > width then Repeat('x', width)
    else
      var msb := if value == "" then '0' else value[0];
      Repeat(PadOf(msb), width - |value|) + value
  }

  predicate AllBits(s: string) {
    forall i :: 0 <= i < |s| ==> IsBit(s[i])
  }

  /** Four bits at a time, as hex digits. */
  function Nibbles(bits: string): (r: string)
    requires AllBits(bits) && |bits| % 4 == 0
    ensures |r| == |bits| / 4
    ensures forall i :: 0 <= i < |r| ==> IsHexDigit(r[i])
  {
    if bits == "" then ""
    else
      var n := |bits| - 4;
      NibbleSmall(bits[n..]);
      Nibbles(bits[..n]) + [HexChar(BinVal(bits[n..]))]
  }

  lemma NibbleSmall(bits: string)
    requires |bits| == 4
    requires AllBits(bits)
    ensures BinVal(bits) ==
            8 * DigitValue(bits[0]) + 4 * DigitValue(bits[1]) + 2 * DigitValue(bits[2]) + DigitValue(bits[3])
    ensures BinVal(bits) < 16
  {
    var d := Digits(bits);
    assert DigitsVal(2, d[..1]) == d[0] by {
      assert d[..1][..0] == [] && DigitsVal(2, []) == 0;
    }
    assert d[..2][..1] == d[..1] && d[..3][..2] == d[..2];
    assert DigitsVal(2, d[..2]) == 2 * d[0] + d[1];
    assert DigitsVal(2, d[..3]) == 4 * d[0] + 2 * d[1] + d[2];
  }

  lemma NibblesStep(bits: string, i: nat)
    requires AllBits(bits) && i + 4 <= |bits| && i % 4 == 0
    ensures BinVal(bits[i..i + 4]) < 16
    ensures Nibbles(bits[..i + 4]) == Nibbles(bits[..i]) + [HexChar(BinVal(bits[i..i + 4]))]
  {
    var p := bits[..i + 4];
    NibbleSmall(bits[i..i + 4]);
    assert p[..i] == bits[..i] && p[i..] == bits[i..i + 4];
  }

  function PadTo4(bits: string): (r: string)
    ensures |r| % 4 == 0 && |r| < |bits| + 4
    ensures AllBits(bits) ==> AllBits(r)
  {
    Repeat('0', (4 - |bits| % 4) % 4) + bits
  }

  function TrimZeros(s: string): string {
    if s != "" && s[0] == '0' then TrimZeros(s[1..]) else s
  }

  /** Leading zeros stripped, one kept for zero. */
  function Canonical(hex: string): string {
    if TrimZeros(hex) == "" then "0" else TrimZeros(hex)
  }

  function BinaryToHexUnpadded(bits: string): Option<string> {
    if bits == "" || !AllBits(bits) then None else Some(Canonical(Nibbles(PadTo4(bits))))
  }

  function FmtBits(raw: string, width: nat): string {
    var w := if width == 0 then 1 else width;
    var value := ShownBits(raw, w);
    if !AllBits(value) then "b" + value
    else if w == 1 then value
    else
      match BinaryToHexUnpadded(value)
      case Some(hex) => "0x" + hex
      case None => "b" + value
  }

  function FmtVal(raw: string, kind: ValueKind, width: nat): string {
    match kind
    case EventKind => "triggered"
    case Real => raw
    case Str => raw
    case Bits => FmtBits(raw, width)
  }

  /** The loops behind the hex rendering: pad, gather nibbles, strip zeros. */
  method HexByNibbles(bits: string) returns (hex: Option<string>)
    ensures hex == BinaryToHexUnpadded(bits)
  {
    if bits == "" || !AllBits(bits) {
      return None;
    }
    var padded := "";
    for i := 0 to (4 - |bits| % 4) % 4
      invariant padded == Repeat('0', i)
    {
      padded := padded + "0";
    }
    var text := GatherNibbles(padded + bits);
    var trimmed := StripZeros(text);
    return Some(if trimmed == "" then "0" else trimmed);
  }

  method GatherNibbles(padded: string) returns (text: string)
    requires AllBits(padded) && |padded| % 4 == 0
    ensures text == Nibbles(padded)
  {
    text := "";
    var i := 0;
    while i < |padded|
      invariant 0 <= i <= |padded| && i % 4 == 0
      invariant text == Nibbles(padded[..i])
    {
      var nib := Nibble(padded[i..i + 4]);
      NibblesStep(padded, i);
      text := text + [HexChar(nib)];
      i := i + 4;
    }
    assert padded[..|padded|] == padded;
  }

  method StripZeros(text: string) returns (r: string)
    ensures r == TrimZeros(text)
  {
    r := text;
    while r != "" && r[0] == '0'
      invariant TrimZeros(r) == TrimZeros(text)
      decreases |r|
    {
      r := r[1..];
    }
  }

  method Nibble(chunk: string) returns (nib: nat)
    requires |chunk| == 4 && AllBits(chunk)
    ensures nib == BinVal(chunk) && nib < 16
  {
    nib := 0;
    for j := 0 to 4
      invariant nib == DigitsVal(2, Digits(chunk)[..j])
    {
      assert Digits(chunk)[..j + 1][..j] == Digits(chunk)[..j];
      nib := 2 * nib + if chunk[j] == '1' then 1 else 0;
    }
    assert Digits(chunk)[..4] == Digits(chunk);
    NibbleSmall(chunk);
  }
}
