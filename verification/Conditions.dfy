/** Condition targets and how recorded values match them.  Texts are ASCII and
    already trimmed and lower-cased. */
module Conditions {
  import opened Wrappers
  import opened BigNat

  const MAX_SIGNAL_WIDTH := 65536
  const MAX_VALUE_ARG_LEN := MAX_SIGNAL_WIDTH + 2
  const MAX_DECIMAL_VALUE_DIGITS := 100
  const MAX_HEX_VALUE_DIGITS := (MAX_SIGNAL_WIDTH + 3) / 4

  datatype Op = Eq | EqEq | Ne

  /** `num` is present for targets matched as numbers; without it `raw` is a
      bit pattern over 0, 1, x, z and the don't-care `?`. */
  datatype Target = Target(raw: string, num: Option<seq<Limb>>)

  datatype TargetError =
    | Empty | TooLong | Negative | HexEmpty | HexTooWide | HexInvalid | BinaryEmpty | BinaryTooWide
    | BinaryInvalid | Signed | DecimalTooLong | LiteralTooWide | MaskNeedsPrefix | Invalid

  // ----- reading targets -----

  predicate IsDigit(c: char) { '0' <= c <= '9' }

  predicate IsHexDigit(c: char) { IsDigit(c) || 'a' <= c <= 'f' }

  predicate IsBit(c: char) { c == '0' || c == '1' }

  predicate Is4State(c: char) { IsBit(c) || c == 'x' || c == 'z' }

  predicate AllChars(p: char -> bool, s: string) {
    forall i :: 0 <= i < |s| ==> p(s[i])
  }

  predicate IsMaskBits(s: string) {
    s != "" && forall i :: 0 <= i < |s| ==> Is4State(s[i]) || s[i] == '?'
  }

  /** The value of a digit character in bases up to 16. */
  function DigitValue(c: char): Limb {
    if IsDigit(c) then (c as int) - ('0' as int)
    else if 'a' <= c <= 'f' then 10 + (c as int) - ('a' as int)
    else 0
  }

  function Digits(s: string): (r: seq<Limb>)
    ensures |r| == |s| && forall i :: 0 <= i < |r| ==> r[i] == DigitValue(s[i])
  {
    seq(|s|, i requires 0 <= i < |s| => DigitValue(s[i]))
  }

  function ParseBinaryBody(body: string): Result<Target, TargetError> {
    if body == "" then Failure(BinaryEmpty)
    else if |body| > MAX_SIGNAL_WIDTH then Failure(BinaryTooWide)
    else if AllChars(IsBit, body) then Success(Target("b" + body, Some(FromDigits(2, Digits(body)))))
    else if IsMaskBits(body) then Success(Target(body, None))
    else Failure(BinaryInvalid)
  }

  function ParseTarget(raw: string): Result<Target, TargetError> {
    if raw == "" then Failure(Empty)
    else if |raw| > MAX_VALUE_ARG_LEN then Failure(TooLong)
    else if raw[0] == '-' then Failure(Negative)
    else if "0x" <= raw then
      var body := raw[2..];
      if body == "" then Failure(HexEmpty)
      else if |body| > MAX_HEX_VALUE_DIGITS then Failure(HexTooWide)
      else if AllChars(IsHexDigit, body) then Success(Target(raw, Some(FromDigits(16, Digits(body)))))
      else Failure(HexInvalid)
    else if "0b" <= raw then ParseBinaryBody(raw[2..])
    else if raw[0] == 'b' then ParseBinaryBody(raw[1..])
    else if raw[0] == '+' then Failure(Signed)
    else if AllChars(IsDigit, raw) then
      if |raw| > MAX_DECIMAL_VALUE_DIGITS then Failure(DecimalTooLong)
      else Success(Target(raw, Some(FromDigits(10, Digits(raw)))))
    else if |raw| > MAX_SIGNAL_WIDTH then Failure(LiteralTooWide)
    else if AllChars(Is4State, raw) then Success(Target(raw, None))
    else if IsMaskBits(raw) then Failure(MaskNeedsPrefix)
    else Failure(Invalid)
  }

  // ----- de-duplication key -----

  /** The value as written, and whether it is a number. */
  function DedupKey(t: Target): string {
    t.raw + ":" + if t.num.Some? then "true" else "false"
  }

  /** The number a written target stands for. */
  function NumberWritten(raw: string): seq<Limb> {
    if "0x" <= raw then FromDigits(16, Digits(raw[2..]))
    else if "b" <= raw then FromDigits(2, Digits(raw[1..]))
    else FromDigits(10, Digits(raw))
  }

  lemma BinaryWritten(body: string, t: Target)
    requires ParseBinaryBody(body) == Success(t)
    ensures t.num.Some? ==> t.num.value == NumberWritten(t.raw)
  {
    var raw := "b" + body;
    assert raw[0] == 'b' && raw[1..] == body;
    assert !("0x" <= raw) && "b" <= raw;
  }

  lemma NumberFromText(text: string, t: Target)
    requires ParseTarget(text) == Success(t)
    ensures t.num.Some? ==> t.num.value == NumberWritten(t.raw)
  {
    if "0x" <= text {
      assert t.raw == text;
    } else if "0b" <= text {
      BinaryWritten(text[2..], t);
    } else if text[0] == 'b' {
      BinaryWritten(text[1..], t);
    } else {
      assert !("b" <= text);
    }
  }

  lemma KeyDetermines(a: Target, b: Target)
    requires DedupKey(a) == DedupKey(b)
    ensures a.raw == b.raw && a.num.Some? == b.num.Some?
  {
    var k := DedupKey(a);
    assert k[|k| - 5] == if a.num.Some? then ':' else 'f';
    assert k[|k| - 5] == if b.num.Some? then ':' else 'f';
    var n := |k| - if a.num.Some? then 5 else 6;
    assert a.raw == k[..n] && b.raw == k[..n];
  }

  /** Equal keys mean equal targets, for whatever two texts they were read
      from. */
  lemma EqualKeysEqualTargets(text: string, text': string, t: Target, t': Target)
    requires ParseTarget(text) == Success(t) && ParseTarget(text') == Success(t')
    ensures DedupKey(t) == DedupKey(t') <==> t == t'
  {
    NumberFromText(text, t);
    NumberFromText(text', t');
    if DedupKey(t) == DedupKey(t') {
      KeyDetermines(t, t');
    }
  }

  // ----- matching recorded values -----

  function LowerChar(c: char): char {
    if 'A' <= c <= 'Z' then c + ' ' else c
  }

  /** A recorded bit in the 4-state alphabet: weak levels count as strong
      ones, everything that is no level counts as unknown. */
  function NormBit(b: char): (r: char)
    ensures Is4State(r)
  {
    var c := LowerChar(b);
    if c == '0' || c == 'l' then '0'
    else if c == '1' || c == 'h' then '1'
    else if c == 'z' then 'z'
    else 'x'
  }

  function Normalize4State(bits: string): (r: string)
    ensures |r| == |bits| && forall i :: 0 <= i < |r| ==> r[i] == NormBit(bits[i])
  {
    seq(|bits|, i requires 0 <= i < |bits| => NormBit(bits[i]))
  }

  predicate IsCleanBinary(bits: string) {
    bits != "" && forall i :: 0 <= i < |bits| ==> IsBit(NormBit(bits[i]))
  }

  predicate HasUnknown(bits: Option<string>) {
    bits.Some? && exists i :: 0 <= i < |bits.value| && !IsBit(NormBit(bits.value[i]))
  }

  /** Left extension: an unknown top bit is repeated, anything else pads 0. */
  function PadOf(top: char): char {
    if top == 'x' || top == 'z' then top else '0'
  }

  /** Bit `off` (from the right) of a recorded value read at `width` bits. */
  function ValueBit(v: string, width: nat, off: nat): char {
    if off >= width then '0'
    else if |v| > width then 'x'
    else if off < |v| then NormBit(v[|v| - 1 - off])
    else if v == "" then '0'
    else PadOf(NormBit(v[0]))
  }

  function PatternBit(p: string, off: nat): char {
    if off < |p| then p[|p| - 1 - off] else if p == "" then '0' else PadOf(p[0])
  }

  function Span(p: string, width: nat): nat {
    if width < |p| then |p| else width
  }

  /** Every cared bit of the pattern equals the value's bit. */
  predicate PatternEqual(v: string, p: string, width: nat) {
    forall off :: 0 <= off < Span(p, width) ==>
                    PatternBit(p, off) == '?' || ValueBit(v, width, off) == PatternBit(p, off)
  }

  predicate IsUnknown(c: char) { c == 'x' || c == 'z' }

  /** Some cared bit of the value is unknown. */
  predicate CaredUnknown(v: string, p: string, width: nat) {
    exists off :: 0 <= off < Span(p, width) && PatternBit(p, off) != '?' && IsUnknown(ValueBit(v, width, off))
  }

  /** The single pass that computes both outcomes. */
  method PatternCompare(v: string, p: string, width: nat) returns (equal: bool, caredUnknown: bool)
    ensures equal <==> PatternEqual(v, p, width)
    ensures caredUnknown <==> CaredUnknown(v, p, width)
  {
    equal, caredUnknown := true, false;
    for off := 0 to Span(p, width)
      invariant equal <==> forall o :: 0 <= o < off ==>
                                         PatternBit(p, o) == '?' || ValueBit(v, width, o) == PatternBit(p, o)
      invariant caredUnknown <==>
                exists o :: 0 <= o < off && PatternBit(p, o) != '?' && IsUnknown(ValueBit(v, width, o))
    {
      var pb := PatternBit(p, off);
      if pb == '?' {
        continue;
      }
      var vb := ValueBit(v, width, off);
      if vb == 'x' || vb == 'z' {
        caredUnknown := true;
      }
      if vb != pb {
        equal := false;
      }
    }
  }

  /** `bits` is present for logic values. */
  predicate ValueMatches(bits: Option<string>, raw: string, target: Target, width: nat) {
    match target.num
    case Some(n) =>
      bits.Some? && IsCleanBinary(bits.value) && FromDigits(2, Digits(Normalize4State(bits.value))) == n
    case None =>
      if bits.Some? then PatternEqual(bits.value, target.raw, width) else raw == target.raw
  }

  predicate ConditionMatch(bits: Option<string>, raw: Option<string>, op: Op, target: Target, width: nat) {
    match raw
    case None => false
    case Some(r) =>
      match op
      case Eq => ValueMatches(bits, r, target, width)
      case EqEq => ValueMatches(bits, r, target, width)
      case Ne =>
        if target.num.None? && bits.Some? then
          !CaredUnknown(bits.value, target.raw, width) && !PatternEqual(bits.value, target.raw, width)
        else if HasUnknown(bits) then false
        else !ValueMatches(bits, r, target, width)
  }
}
