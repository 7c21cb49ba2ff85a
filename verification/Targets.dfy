/** Which texts are targets, and what each of them asks for. */
module Targets {
  import opened Wrappers
  import opened BigNat
  import opened Conditions
  import opened Display
  import opened Numerals

  // ----- numbers -----

  /** A number written in a base, perhaps with zeros in front. */
  ghost predicate NumberText(base: nat, s: string, n: nat)
    requires 2 <= base <= 16
  {
    exists k: nat :: s == Repeat('0', k) + Written(base, n)
  }

  ghost predicate DecimalText(text: string, n: nat) {
    |text| <= 100 && NumberText(10, text, n)
  }

  ghost predicate HexText(text: string, n: nat) {
    |text| <= 2 + 16384 && "0x" <= text && NumberText(16, text[2..], n)
  }

  /** What follows the prefix of a binary text. */
  ghost predicate BinaryBody(text: string, body: string) {
    |body| <= 65536 && (text == "b" + body || text == "0b" + body)
  }

  ghost predicate BinaryText(text: string, n: nat) {
    exists body :: BinaryBody(text, body) && NumberText(2, body, n)
  }

  /** The three ways to write the number `n`. */
  ghost predicate Names(text: string, n: nat) {
    DecimalText(text, n) || HexText(text, n) || BinaryText(text, n)
  }

  lemma NumberTextIs(base: nat, s: string, n: nat)
    requires 2 <= base <= 16
    ensures NumberText(base, s, n) <==> s != "" && AllNumerals(base, s) && Value(base, s) == n
  {
    if NumberText(base, s, n) {
      var k: nat :| s == Repeat('0', k) + Written(base, n);
      PaddedNumber(base, k, n);
    } else if s != "" && AllNumerals(base, s) {
      var k := WrittenSomehow(base, s, Value(base, s));
    }
  }

  lemma PaddedNumber(base: nat, k: nat, n: nat)
    requires 2 <= base <= 16
    ensures var s := Repeat('0', k) + Written(base, n); s != "" && AllNumerals(base, s) && Value(base, s) == n
  {
    var w := Written(base, n);
    ZerosValue(base, k, w);
    WrittenValue(base, n);
    ZeroIsNumeral(base);
    forall i | 0 <= i < k + |w| ensures Numeral(base, (Repeat('0', k) + w)[i]) {
      assert i >= k ==> Numeral(base, w[i - k]);
    }
  }

  lemma ZeroIsNumeral(base: nat)
    requires 0 < base <= 16
    ensures Numeral(base, '0')
  {
    assert NUMERALS[0] == '0';
  }

  /** The digit tests of the parser, base by base. */
  lemma DigitTests(s: string)
    ensures AllChars(IsDigit, s) <==> AllNumerals(10, s)
    ensures AllChars(IsHexDigit, s) <==> AllNumerals(16, s)
    ensures AllChars(IsBit, s) <==> AllNumerals(2, s)
  {
    forall i | 0 <= i < |s|
      ensures IsDigit(s[i]) <==> Numeral(10, s[i])
      ensures IsHexDigit(s[i]) <==> Numeral(16, s[i])
      ensures IsBit(s[i]) <==> Numeral(2, s[i])
    {
      NumeralIs(10, s[i]);
      NumeralIs(16, s[i]);
      NumeralIs(2, s[i]);
    }
  }

  /** The text is read as a number, and that number is `n`. */
  ghost predicate ReadAs(text: string, n: nat) {
    ParseTarget(text).Success? && ParseTarget(text).value.num.Some? && Val(ParseTarget(text).value.num.value) == n
  }

  lemma BinaryRead(body: string, n: nat)
    ensures var r := ParseBinaryBody(body);
            (r.Success? && r.value.num.Some? && Val(r.value.num.value) == n) <==>
            |body| <= 65536 && NumberText(2, body, n)
  {
    NumberTextIs(2, body, n);
    DigitTests(body);
  }

  /** A target is a number exactly if its text is one of the ways to write it:
      decimal, hexadecimal behind `0x`, binary behind `b` or `0b`. */
  lemma NumbersAreRead(text: string, n: nat)
    ensures ReadAs(text, n) <==> Names(text, n)
  {
    if "0x" <= text {
      HexRead(text, n);
    } else if "0b" <= text || (text != "" && text[0] == 'b') {
      PrefixedRead(text, n);
    } else {
      DecimalRead(text, n);
    }
  }

  lemma HexRead(text: string, n: nat)
    requires "0x" <= text
    ensures ReadAs(text, n) <==> HexText(text, n)
    ensures !DecimalText(text, n) && !BinaryText(text, n)
  {
    NumberTextIs(16, text[2..], n);
    DigitTests(text[2..]);
    NotDecimal(text, 1, n);
    assert text[0] == '0' && text[1] == 'x';
  }

  lemma NotDecimal(text: string, i: nat, n: nat)
    requires i < |text| && !('0' <= text[i] <= '9')
    ensures !DecimalText(text, n)
  {
    NumberTextIs(10, text, n);
    NumeralIs(10, text[i]);
  }

  lemma Prefixes(body: string)
    ensures var text := "b" + body; text[0] == 'b' && text[1..] == body
    ensures var text := "0b" + body; text[0] == '0' && text[1] == 'b' && text[2..] == body && "0b" <= text
  {}

  lemma PrefixedRead(text: string, n: nat)
    requires "0b" <= text || (text != "" && text[0] == 'b')
    ensures ReadAs(text, n) <==> BinaryText(text, n)
    ensures !DecimalText(text, n) && !HexText(text, n)
  {
    var cut := if "0b" <= text then 2 else 1;
    BinaryRead(text[cut..], n);
    NotDecimal(text, cut - 1, n);
    assert text[cut - 1] == 'b';
    if cut == 2 {
      assert text == "0b" + text[2..];
    } else {
      assert text == "b" + text[1..];
    }
    forall body | BinaryBody(text, body) ensures body == text[cut..] {
      Prefixes(body);
    }
  }

  lemma DecimalRead(text: string, n: nat)
    requires !("0x" <= text) && !("0b" <= text) && (text == "" || text[0] != 'b')
    ensures ReadAs(text, n) <==> DecimalText(text, n)
    ensures !HexText(text, n) && !BinaryText(text, n)
  {
    NumberTextIs(10, text, n);
    DigitTests(text);
    forall body ensures !BinaryBody(text, body) {
      Prefixes(body);
    }
    if text != "" && (text[0] == '-' || text[0] == '+') {
      NotDecimal(text, 0, n);
    }
  }

  /** In whatever base two texts write one number, they ask for the same. */
  lemma OneNumberOneTarget(text: string, text': string, n: nat, n': nat)
    requires Names(text, n) && Names(text', n')
    ensures ReadAs(text, n) && ReadAs(text', n')
    ensures ParseTarget(text).value.num == ParseTarget(text').value.num <==> n == n'
  {
    NumbersAreRead(text, n);
    NumbersAreRead(text', n');
    NumberNormal(ParseTarget(text).value, text);
    NumberNormal(ParseTarget(text').value, text');
    SameLimbs(ParseTarget(text).value.num.value, ParseTarget(text').value.num.value, n, n');
  }

  lemma NumberNormal(t: Target, text: string)
    requires ParseTarget(text) == Success(t) && t.num.Some?
    ensures t.num.value == [] || t.num.value[|t.num.value| - 1] != 0
  {}

  // ----- bit patterns -----

  ghost predicate Mask(s: string) {
    s != "" && forall i :: 0 <= i < |s| ==> s[i] in "01xz?"
  }

  /** A mask that is no number. */
  ghost predicate ProperMask(mask: string) {
    Mask(mask) && |mask| <= 65536 && exists i :: 0 <= i < |mask| && mask[i] in "xz?"
  }

  /** The texts that ask for the bit pattern `mask`: behind a prefix any mask
      that is no number; bare, one without `?`. */
  ghost predicate MaskText(text: string, mask: string) {
    && ProperMask(mask)
    && (text == "b" + mask || text == "0b" + mask || (text == mask && '?' !in mask && !("0x" <= mask)))
  }

  lemma MaskTests(s: string)
    ensures IsMaskBits(s) <==> Mask(s)
    ensures AllChars(Is4State, s) <==> forall i :: 0 <= i < |s| ==> s[i] in "01xz"
    ensures AllChars(IsBit, s) <==> forall i :: 0 <= i < |s| ==> s[i] in "01"
    ensures Mask(s) ==> (AllChars(Is4State, s) <==> '?' !in s)
    ensures Mask(s) ==> (AllChars(IsBit, s) <==> !exists i :: 0 <= i < |s| && s[i] in "xz?")
  {
    forall i | 0 <= i < |s|
      ensures (Is4State(s[i]) || s[i] == '?') <==> s[i] in "01xz?"
      ensures Is4State(s[i]) <==> s[i] in "01xz"
      ensures IsBit(s[i]) <==> s[i] in "01"
    {}
  }

  /** A target is a bit pattern exactly if its text asks for that pattern. */
  lemma MasksAreRead(text: string, mask: string)
    ensures ParseTarget(text) == Success(Target(mask, None)) <==> MaskText(text, mask)
  {
    if "0x" <= text {
      NoMaskInHex(text, mask);
    } else if "0b" <= text || (text != "" && text[0] == 'b') {
      PrefixedMask(text, mask);
    } else {
      BareMask(text, mask);
    }
  }

  lemma NoMaskInHex(text: string, mask: string)
    requires "0x" <= text
    ensures !MaskText(text, mask) && ParseTarget(text) != Success(Target(mask, None))
  {
    assert text[0] == '0' && text[1] == 'x';
    Prefixes(mask);
  }

  lemma BodyMask(body: string, mask: string)
    ensures ParseBinaryBody(body) == Success(Target(mask, None)) <==> body == mask && ProperMask(mask)
  {
    MaskTests(body);
  }

  lemma PrefixedMask(text: string, mask: string)
    requires !("0x" <= text) && ("0b" <= text || (text != "" && text[0] == 'b'))
    ensures ParseTarget(text) == Success(Target(mask, None)) <==> MaskText(text, mask)
  {
    var cut := if "0b" <= text then 2 else 1;
    BodyMask(text[cut..], mask);
    PrefixedText(text, mask, cut);
    PrefixedParsed(text, cut);
  }

  lemma PrefixedText(text: string, mask: string, cut: nat)
    requires !("0x" <= text) && ("0b" <= text || (text != "" && text[0] == 'b'))
    requires cut == if "0b" <= text then 2 else 1
    ensures MaskText(text, mask) <==> text[cut..] == mask && ProperMask(mask)
  {
    Prefixes(mask);
    assert text[cut - 1] == 'b';
    assert text == text[..cut] + text[cut..] && text[..cut] == if cut == 2 then "0b" else "b";
    assert text == mask ==> !Mask(mask);
  }

  lemma PrefixedParsed(text: string, cut: nat)
    requires !("0x" <= text) && ("0b" <= text || (text != "" && text[0] == 'b'))
    requires cut == if "0b" <= text then 2 else 1
    ensures ParseBinaryBody(text[cut..]).Success? ==> ParseTarget(text) == ParseBinaryBody(text[cut..])
    ensures ParseTarget(text).Success? ==> ParseTarget(text) == ParseBinaryBody(text[cut..])
  {}

  lemma BareMask(text: string, mask: string)
    requires !("0x" <= text) && !("0b" <= text) && (text == "" || text[0] != 'b')
    ensures ParseTarget(text) == Success(Target(mask, None)) <==> MaskText(text, mask)
  {
    Prefixes(mask);
    if text != "" && (text[0] == '-' || text[0] == '+') {
      assert text == mask ==> !Mask(mask);
    } else {
      MaskTests(text);
      DigitsOrMask(text);
      BareParsed(text);
    }
  }

  lemma BareParsed(text: string)
    requires !("0x" <= text) && !("0b" <= text) && (text == "" || text[0] !in "b-+")
    ensures AllChars(IsDigit, text) ==> ParseTarget(text).Failure? || ParseTarget(text).value.num.Some?
    ensures !AllChars(IsDigit, text) ==>
              (ParseTarget(text).Success? <==> text != "" && |text| <= 65536 && AllChars(Is4State, text))
    ensures !AllChars(IsDigit, text) && ParseTarget(text).Success? ==> ParseTarget(text).value == Target(text, None)
  {}

  /** A text of `0`, `1`, `x` and `z` is decimal exactly if it has neither `x`
      nor `z`. */
  lemma DigitsOrMask(text: string)
    ensures Mask(text) ==> (AllChars(IsDigit, text) <==> !exists i :: 0 <= i < |text| && text[i] in "xz?")
  {
    forall i | 0 <= i < |text| && text[i] in "01xz?"
      ensures IsDigit(text[i]) <==> text[i] !in "xz?"
    {}
  }

  // ----- refusals -----

  /** Neither a prefix nor a sign begins the text. */
  ghost predicate Unprefixed(text: string) {
    text != "" && !("0x" <= text) && !("0b" <= text) && text[0] !in "b+-"
  }

  ghost predicate Decimal(text: string) {
    forall i :: 0 <= i < |text| ==> text[i] in "0123456789"
  }

  /** Why a text is refused, told from the text alone. */
  ghost predicate Refused(text: string, e: TargetError) {
    match e
    case Empty => text == ""
    case TooLong => 65538 < |text|
    case Negative => 0 < |text| <= 65538 && text[0] == '-'
    case Signed => 0 < |text| <= 65538 && text[0] == '+'
    case HexEmpty => text == "0x"
    case HexTooWide => "0x" <= text && 2 + 16384 < |text| <= 65538
    case HexInvalid => "0x" <= text && |text| <= 2 + 16384 && exists i :: 2 <= i < |text| && text[i] !in NUMERALS
    case BinaryEmpty => text == "b" || text == "0b"
    case BinaryTooWide => |text| == 65538 && text[0] == 'b'
    case BinaryInvalid => exists body :: BinaryBody(text, body) && NoMask(body)
    case DecimalTooLong => 100 < |text| <= 65538 && Decimal(text)
    case LiteralTooWide => 65536 < |text| <= 65538 && Unprefixed(text) && !Decimal(text)
    case MaskNeedsPrefix => |text| <= 65536 && Unprefixed(text) && Mask(text) && '?' in text
    case Invalid => |text| <= 65536 && Unprefixed(text) && !Decimal(text) && NoMask(text)
  }

  ghost predicate NoMask(s: string) {
    exists i :: 0 <= i < |s| && s[i] !in "01xz?"
  }

  /** Each refusal exactly in its case. */
  lemma RefusedExactly(text: string, e: TargetError)
    ensures ParseTarget(text) == Failure(e) <==> Refused(text, e)
  {
    if text == "" || |text| > 65538 || text[0] == '-' || text[0] == '+' {
      RefusedAtOnce(text, e);
    } else if "0x" <= text {
      HexRefused(text, e);
    } else if "0b" <= text || text[0] == 'b' {
      BinaryRefused(text, e);
    } else {
      PlainRefused(text, e);
    }
  }

  lemma RefusedAtOnce(text: string, e: TargetError)
    requires text == "" || |text| > 65538 || text[0] == '-' || text[0] == '+'
    ensures ParseTarget(text) == Failure(e) <==> Refused(text, e)
  {
    forall body ensures |text| <= 65538 ==> !BinaryBody(text, body) {
      Prefixes(body);
    }
    assert |text| > 65538 ==> forall body :: BinaryBody(text, body) ==> |text| <= 65538;
    if text != "" && (text[0] == '-' || text[0] == '+') {
      assert text[0] !in "0123456789" && text[0] !in "01xz?";
    }
  }

  lemma HexTest(body: string)
    ensures AllChars(IsHexDigit, body) <==> forall i :: 0 <= i < |body| ==> body[i] in NUMERALS
  {
    forall i | 0 <= i < |body| ensures IsHexDigit(body[i]) <==> body[i] in NUMERALS {
      NumeralIs(16, body[i]);
      InNumerals(body[i]);
    }
  }

  lemma InNumerals(c: char)
    ensures c in NUMERALS <==> Numeral(16, c)
  {}

  lemma DecimalTest(text: string)
    ensures AllChars(IsDigit, text) <==> Decimal(text)
  {
    forall i | 0 <= i < |text| ensures IsDigit(text[i]) <==> text[i] in "0123456789" {}
  }

  lemma HexRefused(text: string, e: TargetError)
    requires "0x" <= text && |text| <= 65538
    ensures ParseTarget(text) == Failure(e) <==> Refused(text, e)
  {
    HexTest(text[2..]);
    assert forall i :: 2 <= i < |text| ==> text[i] == text[2..][i - 2];
    assert text[0] == '0' && text[1] == 'x' && text[1] !in "0123456789";
    forall body ensures !BinaryBody(text, body) {
      Prefixes(body);
    }
    assert text[2..] == "" <==> text == "0x";
  }

  lemma BinaryRefused(text: string, e: TargetError)
    requires !("0x" <= text) && ("0b" <= text || (text != "" && text[0] == 'b')) && |text| <= 65538
    ensures ParseTarget(text) == Failure(e) <==> Refused(text, e)
  {
    var cut := if "0b" <= text then 2 else 1;
    var body := text[cut..];
    MaskTests(body);
    assert text[cut - 1] == 'b' && text[cut - 1] !in "0123456789";
    OnlyBody(text, cut);
  }

  lemma OnlyBody(text: string, cut: nat)
    requires !("0x" <= text) && ("0b" <= text || (text != "" && text[0] == 'b'))
    requires cut == if "0b" <= text then 2 else 1
    ensures forall body :: BinaryBody(text, body) <==> body == text[cut..] && |body| <= 65536
    ensures text[cut..] == "" <==> text == "b" || text == "0b"
  {
    assert text == text[..cut] + text[cut..] && text[..cut] == if cut == 2 then "0b" else "b";
    forall body | BinaryBody(text, body) ensures body == text[cut..] {
      Prefixes(body);
    }
  }

  lemma PlainRefused(text: string, e: TargetError)
    requires Unprefixed(text) && |text| <= 65538
    ensures ParseTarget(text) == Failure(e) <==> Refused(text, e)
  {
    DecimalTest(text);
    MaskTests(text);
    forall body ensures !BinaryBody(text, body) {
      Prefixes(body);
    }
  }
}
