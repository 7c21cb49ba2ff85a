/** Arbitrary-precision naturals as little-endian base-2^32 limbs. */
module BigNat {
  const B := 0x1_0000_0000

  type Limb = x: int | 0 <= x < 0x1_0000_0000

  /** The natural a list of limbs stands for. */
  function Val(limbs: seq<Limb>): nat {
    if limbs == [] then 0 else limbs[0] + B * Val(limbs[1..])
  }

  /** A carry spilled into fresh limbs. */
  function Spill(carry: nat): (r: seq<Limb>)
    ensures Val(r) == carry
    decreases carry
  {
    if carry == 0 then []
    else
      assert B * (carry / B) + carry % B == carry;
      [carry % B] + Spill(carry / B)
  }

  /** `limbs * mul + carry`, limb by limb. */
  function Scaled(limbs: seq<Limb>, mul: Limb, carry: Limb): (r: seq<Limb>)
    ensures Val(r) == Val(limbs) * mul + carry
  {
    if limbs == [] then Spill(carry)
    else
      var v := limbs[0] * mul + carry;
      CarryFits(limbs[0], mul, carry);
      ScaledValue(limbs, mul, carry);
      [v % B] + Scaled(limbs[1..], mul, v / B)
  }

  /** One limb's product plus carry fits 64 bits, and its upper half is a
      limb again. */
  lemma CarryFits(limb: Limb, mul: Limb, carry: Limb)
    ensures 0 <= limb * mul + carry < B * B
    ensures 0 <= (limb * mul + carry) / B < B
  {
    ProductBound(limb, mul, carry, B);
    QuotientBound(limb * mul + carry, B);
  }

  lemma ProductBound(x: nat, y: nat, c: nat, b: nat)
    requires x < b && y < b && c < b
    ensures 0 <= x * y + c < b * b
  {
    MulMonotone(x, b - 1, y);
    MulMonotone(y, b - 1, b - 1);
    assert (b - 1) * (b - 1) == b * b - 2 * b + 1;
  }

  lemma MulMonotone(x: nat, x': nat, y: nat)
    requires x <= x'
    ensures x * y <= x' * y && y * x <= y * x' && 0 <= x * y
  {}

  lemma QuotientBound(v: nat, b: nat)
    requires 0 < b && v < b * b
    ensures 0 <= v / b < b
  {
    var q := v / b;
    assert b * q <= v;
    if q >= b {
      MulMonotone(b, q, b);
    }
  }

  lemma ScaledStep(limbs: seq<Limb>, i: nat, mul: Limb, carry: Limb)
    requires i < |limbs|
    ensures var v := limbs[i] * mul + carry;
            0 <= v / B < B && Scaled(limbs[i..], mul, carry) == [v % B] + Scaled(limbs[i + 1..], mul, v / B)
  {
    CarryFits(limbs[i], mul, carry);
    assert limbs[i..][0] == limbs[i] && limbs[i..][1..] == limbs[i + 1..];
  }

  lemma InPlaceStep(done: seq<Limb>, was: seq<Limb>, i: nat, mul: Limb, carry: Limb)
    requires i < |was|
    ensures var v := was[i] * mul + carry;
            && 0 <= v / B < B
            && done + Scaled(was[i..], mul, carry) == done + [v % B] + Scaled(was[i + 1..], mul, v / B)
  {
    ScaledStep(was, i, mul, carry);
  }

  lemma OverwriteStep(limbs: seq<Limb>, done: seq<Limb>, was: seq<Limb>, i: nat, low: Limb)
    requires |done| == i < |was| && limbs == done + was[i..]
    ensures limbs[i] == was[i] && limbs[i := low] == done + [low] + was[i + 1..]
  {}

  lemma ScaledValue(limbs: seq<Limb>, mul: Limb, carry: Limb)
    requires limbs != []
    ensures var v := limbs[0] * mul + carry;
            v % B + B * (Val(limbs[1..]) * mul + v / B) == Val(limbs) * mul + carry
  {
    Distribute(limbs[0], Val(limbs[1..]), mul, carry, B);
  }

  lemma Distribute(low: nat, high: nat, mul: nat, carry: nat, b: nat)
    requires 0 < b
    ensures var v := low * mul + carry;
            v % b + b * (high * mul + v / b) == (low + b * high) * mul + carry
  {
    var v := low * mul + carry;
    assert v % b + b * (v / b) == v;
    assert b * (high * mul + v / b) == b * (high * mul) + b * (v / b);
    assert (low + b * high) * mul == low * mul + b * (high * mul);
  }

  /** Limbs without zeros at the top. */
  function Trimmed(limbs: seq<Limb>): (r: seq<Limb>)
    ensures r == [] || r[|r| - 1] != 0
  {
    if limbs != [] && limbs[|limbs| - 1] == 0 then Trimmed(limbs[..|limbs| - 1]) else limbs
  }

  lemma {:induction false} TopZero(limbs: seq<Limb>)
    ensures Val(limbs + [0]) == Val(limbs)
  {
    if limbs != [] {
      assert (limbs + [0])[1..] == limbs[1..] + [0];
      TopZero(limbs[1..]);
    }
  }

  lemma {:induction false} TrimmedVal(limbs: seq<Limb>)
    ensures Val(Trimmed(limbs)) == Val(limbs)
  {
    if limbs != [] && limbs[|limbs| - 1] == 0 {
      var rest := limbs[..|limbs| - 1];
      assert limbs == rest + [0];
      TopZero(rest);
      TrimmedVal(rest);
    }
  }

  /** Normalized limbs are equal exactly when their values are. */
  lemma {:induction false} LimbsUnique(a: seq<Limb>, b: seq<Limb>)
    requires a == [] || a[|a| - 1] != 0
    requires b == [] || b[|b| - 1] != 0
    requires Val(a) == Val(b)
    ensures a == b
  {
    if a == [] {
      NonZero(b);
    } else if b == [] {
      NonZero(a);
    } else {
      LowLimb(a[0], Val(a[1..]), b[0], Val(b[1..]));
      LimbsUnique(a[1..], b[1..]);
      assert a == [a[0]] + a[1..] && b == [b[0]] + b[1..];
    }
  }

  lemma {:induction false} NonZero(a: seq<Limb>)
    requires a == [] || a[|a| - 1] != 0
    ensures a != [] ==> Val(a) > 0
  {
    if a != [] {
      NonZero(a[1..]);
    }
  }

  lemma LowLimb(x: Limb, p: nat, y: Limb, q: nat)
    requires x + B * p == y + B * q
    ensures x == y && p == q
  {}

  // ----- reading digits -----

  /** The natural written by `digits` in base `base`, most significant first. */
  function DigitsVal(base: nat, digits: seq<Limb>): nat {
    if digits == [] then 0
    else DigitsVal(base, digits[..|digits| - 1]) * base + digits[|digits| - 1]
  }

  /** The limbs that reading `digits` produces. */
  function FromDigits(base: Limb, digits: seq<Limb>): (r: seq<Limb>)
    ensures r == [] || r[|r| - 1] != 0
    ensures Val(r) == DigitsVal(base, digits)
  {
    TrimmedVal(Read(base, digits));
    Trimmed(Read(base, digits))
  }

  function Read(base: Limb, digits: seq<Limb>): (r: seq<Limb>)
    ensures Val(r) == DigitsVal(base, digits)
  {
    if digits == [] then []
    else Scaled(Read(base, digits[..|digits| - 1]), base, digits[|digits| - 1])
  }

  /** Two readings give the same limbs exactly when they name one number. */
  lemma SameNumber(base: Limb, digits: seq<Limb>, base': Limb, digits': seq<Limb>)
    ensures FromDigits(base, digits) == FromDigits(base', digits') <==>
            DigitsVal(base, digits) == DigitsVal(base', digits')
  {
    SameLimbs(FromDigits(base, digits), FromDigits(base', digits'),
              DigitsVal(base, digits), DigitsVal(base', digits'));
  }

  lemma SameLimbs(a: seq<Limb>, b: seq<Limb>, x: nat, y: nat)
    requires a == [] || a[|a| - 1] != 0
    requires b == [] || b[|b| - 1] != 0
    requires Val(a) == x && Val(b) == y
    ensures a == b <==> x == y
  {
    if x == y {
      LimbsUnique(a, b);
    }
  }

  /** The accumulator that the parsers update in place. */
  class BigUint {
    var limbs: seq<Limb>

    constructor ()
      ensures limbs == []
    {
      limbs := [];
    }

    method MulSmallAdd(mul: Limb, add: Limb)
      modifies this
      ensures limbs == Scaled(old(limbs), mul, add)
      ensures Val(limbs) == Val(old(limbs)) * mul + add
    {
      var left := ScaleInPlace(mul, add);
      var carry: nat := left;
      ghost var low := limbs;
      ghost var rest := Spill(carry);
      while carry > 0
        invariant limbs + Spill(carry) == low + rest
      {
        limbs := limbs + [carry % B];
        carry := carry / B;
      }
      assert limbs + [] == limbs;
    }

    /** The pass over the existing limbs; what is left over is the carry. */
    method ScaleInPlace(mul: Limb, add: Limb) returns (carry: Limb)
      modifies this
      ensures limbs + Spill(carry) == Scaled(old(limbs), mul, add)
    {
      carry := add;
      ghost var was := limbs;
      ghost var done: seq<Limb> := [];
      ghost var whole := Scaled(was, mul, add);
      assert was[0..] == was;
      for i := 0 to |limbs|
        invariant |done| == i && |limbs| == |was| && limbs == done + was[i..]
        invariant done + Scaled(was[i..], mul, carry) == whole
      {
        var v := limbs[i] * mul + carry;
        var low: Limb := v % B;
        InPlaceStep(done, was, i, mul, carry);
        OverwriteStep(limbs, done, was, i, low);
        limbs := limbs[i := low];
        carry := v / B;
        done := done + [low];
      }
      assert limbs == done && was[|was|..] == [];
    }

    method Normalize()
      modifies this
      ensures limbs == Trimmed(old(limbs))
    {
      while limbs != [] && limbs[|limbs| - 1] == 0
        invariant Trimmed(limbs) == Trimmed(old(limbs))
        decreases |limbs|
      {
        limbs := limbs[..|limbs| - 1];
      }
    }

    /** Reads digits into a fresh accumulator. */
    constructor FromDigitString(base: Limb, digits: seq<Limb>)
      ensures limbs == FromDigits(base, digits)
      ensures Val(limbs) == DigitsVal(base, digits)
    {
      limbs := [];
      new;
      for i := 0 to |digits|
        invariant limbs == Read(base, digits[..i])
      {
        assert digits[..i + 1][..i] == digits[..i];
        MulSmallAdd(base, digits[i]);
      }
      assert digits[..|digits|] == digits;
      Normalize();
    }
  }
}
