/** Numbers written out in a base. */
module Numerals {
  import opened Wrappers
  import opened BigNat
  import opened Conditions
  import opened Display

  const NUMERALS := "0123456789abcdef"

  /** `n` in base `base`, without leading zeros. */
  function Written(base: nat, n: nat): (r: string)
    requires 2 <= base <= 16
    ensures r != ""
    decreases n
  {
    if n < base then [NUMERALS[n]]
    else
      Shrinks(base, n);
      Written(base, n / base) + [NUMERALS[n % base]]
  }

  lemma Shrinks(base: nat, n: nat)
    requires 2 <= base <= n
    ensures 0 <= n / base < n && n == n / base * base + n % base && 0 < n / base
  {
    var q := n / base;
    assert n == q * base + n % base;
    assert q * 2 <= q * base by { MulMonotone(2, base, q); }
  }

  /** `c` is one of the first `base` numerals. */
  predicate Numeral(base: nat, c: char)
    requires base <= 16
  {
    exists d :: 0 <= d < base && NUMERALS[d] == c
  }

  predicate AllNumerals(base: nat, s: string)
    requires base <= 16
  {
    forall i :: 0 <= i < |s| ==> Numeral(base, s[i])
  }

  lemma NumeralValue(d: nat)
    requires d < 16
    ensures DigitValue(NUMERALS[d]) == d && (NUMERALS[d] == '0' <==> d == 0)
  {}

  lemma NumeralIs(base: nat, c: char)
    requires base <= 16
    ensures Numeral(base, c) <==> IsHexDigit(c) && DigitValue(c) < base
  {
    if Numeral(base, c) {
      var d :| 0 <= d < base && NUMERALS[d] == c;
      NumeralValue(d);
    }
    if IsHexDigit(c) && DigitValue(c) < base {
      assert NUMERALS[DigitValue(c)] == c;
    }
  }

  lemma HexCharIs(d: nat)
    requires d < 16
    ensures HexChar(d) == NUMERALS[d]
  {}

  function Value(base: nat, s: string): nat {
    DigitsVal(base, Digits(s))
  }

  lemma ValueAppend(base: nat, s: string, c: char)
    ensures Value(base, s + [c]) == Value(base, s) * base + DigitValue(c)
  {
    var t := s + [c];
    assert Digits(t)[..|s|] == Digits(s);
  }

  lemma NumeralAppend(base: nat, s: string, d: nat)
    requires d < base <= 16
    ensures Value(base, s + [NUMERALS[d]]) == Value(base, s) * base + d
    ensures AllNumerals(base, s) ==> AllNumerals(base, s + [NUMERALS[d]])
  {
    NumeralValue(d);
    ValueAppend(base, s, NUMERALS[d]);
    assert Numeral(base, NUMERALS[d]);
  }

  lemma OneNumeral(base: nat, d: nat)
    requires d < base <= 16
    ensures Value(base, [NUMERALS[d]]) == d && AllNumerals(base, [NUMERALS[d]])
    ensures [NUMERALS[d]][0] == '0' ==> d == 0
  {
    NumeralAppend(base, "", d);
    NumeralValue(d);
    assert "" + [NUMERALS[d]] == [NUMERALS[d]] && Value(base, "") == 0;
  }

  /** Reading what was written gives the number. */
  lemma {:induction false} WrittenValue(base: nat, n: nat)
    requires 2 <= base <= 16
    ensures Value(base, Written(base, n)) == n && AllNumerals(base, Written(base, n))
    ensures Written(base, n)[0] == '0' ==> n == 0
    decreases n
  {
    if n < base {
      OneNumeral(base, n);
    } else {
      Shrinks(base, n);
      WrittenValue(base, n / base);
      NumeralAppend(base, Written(base, n / base), n % base);
    }
  }

  lemma {:induction false} ZerosValue(base: nat, k: nat, s: string)
    ensures Value(base, Repeat('0', k) + s) == Value(base, s)
    decreases |s|, k
  {
    var t := Repeat('0', k) + s;
    if s != "" {
      var n := |s| - 1;
      assert t == Repeat('0', k) + s[..n] + [s[n]] && s == s[..n] + [s[n]];
      ValueAppend(base, Repeat('0', k) + s[..n], s[n]);
      ValueAppend(base, s[..n], s[n]);
      ZerosValue(base, k, s[..n]);
    } else if k > 0 {
      assert t == (Repeat('0', k - 1) + s) + ['0'];
      ValueAppend(base, Repeat('0', k - 1) + s, '0');
      ZerosValue(base, k - 1, s);
    } else {
      assert t == s;
    }
  }

  lemma LastNumeral(base: nat, s: string) returns (d: nat)
    requires base <= 16 && s != "" && AllNumerals(base, s)
    ensures d < base && s == s[..|s| - 1] + [NUMERALS[d]] && AllNumerals(base, s[..|s| - 1])
  {
    assert Numeral(base, s[|s| - 1]);
    d :| 0 <= d < base && NUMERALS[d] == s[|s| - 1];
  }

  /** Every text of numerals is a number written out, with zeros in front. */
  lemma {:induction false} WrittenSomehow(base: nat, s: string, n: nat) returns (k: nat)
    requires 2 <= base <= 16 && s != "" && AllNumerals(base, s) && n == Value(base, s)
    ensures s == Repeat('0', k) + Written(base, n)
    decreases |s|
  {
    var d := LastNumeral(base, s);
    var front := s[..|s| - 1];
    if front == "" {
      k := 0;
      FirstNumeral(base, s, d);
    } else {
      var m := Value(base, front);
      NumeralAppend(base, front, d);
      var k' := WrittenSomehow(base, front, m);
      k := OneMoreNumeral(base, front, k', m, d, n);
    }
  }

  lemma FirstNumeral(base: nat, s: string, d: nat)
    requires 2 <= base <= 16 && d < base && s == [NUMERALS[d]]
    ensures s == Repeat('0', 0) + Written(base, Value(base, s))
  {
    OneNumeral(base, d);
    assert Repeat('0', 0) + s == s;
  }

  lemma OneMoreNumeral(base: nat, front: string, k: nat, m: nat, d: nat, n: nat) returns (k': nat)
    requires 2 <= base <= 16 && d < base && n == m * base + d && front == Repeat('0', k) + Written(base, m)
    ensures front + [NUMERALS[d]] == Repeat('0', k') + Written(base, n)
  {
    if m == 0 {
      k' := k + 1;
      assert Written(base, 0) == "0" && Written(base, d) == [NUMERALS[d]];
      assert Repeat('0', k) + "0" == Repeat('0', k + 1);
    } else {
      k' := k;
      Divided(base, m, d);
      Assoc(Repeat('0', k), Written(base, m), [NUMERALS[d]]);
    }
  }

  lemma Divided(base: nat, m: nat, d: nat)
    requires 0 < base && d < base && 0 < m
    ensures base <= m * base + d && (m * base + d) / base == m && (m * base + d) % base == d
  {
    MulMonotone(1, m, base);
    var all := m * base + d;
    var q := all / base;
    assert all == q * base + all % base;
    if q < m {
      MulMonotone(q + 1, m, base);
    } else if m < q {
      MulMonotone(m + 1, q, base);
    }
  }

  /** One number has one such writing. */
  lemma WrittenOnce(base: nat, m: nat, n: nat)
    requires 2 <= base <= 16
    ensures Written(base, m) == Written(base, n) <==> m == n
  {
    WrittenValue(base, m);
    WrittenValue(base, n);
  }
}
