/** IEEE 754 binary64 values as 64-bit patterns: which are integers, and which integer. */
module Float64 {
  type Bits = b: int | 0 <= b < 0x1_0000_0000_0000_0000 witness 0

  function Pow2(n: nat): (r: nat)
    ensures r > 0
  {
    if n == 0 then 1 else 2 * Pow2(n - 1)
  }

  function BiasedExponent(b: Bits): nat {
    b / 0x10_0000_0000_0000 % 2048
  }

  function Fraction(b: Bits): nat {
    b % 0x10_0000_0000_0000
  }

  predicate Negative(b: Bits) {
    b >= 0x8000_0000_0000_0000
  }

  /** Neither a NaN nor an infinity. */
  predicate Finite(b: Bits) {
    BiasedExponent(b) != 2047
  }

  function Significand(b: Bits): nat {
    if BiasedExponent(b) == 0 then Fraction(b) else 0x10_0000_0000_0000 + Fraction(b)
  }

  function Scale(b: Bits): int {
    (if BiasedExponent(b) == 0 then 1 else BiasedExponent(b)) - 1075
  }

  /** The value sign * significand * 2^scale of a finite pattern. */
  ghost function Value(b: Bits): real {
    var magnitude := if Scale(b) >= 0 then (Significand(b) * Pow2(Scale(b))) as real
                     else Significand(b) as real / Pow2(-Scale(b)) as real;
    if Negative(b) then -magnitude else magnitude
  }

  /** `float.is_integer`. */
  predicate IsInteger(b: Bits) {
    Finite(b) && (Scale(b) >= 0 || Significand(b) % Pow2(-Scale(b)) == 0)
  }

  /** `int(v)` of an integral pattern. */
  function ToInt(b: Bits): int
    requires IsInteger(b)
  {
    var magnitude := if Scale(b) >= 0 then Significand(b) * Pow2(Scale(b)) else Significand(b) / Pow2(-Scale(b));
    if Negative(b) then -magnitude else magnitude
  }

  lemma ExactQuotient(m: nat, p: nat, q: int)
    requires p > 0
    ensures m % p == 0 ==> (m / p) as real == m as real / p as real
    ensures m as real / p as real == q as real ==> m == q * p && m % p == 0 && m / p == q
  {
    if m % p == 0 {
      assert m == m / p * p;
      assert m as real == (m / p) as real * p as real;
    }
    if m as real / p as real == q as real {
      assert m as real == q as real * p as real;
      assert (q * p) as real == q as real * p as real;
      assert m == q * p;
      MultipleDivides(m, q, p);
    }
  }

  lemma MultipleDivides(m: int, q: int, p: int)
    requires p > 0 && m >= 0 && m == q * p
    ensures m % p == 0 && m / p == q
  {
    var d, r := m / p, m % p;
    assert (q - d) * p == r;
    assert q - d >= 1 ==> (q - d) * p >= p;
    assert q - d <= -1 ==> (q - d) * p <= -p;
  }

  /** The bit test finds the integers, all of them and with the right value. */
  lemma IntegerTest(b: Bits, n: int)
    requires Finite(b)
    ensures Value(b) == n as real <==> IsInteger(b) && ToInt(b) == n
  {
    if Scale(b) >= 0 {
      assert ToInt(b) as real == Value(b);
    } else {
      var q := if Negative(b) then -n else n;
      ExactQuotient(Significand(b), Pow2(-Scale(b)), q);
    }
  }

  const NEGATIVE_ZERO: Bits := 0x8000_0000_0000_0000

  lemma NegativeZeroIsZero()
    ensures Finite(NEGATIVE_ZERO) && IsInteger(NEGATIVE_ZERO) && ToInt(NEGATIVE_ZERO) == 0 && NEGATIVE_ZERO != 0
  {
    assert BiasedExponent(NEGATIVE_ZERO) == 0 && Fraction(NEGATIVE_ZERO) == 0;
    assert 0 % Pow2(1074) == 0;
  }
}
