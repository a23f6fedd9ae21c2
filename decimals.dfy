/**
 * The `price` field of a product: a decimal number as Python's `decimal.Decimal`
 * holds it, and the digit-count rules that `condecimal(max_digits=10,
 * decimal_places=2)` together with `ge=0` enforce on it.
 */
module Decimals {
  import opened Wrappers

  /** A finite decimal as `Decimal.as_tuple()` describes it: its value is
      (-1 if negative else 1) * coefficient * 10^exponent. */
  datatype Decimal = Decimal(negative: bool, coefficient: nat, exponent: int)

  /** `max_digits` of the price field. */
  const MaxDigits: nat := 10
  /** `decimal_places` of the price field. */
  const DecimalPlaces: nat := 2

  function Pow10(k: nat): (r: nat)
    ensures r >= 1
  {
    if k == 0 then 1 else 10 * Pow10(k - 1)
  }

  lemma {:induction false} Pow10Add(a: nat, b: nat)
    ensures Pow10(a + b) == Pow10(a) * Pow10(b)
  {
    if a > 0 {
      Pow10Add(a - 1, b);
      assert Pow10(a + b) == 10 * Pow10(a - 1 + b);
      assert 10 * (Pow10(a - 1) * Pow10(b)) == (10 * Pow10(a - 1)) * Pow10(b);
    }
  }

  lemma {:induction false} Pow10Monotone(a: nat, b: nat)
    requires a <= b
    ensures Pow10(a) <= Pow10(b)
  {
    if a < b {
      Pow10Monotone(a, b - 1);
    }
  }

  /** Number of digits of n written in decimal; zero is written with one digit,
      as in the digit tuple `(0,)` of `Decimal(0)`. */
  function NumDigits(n: nat): (r: nat)
    ensures r >= 1
  {
    if n < 10 then 1 else 1 + NumDigits(n / 10)
  }

  /** A positive number is below 10^k exactly when it has at most k digits. */
  lemma {:induction false} NumDigitsBound(n: nat, k: nat)
    requires k >= 1
    ensures n < Pow10(k) <==> NumDigits(n) <= k
  {
    if n >= 10 {
      if k == 1 {
        assert Pow10(1) == 10;
      } else {
        NumDigitsBound(n / 10, k - 1);
        assert Pow10(k) == 10 * Pow10(k - 1);
        assert n < 10 * Pow10(k - 1) <==> n / 10 < Pow10(k - 1);
      }
    } else {
      Pow10Monotone(1, k);
      assert Pow10(1) == 10;
    }
  }

  /** Multiplying by a positive whole number does not make a number smaller. */
  lemma {:induction false} MulAtLeast(b: nat, k: nat)
    requires k >= 1
    ensures b * k >= b
  {
    if k > 1 {
      MulAtLeast(b, k - 1);
      assert b * k == b * (k - 1) + b;
    }
  }

  /** Multiplying both sides by the same positive number keeps a strict order. */
  lemma MulKeepsOrder(x: nat, y: nat, p: nat)
    requires p >= 1
    ensures x < y <==> x * p < y * p
  {
    if x < y {
      MulAtLeast(p, y - x);
      assert y * p == x * p + p * (y - x);
    } else {
      assert x * p == y * p + p * (x - y);
    }
  }

  /** Division with remainder has a unique answer. */
  lemma DivModUnique(a: int, b: int, q: int, r: int)
    requires b > 0 && 0 <= r < b && a == b * q + r
    ensures a / b == q && a % b == r
  {
    var q', r' := a / b, a % b;
    assert a == b * q' + r';
    if q > q' {
      MulAtLeast(b, q - q');
    } else if q < q' {
      MulAtLeast(b, q' - q);
    }
  }

  /** Scaling numerator and divisor by ten scales the remainder and keeps the quotient. */
  lemma ScaleDivMod(c: nat, p: nat)
    requires p >= 1
    ensures (10 * c) % (10 * p) == 10 * (c % p)
    ensures (10 * c) / (10 * p) == c / p
  {
    var q, r := c / p, c % p;
    assert c == p * q + r;
    assert 10 * c == (10 * p) * q + 10 * r;
    DivModUnique(10 * c, 10 * p, q, 10 * r);
  }

  /** A number not ending in zero is not a multiple of any positive power of ten. */
  lemma NotMultipleOfPow10(c: nat, k: nat)
    requires c % 10 != 0 && k >= 1
    ensures c % Pow10(k) != 0
  {
    if c % Pow10(k) == 0 {
      var q := c / Pow10(k);
      assert c == Pow10(k) * q;
      assert Pow10(k) == 10 * Pow10(k - 1);
      assert c == 10 * (Pow10(k - 1) * q) + 0;
      DivModUnique(c, 10, Pow10(k - 1) * q, 0);
    }
  }

  /** `Decimal.normalize()`: strip trailing zeros of the coefficient, moving them
      into the exponent; zero becomes `0` with exponent 0, keeping its sign. */
  function Normalize(d: Decimal): Decimal
    decreases d.coefficient
  {
    if d.coefficient == 0 then Decimal(d.negative, 0, 0)
    else if d.coefficient % 10 == 0 then Normalize(Decimal(d.negative, d.coefficient / 10, d.exponent + 1))
    else d
  }

  /** The shape `Normalize` produces: no trailing zero, and zero has exponent 0. */
  predicate IsNormal(d: Decimal)
  {
    if d.coefficient == 0 then d.exponent == 0 else d.coefficient % 10 != 0
  }

  /** Normalizing keeps the sign and the value and yields a normal decimal. */
  lemma {:induction false} NormalizeIsNormal(d: Decimal)
    ensures var n := Normalize(d);
      && IsNormal(n)
      && n.negative == d.negative
      && (n.coefficient == 0 <==> d.coefficient == 0)
      && (d.coefficient != 0 ==>
            n.exponent >= d.exponent && n.coefficient * Pow10(n.exponent - d.exponent) == d.coefficient)
    decreases d.coefficient
  {
    if d.coefficient != 0 && d.coefficient % 10 == 0 {
      var d' := Decimal(d.negative, d.coefficient / 10, d.exponent + 1);
      NormalizeIsNormal(d');
      var n := Normalize(d');
      var k: nat := n.exponent - d'.exponent;
      assert Pow10(k + 1) == 10 * Pow10(k);
      assert n.coefficient * Pow10(k + 1) == 10 * (n.coefficient * Pow10(k));
    }
  }

  lemma NormalizeOfNormal(d: Decimal)
    requires IsNormal(d)
    ensures Normalize(d) == d
  {
  }

  /** Digit count and decimal-place count of d, computed as pydantic's decimal
      validator computes them on the normalized tuple. */
  function DigitCounts(d: Decimal): (counts: (nat, nat))
  {
    var n := Normalize(d);
    if n.exponent >= 0 then (NumDigits(n.coefficient) + n.exponent, 0)
    else
      var places: nat := -n.exponent;
      (if NumDigits(n.coefficient) > places then NumDigits(n.coefficient) else places, places)
  }

  /** The checks `condecimal(max_digits=10, decimal_places=2)` and `ge=0` make:
      at most 10 digits, at most 2 decimal places, at most 8 whole digits and
      a value that is not below zero. */
  predicate PriceOk(d: Decimal)
  {
    var (digits, places) := DigitCounts(d);
    && !(d.negative && d.coefficient > 0)
    && digits <= MaxDigits
    && places <= DecimalPlaces
    && digits - places <= MaxDigits - DecimalPlaces
  }

  /** 100 * (the magnitude of coefficient * 10^exponent), when that is a whole number. */
  function CentsMagnitude(coefficient: nat, exponent: int): Option<nat>
  {
    if exponent >= -2 then Some(coefficient * Pow10(exponent + 2))
    else if coefficient % Pow10(-exponent - 2) == 0 then Some(coefficient / Pow10(-exponent - 2))
    else None
  }

  /** The value of d in hundredths, when it is a whole number of hundredths. */
  function Cents(d: Decimal): Option<int>
  {
    match CentsMagnitude(d.coefficient, d.exponent)
    case None => None
    case Some(m) =>
      var cents: int := if d.negative then -(m as int) else m;
      Some(cents)
  }

  /** A price a `Numeric(10, 2)` column holds exactly: a whole number of
      hundredths from 0 up to 99999999.99. */
  predicate CentsInRange(d: Decimal)
  {
    Cents(d).Some? && 0 <= Cents(d).value < Pow10(MaxDigits)
  }

  /** Moving a trailing zero of the coefficient into the exponent keeps the value in hundredths. */
  lemma CentsOfShift(c: nat, e: int)
    ensures CentsMagnitude(10 * c, e) == CentsMagnitude(c, e + 1)
  {
    if e >= -2 {
      assert Pow10(e + 3) == 10 * Pow10(e + 2);
      assert c * Pow10(e + 3) == (10 * c) * Pow10(e + 2);
    } else if e == -3 {
      assert Pow10(1) == 10;
      DivModUnique(10 * c, 10, c, 0);
    } else {
      var k: nat := -e - 3;
      assert Pow10(k + 1) == 10 * Pow10(k);
      ScaleDivMod(c, Pow10(k));
    }
  }

  /** A zero coefficient is zero hundredths at any exponent. */
  lemma CentsOfZero(e: int)
    ensures CentsMagnitude(0, e) == Some(0)
  {
    if e < -2 {
      DivModUnique(0, Pow10(-e - 2), 0, 0);
    }
  }

  /** Normalizing does not change the value in hundredths. */
  lemma {:induction false} CentsOfNormalize(d: Decimal)
    ensures Cents(Normalize(d)) == Cents(d)
    decreases d.coefficient
  {
    var c, e := d.coefficient, d.exponent;
    if c == 0 {
      CentsOfZero(e);
      CentsOfZero(0);
    } else if c % 10 == 0 {
      var d' := Decimal(d.negative, c / 10, e + 1);
      CentsOfNormalize(d');
      CentsOfShift(c / 10, e);
      assert 10 * (c / 10) == c;
    }
  }

  /** c * 10^a stays below 10^10 exactly when c has at most 10 - a digits. */
  lemma ScaledBelow(c: nat, a: nat, b: nat)
    requires c >= 1 && a + b == MaxDigits
    ensures c * Pow10(a) < Pow10(MaxDigits) <==> NumDigits(c) <= b
  {
    Pow10Add(a, b);
    MulKeepsOrder(c, Pow10(b), Pow10(a));
    assert Pow10(b) * Pow10(a) == Pow10(a) * Pow10(b);
    if b == 0 {
      assert Pow10(0) == 1;
    } else {
      NumDigitsBound(c, b);
    }
  }

  /** Case of `NormalPriceOk` for a normal decimal with a non-negative exponent. */
  lemma WholePriceOk(n: Decimal)
    requires IsNormal(n) && n.coefficient != 0 && n.exponent >= 0
    ensures PriceOk(n) <==> CentsInRange(n)
  {
    NormalizeOfNormal(n);
    var c, e: nat := n.coefficient, n.exponent;
    assert DigitCounts(n) == (NumDigits(c) + e, 0);
    assert Cents(n) == Some(if n.negative then -(c * Pow10(e + 2)) else c * Pow10(e + 2));
    MulAtLeast(Pow10(e + 2), c);
    assert c * Pow10(e + 2) == Pow10(e + 2) * c;
    if e <= 8 {
      ScaledBelow(c, e + 2, 8 - e);
    } else {
      Pow10Monotone(MaxDigits + 1, e + 2);
      assert Pow10(MaxDigits + 1) == 10 * Pow10(MaxDigits);
    }
  }

  /** Case of `NormalPriceOk` for a normal decimal with a negative exponent. */
  lemma FractionPriceOk(n: Decimal)
    requires IsNormal(n) && n.coefficient != 0 && n.exponent < 0
    ensures PriceOk(n) <==> CentsInRange(n)
  {
    NormalizeOfNormal(n);
    var c := n.coefficient;
    var places: nat := -n.exponent;
    var width := if NumDigits(c) > places then NumDigits(c) else places;
    assert DigitCounts(n) == (width, places);
    if places > 2 {
      NotMultipleOfPow10(c, places - 2);
      assert Cents(n) == None;
    } else {
      assert Cents(n) == Some(if n.negative then -(c * Pow10(2 - places)) else c * Pow10(2 - places));
      MulAtLeast(Pow10(2 - places), c);
      assert c * Pow10(2 - places) == Pow10(2 - places) * c;
      ScaledBelow(c, 2 - places, 8 + places);
    }
  }

  /** The digit rules agree with "a whole number of hundredths in range" on normal decimals. */
  lemma NormalPriceOk(n: Decimal)
    requires IsNormal(n)
    ensures PriceOk(n) <==> CentsInRange(n)
  {
    if n.coefficient == 0 {
      NormalizeOfNormal(n);
      assert Cents(n) == Some(0);
    } else if n.exponent >= 0 {
      WholePriceOk(n);
    } else {
      FractionPriceOk(n);
    }
  }

  /** The price rules state exactly that the value is a whole number of
      hundredths, not negative, and below 10^8: what fits a `Numeric(10, 2)`
      column without rounding. */
  lemma PriceOkIffCentsInRange(d: Decimal)
    ensures PriceOk(d) <==> CentsInRange(d)
  {
    NormalizeIsNormal(d);
    CentsOfNormalize(d);
    var n := Normalize(d);
    NormalPriceOk(n);
    NormalizeOfNormal(n);
    assert DigitCounts(d) == DigitCounts(n);
  }

  /** The price as the `Numeric(10, 2)` column gives it back: the same value in
      hundredths, written with exactly two decimal places. */
  function Quantize(d: Decimal): (r: Decimal)
    requires PriceOk(d)
    ensures r.exponent == -(DecimalPlaces as int)
    ensures Cents(r) == Cents(d)
    ensures PriceOk(r)
  {
    PriceOkIffCentsInRange(d);
    var r := Decimal(false, Cents(d).value, -2);
    assert Cents(r) == Cents(d);
    PriceOkIffCentsInRange(r);
    r
  }
}
