/**
 * java.math.BigDecimal as the library uses it: a value is an unscaled integer and
 * a scale, denoting unscaled × 10^(-scale). Arithmetic is exact; rounding is
 * HALF_UP or UP; stripTrailingZeros gives each number one canonical form.
 */
module Decimals {
  import opened Results
  import opened Strings
  import opened Digits

  datatype Dec = Dec(unscaled: int, scale: int)

  /** The two java.math.RoundingMode values the library uses. */
  datatype RoundingMode = HalfUp | Up

  function AbsReal(x: real): real { if x < 0.0 then -x else x }

  predicate IsInteger(x: real) { x == x.Floor as real }

  /** x × 10^n, one factor of ten at a time. */
  function ShiftSteps(x: real, n: int): real
    decreases if n < 0 then -n else n
  {
    if n == 0 then x else if n > 0 then 10.0 * ShiftSteps(x, n - 1) else ShiftSteps(x, n + 1) / 10.0
  }

  /** x × 10^n. */
  function Shift(x: real, n: int): real {
    ShiftSteps(x, n)
  }

  /** The number a decimal denotes. */
  function Value(d: Dec): real {
    Shift(d.unscaled as real, -d.scale)
  }

  // ---------------------------------------------------------------- real arithmetic

  /**
   * A product, as a function: the solver relates Shift(Product(a, b), n) terms by
   * congruence, which it does not do for a bare a * b inside an argument.
   */
  function Product(a: real, b: real): real { a * b }

  lemma CastMul(p: int, q: int)
    ensures (p * q) as real == p as real * q as real
  {
  }

  /** Multiplying by a positive factor keeps order and sign. */
  lemma MulMonotone(a: real, b: real, t: real)
    requires t > 0.0
    ensures a < b <==> a * t < b * t
    ensures a <= b <==> a * t <= b * t
    ensures a == b <==> a * t == b * t
  {
  }

  lemma AbsMul(a: real, b: real)
    ensures AbsReal(Product(a, b)) == AbsReal(a) * AbsReal(b)
  {
  }

  lemma FloorOfInteger(k: int, f: real)
    requires 0.0 <= f < 1.0
    ensures (k as real + f).Floor == k
  {
  }

  /** The negation of a whole number is whole. */
  lemma IntegerNegate(k: real)
    requires IsInteger(k)
    ensures IsInteger(-k)
  {
    FloorOfInteger(-k.Floor, 0.0);
  }

  // ---------------------------------------------------------------- powers of ten

  lemma ShiftSucc(x: real, n: int)
    ensures Shift(x, n + 1) == 10.0 * Shift(x, n)
  {
    if n < 0 {
      assert Shift(x, n) == Shift(x, n + 1) / 10.0;
    }
  }

  lemma {:induction false} ShiftAdd(x: real, a: int, b: int)
    ensures Shift(Shift(x, a), b) == Shift(x, a + b)
    decreases if b < 0 then -b else b
  {
    if b > 0 {
      ShiftAdd(x, a, b - 1);
      ShiftSucc(x, a + b - 1);
    } else if b < 0 {
      ShiftAdd(x, a, b + 1);
      ShiftSucc(x, a + b);
    }
  }

  lemma ShiftInverse(x: real, n: int)
    ensures Shift(Shift(x, n), -n) == x
  {
    ShiftAdd(x, n, -n);
  }

  lemma {:induction false} ShiftSum(x: real, y: real, n: int)
    ensures Shift(x + y, n) == Shift(x, n) + Shift(y, n)
    decreases if n < 0 then -n else n
  {
    if n > 0 {
      ShiftSum(x, y, n - 1);
    } else if n < 0 {
      ShiftSum(x, y, n + 1);
    }
  }

  lemma {:induction false} ShiftNegate(x: real, n: int)
    ensures Shift(-x, n) == -Shift(x, n)
    decreases if n < 0 then -n else n
  {
    if n > 0 {
      ShiftNegate(x, n - 1);
    } else if n < 0 {
      ShiftNegate(x, n + 1);
    }
  }

  lemma ShiftDifference(x: real, y: real, n: int)
    ensures Shift(x - y, n) == Shift(x, n) - Shift(y, n)
  {
    ShiftSum(x, -y, n);
    ShiftNegate(y, n);
  }

  lemma TenTimes(c: real, s: real, t: real)
    requires t == c * s
    ensures 10.0 * t == c * (10.0 * s)
  {
  }

  lemma TenthOf(c: real, s: real, t: real)
    requires t == c * s
    ensures t / 10.0 == c * (s / 10.0)
  {
  }

  lemma {:induction false} ShiftScalar(c: real, x: real, n: int)
    ensures Shift(Product(c, x), n) == c * Shift(x, n)
    decreases if n < 0 then -n else n
  {
    if n > 0 {
      ShiftScalar(c, x, n - 1);
      TenTimes(c, Shift(x, n - 1), Shift(Product(c, x), n - 1));
    } else if n < 0 {
      ShiftScalar(c, x, n + 1);
      TenthOf(c, Shift(x, n + 1), Shift(Product(c, x), n + 1));
    }
  }

  lemma ShiftScalarRight(x: real, c: real, n: int)
    ensures Shift(Product(x, c), n) == Shift(x, n) * c
  {
    assert Product(x, c) == Product(c, x);
    ShiftScalar(c, x, n);
  }

  /** The shift of a product is the product of the shifts. */
  lemma ShiftProduct(x: real, y: real, m: int, n: int)
    ensures Shift(Product(x, y), m + n) == Shift(x, m) * Shift(y, n)
  {
    ShiftAdd(Product(x, y), m, n);
    ShiftScalarRight(x, y, m);
    assert Shift(Product(x, y), m) == Product(Shift(x, m), y);
    ShiftScalar(Shift(x, m), y, n);
  }

  /** Shifting keeps the sign and the order of numbers. */
  lemma {:induction false} ShiftMonotone(x: real, y: real, n: int)
    ensures x < y <==> Shift(x, n) < Shift(y, n)
    ensures x <= y <==> Shift(x, n) <= Shift(y, n)
    ensures x == y <==> Shift(x, n) == Shift(y, n)
    decreases if n < 0 then -n else n
  {
    if n > 0 {
      ShiftMonotone(x, y, n - 1);
    } else if n < 0 {
      ShiftMonotone(x, y, n + 1);
    }
  }

  lemma {:induction false} ShiftZero(n: int)
    ensures Shift(0.0, n) == 0.0
    decreases if n < 0 then -n else n
  {
    if n > 0 {
      ShiftZero(n - 1);
    } else if n < 0 {
      ShiftZero(n + 1);
    }
  }

  lemma ShiftSign(x: real, n: int)
    ensures x > 0.0 <==> Shift(x, n) > 0.0
    ensures x < 0.0 <==> Shift(x, n) < 0.0
    ensures x == 0.0 <==> Shift(x, n) == 0.0
  {
    ShiftZero(n);
    ShiftMonotone(0.0, x, n);
    ShiftMonotone(x, 0.0, n);
  }

  lemma ShiftAbs(x: real, n: int)
    ensures AbsReal(Shift(x, n)) == Shift(AbsReal(x), n)
  {
    ShiftSign(x, n);
    ShiftNegate(x, n);
  }

  lemma {:induction false} ShiftOfInteger(i: int, n: nat)
    ensures Shift(i as real, n) == (i * Pow10(n)) as real
  {
    if n > 0 {
      ShiftOfInteger(i, n - 1);
      assert i * Pow10(n) == 10 * (i * Pow10(n - 1));
    }
  }

  // ---------------------------------------------------------------- rounding

  /** Nearest integer, ties away from zero (RoundingMode.HALF_UP). */
  function RoundHalfUpToInt(x: real): (r: int)
    ensures AbsReal(x - r as real) <= 0.5
    ensures AbsReal(x - r as real) == 0.5 ==> AbsReal(r as real) > AbsReal(x)
  {
    if x >= 0.0 then (x + 0.5).Floor else -((-x + 0.5).Floor)
  }

  /** The next integer away from zero (RoundingMode.UP). */
  function RoundUpToInt(x: real): (r: int)
    ensures AbsReal(x) <= AbsReal(r as real) < AbsReal(x) + 1.0
    ensures (x > 0.0 ==> r > 0) && (x < 0.0 ==> r < 0)
  {
    if x >= 0.0 then -((-x).Floor) else x.Floor
  }

  /** The integer part, truncated toward zero. */
  function TruncateToInt(x: real): (r: int)
    ensures AbsReal(r as real) <= AbsReal(x) < AbsReal(r as real) + 1.0
    ensures (x >= 0.0 ==> r >= 0) && (x <= 0.0 ==> r <= 0)
  {
    if x >= 0.0 then x.Floor else -((-x).Floor)
  }

  function RoundToInt(x: real, mode: RoundingMode): int {
    match mode
    case HalfUp => RoundHalfUpToInt(x)
    case Up => RoundUpToInt(x)
  }

  /** Both modes leave integers alone. */
  lemma RoundToIntOfInteger(x: real, mode: RoundingMode)
    requires IsInteger(x)
    ensures RoundToInt(x, mode) as real == x
  {
    var k := x.Floor;
    if x >= 0.0 {
      FloorOfInteger(k, 0.5);
      FloorOfInteger(-k, 0.0);
    } else {
      FloorOfInteger(-k, 0.5);
      FloorOfInteger(k, 0.0);
    }
  }

  /** x rounded to n fractional digits. */
  function RoundReal(x: real, n: int, mode: RoundingMode): real {
    Shift(RoundToInt(Shift(x, n), mode) as real, -n)
  }

  /** Rounding to no fractional digits is rounding to an integer. */
  lemma RoundRealWhole(x: real, mode: RoundingMode)
    ensures RoundReal(x, 0, mode) == RoundToInt(x, mode) as real
  {
  }

  /** Zero rounds to zero. */
  lemma RoundRealZero(n: int, mode: RoundingMode)
    ensures RoundReal(0.0, n, mode) == 0.0
  {
    ShiftZero(n);
    ShiftZero(-n);
  }

  /** A number with at most n fractional digits, shifted n places, is the rounded integer itself. */
  lemma RoundRealDigits(x: real, n: int, mode: RoundingMode)
    ensures Shift(RoundReal(x, n, mode), n) == RoundToInt(Shift(x, n), mode) as real
    ensures IsInteger(Shift(RoundReal(x, n, mode), n))
  {
    ShiftAdd(RoundToInt(Shift(x, n), mode) as real, -n, n);
  }

  /** Rounding HALF_UP to n digits moves x by at most half a unit in the last place. */
  lemma RoundRealHalfUpBound(x: real, n: int)
    ensures AbsReal(RoundReal(x, n, HalfUp) - x) <= Shift(0.5, -n)
  {
    var y := Shift(x, n);
    var r := RoundHalfUpToInt(y) as real;
    ShiftInverse(x, n);
    ShiftDifference(r, y, -n);
    ShiftAbs(r - y, -n);
    ShiftMonotone(AbsReal(r - y), 0.5, -n);
  }

  /** Rounding UP to n digits moves x away from zero, by less than one unit in the last place. */
  lemma RoundRealUpBounds(x: real, n: int)
    ensures AbsReal(x) <= AbsReal(RoundReal(x, n, Up)) < AbsReal(x) + Shift(1.0, -n)
  {
    var y := Shift(x, n);
    var r := RoundUpToInt(y) as real;
    ShiftInverse(x, n);
    ShiftAbs(y, -n);
    ShiftAbs(r, -n);
    ShiftMonotone(AbsReal(y), AbsReal(r), -n);
    ShiftMonotone(AbsReal(r), AbsReal(y) + 1.0, -n);
    ShiftSum(AbsReal(y), 1.0, -n);
  }

  /** Rounding changes nothing exactly when x already has at most n fractional digits. */
  lemma RoundRealExact(x: real, n: int, mode: RoundingMode)
    ensures RoundReal(x, n, mode) == x <==> IsInteger(Shift(x, n))
  {
    RoundRealDigits(x, n, mode);
    var y := Shift(x, n);
    if IsInteger(y) {
      RoundToIntOfInteger(y, mode);
      ShiftInverse(x, n);
    }
  }

  /** A number with at most m fractional digits has at most n of them for every n >= m. */
  lemma DigitsWithin(x: real, m: int, n: int)
    requires IsInteger(Shift(x, m)) && m <= n
    ensures IsInteger(Shift(x, n))
  {
    var k := Shift(x, m).Floor;
    ShiftAdd(x, m, n - m);
    ShiftOfInteger(k, n - m);
  }

  /** Rounding to m digits and then to n >= m digits is rounding to m digits. */
  lemma RoundRealTwice(x: real, m: int, n: int, mode: RoundingMode, mode': RoundingMode)
    requires m <= n
    ensures RoundReal(RoundReal(x, m, mode), n, mode') == RoundReal(x, m, mode)
  {
    RoundRealDigits(x, m, mode);
    DigitsWithin(RoundReal(x, m, mode), m, n);
    RoundRealExact(RoundReal(x, m, mode), n, mode');
  }

  // ---------------------------------------------------------------- trailing zeros

  /** The form stripTrailingZeros produces: zero is 0 (scale 0), nothing else ends in a zero digit. */
  predicate Stripped(d: Dec) {
    if d.unscaled == 0 then d.scale == 0 else d.unscaled % 10 != 0
  }

  lemma ValueZero(d: Dec)
    ensures Value(d) == 0.0 <==> d.unscaled == 0
    ensures Value(d) > 0.0 <==> d.unscaled > 0
    ensures Value(d) < 0.0 <==> d.unscaled < 0
  {
    ShiftMonotone(0.0, d.unscaled as real, -d.scale);
    ShiftMonotone(d.unscaled as real, 0.0, -d.scale);
    ShiftZero(-d.scale);
  }

  lemma StripStep(d: Dec)
    requires d.unscaled % 10 == 0
    ensures Value(Dec(d.unscaled / 10, d.scale - 1)) == Value(d)
  {
    var q := d.unscaled / 10;
    ShiftAdd(q as real, 1, -d.scale);
    assert Shift(q as real, 1) == d.unscaled as real;
  }

  function Magnitude(i: int): nat { if i < 0 then -i else i }

  lemma DropZeroDigit(u: int)
    requires u != 0 && u % 10 == 0
    ensures Magnitude(u / 10) < Magnitude(u)
  {
  }

  /** BigDecimal.stripTrailingZeros as of Java 8, where a zero becomes BigDecimal.ZERO. */
  function StripTrailingZeros(d: Dec): (r: Dec)
    ensures Stripped(r) && Value(r) == Value(d)
    decreases Magnitude(d.unscaled)
  {
    if d.unscaled == 0 then
      ValueZero(d);
      Dec(0, 0)
    else if d.unscaled % 10 == 0 then
      StripStep(d);
      DropZeroDigit(d.unscaled);
      StripTrailingZeros(Dec(d.unscaled / 10, d.scale - 1))
    else d
  }

  /** One number has exactly one stripped form, so BigDecimal.equals on stripped values is numeric equality. */
  lemma StrippedCanonical(a: Dec, b: Dec)
    requires Stripped(a) && Stripped(b) && Value(a) == Value(b)
    ensures a == b
  {
    ValueZero(a);
    ValueZero(b);
    if a.unscaled != 0 {
      if a.scale <= b.scale {
        StrippedCanonicalOrdered(a, b);
      } else {
        StrippedCanonicalOrdered(b, a);
      }
    }
  }

  lemma StrippedCanonicalOrdered(a: Dec, b: Dec)
    requires Stripped(a) && Stripped(b) && Value(a) == Value(b)
    requires a.unscaled != 0 && a.scale <= b.scale
    ensures a == b
  {
    var k := b.scale - a.scale;
    ShiftAdd(a.unscaled as real, -a.scale, b.scale);
    ShiftAdd(b.unscaled as real, -b.scale, b.scale);
    ShiftOfInteger(a.unscaled, k);
    assert b.unscaled == a.unscaled * Pow10(k);
    if k > 0 {
      ValueZero(a);
      ValueZero(b);
      TrailingZero(a.unscaled, k);
    }
  }

  /** A multiple of a positive power of ten ends in a zero digit. */
  lemma TrailingZero(u: int, k: nat)
    requires k > 0
    ensures (u * Pow10(k)) % 10 == 0
  {
    var m := u * Pow10(k - 1);
    assert u * Pow10(k) == m * 10;
  }

  // ---------------------------------------------------------------- arithmetic

  /** Re-expressing a decimal at a finer scale keeps its value. */
  lemma Rescale(u: int, s: int, k: nat)
    ensures Value(Dec(u * Pow10(k), s + k)) == Value(Dec(u, s))
  {
    ShiftOfInteger(u, k);
    ShiftAdd(u as real, k, -(s + k));
  }

  /**
   * u × 10^k, one appended zero digit at a time. Written recursively so that the
   * solver sees no product of two unknowns wherever Add is unfolded.
   */
  function AppendZeros(u: int, k: nat): int {
    if k == 0 then u else 10 * AppendZeros(u, k - 1)
  }

  lemma {:induction false} AppendZerosValue(u: int, k: nat)
    ensures AppendZeros(u, k) == u * Pow10(k)
  {
    if k > 0 {
      AppendZerosValue(u, k - 1);
      assert u * Pow10(k) == 10 * (u * Pow10(k - 1));
    }
  }

  lemma AddValue(a: Dec, b: Dec, s: int)
    requires s >= a.scale && s >= b.scale
    ensures Value(Dec(AppendZeros(a.unscaled, s - a.scale) + AppendZeros(b.unscaled, s - b.scale), s)) == Value(a) + Value(b)
  {
    var ka, kb := s - a.scale, s - b.scale;
    var x, y := AppendZeros(a.unscaled, ka), AppendZeros(b.unscaled, kb);
    AppendZerosValue(a.unscaled, ka);
    AppendZerosValue(b.unscaled, kb);
    Rescale(a.unscaled, a.scale, ka);
    Rescale(b.unscaled, b.scale, kb);
    hide Shift, ShiftSteps, AppendZeros, Pow10;
    assert Dec(x, s) == Dec(a.unscaled * Pow10(ka), a.scale + ka);
    assert Dec(y, s) == Dec(b.unscaled * Pow10(kb), b.scale + kb);
    ShiftSum(x as real, y as real, -s);
  }

  /** BigDecimal.add: exact, at the larger of the two scales. */
  function Add(a: Dec, b: Dec): (r: Dec)
    ensures Value(r) == Value(a) + Value(b)
  {
    var s := if a.scale >= b.scale then a.scale else b.scale;
    AddValue(a, b, s);
    Dec(AppendZeros(a.unscaled, s - a.scale) + AppendZeros(b.unscaled, s - b.scale), s)
  }

  function Negate(a: Dec): (r: Dec)
    ensures Value(r) == -Value(a)
  {
    ShiftNegate(a.unscaled as real, -a.scale);
    Dec(-a.unscaled, a.scale)
  }

  /** BigDecimal.subtract: exact. */
  function Subtract(a: Dec, b: Dec): (r: Dec)
    ensures Value(r) == Value(a) - Value(b)
  {
    Add(a, Negate(b))
  }

  /** BigDecimal.compareTo: -1, 0 or 1 by the sign of the exact difference, whatever the scales. */
  function CompareTo(a: Dec, b: Dec): (r: int)
    ensures r == -1 <==> Value(a) < Value(b)
    ensures r == 0 <==> Value(a) == Value(b)
    ensures r == 1 <==> Value(a) > Value(b)
  {
    var d := Subtract(a, b);
    ValueZero(d);
    if d.unscaled < 0 then -1 else if d.unscaled == 0 then 0 else 1
  }

  /** BigDecimal.abs. */
  function AbsDec(a: Dec): (r: Dec)
    ensures Value(r) == AbsReal(Value(a))
  {
    ValueZero(a);
    if a.unscaled < 0 then Negate(a) else a
  }

  /** BigDecimal.multiply: exact, at the sum of the scales. */
  function Multiply(a: Dec, b: Dec): (r: Dec)
    ensures Value(r) == Value(a) * Value(b)
  {
    MultiplyValue(a, b);
    Dec(a.unscaled * b.unscaled, a.scale + b.scale)
  }

  lemma MultiplyValue(a: Dec, b: Dec)
    ensures Value(Dec(a.unscaled * b.unscaled, a.scale + b.scale)) == Value(a) * Value(b)
  {
    CastMul(a.unscaled, b.unscaled);
    assert (a.unscaled * b.unscaled) as real == Product(a.unscaled as real, b.unscaled as real);
    ShiftProduct(a.unscaled as real, b.unscaled as real, -a.scale, -b.scale);
    assert -(a.scale + b.scale) == -a.scale + -b.scale;
  }

  /** BigDecimal.setScale(n, mode). */
  function SetScale(d: Dec, n: int, mode: RoundingMode): (r: Dec)
    ensures r.scale == n
    ensures Value(r) == RoundReal(Value(d), n, mode)
  {
    Dec(RoundToInt(Shift(Value(d), n), mode), n)
  }

  /** BigDecimal.divide(divisor, n, mode): the exact quotient rounded to n digits. */
  function DivideToScale(a: Dec, b: Dec, n: int, mode: RoundingMode): (r: Dec)
    requires Value(b) != 0.0
    ensures r.scale == n
    ensures Value(r) == RoundReal(Value(a) / Value(b), n, mode)
  {
    Dec(RoundToInt(Shift(Value(a) / Value(b), n), mode), n)
  }

  /**
   * BigDecimal.divideAndRemainder: the quotient truncated toward zero and the
   * remainder a - q × b. What they satisfy is DivideAndRemainderFacts.
   */
  function DivideAndRemainder(a: Dec, b: Dec): (Dec, Dec)
    requires Value(b) != 0.0
  {
    var quotient := Dec(TruncateToInt(Value(a) / Value(b)), 0);
    (quotient, Subtract(a, Multiply(quotient, b)))
  }

  /** The quotient is an integer, quotient × b + remainder is a, the remainder is smaller than b and has the sign of a, and the quotient has the sign of a / b. */
  lemma DivideAndRemainderFacts(a: Dec, b: Dec)
    requires Value(b) != 0.0
    ensures var (q, r) := DivideAndRemainder(a, b);
      && IsInteger(Value(q))
      && Product(Value(q), Value(b)) + Value(r) == Value(a)
      && AbsReal(Value(r)) < AbsReal(Value(b))
      && (Value(a) >= 0.0 ==> Value(r) >= 0.0)
      && (Value(a) <= 0.0 ==> Value(r) <= 0.0)
      && (Value(b) > 0.0 ==> (Value(a) >= 0.0 ==> Value(q) >= 0.0) && (Value(a) <= 0.0 ==> Value(q) <= 0.0))
      && (Value(b) < 0.0 ==> (Value(a) >= 0.0 ==> Value(q) <= 0.0) && (Value(a) <= 0.0 ==> Value(q) >= 0.0))
  {
    var (quotient, remainder) := DivideAndRemainder(a, b);
    var t := TruncateToInt(Value(a) / Value(b));
    assert quotient == Dec(t, 0) && remainder == Subtract(a, Multiply(quotient, b));
    RemainderValue(a, b, t);
    QuotientFacts(Value(a), Value(b), Value(a) / Value(b), t, Value(quotient), Value(remainder));
  }

  lemma RemainderValue(a: Dec, b: Dec, t: int)
    ensures Value(Dec(t, 0)) == t as real
    ensures Value(Subtract(a, Multiply(Dec(t, 0), b))) == Value(a) - Product(t as real, Value(b))
  {
    var q := Dec(t, 0);
    assert Value(q) == Shift(t as real, 0) == t as real;
    var p := Multiply(q, b);
    assert Value(p) == Product(t as real, Value(b));
  }

  lemma QuotientFacts(a: real, b: real, q: real, t: int, quotient: real, remainder: real)
    requires b != 0.0 && q == a / b && t == TruncateToInt(q)
    requires quotient == t as real && remainder == a - Product(quotient, b)
    ensures IsInteger(quotient)
    ensures Product(quotient, b) + remainder == a
    ensures AbsReal(remainder) < AbsReal(b)
    ensures a >= 0.0 ==> remainder >= 0.0
    ensures a <= 0.0 ==> remainder <= 0.0
    ensures b > 0.0 ==> (a >= 0.0 ==> quotient >= 0.0) && (a <= 0.0 ==> quotient <= 0.0)
    ensures b < 0.0 ==> (a >= 0.0 ==> quotient <= 0.0) && (a <= 0.0 ==> quotient >= 0.0)
  {
    DivideMultiply(a, b);
    QuotientSign(a, b);
    var f := q - t as real;
    RemainderFactor(a, b, q, quotient, remainder);
    assert 0.0 <= AbsReal(f) < 1.0;
    RemainderBound(remainder, f, b);
    RemainderSign(q, b, f);
    assert (t as real).Floor == t;
  }

  lemma QuotientSign(a: real, b: real)
    requires b != 0.0
    ensures b > 0.0 ==> (a >= 0.0 ==> a / b >= 0.0) && (a <= 0.0 ==> a / b <= 0.0)
    ensures b < 0.0 ==> (a >= 0.0 ==> a / b <= 0.0) && (a <= 0.0 ==> a / b >= 0.0)
  {
  }

  lemma RemainderFactor(a: real, b: real, q: real, quotient: real, remainder: real)
    requires b != 0.0 && q == a / b && remainder == a - quotient * b
    ensures remainder == (q - quotient) * b
  {
    DivideMultiply(a, b);
  }

  lemma RemainderBound(remainder: real, f: real, b: real)
    requires b != 0.0 && remainder == f * b && AbsReal(f) < 1.0
    ensures AbsReal(remainder) < AbsReal(b)
  {
    var af, ab := AbsReal(f), AbsReal(b);
    AbsMul(f, b);
    assert remainder == Product(f, b);
    assert AbsReal(remainder) == af * ab;
    MulMonotone(af, 1.0, ab);
    assert af * ab < 1.0 * ab;
  }

  lemma DivideMultiply(a: real, b: real)
    requires b != 0.0
    ensures a == (a / b) * b
  {
  }

  lemma RemainderSign(q: real, b: real, f: real)
    requires b != 0.0
    requires q >= 0.0 ==> 0.0 <= f
    requires q <= 0.0 ==> f <= 0.0
    ensures q * b >= 0.0 ==> f * b >= 0.0
    ensures q * b <= 0.0 ==> f * b <= 0.0
  {
    if b > 0.0 {
      MulMonotone(q, 0.0, b);
      MulMonotone(f, 0.0, b);
      MulMonotone(0.0, q, b);
      MulMonotone(0.0, f, b);
    } else {
      MulMonotone(q, 0.0, -b);
      MulMonotone(f, 0.0, -b);
      MulMonotone(0.0, q, -b);
      MulMonotone(0.0, f, -b);
    }
  }

  // ---------------------------------------------------------------- plain strings

  /** BigDecimal.toPlainString: digits with a decimal point, never an exponent. */
  function PlainString(d: Dec): (s: string)
  {
    (if d.unscaled < 0 then "-" else "") + PlainMagnitude(if d.unscaled < 0 then -d.unscaled else d.unscaled, d.scale)
  }

  /** The unsigned part of a plain string: the digits, then trailing zeros for a negative scale or a point for a positive one. */
  function PlainMagnitude(m: nat, scale: int): (s: string)
  {
    var digits := NatToString(m);
    if scale <= 0 then
      if m == 0 then "0" else digits + Zeros(-scale)
    else
      var padded := Zeros(scale + 1 - |digits|) + digits;
      var point := |padded| - scale;
      padded[..point] + ("." + padded[point..])
  }

  /** A plain string is a sign, digits and at most a point: it starts with "-" or a digit, and with "-" exactly for negative numbers. */
  lemma PlainStringShape(d: Dec)
    ensures var s := PlainString(d);
      && |s| > 0
      && (forall i :: 0 <= i < |s| ==> IsDigit(s[i]) || s[i] == '-' || s[i] == '.')
      && (IsDigit(s[0]) || s[0] == '-')
      && (forall i :: 0 < i < |s| ==> s[i] != '-')
      && (s[0] == '-' <==> Value(d) < 0.0)
  {
    ValueZero(d);
    var m := if d.unscaled < 0 then -d.unscaled else d.unscaled;
    var sign := if d.unscaled < 0 then "-" else "";
    MagnitudeShape(m, d.scale);
    hide PlainMagnitude, Value;
    assert PlainString(d) == sign + PlainMagnitude(m, d.scale);
  }

  /** The unsigned part is digits and points only, and starts with a digit. */
  lemma MagnitudeShape(m: nat, scale: int)
    ensures var s := PlainMagnitude(m, scale);
      && |s| > 0
      && (forall i :: 0 <= i < |s| ==> IsDigit(s[i]) || s[i] == '.')
      && IsDigit(s[0])
  {
    var digits := NatToString(m);
    if scale > 0 {
      var padded := Zeros(scale + 1 - |digits|) + digits;
      assert AllDigits(padded) by {
        AllDigitsAppend(Zeros(scale + 1 - |digits|), digits);
      }
      var point := |padded| - scale;
      assert PlainMagnitude(m, scale) == padded[..point] + ("." + padded[point..]);
    } else if m != 0 {
      AllDigitsAppend(digits, Zeros(-scale));
    }
  }

  /** The plain string of zero. */
  lemma PlainStringZero()
    ensures PlainString(Dec(0, 0)) == "0"
  {
  }

  // ---------------------------------------------------------------- parsing

  /** First index of c in s, or |s|. */
  function IndexOf(s: string, c: char): (r: nat)
    ensures r <= |s|
    ensures forall i :: 0 <= i < r ==> s[i] != c
    ensures r < |s| ==> s[r] == c
  {
    if s == [] then 0 else if s[0] == c then 0 else 1 + IndexOf(s[1..], c)
  }

  /** First index of an exponent marker e or E in s, or |s|. */
  function IndexOfExponent(s: string): (r: nat)
    ensures r <= |s|
    ensures forall i :: 0 <= i < r ==> s[i] != 'e' && s[i] != 'E'
    ensures r < |s| ==> s[r] == 'e' || s[r] == 'E'
  {
    if s == [] then 0 else if s[0] == 'e' || s[0] == 'E' then 0 else 1 + IndexOfExponent(s[1..])
  }

  /** The exponent after e/E: an optional sign and at least one digit. */
  function ParseExponent(s: string): (r: Option<int>)
    ensures r.Some? ==> |s| > 0
  {
    var negative := |s| > 0 && s[0] == '-';
    var digits := if |s| > 0 && (s[0] == '-' || s[0] == '+') then s[1..] else s;
    if |digits| > 0 && AllDigits(digits) then
      var v: int := DigitsValue(digits);
      Some(if negative then -v else v)
    else None
  }

  /** Digits with at most one decimal point and at least one digit: the digits as one integer, scaled by the fraction's length. */
  function ParseMantissa(s: string): (r: Option<Dec>)
    ensures r.Some? ==> r.value.unscaled >= 0 && r.value.scale >= 0
  {
    var dot := IndexOf(s, '.');
    var intPart := s[..dot];
    var fracPart := if dot < |s| then s[dot + 1..] else "";
    if AllDigits(intPart) && AllDigits(fracPart) && |intPart| + |fracPart| > 0 then
      AllDigitsAppend(intPart, fracPart);
      Some(Dec(DigitsValue(intPart + fracPart), |fracPart|))
    else None
  }

  /** A mantissa, then an optional exponent that lowers the scale. */
  function ParseUnsigned(s: string): (r: Option<Dec>)
  {
    var e := IndexOfExponent(s);
    var exponent := if e == |s| then Some(0) else ParseExponent(s[e + 1..]);
    var mantissa := ParseMantissa(s[..e]);
    if mantissa.Some? && exponent.Some? then
      Some(Dec(mantissa.value.unscaled, mantissa.value.scale - exponent.value))
    else None
  }

  /**
   * new BigDecimal(String): an optional sign, digits with at most one decimal point
   * (at least one digit in all), then an optional exponent. The unscaled value is
   * the digits read as an integer; the scale is the number of fraction digits
   * minus the exponent. None stands for NumberFormatException.
   */
  function ParseDecimal(s: string): (r: Option<Dec>)
  {
    var negative := |s| > 0 && s[0] == '-';
    var body := if |s| > 0 && (s[0] == '-' || s[0] == '+') then s[1..] else s;
    match ParseUnsigned(body)
    case None => None
    case Some(d) => Some(if negative then Dec(-d.unscaled, d.scale) else d)
  }

  lemma ParseMantissaForm(intPart: string, fracPart: string, point: bool)
    requires AllDigits(intPart) && AllDigits(fracPart) && |intPart| + |fracPart| > 0
    requires !point ==> fracPart == ""
    ensures AllDigits(intPart + fracPart)
    ensures ParseMantissa(intPart + (if point then "." + fracPart else ""))
      == Some(Dec(DigitsValue(intPart + fracPart), |fracPart|))
  {
    AllDigitsAppend(intPart, fracPart);
    if point {
      ParseMantissaPoint(intPart, fracPart);
    } else {
      ParseMantissaDigits(intPart);
      assert intPart + fracPart == intPart;
    }
  }

  /** Digits, a point and digits: the point splits the two parts. */
  lemma ParseMantissaPoint(intPart: string, fracPart: string)
    requires AllDigits(intPart) && AllDigits(fracPart) && |intPart| + |fracPart| > 0
    ensures AllDigits(intPart + fracPart)
    ensures ParseMantissa(intPart + ("." + fracPart)) == Some(Dec(DigitsValue(intPart + fracPart), |fracPart|))
  {
    AllDigitsAppend(intPart, fracPart);
    var body := intPart + ("." + fracPart);
    assert body[..|intPart|] == intPart;
    assert body[|intPart| + 1..] == fracPart;
    IndexOfFirst(body, '.', |intPart|);
  }

  /** The first position holding c is where IndexOf stops. */
  lemma IndexOfFirst(s: string, c: char, k: nat)
    requires k < |s| && s[k] == c && forall i :: 0 <= i < k ==> s[i] != c
    ensures IndexOf(s, c) == k
  {
  }

  /** Digits alone: no point, no fraction. */
  lemma ParseMantissaDigits(intPart: string)
    requires AllDigits(intPart) && |intPart| > 0
    ensures ParseMantissa(intPart) == Some(Dec(DigitsValue(intPart), 0))
  {
    hide DigitsValue;
    assert IndexOf(intPart, '.') == |intPart|;
    assert intPart[..|intPart|] == intPart;
    assert intPart + "" == intPart;
  }

  /** Without an e or E the whole string is the mantissa. */
  lemma ParseUnsignedNoExponent(s: string)
    requires forall i :: 0 <= i < |s| ==> IsDigit(s[i]) || s[i] == '.'
    ensures ParseUnsigned(s) == ParseMantissa(s)
  {
    assert IndexOfExponent(s) == |s|;
    assert s[..|s|] == s;
  }

  /** A leading '-' negates the unsigned reading; without a sign nothing changes. */
  lemma ParseDecimalSign(negative: bool, body: string, text: string)
    requires |body| > 0 && body[0] != '-' && body[0] != '+'
    requires text == (if negative then "-" else "") + body
    requires ParseUnsigned(body).Some?
    ensures ParseDecimal(text)
      == Some(Dec(Signed(negative, ParseUnsigned(body).value.unscaled), ParseUnsigned(body).value.scale))
  {
    if negative {
      assert text[0] == '-' && text[1..] == body;
    } else {
      assert text == body;
    }
  }

  lemma DigitsAndPoint(intPart: string, fracPart: string, point: bool)
    requires AllDigits(intPart) && AllDigits(fracPart)
    ensures var body := intPart + (if point then "." + fracPart else "");
      forall i :: 0 <= i < |body| ==> IsDigit(body[i]) || body[i] == '.'
  {
    var body := intPart + (if point then "." + fracPart else "");
    forall i | 0 <= i < |body| ensures IsDigit(body[i]) || body[i] == '.' {
      if i < |intPart| {
        assert body[i] == intPart[i];
      } else if point && i > |intPart| {
        assert body[i] == fracPart[i - |intPart| - 1];
      }
    }
  }

  /** The signed digits-and-point form parses to the digits read as one integer, scaled by the fraction's length. */
  /** A magnitude with a sign. */
  function Signed(negative: bool, m: int): int {
    if negative then -m else m
  }

  lemma ParsePlainForm(negative: bool, intPart: string, fracPart: string, point: bool, text: string)
    requires AllDigits(intPart) && AllDigits(fracPart) && |intPart| + |fracPart| > 0
    requires !point ==> fracPart == ""
    requires text == (if negative then "-" else "") + (intPart + (if point then "." + fracPart else ""))
    ensures AllDigits(intPart + fracPart)
    ensures ParseDecimal(text)
      == Some(Dec(Signed(negative, DigitsValue(intPart + fracPart)), |fracPart|))
  {
    var body := intPart + (if point then "." + fracPart else "");
    ParseMantissaForm(intPart, fracPart, point);
    DigitsAndPoint(intPart, fracPart, point);
    ParseUnsignedNoExponent(body);
    assert |body| > 0 && (IsDigit(body[0]) || body[0] == '.');
    ParseDecimalSign(negative, body, text);
  }

  /** Parsing a plain string gives back the number: the same decimal when its scale is not negative. */
  lemma ParsePlainString(d: Dec)
    ensures ParseDecimal(PlainString(d)).Some?
    ensures Value(ParseDecimal(PlainString(d)).value) == Value(d)
    ensures d.scale >= 0 ==> ParseDecimal(PlainString(d)) == Some(d)
  {
    if d.scale <= 0 && d.unscaled == 0 {
      assert PlainString(d) == "" + "0";
      ParseIntegerForm(false, "0", PlainString(d));
      assert DigitsValue("0") == 0;
      ValueZero(d);
      ValueZero(Dec(0, 0));
    } else if d.scale <= 0 {
      ParseIntegralPlain(d);
      AppendZerosValue(d.unscaled, -d.scale);
      Rescale(d.unscaled, d.scale, -d.scale);
    } else {
      ParseFractionalPlain(d);
    }
  }

  lemma ParseIntegralPlain(d: Dec)
    requires d.scale <= 0 && d.unscaled != 0
    ensures ParseDecimal(PlainString(d)) == Some(Dec(AppendZeros(d.unscaled, -d.scale), 0))
  {
    var m := if d.unscaled < 0 then -d.unscaled else d.unscaled;
    var intPart := NatToString(m) + Zeros(-d.scale);
    var sign := if d.unscaled < 0 then "-" else "";
    IntegralParts(m, d.scale);
    SignedAppendZeros(d.unscaled, m, -d.scale);
    assert PlainString(d) == sign + PlainMagnitude(m, d.scale);
    hide PlainMagnitude, NatToString, Zeros, DigitsValue, AppendZeros;
    assert PlainString(d) == sign + intPart;
    ParseIntegerForm(d.unscaled < 0, intPart, PlainString(d));
  }

  /** Digits alone, with an optional '-', parse to that integer at scale zero. */
  lemma ParseIntegerForm(negative: bool, digits: string, text: string)
    requires AllDigits(digits) && |digits| > 0
    requires text == (if negative then "-" else "") + digits
    ensures ParseDecimal(text) == Some(Dec(Signed(negative, DigitsValue(digits)), 0))
  {
    assert digits + "" == digits;
    ParsePlainForm(negative, digits, "", false, text);
  }

  /** A scale of zero or below writes the digits followed by as many zeros, which read back as m with those zeros appended. */
  lemma IntegralParts(m: nat, scale: int)
    requires scale <= 0 && m != 0
    ensures PlainMagnitude(m, scale) == NatToString(m) + Zeros(-scale)
    ensures AllDigits(NatToString(m) + Zeros(-scale))
    ensures DigitsValue(NatToString(m) + Zeros(-scale)) == AppendZeros(m, -scale)
  {
    MagnitudeOfDigits(NatToString(m), Zeros(-scale), m, -scale);
    assert NatToString(m) + Zeros(-scale) + "" == NatToString(m) + Zeros(-scale);
    AppendZerosValue(m, -scale);
  }

  lemma SignedAppendZeros(u: int, m: nat, k: nat)
    requires m == if u < 0 then -u else u
    ensures AppendZeros(u, k) == Signed(u < 0, AppendZeros(m, k))
  {
    if u < 0 {
      AppendZerosNegate(m, k);
      assert u == -(m as int);
    }
  }

  lemma {:induction false} AppendZerosNegate(u: int, k: nat)
    ensures AppendZeros(-u, k) == -AppendZeros(u, k)
  {
    if k > 0 {
      AppendZerosNegate(u, k - 1);
    }
  }

  lemma SignedMagnitude(u: int, m: nat, p: int)
    requires m == if u < 0 then -u else u
    ensures (if u < 0 then -(m * p) else m * p) == u * p
  {
    if u < 0 {
      assert -(m * p) == (-(m as int)) * p;
    }
  }

  lemma MagnitudeOfDigits(digits: string, zeros: string, m: nat, k: int)
    requires digits == NatToString(m) && zeros == Zeros(k)
    ensures AllDigits(digits + zeros) && AllDigits(digits + zeros + "")
    ensures DigitsValue(digits + zeros + "") == m * Pow10(if k > 0 then k else 0)
  {
    NatToStringRoundTrip(m);
    assert digits + zeros + "" == digits + zeros;
    DigitsValueAppend(digits, zeros);
    ZerosValue(k);
  }

  lemma ParseFractionalPlain(d: Dec)
    requires d.scale > 0
    ensures ParseDecimal(PlainString(d)) == Some(d)
  {
    var m := if d.unscaled < 0 then -d.unscaled else d.unscaled;
    FractionalParts(m, d.scale);
    var intPart, fracPart := IntegerDigits(m, d.scale), FractionDigits(m, d.scale);
    var sign := if d.unscaled < 0 then "-" else "";
    assert PlainString(d) == sign + PlainMagnitude(m, d.scale);
    assert PlainString(d) == sign + (intPart + ("." + fracPart));
    ParsePlainForm(d.unscaled < 0, intPart, fracPart, true, PlainString(d));
    assert Signed(d.unscaled < 0, m) == d.unscaled;
  }

  /** The digits before the point in the plain string of a positive scale. */
  function IntegerDigits(m: nat, scale: int): string
    requires scale > 0
  {
    var padded := Zeros(scale + 1 - |NatToString(m)|) + NatToString(m);
    padded[..|padded| - scale]
  }

  /** The scale digits after the point. */
  function FractionDigits(m: nat, scale: int): string
    requires scale > 0
  {
    var padded := Zeros(scale + 1 - |NatToString(m)|) + NatToString(m);
    padded[|padded| - scale..]
  }

  /** A positive scale splits the padded digits into a non-empty integer part and scale fraction digits that read back as m. */
  lemma FractionalParts(m: nat, scale: int)
    requires scale > 0
    ensures PlainMagnitude(m, scale) == IntegerDigits(m, scale) + ("." + FractionDigits(m, scale))
    ensures AllDigits(IntegerDigits(m, scale)) && AllDigits(FractionDigits(m, scale))
    ensures |FractionDigits(m, scale)| == scale
    ensures AllDigits(IntegerDigits(m, scale) + FractionDigits(m, scale))
    ensures DigitsValue(IntegerDigits(m, scale) + FractionDigits(m, scale)) == m
  {
    var digits := NatToString(m);
    var zeros := Zeros(scale + 1 - |digits|);
    var padded := zeros + digits;
    var point := |padded| - scale;
    assert point >= 1;
    assert IntegerDigits(m, scale) == padded[..point];
    assert FractionDigits(m, scale) == padded[point..];
    assert PlainMagnitude(m, scale) == padded[..point] + ("." + padded[point..]);
    ZerosValue(scale + 1 - |digits|);
    PaddedValue(zeros, digits, m, point);
  }

  lemma PaddedValue(zeros: string, digits: string, m: nat, point: int)
    requires digits == NatToString(m) && AllDigits(zeros) && DigitsValue(zeros) == 0
    requires 0 <= point <= |zeros + digits|
    ensures AllDigits((zeros + digits)[..point]) && AllDigits((zeros + digits)[point..])
    ensures AllDigits((zeros + digits)[..point] + (zeros + digits)[point..])
    ensures DigitsValue((zeros + digits)[..point] + (zeros + digits)[point..]) == m
  {
    var padded := zeros + digits;
    AllDigitsAppend(zeros, digits);
    assert padded[..point] + padded[point..] == padded;
    NatToStringRoundTrip(m);
    DigitsValueAppend(zeros, digits);
  }
}
