/**
 * Fractions.getFractionString: a number written as a whole part and the nearest
 * fraction with a given even denominator, reduced, with "~" marking approximations.
 * The source works on double; this model uses exact reals.
 */
module Fractions {
  import opened Results
  import opened Strings
  import opened Digits
  import opened Decimals

  /** The fractional part of the magnitude of the number: |x| less its integer part. */
  function FracPart(x: real): (r: real)
    ensures 0.0 <= r < 1.0
    ensures r == 0.0 <==> IsInteger(AbsReal(x))
  {
    AbsReal(x) - AbsReal(x).Floor as real
  }

  /** The distance from f to the grid point i / precision. */
  function Dist(f: real, i: int, precision: int): real
    requires precision != 0
  {
    AbsReal(f - i as real / precision as real)
  }

  /** The nearest integer, ties going down: the smallest r with |x - r| minimal. */
  function RoundHalfDown(x: real): (r: int)
    ensures x - 0.5 <= r as real < x + 0.5
  {
    -((0.5 - x).Floor)
  }

  /** The numerator of the closest grid point i / precision, the smaller one on a tie. */
  function Nearest(f: real, precision: int): int
    requires precision > 0
  {
    RoundHalfDown(Product(f, precision as real))
  }

  /** Halving numerator and denominator while both are even (2/4 becomes 1/2). */
  function Reduce(n: int, d: int): (r: (int, int))
    requires n != 0
    ensures r.0 != 0 && !(r.0 % 2 == 0 && r.1 % 2 == 0)
    ensures r.0 * d == n * r.1
    decreases Magnitude(n)
  {
    if n % 2 == 0 && d % 2 == 0 then
      var r := Reduce(n / 2, d / 2);
      HalvesKeepRatio(n, d, r.0, r.1);
      r
    else (n, d)
  }

  lemma HalvesKeepRatio(n: int, d: int, a: int, b: int)
    requires n % 2 == 0 && d % 2 == 0
    requires a * (d / 2) == (n / 2) * b
    ensures a * d == n * b
  {
    var n', d' := n / 2, d / 2;
    assert d == 2 * d' && n == 2 * n';
    assert a * d == 2 * (a * d');
    assert n * b == 2 * (n' * b);
  }

  /** The whole part, then either the "-" of a negative number below one or nothing, then n/d. */
  function Render(prefix: string, whole: int, n: int, d: int, negative: bool): string {
    var fraction := IntToString(n) + "/" + IntToString(d);
    if whole != 0 then prefix + IntToString(whole) + "-" + fraction
    else prefix + (if negative then "-" else "") + fraction
  }

  /**
   * What getFractionString returns, stated without the scan: the nearest numerator
   * in closed form. A precision of zero divides 0 by 0, and every comparison with the
   * resulting NaN fails; a negative precision skips the scan.
   */
  function FractionString(number: real, precision: int): (r: Result<string>)
    ensures r.Err? <==> precision % 2 != 0
    ensures r.Err? ==> r.error == OddPrecision
  {
    if precision % 2 != 0 then Err(OddPrecision)
    else
      var whole := TruncateToInt(number);
      var f := FracPart(number);
      if f == 0.0 then Ok(IntToString(whole))
      else if precision < 0 then Ok(Render("", whole, 1, precision, number < 0.0))
      else if precision == 0 then Ok(Render("~", whole, -1, 0, number < 0.0))
      else
        var k := Nearest(f, precision);
        if k <= 0 then Ok("~" + IntToString(whole))
        else if k >= precision then Ok("~" + IntToString(if whole >= 0 then whole + 1 else whole - 1))
        else
          var (n, d) := Reduce(k, precision);
          Ok(Render(if f == k as real / precision as real then "" else "~", whole, n, d, number < 0.0))
  }

  // ---------------------------------------------------------------- the scan

  /** Scaling by the precision turns distances to grid points into distances to integers. */
  lemma DistScaled(f: real, i: int, precision: int)
    requires precision > 0
    ensures Product(Dist(f, i, precision), precision as real) == AbsReal(Product(f, precision as real) - i as real)
  {
    var p := precision as real;
    var t := i as real / p;
    assert t * p == i as real;
    assert Product(f - t, p) == Product(f, p) - i as real;
    AbsMul(f - t, p);
  }

  /** Comparing distances to two grid points is comparing their scaled distances. */
  lemma DistCompare(f: real, i: int, j: int, precision: int)
    requires precision > 0
    ensures var x := Product(f, precision as real);
      Dist(f, i, precision) < Dist(f, j, precision) <==> AbsReal(x - i as real) < AbsReal(x - j as real)
  {
    DistScaled(f, i, precision);
    DistScaled(f, j, precision);
    ScaledLess(Dist(f, i, precision), Dist(f, j, precision), precision as real);
  }

  lemma ScaledLess(a: real, b: real, t: real)
    requires t > 0.0
    ensures a < b <==> Product(a, t) < Product(b, t)
  {
    MulMonotone(a, b, t);
  }

  /** Moving from i - 1 to i gets closer to x exactly while i has not passed the nearest integer. */
  lemma StepCloser(x: real, i: int)
    ensures AbsReal(x - i as real) < AbsReal(x - (i - 1) as real) <==> i <= RoundHalfDown(x)
  {
  }

  /** RoundHalfDown is nearest, and strictly nearer than every smaller integer. */
  lemma RoundHalfDownNearest(x: real, j: int)
    ensures AbsReal(x - RoundHalfDown(x) as real) <= AbsReal(x - j as real)
    ensures j < RoundHalfDown(x) ==> AbsReal(x - RoundHalfDown(x) as real) < AbsReal(x - j as real)
  {
    var r := RoundHalfDown(x);
    assert AbsReal(x - r as real) <= 0.5;
    if j < r {
      assert x - j as real > 0.5;
    } else if j > r {
      assert j as real - x >= 0.5;
    }
  }

  /** The nearest numerator has the smallest distance of all, and a strictly smaller one than any smaller numerator. */
  lemma NearestIsNearest(f: real, precision: int, j: int)
    requires precision > 0
    ensures Dist(f, Nearest(f, precision), precision) <= Dist(f, j, precision)
    ensures j < Nearest(f, precision) ==> Dist(f, Nearest(f, precision), precision) < Dist(f, j, precision)
  {
    var x := Product(f, precision as real);
    RoundHalfDownNearest(x, j);
    DistCompare(f, j, Nearest(f, precision), precision);
  }

  /** For a fraction strictly between 0 and 1 the nearest numerator is one of 0 .. precision. */
  lemma NearestRange(f: real, precision: int)
    requires precision > 0 && 0.0 < f < 1.0
    ensures 0 <= Nearest(f, precision) <= precision
  {
    ScaledFraction(f, precision);
  }

  /** A grid point is its own nearest numerator. */
  lemma ExactNearest(f: real, i: int, precision: int)
    requires precision > 0 && f == i as real / precision as real
    ensures Nearest(f, precision) == i
    ensures Product(f, precision as real) == i as real
  {
    assert (i as real / precision as real) * precision as real == i as real;
  }

  /** f is a grid point exactly when it equals the grid point of its nearest numerator. */
  lemma OnGrid(f: real, precision: int)
    requires precision > 0
    ensures IsInteger(Product(f, precision as real)) <==> f == Nearest(f, precision) as real / precision as real
  {
    var x := Product(f, precision as real);
    if IsInteger(x) {
      assert f == x.Floor as real / precision as real;
      ExactNearest(f, x.Floor, precision);
    }
    if f == Nearest(f, precision) as real / precision as real {
      ExactNearest(f, Nearest(f, precision), precision);
    }
  }

  /** One step of the scan: the exact-match test, then the closer-than-before test. */
  lemma ScanStep(f: real, i: int, precision: int)
    requires precision > 0 && 1 <= i
    ensures Dist(f, i, precision) < Dist(f, i - 1, precision) <==> i <= Nearest(f, precision)
  {
    StepCloser(Product(f, precision as real), i);
    DistCompare(f, i, i - 1, precision);
  }

  lemma SpecOnWhole(number: real, precision: int)
    requires precision % 2 == 0 && FracPart(number) == 0.0
    ensures FractionString(number, precision) == Ok(IntToString(TruncateToInt(number)))
  {
  }

  /** How the scan over numerators 0..precision ends: stopped at a numerator (with "~" when inexact), or returning early. */
  datatype ScanEnd = Stopped(numerator: int, prefix: string) | RoundedDown | RoundedUp

  /**
   * The end of the scan for a proper fraction f: a negative precision skips the loop,
   * a zero precision compares with NaN and stops at -1, and otherwise the nearest
   * numerator decides.
   */
  function ScanOf(f: real, precision: int): (r: ScanEnd)
    requires 0.0 < f < 1.0
    ensures r.Stopped? ==> r.numerator != 0 && (r.prefix == "" || r.prefix == "~")
    ensures r.Stopped? && precision > 0 ==> 0 < r.numerator < precision
  {
    if precision < 0 then Stopped(1, "")
    else if precision == 0 then Stopped(-1, "~")
    else
      var k := Nearest(f, precision);
      if k <= 0 then RoundedDown
      else if k >= precision then RoundedUp
      else Stopped(k, if f == k as real / precision as real then "" else "~")
  }

  /** The specification read through the end of the scan. */
  lemma SpecOfScan(number: real, precision: int)
    requires precision % 2 == 0 && FracPart(number) != 0.0
    ensures var whole, scan := TruncateToInt(number), ScanOf(FracPart(number), precision);
      FractionString(number, precision) ==
        if scan.RoundedDown? then Ok("~" + IntToString(whole))
        else if scan.RoundedUp? then Ok("~" + IntToString(if whole >= 0 then whole + 1 else whole - 1))
        else Ok(Render(scan.prefix, whole, Reduce(scan.numerator, precision).0, Reduce(scan.numerator, precision).1, number < 0.0))
  {
    if precision < 0 {
      assert Reduce(1, precision) == (1, precision);
    } else if precision == 0 {
      assert Reduce(-1, 0) == (-1, 0);
    }
  }

  /** The scan of getFractionString: numerators 0..precision until the distance stops shrinking. */
  method ScanNumerators(decimal: real, precision: int) returns (s: ScanEnd)
    requires 0.0 < decimal < 1.0
    ensures s == ScanOf(decimal, precision)
  {
    var numerator, previous, prefix := 1, 1.0, "";
    ghost var k := if precision > 0 then Nearest(decimal, precision) else 0;
    if precision > 0 {
      NearestRange(decimal, precision);
    }
    var i := 0;
    while i <= precision
      invariant precision > 0 ==> 0 <= i <= precision && i <= k + 1
      invariant precision > 0 && i > 0 ==>
        previous == Dist(decimal, i - 1, precision) && decimal != (i - 1) as real / precision as real
      invariant i == 0 ==> previous == 1.0
      invariant precision == 0 ==> i == 0
      invariant numerator == 1 && prefix == ""
    {
      // Dividing 0 by a zero precision gives NaN, and a comparison with NaN is false.
      var testDecimal: Option<real> := if precision == 0 then None else Some(i as real / precision as real);
      if testDecimal == Some(decimal) {
        ExactNearest(decimal, i, precision);
        numerator := i;
        break;
      }
      var difference: Option<real> := if precision == 0 then None else Some(AbsReal(decimal - testDecimal.value));
      if i >= 1 && precision > 0 {
        ScanStep(decimal, i, precision);
      }
      if difference.Some? && difference.value < previous {
        previous := difference.value;
        if i == precision {
          return RoundedUp;
        }
      } else if i == 1 {
        return RoundedDown;
      } else {
        numerator := i - 1;
        prefix := "~";
        break;
      }
      i := i + 1;
    }
    return Stopped(numerator, prefix);
  }

  /** getFractionString: the whole part alone, a rounded whole part, or the reduced fraction. */
  method GetFractionString(number: real, precision: int) returns (r: Result<string>)
    ensures r == FractionString(number, precision)
  {
    if precision % 2 != 0 {
      return Err(OddPrecision);
    }
    var whole := TruncateToInt(number);
    var decimal := AbsReal(number) - AbsReal(number).Floor as real;
    if decimal == 0.0 {
      SpecOnWhole(number, precision);
      return Ok(IntToString(whole));
    }
    var scan := ScanNumerators(decimal, precision);
    SpecOfScan(number, precision);
    match scan
    case RoundedDown =>
      return Ok("~" + IntToString(whole));
    case RoundedUp =>
      whole := if whole >= 0 then whole + 1 else whole - 1;
      return Ok("~" + IntToString(whole));
    case Stopped(numerator, prefix) =>
      var s := ReduceAndRender(prefix, whole, numerator, precision, number < 0.0);
      return Ok(s);
  }

  /** The tail of getFractionString: the halving loop, then the string. */
  method ReduceAndRender(prefix: string, whole: int, n: int, d: int, negative: bool) returns (s: string)
    requires n != 0
    ensures s == Render(prefix, whole, Reduce(n, d).0, Reduce(n, d).1, negative)
  {
    var numerator, denominator := n, d;
    while numerator % 2 == 0 && denominator % 2 == 0
      invariant numerator != 0
      invariant Reduce(numerator, denominator) == Reduce(n, d)
      decreases Magnitude(numerator)
    {
      numerator := numerator / 2;
      denominator := denominator / 2;
    }
    var fraction := IntToString(numerator) + "/" + IntToString(denominator);
    if whole != 0 {
      return prefix + IntToString(whole) + "-" + fraction;
    }
    return prefix + (if negative then "-" else "") + fraction;
  }

  // ---------------------------------------------------------------- properties

  /** With a positive even precision the result is marked "~" exactly when the fraction is not a multiple of 1 / precision. */
  lemma ApproximateIff(number: real, precision: int)
    requires precision > 0 && precision % 2 == 0
    ensures FractionString(number, precision).Ok?
    ensures var s := FractionString(number, precision).value;
      |s| > 0 && (s[0] == '~' <==> !IsInteger(Product(FracPart(number), precision as real)))
  {
    var f := FracPart(number);
    var x := Product(f, precision as real);
    var whole := TruncateToInt(number);
    if f == 0.0 {
      assert x == 0.0;
    } else {
      ScaledFraction(f, precision);
      var k := Nearest(f, precision);
      if k <= 0 {
        assert 0.0 < x <= 0.5 && x.Floor == 0;
        assert FractionString(number, precision) == Ok("~" + IntToString(whole));
      } else if k >= precision {
        assert precision as real - 0.5 < x < precision as real && x.Floor == precision - 1;
        assert FractionString(number, precision) == Ok("~" + IntToString(if whole >= 0 then whole + 1 else whole - 1));
      } else {
        OnGrid(f, precision);
        var (n, d) := Reduce(k, precision);
        var prefix := if f == k as real / precision as real then "" else "~";
        RenderFirst(prefix, whole, n, d, number < 0.0);
      }
    }
  }

  /** A proper fraction scaled by the precision lies strictly between 0 and the precision. */
  lemma ScaledFraction(f: real, precision: int)
    requires 0.0 < f < 1.0 && precision > 0
    ensures 0.0 < Product(f, precision as real) < precision as real
  {
    ScaledLess(0.0, f, precision as real);
    ScaledLess(f, 1.0, precision as real);
  }

  /** A rendering starts with its prefix when it has one, and otherwise with a digit or "-". */
  lemma RenderFirst(prefix: string, whole: int, n: int, d: int, negative: bool)
    requires prefix == "" || prefix == "~"
    ensures var s := Render(prefix, whole, n, d, negative);
      |s| > 0 && (s[0] == '~' <==> prefix == "~")
  {
    var fraction := IntToString(n) + "/" + IntToString(d);
    var s := Render(prefix, whole, n, d, negative);
    if prefix == "" {
      if whole != 0 {
        assert s[0] == IntToString(whole)[0];
      } else if negative {
        assert s[0] == '-';
      } else {
        assert s[0] == IntToString(n)[0];
      }
    }
  }

  /** The reduced fraction has the value of the chosen grid point, and numerator and denominator are not both even. */
  lemma ReducedFraction(k: int, precision: int)
    requires k != 0
    ensures var (n, d) := Reduce(k, precision);
      n * precision == k * d && !(n % 2 == 0 && d % 2 == 0)
  {
  }

  /** "-" inserted after an optional leading "~". */
  function MinusAfterTilde(s: string): string {
    if |s| > 0 && s[0] == '~' then "~-" + s[1..] else "-" + s
  }

  lemma RenderNegate(prefix: string, whole: int, n: int, d: int, negative: bool, negative': bool)
    requires whole > 0 && (prefix == "" || prefix == "~")
    ensures Render(prefix, -whole, n, d, negative) == MinusAfterTilde(Render(prefix, whole, n, d, negative'))
  {
    IntToStringNegate(whole);
    var w := IntToString(whole);
    var fraction := IntToString(n) + "/" + IntToString(d);
    Regroup(prefix, "-", w, "-", fraction);
    MinusAfterPrefix(prefix, w, "-" + fraction);
  }

  lemma Regroup(p: string, m: string, w: string, dash: string, f: string)
    ensures p + w + dash + f == p + (w + (dash + f))
    ensures p + (m + w) + dash + f == p + m + (w + (dash + f))
  {
  }

  lemma MinusAfterPrefix(prefix: string, w: string, rest: string)
    requires prefix == "" || prefix == "~"
    requires |w| > 0 && w[0] != '~'
    ensures MinusAfterTilde(prefix + (w + rest)) == prefix + "-" + (w + rest)
  {
    if prefix == "~" {
      assert (prefix + (w + rest))[1..] == w + rest;
    } else {
      assert (prefix + (w + rest))[0] == w[0];
    }
  }

  lemma TildeNegate(w: int)
    requires w > 0
    ensures "~" + IntToString(-w) == MinusAfterTilde("~" + IntToString(w))
  {
    IntToStringNegate(w);
    assert ("~" + IntToString(w))[1..] == IntToString(w);
  }

  /** For |x| >= 1, the string for -x is the one for x with "-" after the optional "~". */
  lemma NegateSymmetric(x: real, precision: int)
    requires x >= 1.0
    ensures FractionString(-x, precision).Err? <==> FractionString(x, precision).Err?
    ensures FractionString(x, precision).Ok? ==>
      FractionString(-x, precision) == Ok(MinusAfterTilde(FractionString(x, precision).value))
  {
    var w := TruncateToInt(x);
    assert TruncateToInt(-x) == -w && w >= 1;
    assert FracPart(-x) == FracPart(x);
    var f := FracPart(x);
    if precision % 2 == 0 {
      if f == 0.0 {
        IntToStringNegate(w);
      } else if precision < 0 {
        RenderNegate("", w, 1, precision, true, false);
      } else if precision == 0 {
        RenderNegate("~", w, -1, 0, true, false);
      } else {
        var k := Nearest(f, precision);
        if k <= 0 {
          TildeNegate(w);
        } else if k >= precision {
          assert -w - 1 == -(w + 1);
          TildeNegate(w + 1);
        } else {
          var (n, d) := Reduce(k, precision);
          RenderNegate(if f == k as real / precision as real then "" else "~", w, n, d, true, false);
        }
      }
    }
  }

  /** The examples of the source's tests: exact eighths and sixteenths print without "~". */
  lemma ExactEighth()
    ensures FractionString(0.125, 8) == Ok("1/8")
  {
    assert FracPart(0.125) == 0.125;
    assert Product(0.125, 8.0) == 1.0;
    assert Nearest(0.125, 8) == 1;
    assert Reduce(1, 8) == (1, 8);
    assert IntToString(1) == "1" && IntToString(8) == "8";
    assert Render("", 0, 1, 8, false) == "1/8";
  }

  lemma ExactNegativeEighth()
    ensures FractionString(-0.125, 8) == Ok("-1/8")
  {
    assert TruncateToInt(-0.125) == 0;
    assert FracPart(-0.125) == 0.125;
    assert Product(0.125, 8.0) == 1.0;
    assert Nearest(0.125, 8) == 1;
    assert Reduce(1, 8) == (1, 8);
    assert IntToString(1) == "1" && IntToString(8) == "8";
    assert Render("", 0, 1, 8, true) == "-1/8";
  }

  lemma ExactSixteenths()
    ensures FractionString(12.1875, 16) == Ok("12-3/16")
  {
    assert TruncateToInt(12.1875) == 12;
    assert FracPart(12.1875) == 0.1875;
    assert Product(0.1875, 16.0) == 3.0;
    assert Nearest(0.1875, 16) == 3;
    assert 0.1875 == 3.0 / 16.0;
    assert Reduce(3, 16) == (3, 16);
    assert IntToString(12) == "12" && IntToString(3) == "3" && IntToString(16) == "16";
    assert Render("", 12, 3, 16, false) == "12-3/16";
  }

  lemma WholeNumber()
    ensures FractionString(0.0, 4) == Ok("0")
    ensures FractionString(3.0, 16) == Ok("3")
  {
    assert FracPart(3.0) == 0.0;
    assert IntToString(0) == "0" && IntToString(3) == "3";
  }

  /** Numbers off the grid are marked "~", and round to the nearest whole number when closer to it than to any fraction. */
  lemma ApproximateEighth()
    ensures FractionString(0.12, 8) == Ok("~1/8")
  {
    assert FracPart(0.12) == 0.12;
    assert Product(0.12, 8.0) == 0.96;
    assert Nearest(0.12, 8) == 1;
    assert 0.12 != 1.0 / 8.0;
    assert Reduce(1, 8) == (1, 8);
    assert IntToString(1) == "1" && IntToString(8) == "8";
    assert Render("~", 0, 1, 8, false) == "~1/8";
  }

  lemma ApproximateMixed()
    ensures FractionString(13.63, 8) == Ok("~13-5/8")
  {
    assert TruncateToInt(13.63) == 13;
    assert FracPart(13.63) == 0.63;
    assert Product(0.63, 8.0) == 5.04;
    assert Nearest(0.63, 8) == 5;
    assert 0.63 != 5.0 / 8.0;
    assert Reduce(5, 8) == (5, 8);
    assert IntToString(13) == "13" && IntToString(5) == "5" && IntToString(8) == "8";
    assert Render("~", 13, 5, 8, false) == "~13-5/8";
  }

  lemma ApproximateRoundsUp()
    ensures FractionString(12.97, 16) == Ok("~13")
  {
    assert TruncateToInt(12.97) == 12;
    assert FracPart(12.97) == 0.97;
    assert Product(0.97, 16.0) == 15.52;
    assert Nearest(0.97, 16) == 16;
    assert IntToString(13) == "13";
    assert "~" + IntToString(12 + 1) == "~13";
  }

  lemma ApproximateRoundsUpToTwo()
    ensures FractionString(1.88, 4) == Ok("~2")
  {
    assert TruncateToInt(1.88) == 1;
    assert FracPart(1.88) == 0.88;
    assert Product(0.88, 4.0) == 3.52;
    assert Nearest(0.88, 4) == 4;
    assert "~" + IntToString(1 + 1) == "~2";
  }

  /** A number just above -1 gives "~1": rounding a zero whole part up loses the sign. */
  lemma NegativeRoundUpLosesSign()
    ensures FractionString(-0.99, 4) == Ok("~1")
  {
    assert TruncateToInt(-0.99) == 0;
    assert FracPart(-0.99) == 0.99;
    assert Product(0.99, 4.0) == 3.96;
    assert Nearest(0.99, 4) == 4;
    assert "~" + IntToString(0 + 1) == "~1";
  }
}
