/**
 * The immutable Measurement value: an exact length in millimetres and the unit it is
 * shown in. Both lineages of the class share this model: their constructors and
 * create factories multiply by the input unit's ratio, and every view back into a
 * unit divides and rounds HALF_UP to ten fractional digits.
 */
module Measurements {
  import opened Results
  import opened Strings
  import opened Digits
  import opened Decimals
  import opened Units

  /** The millimetre amount is the single source of truth; unit is the display unit. */
  datatype Measurement = Measurement(millis: Dec, unit: Unit)

  /** SCALE: the fractional digits every division rounds to (with HALF_UP). */
  const Scale: int := 10

  /** The class invariant every constructor establishes: millis carries no trailing zeros. */
  predicate Valid(m: Measurement) {
    Stripped(m.millis)
  }

  /** The private constructor / create(length, desiredUnit, inputUnit). */
  function Create(length: Dec, desiredUnit: Unit, inputUnit: Unit): (m: Measurement)
    ensures Valid(m) && m.unit == desiredUnit
    ensures Value(m.millis) == InMillimeters(Value(length), inputUnit)
  {
    var product := Decimals.Multiply(length, Ratio(inputUnit));
    assert Value(product) == Product(Value(length), Value(Ratio(inputUnit)));
    ScalingByRatio(Value(length), inputUnit);
    Measurement(StripTrailingZeros(product), desiredUnit)
  }

  /** create(length, unit) and new Measurement(length, unit): the length is in the display unit. */
  function Of(length: Dec, unit: Unit): (m: Measurement)
    ensures Valid(m) && m.unit == unit
    ensures Value(m.millis) == InMillimeters(Value(length), unit)
  {
    Create(length, unit, unit)
  }

  /** create(int, unit) and new Measurement(int, unit). */
  function OfInt(length: int, unit: Unit): (m: Measurement)
    ensures Valid(m) && m.unit == unit
    ensures Value(m.millis) == InMillimeters(length as real, unit)
  {
    assert Value(Dec(length, 0)) == length as real;
    Of(Dec(length, 0), unit)
  }

  /** create(String, unit) and new Measurement(String, unit): fails as new BigDecimal(String) does. */
  function OfString(length: string, unit: Unit): (r: Result<Measurement>)
    ensures r.Err? <==> ParseDecimal(length).None?
    ensures r.Err? ==> r.error == MalformedNumber(length)
    ensures r.Ok? ==> r.value == Of(ParseDecimal(length).value, unit)
  {
    match ParseDecimal(length)
    case None => Err(MalformedNumber(length))
    case Some(d) => Ok(Of(d, unit))
  }

  /** The older lineage's _stripTrailingZeros: zero becomes ZERO, anything else is stripped. */
  function LegacyStrip(d: Dec): Dec {
    if Value(d) == 0.0 then Dec(0, 0) else StripTrailingZeros(d)
  }

  /** The older lineage's explicit zero case agrees with stripTrailingZeros as modelled, so both lineages build the same values. */
  lemma LegacyStripAgrees(d: Dec)
    ensures LegacyStrip(d) == StripTrailingZeros(d)
    ensures Value(d) == 0.0 ==> LegacyStrip(d) == Dec(0, 0)
  {
    if Value(d) == 0.0 {
      ValueZero(Dec(0, 0));
      StrippedCanonical(Dec(0, 0), StripTrailingZeros(d));
    }
  }

  /** getLength: millis over the unit's ratio, rounded HALF_UP to ten digits, trailing zeros stripped. */
  function GetLength(m: Measurement): (r: Dec)
    ensures Stripped(r)
    ensures Value(r) == RoundReal(FromMillimeters(Value(m.millis), m.unit), Scale, HalfUp)
  {
    RatioPositive(m.unit);
    ScalingByRatio(Value(m.millis), m.unit);
    StripTrailingZeros(DivideToScale(m.millis, Ratio(m.unit), Scale, HalfUp))
  }

  /** isZeroLength, isNegativeLength, isPositiveLength: the sign of millis (compareTo with zero). */
  function IsZeroLength(m: Measurement): (b: bool)
    ensures b <==> Value(m.millis) == 0.0
  {
    ValueZero(m.millis);
    m.millis.unscaled == 0
  }

  function IsNegativeLength(m: Measurement): (b: bool)
    ensures b <==> Value(m.millis) < 0.0
  {
    ValueZero(m.millis);
    m.millis.unscaled < 0
  }

  function IsPositiveLength(m: Measurement): (b: bool)
    ensures b <==> Value(m.millis) > 0.0
  {
    ValueZero(m.millis);
    m.millis.unscaled > 0
  }

  /** Millimetres are the unit of ratio one. */
  lemma MillimeterRatio()
    ensures Value(Ratio(Millimeter)) == 1.0
  {
    RatioValues();
  }

  /** add: exact in millimetres; the left operand's unit is kept. */
  function Add(a: Measurement, b: Measurement): (r: Measurement)
    ensures Valid(r) && r.unit == a.unit
    ensures Value(r.millis) == Value(a.millis) + Value(b.millis)
  {
    MillimeterRatio();
    Create(StripTrailingZeros(Decimals.Add(a.millis, b.millis)), a.unit, Millimeter)
  }

  /** subtract: exact in millimetres; the left operand's unit is kept. */
  function Subtract(a: Measurement, b: Measurement): (r: Measurement)
    ensures Valid(r) && r.unit == a.unit
    ensures Value(r.millis) == Value(a.millis) - Value(b.millis)
  {
    MillimeterRatio();
    Create(StripTrailingZeros(Decimals.Subtract(a.millis, b.millis)), a.unit, Millimeter)
  }

  /** The length of millis in unit u, rounded as every conversion rounds it. */
  function LengthIn(millis: Dec, u: Unit): real {
    RatioPositive(u);
    RoundReal(FromMillimeters(Value(millis), u), Scale, HalfUp)
  }

  /** convert: the length is re-derived from millis rounded to ten digits in the new unit. */
  function Convert(m: Measurement, u: Unit): (r: Measurement)
    ensures Valid(r) && r.unit == u
    ensures Value(r.millis) == InMillimeters(LengthIn(m.millis, u), u)
  {
    RatioPositive(u);
    ScalingByRatio(Value(m.millis), u);
    var length := DivideToScale(m.millis, Ratio(u), Scale, HalfUp);
    assert Value(StripTrailingZeros(length)) == LengthIn(m.millis, u);
    Of(StripTrailingZeros(length), u)
  }

  /** multiply: the product of this length and the other's length in this unit, in this unit. */
  function Multiply(a: Measurement, b: Measurement): (r: Measurement)
    ensures Valid(r) && r.unit == a.unit
    ensures Value(r.millis) == InMillimeters(Product(Value(GetLength(a)), Value(GetLength(Convert(b, a.unit)))), a.unit)
  {
    var x, y := GetLength(a), GetLength(Convert(b, a.unit));
    StrippedProduct(x, y);
    Of(StripTrailingZeros(Decimals.Multiply(x, y)), a.unit)
  }

  lemma StrippedProduct(x: Dec, y: Dec)
    ensures Value(StripTrailingZeros(Decimals.Multiply(x, y))) == Product(Value(x), Value(y))
  {
  }

  /**
   * divide: the quotient of the two lengths in this unit, rounded HALF_UP to ten
   * digits. BigDecimal.divide throws an ArithmeticException when the divisor's
   * length in this unit is zero.
   */
  function Divide(a: Measurement, b: Measurement): (r: Result<Measurement>)
    ensures r.Err? <==> Value(GetLength(Convert(b, a.unit))) == 0.0
    ensures r.Err? ==> r.error == DivisionByZero
    ensures r.Ok? ==> Valid(r.value) && r.value.unit == a.unit
    ensures r.Ok? ==>
      Value(r.value.millis) == InMillimeters(RoundReal(Value(GetLength(a)) / Value(GetLength(Convert(b, a.unit))), Scale, HalfUp), a.unit)
  {
    var divisor := GetLength(Convert(b, a.unit));
    if Value(divisor) == 0.0 then Err(DivisionByZero)
    else
      var quotient := DivideToScale(GetLength(a), divisor, Scale, HalfUp);
      Ok(Of(StripTrailingZeros(quotient), a.unit))
  }

  /** scale(n) and scale(n, mode): the display length rounded to n digits; the unit is kept. */
  function ScaleTo(m: Measurement, n: int, mode: RoundingMode): (r: Measurement)
    ensures Valid(r) && r.unit == m.unit
    ensures Value(r.millis) == InMillimeters(RoundReal(Value(GetLength(m)), n, mode), m.unit)
  {
    Of(StripTrailingZeros(SetScale(GetLength(m), n, mode)), m.unit)
  }

  /** toString: the display length as a plain decimal, then the abbreviation. */
  function ToString(m: Measurement): string {
    PlainString(GetLength(m)) + Abbreviation(m.unit)
  }

  /** The maximal run of lower-case letters that s starts with ([a-z]+ taken greedily). */
  function LowerRun(s: string): (r: string)
    ensures |r| <= |s| && r == s[..|r|] && AllLower(r)
    ensures |r| < |s| ==> !IsLower(s[|r|])
  {
    if s != [] && IsLower(s[0]) then [s[0]] + LowerRun(s[1..]) else []
  }

  /** Whether the rest of the pattern, \s?([a-z]+), matches at position k. */
  predicate UnitStartsAt(s: string, k: int)
    requires 0 <= k <= |s|
  {
    (k < |s| && IsLower(s[k])) || (k + 1 < |s| && IsWhitespace(s[k]) && IsLower(s[k + 1]))
  }

  /**
   * The lazy group (.+?) tried with n, n+1, ... characters: the first length after
   * which the rest of the pattern matches. The whitespace is taken when a letter follows it.
   */
  function SplitAt(s: string, n: int): (r: Option<(string, string)>)
    requires 1 <= n <= |s|
    ensures r.Some? ==> n <= |r.value.0| < |s| && r.value.0 == s[..|r.value.0|]
    decreases |s| - n
  {
    if n + 1 < |s| && IsWhitespace(s[n]) && IsLower(s[n + 1]) then Some((s[..n], LowerRun(s[n + 1..])))
    else if n < |s| && IsLower(s[n]) then Some((s[..n], LowerRun(s[n..])))
    else if n < |s| && !IsLineTerminator(s[n]) then SplitAt(s, n + 1)
    else None
  }

  /**
   * What the splitter finds is what the pattern means: the shortest prefix of at least
   * n characters, free of line terminators, after which an optional whitespace and a
   * lower-case letter follow; the unit name is the whole run of letters there.
   */
  lemma {:induction false} SplitAtMeaning(s: string, n: int)
    requires 1 <= n <= |s|
    requires forall i :: 0 <= i < n ==> !IsLineTerminator(s[i])
    ensures SplitAt(s, n).Some? ==> var (number, name) := SplitAt(s, n).value;
      && (forall i :: 0 <= i < |number| ==> !IsLineTerminator(s[i]))
      && (forall k :: n <= k < |number| ==> !UnitStartsAt(s, k))
      && UnitStartsAt(s, |number|)
      && name == LowerRun(if IsLower(s[|number|]) then s[|number|..] else s[|number| + 1..])
    ensures SplitAt(s, n).None? ==>
      forall k :: n <= k <= |s| && (forall i :: 0 <= i < k ==> !IsLineTerminator(s[i])) ==> !UnitStartsAt(s, k)
    decreases |s| - n
  {
    hide LowerRun;
    if n + 1 < |s| && IsWhitespace(s[n]) && IsLower(s[n + 1]) {
      assert SplitAt(s, n) == Some((s[..n], LowerRun(s[n + 1..])));
    } else if n < |s| && IsLower(s[n]) {
      assert SplitAt(s, n) == Some((s[..n], LowerRun(s[n..])));
    } else if n < |s| && !IsLineTerminator(s[n]) {
      assert !UnitStartsAt(s, n);
      assert SplitAt(s, n) == SplitAt(s, n + 1);
      SplitAtMeaning(s, n + 1);
    } else {
      assert SplitAt(s, n).None?;
    }
  }

  /** PARSE_PATTERN matched with find(): the number text and the unit name, or None when nothing matches. */
  function SplitMeasurement(s: string): (r: Option<(string, string)>)
  {
    if |s| == 0 || IsLineTerminator(s[0]) then None else SplitAt(s, 1)
  }

  /**
   * parse: split, look up the unit, then read the number. Java evaluates Unit.parse
   * before new BigDecimal runs, so an unknown unit is reported before a malformed number.
   */
  function Parse(s: string): (r: Result<Measurement>)
    ensures SplitMeasurement(s).None? ==> r == Err(NoMatch(s))
    ensures SplitMeasurement(s).Some? && Units.Parse(SplitMeasurement(s).value.1).Err? ==>
      r == Err(Units.Parse(SplitMeasurement(s).value.1).error)
    ensures r.Ok? ==> Valid(r.value)
  {
    match SplitMeasurement(s)
    case None => Err(NoMatch(s))
    case Some((number, name)) =>
      match Units.Parse(name)
      case Err(e) => Err(e)
      case Ok(u) => OfString(number, u)
  }

  /** equals: BigDecimal.equals on the millis, which compares unscaled value and scale. */
  predicate Equals(a: Measurement, b: Measurement) {
    a.millis == b.millis
  }

  // ---------------------------------------------------------------- properties

  /** Equality ignores the unit and the representation: it holds iff the millimetre amounts are the same number. */
  lemma EqualsIsNumeric(a: Measurement, b: Measurement)
    requires Valid(a) && Valid(b)
    ensures Equals(a, b) <==> Value(a.millis) == Value(b.millis)
  {
    if Value(a.millis) == Value(b.millis) {
      StrippedCanonical(a.millis, b.millis);
    }
  }

  /** 3 feet equal 36 inches. */
  lemma FeetEqualInches()
    ensures Equals(OfInt(3, Foot), OfInt(36, Inch))
  {
    RatioValues();
    EqualsIsNumeric(OfInt(3, Foot), OfInt(36, Inch));
  }

  /** Reading a converted measurement in its new unit gives the rounded quotient. */
  lemma ConvertLength(m: Measurement, u: Unit)
    ensures Value(GetLength(Convert(m, u))) == LengthIn(m.millis, u)
  {
    var r := Convert(m, u);
    MillimetersRoundTrip(LengthIn(m.millis, u), u);
    RoundRealTwice(FromMillimeters(Value(m.millis), u), Scale, Scale, HalfUp, HalfUp);
  }

  /** The converted millimetres are the original ones iff the rounding in the new unit was exact. */
  lemma ConvertValueExact(m: Measurement, u: Unit)
    ensures Value(Convert(m, u).millis) == Value(m.millis) <==> LengthIn(m.millis, u) == FromMillimeters(Value(m.millis), u)
  {
    SameMillimeters(LengthIn(m.millis, u), Value(m.millis), u);
  }

  /** convert keeps the millimetres exactly iff they have at most ten fractional digits in the new unit. */
  lemma ConvertExact(m: Measurement, u: Unit)
    requires Valid(m)
    ensures Convert(m, u).millis == m.millis <==> IsInteger(Shift(FromMillimeters(Value(m.millis), u), Scale))
  {
    RoundRealExact(FromMillimeters(Value(m.millis), u), Scale, HalfUp);
    ConvertValueExact(m, u);
    EqualsIsNumeric(Convert(m, u), m);
  }

  /**
   * scale(n) reads back as the display length rounded to n digits. For n > 10 the
   * display length already has at most ten digits, so nothing changes.
   */
  lemma ScaleLength(m: Measurement, n: int, mode: RoundingMode)
    ensures Value(GetLength(ScaleTo(m, n, mode))) == RoundReal(Value(GetLength(m)), n, mode)
  {
    var rounded := RoundReal(Value(GetLength(m)), n, mode);
    MillimetersRoundTrip(rounded, m.unit);
    if n <= Scale {
      RoundRealTwice(Value(GetLength(m)), n, Scale, mode, HalfUp);
    } else {
      var x := FromMillimeters(Value(m.millis), m.unit);
      RoundRealTwice(x, Scale, n, HalfUp, mode);
      RoundRealTwice(x, Scale, Scale, HalfUp, HalfUp);
    }
  }

  /** The millimetres of (a + b) - b are a's. */
  lemma AddSubtractValue(a: Measurement, b: Measurement)
    ensures Value(Subtract(Add(a, b), b).millis) == Value(a.millis)
  {
  }

  /** The exact operations undo each other: (a + b) - b has a's millimetres and unit. */
  lemma AddSubtract(a: Measurement, b: Measurement)
    requires Valid(a)
    ensures Subtract(Add(a, b), b) == a
  {
    AddSubtractValue(a, b);
    EqualsIsNumeric(Subtract(Add(a, b), b), a);
  }

  /** The millimetres of a + b and b + a are the same number. */
  lemma AddCommutesValue(a: Measurement, b: Measurement)
    ensures Value(Add(a, b).millis) == Value(Add(b, a).millis)
  {
  }

  /** Addition commutes up to the unit kept. */
  lemma AddCommutes(a: Measurement, b: Measurement)
    ensures Equals(Add(a, b), Add(b, a))
  {
    AddCommutesValue(a, b);
    EqualsIsNumeric(Add(a, b), Add(b, a));
  }

  /** After a plain decimal, the splitter finds the abbreviation that follows it. */
  lemma {:induction false} SplitAfterNumber(p: string, a: string, n: int)
    requires 1 <= n <= |p|
    requires forall i :: 0 <= i < |p| ==> IsDigit(p[i]) || p[i] == '-' || p[i] == '.'
    requires |a| > 0 && AllLower(a)
    ensures SplitAt(p + a, n) == Some((p, LowerRun(a)))
    decreases |p| - n
  {
    hide LowerRun;
    var s := p + a;
    if n < |p| {
      assert s[n] == p[n];
      assert !IsLower(s[n]) && !IsWhitespace(s[n]) && !IsLineTerminator(s[n]);
      SplitAfterNumber(p, a, n + 1);
      assert SplitAt(s, n) == SplitAt(s, n + 1);
    } else {
      assert s[n] == a[0];
      assert s[..n] == p && s[n..] == a;
    }
  }

  lemma LowerRunAll(a: string)
    requires AllLower(a)
    ensures LowerRun(a) == a
  {
    if a != [] {
      LowerRunAll(a[1..]);
    }
  }

  /** toString then parse gives back the unit, and the millimetres of the printed length. */
  lemma ParseToString(m: Measurement)
    ensures Parse(ToString(m)).Ok?
    ensures Parse(ToString(m)).value.unit == m.unit
    ensures Value(Parse(ToString(m)).value.millis) == InMillimeters(Value(GetLength(m)), m.unit)
  {
    var p, a := PlainString(GetLength(m)), Abbreviation(m.unit);
    PlainStringShape(GetLength(m));
    SplitNumberUnit(p, a);
    ParseNames(m.unit);
    ParsePlainString(GetLength(m));
  }

  /** When getLength is exact, parsing the string form reproduces the measurement itself. */
  lemma ParseToStringExact(m: Measurement)
    requires Valid(m)
    requires InMillimeters(Value(GetLength(m)), m.unit) == Value(m.millis)
    ensures Parse(ToString(m)) == Ok(m)
  {
    ParseToString(m);
    EqualsIsNumeric(Parse(ToString(m)).value, m);
  }

  /** Parse in terms of its three steps. */
  lemma ParseSteps(s: string, number: string, name: string)
    requires SplitMeasurement(s) == Some((number, name))
    ensures Units.Parse(name).Err? ==> Parse(s) == Err(Units.Parse(name).error)
    ensures Units.Parse(name).Ok? ==> Parse(s) == OfString(number, Units.Parse(name).value)
  {
  }

  /** A plain number directly followed by a lower-case name splits into the two. */
  lemma SplitNumberUnit(p: string, a: string)
    requires |p| > 0 && forall i :: 0 <= i < |p| ==> IsDigit(p[i]) || p[i] == '-' || p[i] == '.'
    requires |a| > 0 && AllLower(a)
    ensures SplitMeasurement(p + a) == Some((p, a))
  {
    SplitAfterNumber(p, a, 1);
    LowerRunAll(a);
    assert (p + a)[0] == p[0];
  }

  lemma SplitJoined()
    ensures SplitMeasurement("23yd") == Some(("23", "yd"))
  {
    SplitNumberUnit("23", "yd");
    assert "23" + "yd" == "23yd";
  }

  lemma SplitSpaced()
    ensures SplitMeasurement("23 yd") == Some(("23", "yd"))
  {
    var s := "23 yd";
    assert SplitAt(s, 1) == SplitAt(s, 2);
    assert s[..2] == "23" && s[3..] == "yd";
    LowerRunAll("yd");
  }

  lemma ParseTwentyThree()
    ensures ParseDecimal("23") == Some(Dec(23, 0))
  {
    assert "" + "23" == "23";
    ParseIntegerForm(false, "23", "23");
    assert DigitsValue("23") == 23 by {
      assert "23"[..1] == "2";
    }
  }

  /** "23 yd" and "23yd" both parse to 23 yards. */
  lemma ParseExamples()
    ensures Parse("23 yd") == Ok(OfInt(23, Yard))
    ensures Parse("23yd") == Ok(OfInt(23, Yard))
  {
    SplitJoined();
    SplitSpaced();
    ParseTwentyThree();
    ParseAbbreviations();
    ParseSteps("23yd", "23", "yd");
    ParseSteps("23 yd", "23", "yd");
  }

  lemma SplitMalformed()
    ensures SplitMeasurement("6..5ft") == Some(("6..5", "ft"))
  {
    SplitNumberUnit("6..5", "ft");
    assert "6..5" + "ft" == "6..5ft";
  }

  lemma TwoPointsMalformed()
    ensures ParseDecimal("6..5") == None
  {
    var number := "6..5";
    assert IndexOfExponent(number) == 4;
    assert number[..4] == number;
    assert IndexOf(number, '.') == 1;
    assert number[2..] == ".5";
    assert !AllDigits(".5");
  }

  /** A number with two points is reported as malformed. */
  lemma ParseMalformed()
    ensures Parse("6..5ft") == Err(MalformedNumber("6..5"))
  {
    TwoPointsMalformed();
    assert OfString("6..5", Foot) == Err(MalformedNumber("6..5"));
    ParseAbbreviations();
    SplitMalformed();
    ParseSteps("6..5ft", "6..5", "ft");
  }

  /** An unknown unit is reported, even after a well-formed number. */
  lemma ParseUnknownUnit()
    ensures Parse("9.875inn") == Err(UnrecognizedUnit("inn"))
  {
    SplitNumberUnit("9.875", "inn");
    assert "9.875" + "inn" == "9.875inn";
    ParseSteps("9.875inn", "9.875", "inn");
    ParseUnknown();
  }

  /** toString starts with a digit, or with "-" exactly when the display length is negative. */
  lemma ToStringStart(m: Measurement)
    ensures |ToString(m)| > 0
    ensures IsDigit(ToString(m)[0]) || ToString(m)[0] == '-'
    ensures ToString(m)[0] == '-' <==> Value(GetLength(m)) < 0.0
  {
    PlainStringShape(GetLength(m));
  }

  /** A zero-length measurement prints as "0" and its abbreviation, whatever its unit. */
  lemma ZeroToString(m: Measurement)
    requires IsZeroLength(m)
    ensures ToString(m) == "0" + Abbreviation(m.unit)
  {
    RatioPositive(m.unit);
    InMillimetersMonotone(0.0, 0.0, m.unit);
    RoundRealZero(Scale, HalfUp);
    ValueZero(Dec(0, 0));
    StrippedCanonical(GetLength(m), Dec(0, 0));
    PlainStringZero();
  }
}
