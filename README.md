# Measurements, modelled in Dafny

A model of the core of the Measurements library. A `Measurement` is an immutable length. It is kept as an exact
decimal number of millimetres together with the unit it is shown in. A `Unit` is one of six length units
(millimetre, centimetre, metre, inch, foot, yard), each with an exact size in millimetres. Formatters split a
measurement into one piece per unit, largest unit first, and render the pieces as text:

- The decimal formatter shows the last piece at a fixed scale.
- The fraction formatter shows the last piece as the nearest fraction with a given even denominator.

A piece that is only an estimate is marked `~`. When a piece rounds up to a whole unit, it carries into the next
larger unit.

The files:

- `results.dfy`: the library's exceptions as an `Error` datatype, plus the `Result` and `Option` wrappers.
- `strings.dfy`: character classes, `toLowerCase` restricted to ASCII letters, and `trim`.
- `digits.dfy`: decimal digit strings and `Integer.toString`.
- `decimals.dfy`: the part of `java.math.BigDecimal` the library uses. This covers the value
  `unscaled × 10^-scale`, HALF_UP and UP rounding, `stripTrailingZeros`, `add`, `subtract`, `multiply`,
  `divide` to a scale, `divideAndRemainder`, `compareTo`, `setScale`, `toPlainString` and the `BigDecimal(String)`
  constructor.
- `units.dfy`: the `Unit` enum and `Unit.parse`.
- `measurements.dfy`: `Measurement`. It covers both versions of the class in the repository. Their constructors
  and `create` factories build the same values, and the older version's `_stripTrailingZeros` is proved equal to
  `stripTrailingZeros` as it behaves from Java 8 on (zero becomes `BigDecimal.ZERO`). Up to Java 7,
  `stripTrailingZeros` kept a zero's scale, which is what the older version's explicit zero case works around.
- `fractions.dfy`: `Fractions.getFractionString`. The scan and the halving loop are methods with loop invariants,
  proved against `FractionString`, a closed-form statement of the nearest grid point.
- `formatting.dfy`: the shared formatter logic.
  - the constructor's unit-order check
  - `getPieces`
  - `adjustPiecesForRounding` (with `shouldRoundUp` passed in as a function)
  - `adjustPiecesForNegatives`
  - the rendering loop

  The lists of pieces are arrays changed in place.
- `decimal_formatting.dfy` and `fraction_formatting.dfy`: the two concrete formatters. Each `format` method is
  proved against a function (`Formatted`) that says what the text is. Each `shouldRoundUp` is characterised by an
  if-and-only-if lemma.

Numbers are exact: `BigDecimal` values are `Dec(unscaled, scale)`, and `double` arguments are `real`. Exceptions
are `Err` results:

- `UnrecognizedUnit`: `Unit.parse`'s IllegalArgumentException.
- `MalformedNumber`: `new BigDecimal(String)`'s NumberFormatException.
- `NoMatch`: the IllegalStateException of `Matcher.group` after a failed `find`.
- `OddPrecision`: `getFractionString`'s IllegalArgumentException.
- `EmptyUnitList` and `UnitsNotDescending`: the formatter constructor's exceptions.
- `DivisionByZero`: the ArithmeticException of `BigDecimal.divide` when `divide` is given a zero-length divisor.

Behaviour kept exactly as the code has it:

- A carry into a zero larger piece always adds one unit, even when the carried piece is negative.
- `getFractionString(-0.99, 4)` is `"~1"`: rounding a zero whole part up loses the sign.
- `convert` rounds to ten digits, so it can lose precision.
- `parse` reports an unknown unit before a malformed number.

## Model

| member | source | states |
|---|---|---|
| Units.Abbreviation | src/main/java/com/arahlf/measurements/Unit.java:7-16 | each unit's abbreviation is a non-empty lower-case word |
| Units.Ratio | src/main/java/com/arahlf/measurements/Unit.java:7-12 | each unit's size in millimetres is a positive decimal, read from its string form |
| Units.RatioValues | src/main/java/com/arahlf/measurements/Unit.java:7-12 | the ratios are exactly 1, 10, 1000, 25.4, 304.8 and 914.4 mm |
| Units.RatioPositive | src/main/java/com/arahlf/measurements/Unit.java:22-24 | every unit has a positive length |
| Units.RatioOrder | src/main/java/com/arahlf/measurements/Unit.java:7-12 | the units grow in the order mm < cm < in < ft < yd < m |
| Units.ScalingByRatio | src/main/java/com/arahlf/measurements/Unit.java:22-24 | converting to millimetres multiplies by the ratio, and converting back divides by it |
| Units.MillimetersRoundTrip | src/main/java/com/arahlf/measurements/Unit.java:22-24 | converting to millimetres and back is the identity in both directions |
| Units.SameMillimeters | src/main/java/com/arahlf/measurements/Unit.java:22-24 | x units are m millimetres iff x is m divided by the ratio |
| Units.InMillimetersMonotone | src/main/java/com/arahlf/measurements/Unit.java:22-24 | scaling by a unit keeps order and equality, and maps zero to zero |
| Units.Lookup | src/main/java/com/arahlf/measurements/Unit.java:27-37 | the loop finds a unit that the name names; on failure it reports the name, and no unit in the list matches |
| Units.AllUnitsComplete | src/main/java/com/arahlf/measurements/Unit.java:7-12 | values() lists every unit |
| Units.LowerNames | src/main/java/com/arahlf/measurements/Unit.java:26-38 | abbreviations are already lower case; display names lose only their initial capital |
| Units.NamesDistinct | src/main/java/com/arahlf/measurements/Unit.java:7-12 | no name belongs to two units, so the lookup order does not matter |
| Units.ParseSpec | src/main/java/com/arahlf/measurements/Unit.java:26-38 | parse gives u iff the lower-cased name is u's abbreviation or lower-cased display name; otherwise it is an error naming the lower-cased input, and no unit matches |
| Units.ParseNames | src/main/java/com/arahlf/measurements/Unit.java:26-38 | every unit is found by its abbreviation and by its display name |
| Units.ParseUpperCase | src/main/java/com/arahlf/measurements/Unit.java:27 | case is ignored: "IN" is the inch |
| Units.ParseUnknown | src/main/java/com/arahlf/measurements/Unit.java:37 | "inn" is reported as an unrecognised unit |
| Units.ParseAbbreviations | src/main/java/com/arahlf/measurements/Unit.java:7-12 | each abbreviation parses to its unit |
| Strings.ToLower | src/main/java/com/arahlf/measurements/Unit.java:27 | same length; each ASCII capital is lowered and every other character is kept |
| Strings.TrimTwice | src/com/arahlf/measurements/formatting/FractionMeasurementFormatter.java:63 | trimming twice is trimming once |
| Strings.Trim | src/com/arahlf/measurements/formatting/FractionMeasurementFormatter.java:63 | the result is the part of the input between its leading and trailing runs of characters at or below U+0020: it is a slice of the input, everything dropped is at or below U+0020, and the result neither starts nor ends with such a character |
| Digits.NatToStringRoundTrip | src/com/arahlf/measurements/formatting/Fractions.java:21 | reading back the digits of n gives n |
| Digits.IntToString | src/com/arahlf/measurements/formatting/Fractions.java:21 | Integer.toString is non-empty, starts with a digit or "-", and starts with "-" iff the number is negative |
| Decimals.StripTrailingZeros | src/main/java/com/arahlf/measurements/Measurement.java:36 | keeps the value, and produces the stripped form: zero is scale 0, and nothing else ends in a zero digit |
| Decimals.StrippedCanonical | src/main/java/com/arahlf/measurements/Measurement.java:189-200 | two stripped decimals of equal value are the same decimal |
| Decimals.Add | src/main/java/com/arahlf/measurements/Measurement.java:93-97 | the exact sum |
| Decimals.Subtract | src/main/java/com/arahlf/measurements/Measurement.java:104-108 | the exact difference |
| Decimals.Multiply | src/main/java/com/arahlf/measurements/Measurement.java:115-119 | the exact product |
| Decimals.CompareTo | src/com/arahlf/measurements/formatting/AbstractMeasurementFormatter.java:24 | -1, 0 or 1 by the sign of the exact difference, whatever the scales |
| Decimals.AbsDec | src/com/arahlf/measurements/formatting/AbstractMeasurementFormatter.java:94 | the absolute value |
| Decimals.SetScale | src/main/java/com/arahlf/measurements/formatting/DecimalMeasurementFormatter.java:63-64 | the value rounded to n digits in the given mode, at scale n |
| Decimals.DivideToScale | src/main/java/com/arahlf/measurements/Measurement.java:44-46 | for a non-zero divisor: the exact quotient rounded to n digits, at scale n |
| Decimals.DivideAndRemainderFacts | src/com/arahlf/measurements/formatting/AbstractMeasurementFormatter.java:42 | the quotient is an integer truncated toward zero; quotient × divisor + remainder is the dividend; the remainder is smaller than the divisor and has the dividend's sign |
| Decimals.RoundHalfUpToInt | src/main/java/com/arahlf/measurements/Measurement.java:211 | the nearest integer, with ties away from zero |
| Decimals.RoundUpToInt | src/com/arahlf/measurements/formatting/AbstractMeasurementFormatter.java:70 | the nearest integer away from zero |
| Decimals.RoundRealHalfUpBound | src/main/java/com/arahlf/measurements/Measurement.java:210-211 | HALF_UP to n digits moves a number by at most half a unit in the last place |
| Decimals.RoundRealUpBounds | src/com/arahlf/measurements/formatting/AbstractMeasurementFormatter.java:70 | UP to n digits moves away from zero, by less than one unit in the last place |
| Decimals.RoundRealExact | src/main/java/com/arahlf/measurements/Measurement.java:44-46 | rounding changes nothing iff the number already has at most n fractional digits |
| Decimals.RoundRealTwice | src/main/java/com/arahlf/measurements/Measurement.java:149-151 | rounding to m digits, then to n >= m digits, is rounding to m digits |
| Decimals.PlainStringShape | src/main/java/com/arahlf/measurements/Measurement.java:180-182 | toPlainString starts with a digit or "-", and with "-" exactly for negative numbers |
| Decimals.ParsePlainString | src/main/java/com/arahlf/measurements/Measurement.java:170-174 | new BigDecimal(toPlainString()) has the original value, and is the same decimal when the scale is not negative |
| Decimals.ParseDecimalSign | src/main/java/com/arahlf/measurements/Measurement.java:23-25 | a leading "-" negates the unsigned reading, and no sign keeps it |
| Measurements.Create | src/main/java/com/arahlf/measurements/Measurement.java:31-38 | the millimetres are the length times the input unit's ratio, stripped; the unit is the desired one |
| Measurements.Of | src/com/arahlf/measurements/Measurement.java:21-23 | create(length, unit): the millimetres are the length in that unit |
| Measurements.OfInt | src/com/arahlf/measurements/Measurement.java:13-15 | create(int, unit): the millimetres are the integer in that unit |
| Measurements.OfString | src/main/java/com/arahlf/measurements/Measurement.java:23-25 | an error iff the string is not a BigDecimal literal written with ASCII digits; otherwise the measurement of its value |
| Measurements.LegacyStripAgrees | src/com/arahlf/measurements/Measurement.java:122-125 | the older version's explicit zero case is stripTrailingZeros, so both versions hold the same millimetres |
| Measurements.GetLength | src/main/java/com/arahlf/measurements/Measurement.java:44-46 | the millimetres over the ratio, rounded HALF_UP to ten digits and stripped |
| Measurements.IsZeroLength | src/main/java/com/arahlf/measurements/Measurement.java:68-70 | true iff the millimetres are zero |
| Measurements.IsNegativeLength | src/main/java/com/arahlf/measurements/Measurement.java:76-78 | true iff the millimetres are negative |
| Measurements.IsPositiveLength | src/main/java/com/arahlf/measurements/Measurement.java:84-86 | true iff the millimetres are positive |
| Measurements.Add | src/main/java/com/arahlf/measurements/Measurement.java:93-97 | the millimetres add exactly; the left operand's unit is kept |
| Measurements.Subtract | src/main/java/com/arahlf/measurements/Measurement.java:104-108 | the millimetres subtract exactly; the left operand's unit is kept |
| Measurements.Convert | src/main/java/com/arahlf/measurements/Measurement.java:137-141 | the new unit, with millimetres re-derived from the length rounded to ten digits in that unit |
| Measurements.Multiply | src/main/java/com/arahlf/measurements/Measurement.java:115-119 | this length times the other's length converted to this unit, in this unit |
| Measurements.Divide | src/main/java/com/arahlf/measurements/Measurement.java:126-130 | an error iff the divisor's length in this unit is zero; otherwise the quotient of the two lengths in this unit, rounded HALF_UP to ten digits, in this unit |
| Measurements.ScaleTo | src/main/java/com/arahlf/measurements/Measurement.java:149-162 | the length rounded to n digits in the mode (HALF_UP by default); the unit is kept |
| Measurements.LowerRun | src/main/java/com/arahlf/measurements/Measurement.java:212 | the longest prefix of lower-case letters ([a-z]+ greedy) |
| Measurements.SplitAt | src/main/java/com/arahlf/measurements/Measurement.java:212 | the lazy group (.+?) ends at n or later, inside the input |
| Measurements.SplitAtMeaning | src/main/java/com/arahlf/measurements/Measurement.java:212 | the split is the shortest prefix free of line terminators after which an optional whitespace and a letter follow, with the unit the whole letter run; no split means no such prefix |
| Measurements.Parse | src/main/java/com/arahlf/measurements/Measurement.java:170-174 | no match gives NoMatch, an unknown unit is reported first, and a result is always a valid measurement |
| Measurements.ParseSteps | src/main/java/com/arahlf/measurements/Measurement.java:170-174 | parse is split, then Unit.parse, then new BigDecimal, in that order |
| Measurements.EqualsIsNumeric | src/main/java/com/arahlf/measurements/Measurement.java:189-200 | equals holds iff the millimetres are the same number, whatever the units |
| Measurements.FeetEqualInches | src/test/java/com/arahlf/measurements/TU_Measurement.java:186-188 | 3 ft equals 36 in |
| Measurements.ConvertLength | src/main/java/com/arahlf/measurements/Measurement.java:137-141 | the converted measurement reads back as the rounded quotient in the new unit |
| Measurements.ConvertValueExact | src/main/java/com/arahlf/measurements/Measurement.java:137-141 | convert keeps the millimetres iff rounding in the new unit was exact |
| Measurements.ConvertExact | src/main/java/com/arahlf/measurements/Measurement.java:137-141 | convert keeps the millimetres iff the length in the new unit has at most ten fractional digits (convert is lossy otherwise) |
| Measurements.ScaleLength | src/main/java/com/arahlf/measurements/Measurement.java:149-162 | scale(n, mode) reads back as the length rounded to n digits in that mode, for every n (beyond ten digits nothing changes) |
| Measurements.AddSubtract | src/main/java/com/arahlf/measurements/Measurement.java:93-108 | (a + b) - b is a, millimetres and unit |
| Measurements.AddCommutes | src/main/java/com/arahlf/measurements/Measurement.java:93-97 | a + b equals b + a |
| Measurements.SplitAfterNumber | src/main/java/com/arahlf/measurements/Measurement.java:212 | after a plain number, the pattern splits off the letters that follow |
| Measurements.ParseToString | src/main/java/com/arahlf/measurements/Measurement.java:170-182 | parse(toString()) succeeds, with the same unit and the millimetres of the printed length |
| Measurements.ParseToStringExact | src/main/java/com/arahlf/measurements/Measurement.java:170-182 | when getLength is exact, parse(toString()) is the measurement itself |
| Measurements.SplitNumberUnit | src/main/java/com/arahlf/measurements/Measurement.java:212 | a plain number directly followed by a lower-case name splits into the two |
| Measurements.ParseExamples | src/test/java/com/arahlf/measurements/TU_Measurement.java:130-134 | "23 yd" and "23yd" are both 23 yards |
| Measurements.ParseMalformed | src/test/java/com/arahlf/measurements/TU_Measurement.java:150 | "6..5ft" is a malformed number |
| Measurements.ParseUnknownUnit | src/test/java/com/arahlf/measurements/TU_Measurement.java:155 | "9.875inn" is an unrecognised unit |
| Measurements.ToStringStart | src/main/java/com/arahlf/measurements/Measurement.java:180-182 | toString is non-empty and starts with a digit or "-", with "-" exactly for a negative length |
| Measurements.ZeroToString | src/main/java/com/arahlf/measurements/Measurement.java:180-182 | a zero measurement prints as "0" and its abbreviation |
| Fractions.FracPart | src/com/arahlf/measurements/formatting/Fractions.java:16 | the fractional part of the magnitude, in [0, 1) |
| Fractions.RoundHalfDown | src/com/arahlf/measurements/formatting/Fractions.java:24-52 | the nearest integer, with ties going down |
| Fractions.Reduce | src/com/arahlf/measurements/formatting/Fractions.java:55-58 | halving keeps the ratio and leaves numerator and denominator not both even |
| Fractions.FractionString | src/com/arahlf/measurements/formatting/Fractions.java:10-68 | an error iff the precision is odd; the text is stated by SpecOfScan, NearestIsNearest and ApproximateIff |
| Fractions.NearestIsNearest | src/com/arahlf/measurements/formatting/Fractions.java:24-52 | the chosen numerator is at least as near as every grid point, and strictly nearer than every smaller one |
| Fractions.NearestRange | src/com/arahlf/measurements/formatting/Fractions.java:24 | for a proper fraction the numerator lies in 0 .. precision |
| Fractions.OnGrid | src/com/arahlf/measurements/formatting/Fractions.java:28-32 | the exact-match test succeeds iff the fraction is a grid point |
| Fractions.ScanOf | src/com/arahlf/measurements/formatting/Fractions.java:24-52 | where the scan ends; when it stops at a numerator, that numerator is non-zero, strictly between 0 and a positive precision, and the prefix is "" or "~" |
| Fractions.ScanNumerators | src/com/arahlf/measurements/formatting/Fractions.java:24-52 | the scan loop ends where ScanOf says |
| Fractions.SpecOfScan | src/com/arahlf/measurements/formatting/Fractions.java:24-67 | the closed form agrees with the scan's result |
| Fractions.GetFractionString | src/com/arahlf/measurements/formatting/Fractions.java:10-68 | the method returns FractionString(number, precision) |
| Fractions.ReduceAndRender | src/com/arahlf/measurements/formatting/Fractions.java:55-67 | the halving loop and the string give the reduced fraction after the whole part or sign |
| Fractions.ApproximateIff | src/com/arahlf/measurements/formatting/Fractions.java:41-49 | with a positive even precision the string starts with "~" iff the fraction is not a multiple of 1/precision |
| Fractions.ReducedFraction | src/com/arahlf/measurements/formatting/Fractions.java:55-60 | the reduced fraction has the grid point's value, and is fully halved |
| Fractions.RenderFirst | src/com/arahlf/measurements/formatting/Fractions.java:60-67 | the string is non-empty and starts with "~" iff the prefix is "~" |
| Fractions.NegateSymmetric | src/com/arahlf/measurements/formatting/Fractions.java:15-67 | for magnitudes of at least one, the string for -x is the one for x with "-" after the optional "~" |
| Fractions.ExactEighth | src/test/java/com/arahlf/measurements/TU_Fractions.java:25 | 0.125 at 8 is "1/8" |
| Fractions.ExactNegativeEighth | src/test/java/com/arahlf/measurements/TU_Fractions.java:48 | -0.125 at 8 is "-1/8" |
| Fractions.ExactSixteenths | src/test/java/com/arahlf/measurements/TU_Fractions.java:37 | 12.1875 at 16 is "12-3/16" |
| Fractions.WholeNumber | src/test/java/com/arahlf/measurements/TU_Fractions.java:22 | 0 at 4 is "0", and 3 at 16 is "3" |
| Fractions.ApproximateEighth | src/test/java/com/arahlf/measurements/TU_Fractions.java:26 | 0.12 at 8 is "~1/8" |
| Fractions.ApproximateMixed | src/test/java/com/arahlf/measurements/TU_Fractions.java:38 | 13.63 at 8 is "~13-5/8" |
| Fractions.ApproximateRoundsUp | src/test/java/com/arahlf/measurements/TU_Fractions.java:35 | 12.97 at 16 is "~13" |
| Fractions.ApproximateRoundsUpToTwo | src/test/java/com/arahlf/measurements/TU_Fractions.java:32 | 1.88 at 4 is "~2" |
| Fractions.NegativeRoundUpLosesSign | src/com/arahlf/measurements/formatting/Fractions.java:41 | -0.99 at 4 is "~1": rounding a zero whole part up drops the sign |
| Formatting.CheckUnits | src/com/arahlf/measurements/formatting/AbstractMeasurementFormatter.java:15-32 | an empty list is an error; otherwise the list is accepted iff every ratio is strictly below the one before |
| Formatting.GetPieces | src/com/arahlf/measurements/formatting/AbstractMeasurementFormatter.java:36-60 | fills a fresh array with the pieces, one per unit |
| Formatting.NextPiece | src/com/arahlf/measurements/formatting/AbstractMeasurementFormatter.java:41-54 | one loop step: the stripped quotient as a piece, the last one taking the remainder |
| Formatting.StrippedQuotient | src/com/arahlf/measurements/formatting/AbstractMeasurementFormatter.java:44-47 | stripping the quotient does not change the piece |
| Formatting.SplitFacts | src/com/arahlf/measurements/formatting/AbstractMeasurementFormatter.java:42-47 | the piece is a whole number of its unit; piece plus remainder is what remained; the remainder is less than one unit and does not have the opposite sign |
| Formatting.LastPieceFacts | src/com/arahlf/measurements/formatting/AbstractMeasurementFormatter.java:49-51 | the last piece holds the quotient plus the remainder, which is all that remained |
| Formatting.PieceAtFacts | src/com/arahlf/measurements/formatting/AbstractMeasurementFormatter.java:40-57 | piece k is in unit k; every piece but the last is whole and leaves less than one unit; no piece has the opposite sign to the input |
| Formatting.PiecesSum | src/com/arahlf/measurements/formatting/AbstractMeasurementFormatter.java:36-60 | the pieces add up exactly to the input's millimetres |
| Formatting.PiecesFacts | src/com/arahlf/measurements/formatting/AbstractMeasurementFormatter.java:36-60 | one piece per unit, in order; whole pieces but the last; the sum is the input; no piece has the opposite sign to the input |
| Formatting.CarryStepValues | src/com/arahlf/measurements/formatting/AbstractMeasurementFormatter.java:76-79 | a carry into a zero piece adds one unit even when the carried piece was negative |
| Formatting.CarryStepShape | src/com/arahlf/measurements/formatting/AbstractMeasurementFormatter.java:72-81 | a carry keeps length and units, touches only positions i and i - 1, and leaves position i not equal to one larger unit |
| Formatting.CarriedDownToFacts | src/com/arahlf/measurements/formatting/AbstractMeasurementFormatter.java:72-81 | the loop keeps every unit, leaves the lower positions alone, and leaves no processed piece at one whole larger unit |
| Formatting.RoundedUpFacts | src/com/arahlf/measurements/formatting/AbstractMeasurementFormatter.java:62-84 | after rounding up, every unit is in place and no piece past the first is exactly one unit of the piece before it |
| Formatting.AdjustPiecesForRounding | src/com/arahlf/measurements/formatting/AbstractMeasurementFormatter.java:62-84 | the result is shouldRoundUp(last); the pieces are unchanged when it is false, and rounded and carried otherwise |
| Formatting.RoundUpAndCarry | src/com/arahlf/measurements/formatting/AbstractMeasurementFormatter.java:69-81 | the array becomes the rounded and carried pieces |
| Formatting.RoundLast | src/com/arahlf/measurements/formatting/AbstractMeasurementFormatter.java:70 | only the last piece changes, to its rounded-up value |
| Formatting.CarryDown | src/com/arahlf/measurements/formatting/AbstractMeasurementFormatter.java:72-81 | the loop applies the carry steps from the last position down to 1 |
| Formatting.Carry | src/com/arahlf/measurements/formatting/AbstractMeasurementFormatter.java:73-80 | the loop body applies one carry step at position i |
| Formatting.FirstNegative | src/com/arahlf/measurements/formatting/AbstractMeasurementFormatter.java:87-99 | the first negative position, or the length when there is none |
| Formatting.AdjustPiecesForNegatives | src/com/arahlf/measurements/formatting/AbstractMeasurementFormatter.java:86-101 | the array becomes NegativesAdjusted of its old contents |
| Formatting.AbsoluteFacts | src/com/arahlf/measurements/formatting/AbstractMeasurementFormatter.java:94 | the magnitude keeps the unit, is not negative, and reads back as the absolute length |
| Formatting.NegativesAdjustedFacts | src/com/arahlf/measurements/formatting/AbstractMeasurementFormatter.java:86-101 | only the first negative piece stays negative; units, non-negative pieces and the earlier pieces are kept |
| Formatting.AtMostOneNegative | src/com/arahlf/measurements/formatting/AbstractMeasurementFormatter.java:86-101 | afterwards at most one piece is negative |
| Formatting.AppendNonZeroPieces | src/com/arahlf/measurements/formatting/FractionMeasurementFormatter.java:36-47 | the builder gains each non-zero piece's toString and a space, and the counter is the number of zero pieces |
| Formatting.NonZeroTextStart | src/main/java/com/arahlf/measurements/formatting/DecimalMeasurementFormatter.java:44-51 | the text is empty iff every piece is zero, and otherwise starts with a digit or "-" |
| Formatting.ZeroPieces | src/com/arahlf/measurements/formatting/AbstractMeasurementFormatter.java:36-60 | every piece of a zero measurement is zero, and the last prints as "0" and its unit |
| DecimalFormatting.NewDecimalFormatter | src/main/java/com/arahlf/measurements/formatting/DecimalMeasurementFormatter.java:13-17 | the units pass the superclass's check, or its error is returned |
| DecimalFormatting.ShouldRoundUp | src/main/java/com/arahlf/measurements/formatting/DecimalMeasurementFormatter.java:61-67 | true iff HALF_UP to the scale changes the length and gives its UP rounding to a whole number |
| DecimalFormatting.RoundsUpToWhole | src/main/java/com/arahlf/measurements/formatting/DecimalMeasurementFormatter.java:61-67 | a piece rounds up iff its length is not whole and shows at the scale as the next whole number away from zero |
| DecimalFormatting.Format | src/main/java/com/arahlf/measurements/formatting/DecimalMeasurementFormatter.java:20-58 | the method returns Formatted: "0" and the last unit for zero; otherwise "~" when approximate, then the non-zero pieces, trimmed |
| DecimalFormatting.RoundPieces | src/main/java/com/arahlf/measurements/formatting/DecimalMeasurementFormatter.java:27-38 | the array holds the carried pieces with the last one scaled to the formatter's scale; approximation is Approximation of the old pieces, and the builder is "~" exactly then |
| DecimalFormatting.FormatZero | src/main/java/com/arahlf/measurements/formatting/DecimalMeasurementFormatter.java:23-25 | a zero measurement is "0" and the last unit |
| DecimalFormatting.BodyStart | src/main/java/com/arahlf/measurements/formatting/DecimalMeasurementFormatter.java:44-55 | the text after "~" is non-empty and starts with a digit or "-" |
| DecimalFormatting.FormatApproximate | src/main/java/com/arahlf/measurements/formatting/DecimalMeasurementFormatter.java:35-38 | a non-zero result starts with "~" iff the pieces were rounded up or scaling the last piece changed it |
| DecimalFormatting.LastPieceDigits | src/main/java/com/arahlf/measurements/formatting/DecimalMeasurementFormatter.java:29-31 | for a scale of at most ten, the last piece shown has at most that many fractional digits |
| DecimalFormatting.ShownPieces | src/main/java/com/arahlf/measurements/formatting/DecimalMeasurementFormatter.java:27-40 | the shown pieces keep the formatter's units in order, and at most one is negative |
| DecimalFormatting.PieceAtStart | src/com/arahlf/measurements/formatting/AbstractMeasurementFormatter.java:40-57 | with two units, the first piece is the first unit's whole quotient and the second is the piece at index 1 |
| DecimalFormatting.ThreeFeetPieces | src/com/arahlf/measurements/formatting/AbstractMeasurementFormatter.java:36-60 | 36in over feet and inches splits into exactly 3ft and a zero inch piece |
| DecimalFormatting.ThreeFeetLength | src/main/java/com/arahlf/measurements/Measurement.java:180-182 | 3ft has the length 3 and reads "3ft" |
| DecimalFormatting.BodyFirstOnly | src/main/java/com/arahlf/measurements/formatting/DecimalMeasurementFormatter.java:42-55 | with a non-zero first piece and a zero second piece, the text is the first piece and a space |
| DecimalFormatting.ThreeFeetShown | src/main/java/com/arahlf/measurements/formatting/DecimalMeasurementFormatter.java:27-40 | for 36in over feet and inches at scale 2 nothing is rounded, so no "~", and the pieces shown are 3ft and a zero piece |
| DecimalFormatting.TrimThreeFeet | src/main/java/com/arahlf/measurements/formatting/DecimalMeasurementFormatter.java:57 | trimming "3ft " drops the trailing space |
| DecimalFormatting.FormatThreeFeet | test/src/com/arahlf/measurements/formatting/TU_DecimalMeasurementFormatter.java:20-26 | 36in formatted over feet and inches at scale 2 is exactly "3ft": only the necessary units are shown |
| FractionFormatting.NewFractionFormatter | src/com/arahlf/measurements/formatting/FractionMeasurementFormatter.java:15-19 | the units pass the superclass's check, or its error is returned |
| FractionFormatting.TildeNumberFrom | src/com/arahlf/measurements/formatting/FractionMeasurementFormatter.java:84 | a match from position i gives its group's value; none means no match from i |
| FractionFormatting.TildeNumber | src/com/arahlf/measurements/formatting/FractionMeasurementFormatter.java:69-76 | find() succeeds iff "~" followed by digits to the end occurs, and yields those digits' value |
| FractionFormatting.TildeWhole | src/com/arahlf/measurements/formatting/FractionMeasurementFormatter.java:84 | "~" and a whole number matches iff the number is not negative, and gives that number |
| FractionFormatting.RenderNoMatch | src/com/arahlf/measurements/formatting/FractionMeasurementFormatter.java:84 | a rendered fraction never matches the pattern |
| FractionFormatting.ShouldRoundUpIff | src/com/arahlf/measurements/formatting/FractionMeasurementFormatter.java:67-80 | a piece rounds up iff the denominator is positive, the length is positive and not whole, and its nearest grid point is the next whole number |
| FractionFormatting.NoMatchNoRoundUp | src/com/arahlf/measurements/formatting/FractionMeasurementFormatter.java:71-73 | without a match the answer is false |
| FractionFormatting.IntegerNoMatch | src/com/arahlf/measurements/formatting/FractionMeasurementFormatter.java:84 | a whole number alone never matches |
| FractionFormatting.Format | src/com/arahlf/measurements/formatting/FractionMeasurementFormatter.java:22-64 | the method returns Formatted: "0" and the last unit for zero; an error for an odd denominator; otherwise the marked text, trimmed |
| FractionFormatting.RoundAndRender | src/com/arahlf/measurements/formatting/FractionMeasurementFormatter.java:32-61 | the array holds the pieces after rounding and carrying; the result is "~" iff the fraction was estimated or the pieces were rounded up, then the text of the rounded pieces |
| FractionFormatting.RenderPieces | src/com/arahlf/measurements/formatting/FractionMeasurementFormatter.java:33-56 | the non-zero pieces but the last, then the fraction and last unit when shown; the flag says whether the fraction had "~" |
| FractionFormatting.FormatZero | src/com/arahlf/measurements/formatting/FractionMeasurementFormatter.java:25-27 | a zero measurement is "0" and the last unit |
| FractionFormatting.FractionStart | src/com/arahlf/measurements/formatting/Fractions.java:60-67 | without its "~", a fraction string is non-empty and starts with a digit or "-" |
| FractionFormatting.TextStart | src/com/arahlf/measurements/formatting/FractionMeasurementFormatter.java:38-56 | the text after "~" is non-empty and starts with a digit or "-" |
| FractionFormatting.FormatApproximate | src/com/arahlf/measurements/formatting/FractionMeasurementFormatter.java:49-61 | a non-zero result with a positive even denominator starts with "~" iff the pieces were rounded up or the last piece is not a multiple of 1/denominator |

## Left out

- Operator.java (an enum of operator symbols that no modelled code uses), the MeasurementFormatter interfaces (declarations only) and serialisation are not part of this model.
- The AbstractMeasurementFormatter of the newer source tree is not part of this model. The decimal formatter is modelled over the one in src/com/arahlf/measurements/formatting.
- hashCode is left out: it is not defined on the value model, and the model has no hashing.
- The formatters' getFractionString calls pass `BigDecimal.doubleValue()`. The model passes the exact value, so double rounding error (an exact eighth read back inexactly, for instance) is not modelled. The same holds for every `double` comparison in the scan of getFractionString.
- Fractions.FractionString: `(int) number` is modelled as exact truncation, with no 32-bit overflow. `Integer.parseInt` of the matched digits in shouldRoundUp is modelled without its overflow exception.
- Fractions.FractionString: a precision of zero makes every grid point NaN. The model follows Java's comparisons with NaN, and a negative precision skips the scan as Java does.
- Measurements.SplitAt: the regex engine is a hand-written matcher for `^(.+?)\s?([a-z]+)`. The model treats each unmatched input as NoMatch, which is the IllegalStateException that `group` throws.
- FractionFormatting.TildeNumber: `$` before a final line terminator is not modelled. The input is always a rendered fraction, which has none.
- FractionFormatting.Format: getFractionString throws for an odd denominator inside shouldRoundUp. The model returns that error before adjustPiecesForRounding runs, which is the same outcome.
- Decimals.DivideToScale: BigDecimal's internal precision, MathContext and exponent (scientific) notation in toString are not modelled. Only toPlainString is used.
- Units.Parse: the function has no contract of its own. Its behaviour is stated by Units.ParseSpec, Units.ParseNames and the examples.
- Formatting.GetPieces, Formatting.AdjustPiecesForRounding, DecimalFormatting.Format and FractionFormatting.Format work on arrays. The source's LinkedList is modelled as an array because only its contents and order are used. The loop bodies and halves are separate methods: NextPiece, RoundLast, CarryDown, Carry, RoundPieces, RoundAndRender, RenderPieces, ScanNumerators and ReduceAndRender.
- The rendered text for a piece is stated as a definition (NonZeroText, Body, Text). The properties proved about it are how it starts and where its "~" comes from, not a parser for it.
- Measurements.OfString: `new BigDecimal(String)` accepts every character for which `Character.isDigit` holds, such as the Arabic-Indic digits. Decimals.ParseDecimal reads the ASCII digits 0-9 only. So Measurements.OfString and Measurements.Parse report MalformedNumber for numbers written in other scripts, which Java reads.
- Strings.ToLower: lowers the ASCII letters A-Z only, and assumes a default locale other than Turkish. Java's `toLowerCase` also lowers non-ASCII capitals, can lengthen a string (U+0130), and in a Turkish locale turns "I" into a dotless "ı", where `Unit.parse("IN")` fails. No non-ASCII character lowers to a unit name, so outside the Turkish locale the outcome of Unit.parse is the same. Only the lower-cased name carried by UnrecognizedUnit can differ.
