/**
 * FractionMeasurementFormatter: every non-zero piece but the last as a plain
 * decimal and its abbreviation, the last piece as a whole number and a fraction
 * with a fixed even denominator, and "~" in front when that fraction is only the
 * nearest one or the pieces were rounded up.
 */
module FractionFormatting {
  import opened Results
  import opened Strings
  import opened Digits
  import opened Decimals
  import opened Units
  import opened Measurements
  import opened Formatting
  import Fractions

  /** The formatter's final fields: the fraction denominator and the checked unit list. */
  datatype FractionFormatter = FractionFormatter(denominator: int, units: seq<Unit>)

  /** new FractionMeasurementFormatter(denominator, units...): only the unit list is checked. */
  method NewFractionFormatter(denominator: int, units: seq<Unit>) returns (r: Result<FractionFormatter>)
    ensures r.Ok? <==> |units| > 0 && Descending(units)
    ensures r.Ok? ==> r.value == FractionFormatter(denominator, units)
    ensures r.Err? ==> r.error == if |units| == 0 then EmptyUnitList else UnitsNotDescending
  {
    var checked := CheckUnits(units);
    if checked.Err? {
      return Err(checked.error);
    }
    return Ok(FractionFormatter(denominator, checked.value));
  }

  // ---------------------------------------------------------------- NUMBER_REGEX

  /** The pattern "~^?(\d+)$" matches at i: a "~" there, then one or more digits up to the end. */
  predicate TildeDigitsAt(s: string, i: int) {
    0 <= i < |s| - 1 && s[i] == '~' && AllDigits(s[i + 1..])
  }

  /** Matcher.find from position i, and the value of group 1 of the first match. */
  function TildeNumberFrom(s: string, i: nat): (r: Option<nat>)
    requires i <= |s|
    ensures r.Some? ==> exists j :: i <= j && TildeDigitsAt(s, j) && r.value == DigitsValue(s[j + 1..])
    ensures r.None? ==> forall j :: i <= j < |s| ==> !TildeDigitsAt(s, j)
    decreases |s| - i
  {
    if i == |s| then None
    else if TildeDigitsAt(s, i) then Some(DigitsValue(s[i + 1..]))
    else TildeNumberFrom(s, i + 1)
  }

  /** The first "~" followed by decimal digits up to the end of the text, and the value of those digits. */
  function TildeNumber(s: string): (r: Option<nat>)
    ensures r.Some? <==> exists j :: TildeDigitsAt(s, j)
    ensures r.Some? ==> exists j :: TildeDigitsAt(s, j) && r.value == DigitsValue(s[j + 1..])
  {
    TildeNumberFrom(s, 0)
  }

  /** "~" and a whole number matches exactly when the number is not negative, and gives that number. */
  lemma TildeWhole(w: int)
    ensures TildeNumber("~" + IntToString(w)) == if w >= 0 then Some(w) else None
  {
    var s := "~" + IntToString(w);
    if w >= 0 {
      assert s[1..] == NatToString(w);
      assert TildeDigitsAt(s, 0);
      NatToStringRoundTrip(w);
    } else {
      assert s[1] == '-';
      forall j | 0 <= j < |s| ensures !TildeDigitsAt(s, j) {
        if j > 0 {
          assert s[j] == IntToString(w)[j - 1];
        }
      }
    }
  }

  /** Integer.toString writes digits and "-" only. */
  lemma IntToStringChars(i: int)
    ensures forall k :: 0 <= k < |IntToString(i)| ==> IsDigit(IntToString(i)[k]) || IntToString(i)[k] == '-'
  {
  }

  /** A string whose only "~" can be its first character, followed by a "/" somewhere, does not match. */
  lemma NoTildeNumber(s: string, slash: int)
    requires 0 < slash < |s| && s[slash] == '/'
    requires forall k :: 0 < k < |s| ==> s[k] != '~'
    ensures TildeNumber(s) == None
  {
    forall j | 0 <= j < |s| ensures !TildeDigitsAt(s, j) {
      if j == 0 && |s| > 1 {
        assert s[1..][slash - 1] == '/';
      }
    }
  }

  /** A rendered fraction never matches: the only "~" is its prefix, and a "/" follows. */
  lemma RenderNoMatch(prefix: string, whole: int, n: int, d: int, negative: bool)
    requires prefix == "" || prefix == "~"
    ensures TildeNumber(Fractions.Render(prefix, whole, n, d, negative)) == None
  {
    hide Fractions.Render, IntToString, TildeNumber;
    RenderParts(prefix, whole, n, d, negative);
    IntToStringChars(whole);
    IntToStringChars(n);
    IntToStringChars(d);
    var numerator := IntToString(n) + "/";
    var fraction := numerator + IntToString(d);
    ConcatNoTilde(IntToString(n), "/");
    ConcatNoTilde(numerator, IntToString(d));
    var head := if whole != 0 then prefix + IntToString(whole) + "-" else prefix + (if negative then "-" else "");
    if whole != 0 {
      ConcatNoTilde(prefix, IntToString(whole));
      ConcatNoTilde(prefix + IntToString(whole), "-");
    } else {
      ConcatNoTilde(prefix, if negative then "-" else "");
    }
    ConcatNoTilde(head, fraction);
    var s := head + fraction;
    assert s[|head| + |IntToString(n)|] == numerator[|IntToString(n)|] == '/';
    NoTildeNumber(s, |head| + |IntToString(n)|);
  }

  /** No "~" after the first character of a, and none in b: none after the first character of a + b. */
  lemma ConcatNoTilde(a: string, b: string)
    requires forall k :: 0 < k < |a| ==> a[k] != '~'
    requires forall k :: 0 <= k < |b| ==> b[k] != '~'
    ensures forall k :: 0 < k < |a + b| ==> (a + b)[k] != '~'
    ensures |a| > 0 ==> a[0] == (a + b)[0]
  {
  }


  // ---------------------------------------------------------------- shouldRoundUp

  /**
   * shouldRoundUp: the fraction string is "~" and a whole number n, the length is
   * not n, and rounding the length away from zero to a whole number gives n.
   * getFractionString throws on an odd denominator, so callers never pass one.
   */
  function ShouldRoundUp(piece: Measurement, denominator: int): bool
    requires denominator % 2 == 0
  {
    var length := GetLength(piece);
    var fraction := Fractions.FractionString(Value(length), denominator).value;
    match TildeNumber(fraction)
    case None => false
    case Some(n) =>
      var rounded := Dec(n, 0);
      var roundedUp := SetScale(length, 0, Up);
      CompareTo(length, rounded) != 0 && CompareTo(rounded, roundedUp) == 0
  }

  /** A positive non-integer rounds away from zero to its integer part plus one. */
  lemma RoundUpOfPositive(x: real)
    requires x > 0.0 && !IsInteger(x)
    ensures RoundUpToInt(x) == TruncateToInt(x) + 1
  {
    var k := x.Floor;
    assert k as real < x < k as real + 1.0;
    assert (-x).Floor == -k - 1;
  }

  /** The comparisons of shouldRoundUp once the fraction string gave n. */
  lemma RoundedUpToNumber(piece: Measurement, denominator: int, n: nat)
    requires denominator % 2 == 0
    requires TildeNumber(Fractions.FractionString(Value(GetLength(piece)), denominator).value) == Some(n)
    ensures var x := Value(GetLength(piece));
      ShouldRoundUp(piece, denominator) <==> x != n as real && RoundUpToInt(x) == n
  {
    var x := Value(GetLength(piece));
    assert Value(Dec(n, 0)) == n as real;
    RoundRealWhole(x, Up);
  }

  /**
   * A piece is rounded up exactly when the denominator is positive, its length is
   * positive and not whole, and the nearest grid point of the fractional part is
   * the next whole number. A negative piece is never rounded up: for one above -1
   * the fraction string is "~1" and rounding away from zero gives -1.
   */
  lemma ShouldRoundUpIff(piece: Measurement, denominator: int)
    requires denominator % 2 == 0
    ensures var x := Value(GetLength(piece));
      ShouldRoundUp(piece, denominator) <==>
        && denominator > 0 && x > 0.0 && Fractions.FracPart(x) != 0.0
        && Fractions.Nearest(Fractions.FracPart(x), denominator) >= denominator
  {
    hide ShouldRoundUp, GetLength, Value, IntToString, Fractions.Render, Fractions.Reduce, TildeNumber;
    var x := Value(GetLength(piece));
    var f := Fractions.FracPart(x);
    var whole := TruncateToInt(x);
    var fs := Fractions.FractionString(x, denominator).value;
    if f == 0.0 {
      assert fs == IntToString(whole);
      IntegerNoMatch(whole);
      NoMatchNoRoundUp(piece, denominator);
    } else if denominator < 0 {
      RenderNoMatch("", whole, 1, denominator, x < 0.0);
      NoMatchNoRoundUp(piece, denominator);
    } else if denominator == 0 {
      RenderNoMatch("~", whole, -1, 0, x < 0.0);
      NoMatchNoRoundUp(piece, denominator);
    } else {
      var k := Fractions.Nearest(f, denominator);
      assert !IsInteger(x) by {
        if x < 0.0 && IsInteger(x) {
          IntegerNegate(x);
        }
      }
      if k <= 0 {
        assert fs == "~" + IntToString(whole);
        TildeWhole(whole);
        if whole >= 0 {
          RoundedUpToNumber(piece, denominator, whole);
          if x > 0.0 {
            RoundUpOfPositive(x);
          }
        } else {
          NoMatchNoRoundUp(piece, denominator);
        }
      } else if k >= denominator {
        var next := if whole >= 0 then whole + 1 else whole - 1;
        assert fs == "~" + IntToString(next);
        TildeWhole(next);
        if next >= 0 {
          RoundedUpToNumber(piece, denominator, next);
          if x > 0.0 {
            RoundUpOfPositive(x);
          }
        } else {
          NoMatchNoRoundUp(piece, denominator);
        }
      } else {
        var (n, d) := Fractions.Reduce(k, denominator);
        RenderNoMatch(if f == k as real / denominator as real then "" else "~", whole, n, d, x < 0.0);
        NoMatchNoRoundUp(piece, denominator);
      }
    }
  }

  /** Without a match shouldRoundUp answers false. */
  lemma NoMatchNoRoundUp(piece: Measurement, denominator: int)
    requires denominator % 2 == 0
    requires TildeNumber(Fractions.FractionString(Value(GetLength(piece)), denominator).value) == None
    ensures !ShouldRoundUp(piece, denominator)
  {
  }

  /** A whole number alone never matches. */
  lemma IntegerNoMatch(w: int)
    ensures TildeNumber(IntToString(w)) == None
  {
    IntToStringChars(w);
    var s := IntToString(w);
    assert forall j :: 0 <= j < |s| ==> !TildeDigitsAt(s, j);
  }


  // ---------------------------------------------------------------- format

  /** The pieces after adjustPiecesForRounding, with this formatter's shouldRoundUp. */
  function AfterRounding(denominator: int, ps: seq<Measurement>): (r: seq<Measurement>)
    requires |ps| > 0 && denominator % 2 == 0
    ensures |r| == |ps|
  {
    if ShouldRoundUp(ps[|ps| - 1], denominator) then RoundedUp(ps) else ps
  }

  /** getFractionString of the last piece's length. */
  function FractionOf(denominator: int, last: Measurement): string
    requires denominator % 2 == 0
  {
    Fractions.FractionString(Value(GetLength(last)), denominator).value
  }

  /** The fraction string starts with "~": the fraction is only the nearest one. */
  predicate Estimated(fraction: string) {
    |fraction| > 0 && fraction[0] == '~'
  }

  /** The fraction string without its "~". */
  function Unmarked(fraction: string): string {
    if Estimated(fraction) then fraction[1..] else fraction
  }

  /** The last piece is shown unless it is "0" after other, non-zero pieces. */
  predicate ShowsFraction(fraction: string, size: int, zeroLengthPieces: int) {
    fraction != "0" || (fraction == "0" && size == 1) || zeroLengthPieces == size - 1
  }

  /** The text after the "~": the non-zero pieces but the last, then the fraction and the last unit when shown. */
  function Text(denominator: int, carried: seq<Measurement>): string
    requires |carried| > 0 && denominator % 2 == 0
  {
    var last, wholes := carried[|carried| - 1], carried[..|carried| - 1];
    var fraction := Unmarked(FractionOf(denominator, last));
    NonZeroText(wholes) + if ShowsFraction(fraction, |carried|, ZeroCount(wholes)) then fraction + Abbreviation(last.unit) else ""
  }

  /** The "~" of format: the fraction was estimated, or the pieces were rounded up. */
  predicate Approximation(denominator: int, adjusted: seq<Measurement>)
    requires |adjusted| > 0 && denominator % 2 == 0
  {
    var carried := AfterRounding(denominator, adjusted);
    Estimated(FractionOf(denominator, carried[|carried| - 1])) || ShouldRoundUp(adjusted[|adjusted| - 1], denominator)
  }

  /** What format returns; an odd denominator is the exception getFractionString throws. */
  function Formatted(f: FractionFormatter, m: Measurement): Result<string>
    requires |f.units| > 0
  {
    var ps := Pieces(f.units, m.millis);
    if IsZeroLength(m) then Ok(ToString(ps[|ps| - 1]))
    else if f.denominator % 2 != 0 then Err(OddPrecision)
    else
      var adjusted := NegativesAdjusted(ps);
      var marker := if Approximation(f.denominator, adjusted) then "~" else "";
      Ok(Trim(marker + Text(f.denominator, AfterRounding(f.denominator, adjusted))))
  }

  /** format, on the pieces array. */
  method Format(f: FractionFormatter, measurement: Measurement) returns (r: Result<string>)
    requires |f.units| > 0
    ensures r == Formatted(f, measurement)
  {
    hide ToString, Pieces, NegativesAdjusted, Trim;
    var pieces := GetPieces(f.units, measurement);
    PiecesFacts(f.units, measurement.millis);
    if IsZeroLength(measurement) {
      return Ok(ToString(pieces[pieces.Length - 1]));
    }
    AdjustPiecesForNegatives(pieces);
    if f.denominator % 2 != 0 {
      // shouldRoundUp calls getFractionString, which throws
      return Err(OddPrecision);
    }
    var builder := RoundAndRender(f.denominator, pieces);
    FormattedUnfold(f, measurement);
    return Ok(Trim(builder));
  }

  /** The rest of format on the sign-adjusted pieces: adjustPiecesForRounding, the text, and the "~". */
  method RoundAndRender(denominator: int, pieces: array<Measurement>) returns (builder: string)
    requires pieces.Length > 0 && denominator % 2 == 0
    modifies pieces
    ensures var adjusted := old(pieces[..]);
      builder == (if Approximation(denominator, adjusted) then "~" else "") + Text(denominator, AfterRounding(denominator, adjusted))
    ensures pieces[..] == AfterRounding(denominator, old(pieces[..]))
  {
    hide ShouldRoundUp, RoundedUp, Text, FractionOf;
    ghost var adjusted := pieces[..];
    var piecesRoundedUp := AdjustPiecesForRounding(pieces, p => ShouldRoundUp(p, denominator));
    assert pieces[..] == AfterRounding(denominator, adjusted);
    var estimatedFraction;
    builder, estimatedFraction := RenderPieces(denominator, pieces);
    var approximation := estimatedFraction || piecesRoundedUp;
    if approximation {
      builder := "~" + builder;
    }
  }

  /**
   * The fraction string of the last piece, the loop over the other pieces, and the
   * last piece appended when shown; estimatedFraction tells whether the fraction
   * string started with "~".
   */
  method RenderPieces(denominator: int, pieces: array<Measurement>) returns (builder: string, estimatedFraction: bool)
    requires pieces.Length > 0 && denominator % 2 == 0
    ensures builder == Text(denominator, pieces[..])
    ensures estimatedFraction == Estimated(FractionOf(denominator, pieces[pieces.Length - 1]))
  {
    hide ToString, NonZeroText, ZeroCount, Fractions.FractionString, GetLength, Value;
    estimatedFraction := false;
    var last := pieces[pieces.Length - 1];
    var fractionResult := Fractions.GetFractionString(Value(GetLength(last)), denominator);
    var fractionString := fractionResult.value;
    var zeroLengthPieces;
    builder, zeroLengthPieces := AppendNonZeroPieces(pieces, pieces.Length - 1, "");
    assert pieces[..pieces.Length - 1] == pieces[..][..pieces.Length - 1];
    if |fractionString| > 0 && fractionString[0] == '~' {
      fractionString := fractionString[1..];
      estimatedFraction := true;
    }
    if ShowsFraction(fractionString, pieces.Length, zeroLengthPieces) {
      builder := builder + fractionString + Abbreviation(last.unit);
    }
  }



  // ---------------------------------------------------------------- properties

  /** A zero-length measurement is shown as "0" in the last unit. */
  lemma FormatZero(f: FractionFormatter, m: Measurement)
    requires |f.units| > 0 && IsZeroLength(m)
    ensures Formatted(f, m) == Ok("0" + Abbreviation(f.units[|f.units| - 1]))
  {
    ZeroPieces(f.units, m.millis);
  }

  /** Without its "~", a fraction string starts with a digit or "-". */
  lemma FractionStart(number: real, denominator: int)
    requires denominator % 2 == 0
    ensures var u := Unmarked(Fractions.FractionString(number, denominator).value);
      |u| > 0 && (IsDigit(u[0]) || u[0] == '-')
  {
    var whole := TruncateToInt(number);
    var f := Fractions.FracPart(number);
    var fs := Fractions.FractionString(number, denominator).value;
    if f == 0.0 {
    } else if denominator < 0 {
      RenderStart("", whole, 1, denominator, number < 0.0);
    } else if denominator == 0 {
      RenderStart("~", whole, -1, 0, number < 0.0);
    } else {
      var k := Fractions.Nearest(f, denominator);
      if k <= 0 {
        assert fs == "~" + IntToString(whole);
        assert Unmarked(fs) == IntToString(whole);
      } else if k >= denominator {
        var next := if whole >= 0 then whole + 1 else whole - 1;
        assert fs == "~" + IntToString(next);
        assert Unmarked(fs) == IntToString(next);
      } else {
        var (n, d) := Fractions.Reduce(k, denominator);
        RenderStart(if f == k as real / denominator as real then "" else "~", whole, n, d, number < 0.0);
      }
    }
  }

  /** A rendering without its prefix starts with the whole part, the "-" or the numerator. */
  lemma RenderStart(prefix: string, whole: int, n: int, d: int, negative: bool)
    requires prefix == "" || prefix == "~"
    ensures var u := Unmarked(Fractions.Render(prefix, whole, n, d, negative));
      |u| > 0 && (IsDigit(u[0]) || u[0] == '-')
  {
    hide Fractions.Render, IntToString;
    RenderParts(prefix, whole, n, d, negative);
    var s := Fractions.Render(prefix, whole, n, d, negative);
    var k := |prefix|;
    assert |s| > k && (IsDigit(s[k]) || s[k] == '-') by {
      if whole != 0 {
        assert s[k] == IntToString(whole)[0];
      } else if !negative {
        assert s[k] == IntToString(n)[0];
      }
    }
    if prefix == "~" {
      assert s[0] == '~' && Unmarked(s)[0] == s[1];
    } else {
      assert Unmarked(s) == s;
    }
  }

  /** A rendering is its prefix followed by the whole part and "-", or by the sign, then the fraction. */
  lemma RenderParts(prefix: string, whole: int, n: int, d: int, negative: bool)
    ensures var fraction := IntToString(n) + "/" + IntToString(d);
      whole != 0 ==> Fractions.Render(prefix, whole, n, d, negative) == prefix + IntToString(whole) + "-" + fraction
    ensures var fraction := IntToString(n) + "/" + IntToString(d);
      whole == 0 ==> Fractions.Render(prefix, whole, n, d, negative) == prefix + (if negative then "-" else "") + fraction
  {
  }



  /** The text after the "~" is never empty and starts with a digit or "-". */
  lemma TextStart(denominator: int, carried: seq<Measurement>)
    requires |carried| > 0 && denominator % 2 == 0
    ensures var t := Text(denominator, carried);
      |t| > 0 && (IsDigit(t[0]) || t[0] == '-')
  {
    var last, wholes := carried[|carried| - 1], carried[..|carried| - 1];
    NonZeroTextStart(wholes);
    FractionStart(Value(GetLength(last)), denominator);
  }

  /**
   * Otherwise, with a positive even denominator, the result starts with "~" exactly
   * when the pieces were rounded up or the last piece is not a multiple of
   * 1 / denominator of its unit.
   */
  lemma FormatApproximate(f: FractionFormatter, m: Measurement)
    requires |f.units| > 0 && !IsZeroLength(m) && f.denominator > 0 && f.denominator % 2 == 0
    ensures Formatted(f, m).Ok?
    ensures var s, adjusted := Formatted(f, m).value, NegativesAdjusted(Pieces(f.units, m.millis));
      var last := AfterRounding(f.denominator, adjusted)[|adjusted| - 1];
      |s| > 0 &&
      (s[0] == '~' <==>
        || ShouldRoundUp(adjusted[|adjusted| - 1], f.denominator)
        || !IsInteger(Product(Fractions.FracPart(Value(GetLength(last))), f.denominator as real)))
  {
    FormattedUnfold(f, m);
    hide Pieces, NegativesAdjusted, ToString, NonZeroText, ZeroCount, Trim, ShouldRoundUp, RoundedUp,
      Fractions.FractionString, GetLength, Value, Fractions.FracPart, Formatted, Text, AfterRounding;
    var ps := Pieces(f.units, m.millis);
    PiecesFacts(f.units, m.millis);
    var adjusted := NegativesAdjusted(ps);
    var carried := AfterRounding(f.denominator, adjusted);
    var last := carried[|carried| - 1];
    Fractions.ApproximateIff(Value(GetLength(last)), f.denominator);
    TextStart(f.denominator, carried);
    MarkedStart(Approximation(f.denominator, adjusted), Text(f.denominator, carried));
  }

  /** What format returns for a non-zero measurement and an even denominator. */
  lemma FormattedUnfold(f: FractionFormatter, m: Measurement)
    requires |f.units| > 0 && !IsZeroLength(m) && f.denominator % 2 == 0
    ensures var adjusted := NegativesAdjusted(Pieces(f.units, m.millis));
      Formatted(f, m) ==
        Ok(Trim((if Approximation(f.denominator, adjusted) then "~" else "") + Text(f.denominator, AfterRounding(f.denominator, adjusted))))
  {
  }

  /** Trimming a text that starts with a digit or "-" keeps an optional leading "~" first. */
  lemma MarkedStart(marked: bool, text: string)
    requires |text| > 0 && (IsDigit(text[0]) || text[0] == '-')
    ensures var s := Trim((if marked then "~" else "") + text);
      |s| > 0 && (s[0] == '~' <==> marked)
  {
    var t := (if marked then "~" else "") + text;
    assert t[0] == if marked then '~' else text[0];
    TrimKeepsFirst(t);
  }
}
