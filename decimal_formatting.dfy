/**
 * DecimalMeasurementFormatter: every non-zero piece as a plain decimal and its
 * abbreviation, the last piece rounded HALF_UP to a fixed scale, and "~" in front
 * when rounding changed anything.
 */
module DecimalFormatting {
  import opened Results
  import opened Strings
  import opened Decimals
  import opened Units
  import opened Measurements
  import opened Formatting

  /** The formatter's final fields: the scale of the last piece and the checked unit list. */
  datatype DecimalFormatter = DecimalFormatter(scale: int, units: seq<Unit>)

  /** new DecimalMeasurementFormatter(scale, units...): the unit list goes through the superclass's check. */
  method NewDecimalFormatter(scale: int, units: seq<Unit>) returns (r: Result<DecimalFormatter>)
    ensures r.Ok? <==> |units| > 0 && Descending(units)
    ensures r.Ok? ==> r.value == DecimalFormatter(scale, units)
    ensures r.Err? ==> r.error == if |units| == 0 then EmptyUnitList else UnitsNotDescending
  {
    var checked := CheckUnits(units);
    if checked.Err? {
      return Err(checked.error);
    }
    return Ok(DecimalFormatter(scale, checked.value));
  }

  /**
   * shouldRoundUp: rounding the length HALF_UP to the scale changes it, and gives
   * what rounding it away from zero to a whole number gives.
   */
  function ShouldRoundUp(piece: Measurement, scale: int): (b: bool)
    ensures var x := Value(GetLength(piece));
      b <==> RoundReal(x, scale, HalfUp) != x && RoundReal(x, scale, HalfUp) == RoundReal(x, 0, Up)
  {
    var length := GetLength(piece);
    var rounded := SetScale(length, scale, HalfUp);
    var roundedUp := SetScale(length, 0, Up);
    CompareTo(length, rounded) != 0 && CompareTo(rounded, roundedUp) == 0
  }

  /**
   * A piece is rounded up exactly when its length is not whole and shows at the
   * formatter's scale as the next whole number away from zero; the rounding up of
   * adjustPiecesForRounding then gives the length that scaling would have shown.
   */
  lemma RoundsUpToWhole(piece: Measurement, scale: int)
    ensures var x := Value(GetLength(piece));
      ShouldRoundUp(piece, scale) <==> !IsInteger(x) && RoundReal(x, scale, HalfUp) == RoundUpToInt(x) as real
    ensures ShouldRoundUp(piece, scale) ==>
      Value(GetLength(ScaleTo(piece, 0, Up))) == RoundReal(Value(GetLength(piece)), scale, HalfUp)
  {
    var x := Value(GetLength(piece));
    RoundRealWhole(x, Up);
    if IsInteger(x) {
      RoundToIntOfInteger(x, Up);
    }
    ScaleLength(piece, 0, Up);
  }

  /** The pieces after adjustPiecesForRounding, with this formatter's shouldRoundUp. */
  function AfterRounding(scale: int, ps: seq<Measurement>): (r: seq<Measurement>)
    requires |ps| > 0
    ensures |r| == |ps|
  {
    if ShouldRoundUp(ps[|ps| - 1], scale) then RoundedUp(ps) else ps
  }

  /** The pieces format shows: after rounding and carrying, the last piece scaled, then the sign adjustment. */
  function Shown(scale: int, ps: seq<Measurement>): (r: seq<Measurement>)
    requires |ps| > 0
    ensures |r| == |ps|
  {
    var carried := AfterRounding(scale, ps);
    NegativesAdjusted(carried[|ps| - 1 := ScaleTo(carried[|ps| - 1], scale, HalfUp)])
  }

  /** The "~" of format: the pieces were rounded up, or scaling the last piece changed it. */
  predicate Approximation(scale: int, ps: seq<Measurement>)
    requires |ps| > 0
  {
    var last := AfterRounding(scale, ps)[|ps| - 1];
    ShouldRoundUp(ps[|ps| - 1], scale) || !Equals(last, ScaleTo(last, scale, HalfUp))
  }

  /** The text after the "~": the non-zero pieces, or the last piece when every piece is zero. */
  function Body(shown: seq<Measurement>): string
    requires |shown| > 0
  {
    NonZeroText(shown) + if ZeroCount(shown) == |shown| then ToString(shown[|shown| - 1]) else ""
  }

  /** What format returns. */
  function Formatted(f: DecimalFormatter, m: Measurement): string
    requires |f.units| > 0
  {
    var ps := Pieces(f.units, m.millis);
    if IsZeroLength(m) then ToString(ps[|ps| - 1])
    else Trim((if Approximation(f.scale, ps) then "~" else "") + Body(Shown(f.scale, ps)))
  }

  /** format, on the pieces array. */
  method Format(f: DecimalFormatter, measurement: Measurement) returns (s: string)
    requires |f.units| > 0
    ensures s == Formatted(f, measurement)
  {
    hide ToString, Pieces, Shown, Approximation, NegativesAdjusted, Trim, NonZeroText, ZeroCount, AfterRounding, ScaleTo, RoundedUp, ShouldRoundUp, GetLength, Valid;
    var pieces := GetPieces(f.units, measurement);
    PiecesFacts(f.units, measurement.millis);
    if IsZeroLength(measurement) {
      return ToString(pieces[pieces.Length - 1]);
    }
    ghost var ps := pieces[..];
    var builder, approximation := RoundPieces(f.scale, pieces);
    ghost var rounded := pieces[..];
    AdjustPiecesForNegatives(pieces);
    assert pieces[..] == NegativesAdjusted(rounded) == Shown(f.scale, ps);
    ghost var prefix := builder;
    ghost var shown := pieces[..];
    assert pieces[..pieces.Length] == shown;
    var zeroLengthPieces;
    builder, zeroLengthPieces := AppendNonZeroPieces(pieces, pieces.Length, builder);
    ghost var tail := if ZeroCount(shown) == |shown| then ToString(shown[|shown| - 1]) else "";
    if zeroLengthPieces == pieces.Length {
      builder := builder + ToString(pieces[pieces.Length - 1]);
    }
    assert builder == prefix + NonZeroText(shown) + tail;
    AppendAssociative(prefix, NonZeroText(shown), tail);
    assert builder == (if approximation then "~" else "") + Body(shown);
    return Trim(builder);
  }

  /**
   * The first half of format: adjustPiecesForRounding, then the last piece scaled
   * in place, and the builder started with "~" when that was an approximation.
   */
  method RoundPieces(scale: int, pieces: array<Measurement>) returns (builder: string, approximation: bool)
    requires pieces.Length > 0
    modifies pieces
    ensures approximation == Approximation(scale, old(pieces[..]))
    ensures builder == if approximation then "~" else ""
    ensures var carried := AfterRounding(scale, old(pieces[..]));
      pieces[..] == carried[pieces.Length - 1 := ScaleTo(carried[pieces.Length - 1], scale, HalfUp)]
    ensures NegativesAdjusted(pieces[..]) == Shown(scale, old(pieces[..]))
  {
    hide ShouldRoundUp, ScaleTo, RoundedUp, NegativesAdjusted, Equals, Shown, Approximation, AfterRounding, GetLength, Value, RoundReal, InMillimeters, Valid;
    ghost var ps := pieces[..];
    ShownUnfold(scale, ps);
    ApproximationUnfold(scale, ps);
    var piecesRoundedUp := AdjustPiecesForRounding(pieces, p => ShouldRoundUp(p, scale));
    ghost var carried := AfterRounding(scale, ps);
    assert pieces[..] == carried;
    var last := pieces[pieces.Length - 1];
    assert last == carried[|ps| - 1];
    var rounded := ScaleTo(last, scale, HalfUp);
    pieces[pieces.Length - 1] := rounded;
    assert pieces[..] == carried[|ps| - 1 := ScaleTo(carried[|ps| - 1], scale, HalfUp)];
    builder := "";
    approximation := piecesRoundedUp || !Equals(last, rounded);
    if approximation {
      builder := builder + "~";
    }
  }

  // ---------------------------------------------------------------- properties

  /** A zero-length measurement is shown as "0" in the last unit. */
  lemma FormatZero(f: DecimalFormatter, m: Measurement)
    requires |f.units| > 0 && IsZeroLength(m)
    ensures Formatted(f, m) == "0" + Abbreviation(f.units[|f.units| - 1])
  {
    ZeroPieces(f.units, m.millis);
  }

  /** The body is never empty and starts with a digit or "-". */
  lemma BodyStart(shown: seq<Measurement>)
    requires |shown| > 0
    ensures |Body(shown)| > 0
    ensures IsDigit(Body(shown)[0]) || Body(shown)[0] == '-'
  {
    NonZeroTextStart(shown);
    ToStringStart(shown[|shown| - 1]);
  }

  /** Otherwise the result starts with "~" exactly when the pieces were rounded up or scaling the last piece changed it. */
  lemma FormatApproximate(f: DecimalFormatter, m: Measurement)
    requires |f.units| > 0 && !IsZeroLength(m)
    ensures var s, ps := Formatted(f, m), Pieces(f.units, m.millis);
      |s| > 0 && (s[0] == '~' <==> Approximation(f.scale, ps))
  {
    hide Pieces, Shown, Approximation, ToString, NonZeroText, ZeroCount, Trim;
    var ps := Pieces(f.units, m.millis);
    PiecesFacts(f.units, m.millis);
    var body := Body(Shown(f.scale, ps));
    BodyStart(Shown(f.scale, ps));
    var text := (if Approximation(f.scale, ps) then "~" else "") + body;
    assert text[0] == if Approximation(f.scale, ps) then '~' else body[0];
    TrimKeepsFirst(text);
  }

  /** For a scale of at most ten, the last piece shown has at most that many fractional digits. */
  lemma LastPieceDigits(f: DecimalFormatter, m: Measurement)
    requires |f.units| > 0 && f.scale <= Scale
    ensures var ps := Pieces(f.units, m.millis);
      IsInteger(Shift(Value(GetLength(Shown(f.scale, ps)[|ps| - 1])), f.scale))
  {
    hide Pieces, AfterRounding, NegativesAdjusted, ScaleTo, GetLength, Absolute, Shift, RoundReal;
    var ps := Pieces(f.units, m.millis);
    PiecesFacts(f.units, m.millis);
    var carried := AfterRounding(f.scale, ps);
    var scaled := ScaleTo(carried[|ps| - 1], f.scale, HalfUp);
    var adjusted := carried[|ps| - 1 := scaled];
    ScaleLength(carried[|ps| - 1], f.scale, HalfUp);
    RoundRealDigits(Value(GetLength(carried[|ps| - 1])), f.scale, HalfUp);
    AbsoluteFacts(scaled);
    AbsoluteDigits(Value(GetLength(scaled)), f.scale);
    NegativesAdjustedAt(adjusted, |ps| - 1);
  }

  /** Rounding up keeps every piece's unit. */
  lemma AfterRoundingUnits(scale: int, ps: seq<Measurement>)
    requires |ps| > 0
    ensures forall k :: 0 <= k < |ps| ==> AfterRounding(scale, ps)[k].unit == ps[k].unit
  {
    if ShouldRoundUp(ps[|ps| - 1], scale) {
      RoundedUpFacts(ps);
    }
  }

  /** The "~" of format in terms of the carried pieces. */
  lemma ApproximationUnfold(scale: int, ps: seq<Measurement>)
    requires |ps| > 0
    ensures AfterRounding(scale, ps) == if ShouldRoundUp(ps[|ps| - 1], scale) then RoundedUp(ps) else ps
    ensures var last := AfterRounding(scale, ps)[|ps| - 1];
      Approximation(scale, ps) == (ShouldRoundUp(ps[|ps| - 1], scale) || !Equals(last, ScaleTo(last, scale, HalfUp)))
  {
  }

  /** The shown pieces in terms of the carried ones. */
  lemma ShownUnfold(scale: int, ps: seq<Measurement>)
    requires |ps| > 0
    ensures var carried := AfterRounding(scale, ps);
      Shown(scale, ps) == NegativesAdjusted(carried[|ps| - 1 := ScaleTo(carried[|ps| - 1], scale, HalfUp)])
  {
  }

  /** The shown pieces keep the formatter's units in order, and at most one of them is negative. */
  lemma ShownPieces(f: DecimalFormatter, m: Measurement)
    requires |f.units| > 0
    ensures var shown := Shown(f.scale, Pieces(f.units, m.millis));
      && |shown| == |f.units|
      && (forall k :: 0 <= k < |shown| ==> shown[k].unit == f.units[k])
      && (forall i, j :: 0 <= i < j < |shown| ==> !(IsNegativeLength(shown[i]) && IsNegativeLength(shown[j])))
  {
    hide Pieces, ShouldRoundUp, RoundedUp, NegativesAdjusted, ScaleTo, IsNegativeLength, Shown, AfterRounding;
    var ps := Pieces(f.units, m.millis);
    PiecesFacts(f.units, m.millis);
    var carried := AfterRounding(f.scale, ps);
    AfterRoundingUnits(f.scale, ps);
    var adjusted := carried[|ps| - 1 := ScaleTo(carried[|ps| - 1], f.scale, HalfUp)];
    var shown := Shown(f.scale, ps);
    ShownUnfold(f.scale, ps);
    NegativesAdjustedFacts(adjusted);
    assert |shown| == |ps|;
    forall k | 0 <= k < |shown|
      ensures shown[k].unit == f.units[k]
    {
      assert shown[k].unit == adjusted[k].unit;
      assert adjusted[k].unit == carried[k].unit;
    }
    forall i, j | 0 <= i < j < |shown|
      ensures !(IsNegativeLength(shown[i]) && IsNegativeLength(shown[j]))
    {
      assert IsNegativeLength(shown[i]) ==> i == FirstNegative(adjusted);
    }
  }


  /** The first two pieces of two units: the quotient in the first unit, then the last piece. */
  lemma PieceAtStart(units: seq<Unit>, millis: Dec)
    requires |units| == 2
    ensures Pieces(units, millis)[0] == Split(millis, units[0]).0
    ensures Pieces(units, millis)[1] == PieceAt(units, millis, 1)
  {
  }

  /** The pieces of 36 inches over feet and inches: three feet and no inches. */
  lemma ThreeFeetPieces()
    ensures var ps := Pieces([Foot, Inch], OfInt(36, Inch).millis);
      && |ps| == 2 && Valid(ps[0]) && Valid(ps[1])
      && ps[0] == Of(Dec(3, 0), Foot) && ps[1].unit == Inch && Value(ps[1].millis) == 0.0
  {
    var units := [Foot, Inch];
    var m := OfInt(36, Inch);
    var ps := Pieces(units, m.millis);
    PiecesFacts(units, m.millis);
    RatioValues();
    PieceAtStart(units, m.millis);
    hide Pieces, PieceAt, RemainingAfter, Of, OfInt;
    assert Value(m.millis) == 914.4;
    assert Value(m.millis) / Value(Ratio(Foot)) == 3.0;
    assert TruncateToInt(3.0) == 3;
    assert ps[0] == Of(Dec(3, 0), Foot);
    assert Value(Dec(3, 0)) == 3.0;
    assert Value(ps[0].millis) == 914.4;
    assert TotalMillis(ps) == Value(ps[0].millis) + Value(ps[1].millis);
  }


  /** 3 feet reads back as the plain string "3". */
  lemma ThreeFeetLength()
    ensures GetLength(Of(Dec(3, 0), Foot)) == Dec(3, 0)
    ensures ToString(Of(Dec(3, 0), Foot)) == "3ft"
  {
    var p := Of(Dec(3, 0), Foot);
    RatioValues();
    assert Value(Dec(3, 0)) == 3.0;
    assert FromMillimeters(Value(p.millis), Foot) == 3.0;
    DigitsWithin(3.0, 0, Scale);
    RoundRealExact(3.0, Scale, HalfUp);
    StrippedCanonical(GetLength(p), Dec(3, 0));
    assert PlainString(Dec(3, 0)) == "3";
  }

  /** Two pieces, the first non-zero and the second zero: the body is the first piece and a space. */
  lemma BodyFirstOnly(shown: seq<Measurement>)
    requires |shown| == 2 && !IsZeroLength(shown[0]) && IsZeroLength(shown[1])
    ensures Body(shown) == ToString(shown[0]) + " "
  {
    hide ToString, IsZeroLength;
    var first := [shown[0]];
    assert shown[..|shown| - 1] == first && first[..0] == [];
    assert NonZeroText(first) == ToString(shown[0]) + " ";
    assert ZeroCount(first) == 0;
    assert NonZeroText(shown) == NonZeroText(first);
    assert ZeroCount(shown) == 1;
  }

  /** For 36 inches over feet and inches at scale 2 nothing is rounded: 3ft, then a zero inch piece. */
  lemma ThreeFeetShown()
    ensures var ps := Pieces([Foot, Inch], OfInt(36, Inch).millis);
      && !Approximation(2, ps)
      && |Shown(2, ps)| == 2
      && Shown(2, ps)[0] == Of(Dec(3, 0), Foot)
      && IsZeroLength(Shown(2, ps)[1])
  {
    var ps := Pieces([Foot, Inch], OfInt(36, Inch).millis);
    ThreeFeetPieces();
    RatioValues();
    var last := ps[1];
    var scaled := ScaleTo(last, 2, HalfUp);
    RoundRealZero(Scale, HalfUp);
    RoundRealZero(2, HalfUp);
    InMillimetersMonotone(0.0, 0.0, Inch);
    ApproximationUnfold(2, ps);
    ShownUnfold(2, ps);
    hide Pieces, Of, OfInt, Approximation, Shown, AfterRounding, ScaleTo, Equals;
    assert Value(GetLength(last)) == 0.0;
    assert !ShouldRoundUp(last, 2);
    assert Value(scaled.millis) == 0.0;
    EqualsIsNumeric(last, scaled);
    var adjusted := ps[1 := scaled];
    NegativesAdjustedFacts(adjusted);
    assert !IsNegativeLength(adjusted[0]) && !IsNegativeLength(adjusted[1]);
  }

  /** The trailing space of the body is trimmed. */
  lemma TrimThreeFeet()
    ensures Trim("3ft ") == "3ft"
  {
    assert TrimFrom("3ft ", 0) == 0;
    assert TrimTo("3ft ", 0, 4) == 3;
  }

  /** 36 inches over feet and inches at scale 2 is "3ft": only the necessary units are shown. */
  lemma FormatThreeFeet()
    ensures Formatted(DecimalFormatter(2, [Foot, Inch]), OfInt(36, Inch)) == "3ft"
  {
    hide Pieces, Approximation, Shown, Body, ToString, Trim, OfInt;
    var m := OfInt(36, Inch);
    var ps := Pieces([Foot, Inch], m.millis);
    ThreeFeetShown();
    ThreeFeetLength();
    BodyFirstOnly(Shown(2, ps));
    RatioValues();
    assert !IsZeroLength(m);
    var f := DecimalFormatter(2, [Foot, Inch]);
    assert Formatted(f, m) == Trim((if Approximation(2, ps) then "~" else "") + Body(Shown(2, ps)));
    assert Body(Shown(2, ps)) == "3ft ";
    assert (if Approximation(2, ps) then "~" else "") + Body(Shown(2, ps)) == "3ft ";
    TrimThreeFeet();
  }

}
