/**
 * AbstractMeasurementFormatter: the unit list a formatter is built from, the
 * decomposition of a measurement into one piece per unit, the carry after the
 * last piece is rounded up, and the sign normalisation that leaves a single
 * negative piece. The renderers in DecimalFormatting and FractionFormatting
 * use these on an array of pieces, the LinkedList of the source.
 */
module Formatting {
  import opened Results
  import opened Strings
  import opened Decimals
  import opened Units
  import opened Measurements

  // ---------------------------------------------------------------- the unit list

  /** Every unit strictly longer than every later one. */
  predicate Descending(units: seq<Unit>) {
    forall i, j :: 0 <= i < j < |units| ==> Value(Ratio(units[j])) < Value(Ratio(units[i]))
  }

  /** The constructor's check: a non-empty list, each ratio below the one before. */
  method CheckUnits(units: seq<Unit>) returns (r: Result<seq<Unit>>)
    ensures r.Ok? <==> |units| > 0 && Descending(units)
    ensures r.Ok? ==> r.value == units
    ensures r.Err? ==> r.error == if |units| == 0 then EmptyUnitList else UnitsNotDescending
  {
    if |units| == 0 {
      return Err(EmptyUnitList);
    }
    var previous := Ratio(units[0]);
    var i := 1;
    while i < |units|
      invariant 1 <= i <= |units|
      invariant previous == Ratio(units[i - 1])
      invariant Descending(units[..i])
    {
      var current := Ratio(units[i]);
      if CompareTo(current, previous) != -1 {
        assert !Descending(units) by {
          assert Value(Ratio(units[i])) >= Value(Ratio(units[i - 1]));
        }
        return Err(UnitsNotDescending);
      }
      DescendingExtend(units, i);
      previous := current;
      i := i + 1;
    }
    assert units[..i] == units;
    return Ok(units);
  }

  /** A descending prefix stays descending when the next unit is shorter than its last. */
  lemma DescendingExtend(units: seq<Unit>, i: int)
    requires 1 <= i < |units|
    requires Descending(units[..i])
    requires Value(Ratio(units[i])) < Value(Ratio(units[i - 1]))
    ensures Descending(units[..i + 1])
  {
    var p := units[..i + 1];
    forall a, b | 0 <= a < b < |p|
      ensures Value(Ratio(p[b])) < Value(Ratio(p[a]))
    {
      if b < i {
        assert p[a] == units[..i][a] && p[b] == units[..i][b];
      } else if a < i - 1 {
        assert p[a] == units[..i][a] && units[i - 1] == units[..i][i - 1];
      }
    }
  }

  // ---------------------------------------------------------------- getPieces

  /**
   * divideAndRemainder by the unit's ratio: the truncated quotient as a piece of
   * that unit, and the remainder. The source strips the quotient first, which
   * does not change the piece (StrippedQuotient).
   */
  function Split(remaining: Dec, u: Unit): (Measurement, Dec) {
    RatioPositive(u);
    var (quotient, remainder) := DivideAndRemainder(remaining, Ratio(u));
    (Of(quotient, u), remainder)
  }

  /** A measurement made from a stripped length is the one made from the length itself. */
  lemma StrippedQuotient(q: Dec, u: Unit)
    ensures Of(StripTrailingZeros(q), u) == Of(q, u)
  {
    StrippedCanonical(Of(StripTrailingZeros(q), u).millis, Of(q, u).millis);
  }

  /** The millimetres left over once the first k units have taken their pieces. */
  function RemainingAfter(units: seq<Unit>, millis: Dec, k: nat): Dec
    requires k <= |units|
  {
    if k == 0 then millis else Split(RemainingAfter(units, millis, k - 1), units[k - 1]).1
  }

  /** Piece k: the quotient in unit k; the last unit also takes the remainder, as millimetres. */
  function PieceAt(units: seq<Unit>, millis: Dec, k: nat): Measurement
    requires k < |units|
  {
    var remaining := RemainingAfter(units, millis, k);
    if k == |units| - 1 then LastPiece(remaining, units[k]) else Split(remaining, units[k]).0
  }

  /** The last piece: the quotient plus the remainder, added as millimetres. */
  function LastPiece(remaining: Dec, u: Unit): Measurement {
    var (piece, remainder) := Split(remaining, u);
    Measurements.Add(piece, Of(remainder, Millimeter))
  }

  /** What getPieces returns. */
  function Pieces(units: seq<Unit>, millis: Dec): seq<Measurement> {
    seq(|units|, k requires 0 <= k < |units| => PieceAt(units, millis, k))
  }

  /** getPieces: one piece per unit, largest first. */
  method GetPieces(units: seq<Unit>, m: Measurement) returns (pieces: array<Measurement>)
    requires |units| > 0
    ensures fresh(pieces)
    ensures pieces[..] == Pieces(units, m.millis)
  {
    hide PieceAt, RemainingAfter;
    pieces := new Measurement[|units|];
    RemainingAtStart(units, m.millis);
    var remainingMillis := m.millis;
    var i := 0;
    while i < |units|
      invariant 0 <= i <= |units|
      invariant i < |units| ==> remainingMillis == RemainingAfter(units, m.millis, i)
      invariant forall k :: 0 <= k < i ==> pieces[k] == PieceAt(units, m.millis, k)
    {
      var piece, remainder := NextPiece(units, m.millis, i, remainingMillis);
      if i < |units| - 1 {
        remainingMillis := remainder;
      }
      pieces[i] := piece;
      i := i + 1;
    }
  }

  /** The body of the loop of getPieces: the piece for unit i and what remains after it. */
  method NextPiece(units: seq<Unit>, millis: Dec, i: nat, remainingMillis: Dec) returns (piece: Measurement, remainder: Dec)
    requires i < |units| && remainingMillis == RemainingAfter(units, millis, i)
    ensures piece == PieceAt(units, millis, i)
    ensures i + 1 < |units| ==> remainder == RemainingAfter(units, millis, i + 1)
  {
    var unit := units[i];
    RatioPositive(unit);
    var result := DivideAndRemainder(remainingMillis, Ratio(unit));
    var quotient := StripTrailingZeros(result.0);
    remainder := result.1;
    StrippedQuotient(result.0, unit);
    piece := Of(quotient, unit);
    if i == |units| - 1 {
      piece := Measurements.Add(piece, Of(remainder, Millimeter));
    }
  }

  /** A length that is a whole number of its unit. */
  predicate WholeIn(m: Measurement) {
    IsInteger(FromMillimeters(Value(m.millis), m.unit))
  }

  /** q × b, for a positive b, has the sign of q; with the remainder it adds up to a. */
  lemma PieceOfQuotient(a: real, b: real, q: real, remainder: real, piece: real)
    requires b > 0.0 && piece == Product(q, b)
    requires Product(q, b) + remainder == a
    requires a >= 0.0 ==> q >= 0.0 && remainder >= 0.0
    requires a <= 0.0 ==> q <= 0.0 && remainder <= 0.0
    ensures piece + remainder == a
    ensures a >= 0.0 ==> piece >= 0.0 && remainder >= 0.0
    ensures a <= 0.0 ==> piece <= 0.0 && remainder <= 0.0
  {
    if a >= 0.0 {
      MulMonotone(0.0, q, b);
    }
    if a <= 0.0 {
      MulMonotone(q, 0.0, b);
    }
  }

  /**
   * One step of getPieces: the piece is a whole number of the unit, piece and
   * remainder add up to what remained, the remainder is less than one unit, and
   * neither has the opposite sign to what remained.
   */
  lemma SplitFacts(remaining: Dec, u: Unit)
    ensures Split(remaining, u).0.unit == u && WholeIn(Split(remaining, u).0)
    ensures Value(Split(remaining, u).0.millis) + Value(Split(remaining, u).1) == Value(remaining)
    ensures AbsReal(Value(Split(remaining, u).1)) < InMillimeters(1.0, u)
    ensures Value(remaining) >= 0.0 ==> Value(Split(remaining, u).0.millis) >= 0.0 && Value(Split(remaining, u).1) >= 0.0
    ensures Value(remaining) <= 0.0 ==> Value(Split(remaining, u).0.millis) <= 0.0 && Value(Split(remaining, u).1) <= 0.0
  {
    RatioPositive(u);
    OneUnit(u);
    DivideAndRemainderFacts(remaining, Ratio(u));
    var (q, r) := DivideAndRemainder(remaining, Ratio(u));
    var piece := Of(q, u);
    assert Split(remaining, u) == (piece, r);
    hide Value, Shift, DivideAndRemainder, Ratio, Of, InMillimeters, FromMillimeters;
    ScalingByRatio(Value(q), u);
    MillimetersRoundTrip(Value(q), u);
    PieceOfQuotient(Value(remaining), Value(Ratio(u)), Value(q), Value(r), Value(piece.millis));
  }

  /** The last piece: the quotient plus the remainder in millimetres, which is all that remained. */
  lemma LastPieceFacts(remaining: Dec, u: Unit)
    ensures LastPiece(remaining, u).unit == u
    ensures Value(LastPiece(remaining, u).millis) == Value(remaining)
  {
    SplitFacts(remaining, u);
    var (piece, remainder) := Split(remaining, u);
    hide Split, Measurements.Add, Of, Value, InMillimeters, Ratio;
    ScalingByRatio(Value(remainder), Millimeter);
    MillimeterRatio();
    assert Product(Value(remainder), 1.0) == Value(remainder);
  }

  /** What remains never has the opposite sign to the input. */
  lemma {:induction false} RemainingSign(units: seq<Unit>, millis: Dec, k: nat)
    requires k <= |units|
    ensures Value(millis) >= 0.0 ==> Value(RemainingAfter(units, millis, k)) >= 0.0
    ensures Value(millis) <= 0.0 ==> Value(RemainingAfter(units, millis, k)) <= 0.0
  {
    hide Split, RemainingAfter, Value;
    if k > 0 {
      RemainingSign(units, millis, k - 1);
      SplitFacts(RemainingAfter(units, millis, k - 1), units[k - 1]);
      RemainingAfterStep(units, millis, k);
    } else {
      RemainingAtStart(units, millis);
    }
  }

  /** What remains after k units is the remainder of splitting what remained after k - 1. */
  lemma RemainingAfterStep(units: seq<Unit>, millis: Dec, k: nat)
    requires 0 < k <= |units|
    ensures RemainingAfter(units, millis, k) == Split(RemainingAfter(units, millis, k - 1), units[k - 1]).1
  {
  }

  /**
   * Piece k is in unit k; every piece but the last is a whole number of its unit
   * and leaves less than one such unit over; no piece has the opposite sign to the input.
   */
  lemma PieceAtFacts(units: seq<Unit>, millis: Dec, k: nat)
    requires k < |units|
    ensures PieceAt(units, millis, k).unit == units[k]
    ensures k < |units| - 1 ==> WholeIn(PieceAt(units, millis, k))
    ensures k < |units| - 1 ==> AbsReal(Value(RemainingAfter(units, millis, k + 1))) < InMillimeters(1.0, units[k])
    ensures Value(millis) >= 0.0 ==> Value(PieceAt(units, millis, k).millis) >= 0.0
    ensures Value(millis) <= 0.0 ==> Value(PieceAt(units, millis, k).millis) <= 0.0
  {
    var r := RemainingAfter(units, millis, k);
    RemainingSign(units, millis, k);
    SplitFacts(r, units[k]);
    if k == |units| - 1 {
      LastPieceFacts(r, units[k]);
    }
  }

  /** The millimetres of the first k pieces. */
  function SumMillis(ps: seq<Measurement>, k: nat): real
    requires k <= |ps|
  {
    if k == 0 then 0.0 else SumMillis(ps, k - 1) + Value(ps[k - 1].millis)
  }

  /** The millimetres of all the pieces. */
  function TotalMillis(ps: seq<Measurement>): real {
    SumMillis(ps, |ps|)
  }

  /** Every piece but the last is the quotient of what remained, and what remains next is the remainder. */
  lemma SplitStep(units: seq<Unit>, millis: Dec, k: nat)
    requires 0 < k < |units|
    ensures Pieces(units, millis)[k - 1] == Split(RemainingAfter(units, millis, k - 1), units[k - 1]).0
    ensures RemainingAfter(units, millis, k) == Split(RemainingAfter(units, millis, k - 1), units[k - 1]).1
  {
    hide Split, LastPiece;
    assert Pieces(units, millis)[k - 1] == PieceAt(units, millis, k - 1);
  }

  /** Piece k - 1 and what remains after it add up to what remained before it. */
  lemma PieceAndRemainder(units: seq<Unit>, millis: Dec, k: nat)
    requires 0 < k < |units|
    ensures Value(Pieces(units, millis)[k - 1].millis) + Value(RemainingAfter(units, millis, k)) == Value(RemainingAfter(units, millis, k - 1))
  {
    SplitStep(units, millis, k);
    SplitFacts(RemainingAfter(units, millis, k - 1), units[k - 1]);
  }

  /**
   * When each piece i moves its millimetres out of rest[i], leaving rest[i + 1],
   * the first k pieces and rest[k] add up to rest[0].
   */
  lemma {:induction false} Telescope(ps: seq<Measurement>, rest: seq<real>, k: nat)
    requires k < |rest| && k <= |ps|
    requires forall i :: 0 <= i < k ==> Value(ps[i].millis) + rest[i + 1] == rest[i]
    ensures SumMillis(ps, k) + rest[k] == rest[0]
  {
    if k > 0 {
      Telescope(ps, rest, k - 1);
    }
  }

  /** The millimetres that remain before each piece is taken. */
  function RemainingValues(units: seq<Unit>, millis: Dec): (r: seq<real>)
    ensures |r| == |units|
  {
    seq(|units|, k requires 0 <= k < |units| => Value(RemainingAfter(units, millis, k)))
  }

  /** Each piece but the last moves its millimetres out of what remains. */
  lemma RemainingSteps(units: seq<Unit>, millis: Dec)
    ensures var ps, rest := Pieces(units, millis), RemainingValues(units, millis);
      forall i :: 0 <= i < |units| - 1 ==> Value(ps[i].millis) + rest[i + 1] == rest[i]
  {
    hide PieceAt, RemainingAfter, Split, LastPiece;
    var ps, rest := Pieces(units, millis), RemainingValues(units, millis);
    forall i | 0 <= i < |units| - 1 ensures Value(ps[i].millis) + rest[i + 1] == rest[i] {
      PieceAndRemainder(units, millis, i + 1);
    }
  }

  /** The last piece holds all that remains. */
  lemma LastPieceValue(units: seq<Unit>, millis: Dec)
    requires |units| > 0
    ensures Value(Pieces(units, millis)[|units| - 1].millis) == RemainingValues(units, millis)[|units| - 1]
  {
    var n := |units| - 1;
    var r := RemainingAfter(units, millis, n);
    assert Pieces(units, millis)[n] == PieceAt(units, millis, n) == LastPiece(r, units[n]);
    LastPieceFacts(r, units[n]);
    assert RemainingValues(units, millis)[n] == Value(r);
  }

  lemma RemainingAtStart(units: seq<Unit>, millis: Dec)
    ensures RemainingAfter(units, millis, 0) == millis
  {
  }

  /** All the pieces together hold exactly the input's millimetres. */
  lemma PiecesSum(units: seq<Unit>, millis: Dec)
    requires |units| > 0
    ensures TotalMillis(Pieces(units, millis)) == Value(millis)
  {
    hide PieceAt, RemainingAfter;
    var ps, rest := Pieces(units, millis), RemainingValues(units, millis);
    var n := |units| - 1;
    RemainingSteps(units, millis);
    Telescope(ps, rest, n);
    RemainingAtStart(units, millis);
    assert rest[0] == Value(millis);
    LastPieceValue(units, millis);
    assert TotalMillis(ps) == SumMillis(ps, n) + Value(ps[n].millis);
  }

  /**
   * getPieces: one piece per unit, in the units' order; every piece but the last
   * is a whole number of its unit; the pieces add up exactly to the input; none
   * has the opposite sign to the input.
   */
  lemma PiecesFacts(units: seq<Unit>, millis: Dec)
    requires |units| > 0
    ensures |Pieces(units, millis)| == |units|
    ensures forall k :: 0 <= k < |units| ==> Pieces(units, millis)[k].unit == units[k]
    ensures forall k :: 0 <= k < |units| - 1 ==> WholeIn(Pieces(units, millis)[k])
    ensures TotalMillis(Pieces(units, millis)) == Value(millis)
    ensures Value(millis) >= 0.0 ==> forall k :: 0 <= k < |units| ==> Value(Pieces(units, millis)[k].millis) >= 0.0
    ensures Value(millis) <= 0.0 ==> forall k :: 0 <= k < |units| ==> Value(Pieces(units, millis)[k].millis) <= 0.0
  {
    var ps := Pieces(units, millis);
    forall k | 0 <= k < |units|
      ensures ps[k].unit == units[k]
      ensures k < |units| - 1 ==> WholeIn(ps[k])
      ensures Value(millis) >= 0.0 ==> Value(ps[k].millis) >= 0.0
      ensures Value(millis) <= 0.0 ==> Value(ps[k].millis) <= 0.0
    {
      PieceAtFacts(units, millis, k);
    }
    PiecesSum(units, millis);
  }

  // ---------------------------------------------------------------- adjustPiecesForRounding

  /** The test of the carry loop: the magnitude of piece i is exactly one unit of the piece before it. */
  predicate WholeUnitOfPrevious(ps: seq<Measurement>, i: int)
    requires 1 <= i < |ps|
  {
    AbsReal(Value(ps[i].millis)) == InMillimeters(1.0, ps[i - 1].unit)
  }

  /** new Measurement(0, unit), which stores BigDecimal.ZERO. */
  function ZeroIn(u: Unit): Measurement {
    Measurement(Dec(0, 0), u)
  }

  /** One step of the carry loop: such a piece becomes zero and the piece before it gains one unit, or loses one when it is negative. */
  function CarryStep(ps: seq<Measurement>, i: int): (r: seq<Measurement>)
    requires 1 <= i < |ps|
    ensures |r| == |ps|
  {
    if WholeUnitOfPrevious(ps, i) then ps[i := ZeroIn(ps[i].unit)][i - 1 := Carried(ps[i - 1])] else ps
  }

  /** The carry into the preceding piece: one whole unit of its own, away from zero (a zero piece gains +1). */
  function Carried(next: Measurement): Measurement {
    Measurements.Add(next, OfInt(if IsNegativeLength(next) then -1 else 1, next.unit))
  }

  /** The pieces once the carry loop has run from the last position down to position j + 1. */
  function CarriedDownTo(ps: seq<Measurement>, j: int): (r: seq<Measurement>)
    requires 0 <= j < |ps|
    ensures |r| == |ps|
    decreases |ps| - j
  {
    if j == |ps| - 1 then ps else CarryStep(CarriedDownTo(ps, j + 1), j + 1)
  }

  /** One more carry step, seen from the lower position. */
  lemma CarriedDownToStep(ps: seq<Measurement>, i: int)
    requires 1 <= i < |ps|
    ensures CarriedDownTo(ps, i - 1) == CarryStep(CarriedDownTo(ps, i), i)
  {
  }

  /** The pieces after rounding up: the last rounded away from zero to a whole number of its unit, then the carries. */
  function RoundedUp(ps: seq<Measurement>): seq<Measurement>
    requires |ps| > 0
  {
    CarriedDownTo(LastRoundedUp(ps), 0)
  }

  /** The last piece rounded away from zero to a whole number of its unit. */
  function LastRoundedUp(ps: seq<Measurement>): (r: seq<Measurement>)
    requires |ps| > 0
    ensures |r| == |ps|
  {
    ps[|ps| - 1 := ScaleTo(ps[|ps| - 1], 0, Up)]
  }

  /**
   * adjustPiecesForRounding, with the subclass's shouldRoundUp passed in: asks it
   * about the last piece, and when it says so rounds up and carries.
   */
  method AdjustPiecesForRounding(pieces: array<Measurement>, shouldRoundUp: Measurement -> bool) returns (roundedUp: bool)
    requires pieces.Length > 0
    modifies pieces
    ensures roundedUp == shouldRoundUp(old(pieces[pieces.Length - 1]))
    ensures roundedUp ==> pieces[..] == RoundedUp(old(pieces[..]))
    ensures !roundedUp ==> pieces[..] == old(pieces[..])
  {
    var last := pieces[pieces.Length - 1];
    if !shouldRoundUp(last) {
      return false;
    }
    RoundUpAndCarry(pieces);
    return true;
  }

  /** The second half of adjustPiecesForRounding: round the last piece up, then carry from the last position down. */
  method RoundUpAndCarry(pieces: array<Measurement>)
    requires pieces.Length > 0
    modifies pieces
    ensures pieces[..] == RoundedUp(old(pieces[..]))
  {
    RoundLast(pieces);
    CarryDown(pieces);
  }

  /** The carry loop of adjustPiecesForRounding, from the last position down to position 1. */
  method CarryDown(pieces: array<Measurement>)
    requires pieces.Length > 0
    modifies pieces
    ensures pieces[..] == CarriedDownTo(old(pieces[..]), 0)
  {
    ghost var start := pieces[..];
    var i := pieces.Length - 1;
    while i > 0
      invariant 0 <= i < pieces.Length
      invariant pieces[..] == CarriedDownTo(start, i)
    {
      Carry(pieces, i);
      CarriedDownToStep(start, i);
      i := i - 1;
    }
    assert i == 0;
  }

  /** The last piece replaced by its length rounded to a whole number away from zero. */
  method RoundLast(pieces: array<Measurement>)
    requires pieces.Length > 0
    modifies pieces
    ensures pieces[..] == LastRoundedUp(old(pieces[..]))
  {
    var size := pieces.Length;
    pieces[size - 1] := ScaleTo(pieces[size - 1], 0, Up);
  }

  /** Replacing piece k changes the total of the first j pieces by the difference when k is among them. */
  lemma {:induction false} SumMillisUpdate(ps: seq<Measurement>, j: nat, k: int, x: Measurement)
    requires j <= |ps| && 0 <= k < |ps|
    ensures SumMillis(ps[k := x], j) == SumMillis(ps, j) + (if k < j then Value(x.millis) - Value(ps[k].millis) else 0.0)
  {
    if j > 0 {
      SumMillisUpdate(ps, j - 1, k, x);
      assert ps[k := x][j - 1] == if j - 1 == k then x else ps[j - 1];
    }
  }

  /** The loop's compareTo of the magnitude with the predecessor's ratio is WholeUnitOfPrevious. */
  lemma WholeUnitTest(ps: seq<Measurement>, i: int)
    requires 1 <= i < |ps|
    ensures CompareTo(AbsDec(ps[i].millis), Ratio(ps[i - 1].unit)) == 0 <==> WholeUnitOfPrevious(ps, i)
  {
    assert Value(AbsDec(ps[i].millis)) == AbsReal(Value(ps[i].millis));
    OneUnit(ps[i - 1].unit);
  }

  /** A zero measurement is stored as BigDecimal.ZERO, whatever its unit. */
  lemma ZeroInIsZero(u: Unit)
    ensures OfInt(0, u) == ZeroIn(u)
  {
    var m := OfInt(0, u);
    InMillimetersMonotone(0.0, 0.0, u);
    ValueZero(m.millis);
  }

  /** The carried piece: one unit more, or one unit less when it is negative. */
  lemma CarriedValue(next: Measurement)
    ensures Carried(next).unit == next.unit
    ensures Value(Carried(next).millis) == Value(next.millis) + InMillimeters(if Value(next.millis) < 0.0 then -1.0 else 1.0, next.unit)
  {
    OneUnit(next.unit);
    if IsNegativeLength(next) {
      var one := OfInt(-1, next.unit);
      assert Value(Measurements.Add(next, one).millis) == Value(next.millis) + Value(one.millis);
    } else {
      var one := OfInt(1, next.unit);
      assert Value(Measurements.Add(next, one).millis) == Value(next.millis) + Value(one.millis);
    }
  }

  /**
   * One carry step keeps the length and every unit, touches only positions i and
   * i - 1, and afterwards position i is not one whole unit of its predecessor:
   * either it was not, or it is now zero.
   */
  lemma CarryStepShape(ps: seq<Measurement>, i: int)
    requires 1 <= i < |ps|
    ensures forall k :: 0 <= k < |ps| ==> CarryStep(ps, i)[k].unit == ps[k].unit
    ensures forall k :: 0 <= k < |ps| && k != i && k != i - 1 ==> CarryStep(ps, i)[k] == ps[k]
    ensures !WholeUnitOfPrevious(CarryStep(ps, i), i)
  {
    hide Carried, Measurements.Add;
    if WholeUnitOfPrevious(ps, i) {
      RatioPositive(ps[i - 1].unit);
      OneUnit(ps[i - 1].unit);
      CarriedValue(ps[i - 1]);
      assert Value(Dec(0, 0)) == 0.0;
      hide InMillimeters, Value;
      var r := CarryStep(ps, i);
      assert r == ps[i := ZeroIn(ps[i].unit)][i - 1 := Carried(ps[i - 1])];
      assert r[i] == ZeroIn(ps[i].unit) && r[i - 1].unit == ps[i - 1].unit;
    }
  }

  /**
   * When the carry fires, position i becomes zero and the predecessor gains one of
   * its units, or loses one when it is negative. A negative piece carried into a
   * zero predecessor therefore makes it one positive unit.
   */
  lemma CarryStepValues(ps: seq<Measurement>, i: int)
    requires 1 <= i < |ps| && WholeUnitOfPrevious(ps, i)
    ensures Value(CarryStep(ps, i)[i].millis) == 0.0
    ensures Value(CarryStep(ps, i)[i - 1].millis)
      == Value(ps[i - 1].millis) + InMillimeters(if Value(ps[i - 1].millis) < 0.0 then -1.0 else 1.0, ps[i - 1].unit)
  {
    CarriedValue(ps[i - 1]);
    assert Value(Dec(0, 0)) == 0.0;
  }

  /**
   * The carry loop from the last position down to j + 1 keeps every unit, leaves
   * positions below j alone, and leaves no piece after j at one whole unit of its predecessor.
   */
  lemma {:induction false} CarriedDownToFacts(ps: seq<Measurement>, j: int)
    requires 0 <= j < |ps|
    ensures forall k :: 0 <= k < |ps| ==> CarriedDownTo(ps, j)[k].unit == ps[k].unit
    ensures forall k :: 0 <= k < j ==> CarriedDownTo(ps, j)[k] == ps[k]
    ensures forall k :: j < k < |ps| ==> !WholeUnitOfPrevious(CarriedDownTo(ps, j), k)
    decreases |ps| - j
  {
    hide CarryStep, WholeUnitOfPrevious, CarriedDownTo;
    if j < |ps| - 1 {
      var before := CarriedDownTo(ps, j + 1);
      CarriedDownToFacts(ps, j + 1);
      CarryStepShape(before, j + 1);
      CarriedDownToStep(ps, j + 1);
      var after := CarriedDownTo(ps, j);
      forall k | j + 1 < k < |ps|
        ensures !WholeUnitOfPrevious(after, k)
      {
        SameWholeUnitTest(before, after, k);
      }
    } else {
      CarriedDownToLast(ps);
    }
  }

  /** Before the loop runs nothing has changed. */
  lemma CarriedDownToLast(ps: seq<Measurement>)
    requires |ps| > 0
    ensures CarriedDownTo(ps, |ps| - 1) == ps
  {
  }

  /** The carry test at k looks only at piece k and the unit before it. */
  lemma SameWholeUnitTest(a: seq<Measurement>, b: seq<Measurement>, k: int)
    requires 1 <= k < |a| == |b|
    requires a[k] == b[k] && a[k - 1].unit == b[k - 1].unit
    ensures WholeUnitOfPrevious(a, k) == WholeUnitOfPrevious(b, k)
  {
  }

  /**
   * adjustPiecesForRounding, when it rounds, keeps every unit in place and leaves
   * no piece at position 1 or later equal to one whole unit of the piece before it.
   */
  lemma RoundedUpFacts(ps: seq<Measurement>)
    requires |ps| > 0
    ensures |RoundedUp(ps)| == |ps|
    ensures forall k :: 0 <= k < |ps| ==> RoundedUp(ps)[k].unit == ps[k].unit
    ensures forall k :: 1 <= k < |ps| ==> !WholeUnitOfPrevious(RoundedUp(ps), k)
  {
    hide CarriedDownTo, LastRoundedUp, WholeUnitOfPrevious;
    LastRoundedUpUnits(ps);
    CarriedDownToFacts(LastRoundedUp(ps), 0);
  }

  /** Rounding the last piece up keeps its unit. */
  lemma LastRoundedUpUnits(ps: seq<Measurement>)
    requires |ps| > 0
    ensures forall k :: 0 <= k < |ps| ==> LastRoundedUp(ps)[k].unit == ps[k].unit
  {
  }

  /** The body of the carry loop at position i. */
  method Carry(pieces: array<Measurement>, i: int)
    requires 1 <= i < pieces.Length
    modifies pieces
    ensures pieces[..] == CarryStep(old(pieces[..]), i)
  {
    var current := pieces[i];
    var next := pieces[i - 1];
    ghost var before := pieces[..];
    var canRoundUp := CompareTo(AbsDec(current.millis), Ratio(next.unit)) == 0;
    WholeUnitTest(before, i);
    if canRoundUp {
      ZeroInIsZero(current.unit);
      pieces[i] := OfInt(0, current.unit);
      pieces[i - 1] := Measurements.Add(next, OfInt(if IsNegativeLength(next) then -1 else 1, next.unit));
      assert pieces[..] == before[i := ZeroIn(current.unit)][i - 1 := Carried(next)];
    }
  }

  // ---------------------------------------------------------------- adjustPiecesForNegatives

  /** The piece shown as its magnitude: the absolute display length, in the same unit. */
  function Absolute(p: Measurement): Measurement {
    Of(AbsDec(GetLength(p)), p.unit)
  }

  /** The position of the first negative piece, or |ps| when there is none. */
  function FirstNegative(ps: seq<Measurement>): (r: nat)
    ensures r <= |ps|
    ensures forall i :: 0 <= i < r ==> !IsNegativeLength(ps[i])
    ensures r < |ps| ==> IsNegativeLength(ps[r])
  {
    if ps == [] then 0 else if IsNegativeLength(ps[0]) then 0 else 1 + FirstNegative(ps[1..])
  }

  /** The pieces after adjustPiecesForNegatives: every negative piece after the first one is replaced by its magnitude. */
  function NegativesAdjusted(ps: seq<Measurement>): (r: seq<Measurement>)
    ensures |r| == |ps|
  {
    seq(|ps|, i requires 0 <= i < |ps| => if FirstNegative(ps) < i && IsNegativeLength(ps[i]) then Absolute(ps[i]) else ps[i])
  }

  /** adjustPiecesForNegatives: the loop with its containsNegativePiece flag. */
  method AdjustPiecesForNegatives(pieces: array<Measurement>)
    modifies pieces
    ensures pieces[..] == NegativesAdjusted(old(pieces[..]))
  {
    hide Absolute, IsNegativeLength;
    ghost var start := pieces[..];
    var containsNegativePiece := false;
    var i := 0;
    while i < pieces.Length
      invariant 0 <= i <= pieces.Length
      invariant containsNegativePiece <==> FirstNegative(start) < i
      invariant forall k :: 0 <= k < i ==> pieces[k] == NegativesAdjusted(start)[k]
      invariant forall k :: i <= k < pieces.Length ==> pieces[k] == start[k]
    {
      var piece := pieces[i];
      if IsNegativeLength(piece) {
        if containsNegativePiece {
          pieces[i] := Absolute(piece);
        } else {
          containsNegativePiece := true;
        }
      }
      i := i + 1;
    }
  }

  /** The magnitude keeps the unit, is never negative, and reads back as the absolute value of the length. */
  lemma AbsoluteFacts(p: Measurement)
    ensures Absolute(p).unit == p.unit
    ensures !IsNegativeLength(Absolute(p))
    ensures Value(GetLength(Absolute(p))) == AbsReal(Value(GetLength(p)))
  {
    var g := Value(GetLength(p));
    var a := AbsReal(g);
    var q := Absolute(p);
    assert Value(q.millis) == InMillimeters(a, p.unit);
    RoundRealDigits(FromMillimeters(Value(p.millis), p.unit), Scale, HalfUp);
    AbsoluteDigits(g, Scale);
    hide Absolute, Of, GetLength, AbsDec;
    RatioPositive(p.unit);
    InMillimetersMonotone(a, 0.0, p.unit);
    MillimetersRoundTrip(a, p.unit);
    RoundRealExact(a, Scale, HalfUp);
    assert Value(GetLength(q)) == RoundReal(FromMillimeters(Value(q.millis), q.unit), Scale, HalfUp);
  }

  /** A number with at most n fractional digits has a magnitude with at most n. */
  lemma AbsoluteDigits(g: real, n: int)
    requires IsInteger(Shift(g, n))
    ensures IsInteger(Shift(AbsReal(g), n))
  {
    ShiftNegate(g, n);
    hide Shift, ShiftSteps;
    if g < 0.0 {
      IntegerNegate(Shift(g, n));
    }
  }

  /**
   * After adjustPiecesForNegatives the only negative piece, if any, is the first
   * negative one of the input; every unit is kept, non-negative pieces are
   * untouched, and every piece shows the same magnitude as before.
   */
  lemma NegativesAdjustedFacts(ps: seq<Measurement>)
    ensures var r := NegativesAdjusted(ps);
      forall i :: 0 <= i < |ps| ==> r[i].unit == ps[i].unit
    ensures var r := NegativesAdjusted(ps);
      forall i :: 0 <= i < |ps| && !IsNegativeLength(ps[i]) ==> r[i] == ps[i]
    ensures var r := NegativesAdjusted(ps);
      forall i :: 0 <= i < |ps| ==> (IsNegativeLength(r[i]) <==> i == FirstNegative(ps))
    ensures var r := NegativesAdjusted(ps);
      forall i :: 0 <= i < |ps| ==> AbsReal(Value(GetLength(r[i]))) == AbsReal(Value(GetLength(ps[i])))
  {
    var r := NegativesAdjusted(ps);
    forall i | 0 <= i < |ps|
      ensures r[i].unit == ps[i].unit
      ensures IsNegativeLength(r[i]) <==> i == FirstNegative(ps)
      ensures AbsReal(Value(GetLength(r[i]))) == AbsReal(Value(GetLength(ps[i])))
    {
      AbsoluteFacts(ps[i]);
    }
  }

  /** Each piece after adjustPiecesForNegatives is the piece itself or its absolute value. */
  lemma NegativesAdjustedAt(ps: seq<Measurement>, i: int)
    requires 0 <= i < |ps|
    ensures NegativesAdjusted(ps)[i] == ps[i] || NegativesAdjusted(ps)[i] == Absolute(ps[i])
  {
  }

  /** At most one piece is negative after adjustPiecesForNegatives. */
  lemma AtMostOneNegative(ps: seq<Measurement>, i: int, j: int)
    requires 0 <= i < |ps| && 0 <= j < |ps|
    requires IsNegativeLength(NegativesAdjusted(ps)[i]) && IsNegativeLength(NegativesAdjusted(ps)[j])
    ensures i == j
  {
    NegativesAdjustedFacts(ps);
  }

  // ---------------------------------------------------------------- the rendering loop of both formatters

  /** The text the rendering loops build: each non-zero piece's toString followed by a space, in order. */
  function NonZeroText(ps: seq<Measurement>): string {
    if ps == [] then ""
    else NonZeroText(ps[..|ps| - 1]) + (if IsZeroLength(ps[|ps| - 1]) then "" else ToString(ps[|ps| - 1]) + " ")
  }

  /** The loops' zeroLengthPieces counter. */
  function ZeroCount(ps: seq<Measurement>): (r: nat)
    ensures r <= |ps|
  {
    if ps == [] then 0 else ZeroCount(ps[..|ps| - 1]) + (if IsZeroLength(ps[|ps| - 1]) then 1 else 0)
  }

  /** The loop of format over the first n pieces: append each non-zero piece and a space, count the zero ones. */
  method AppendNonZeroPieces(pieces: array<Measurement>, n: int, builder: string) returns (text: string, zeroLengthPieces: nat)
    requires 0 <= n <= pieces.Length
    ensures text == builder + NonZeroText(pieces[..n])
    ensures zeroLengthPieces == ZeroCount(pieces[..n])
  {
    hide ToString, IsZeroLength, NonZeroText, ZeroCount;
    text, zeroLengthPieces := builder, 0;
    RenderNothing();
    assert pieces[..0] == [] && builder + "" == builder;
    var i := 0;
    while i < n
      invariant 0 <= i <= n
      invariant text == builder + NonZeroText(pieces[..i])
      invariant zeroLengthPieces == ZeroCount(pieces[..i])
    {
      var piece := pieces[i];
      RenderStep(pieces[..], i);
      assert pieces[..][..i] == pieces[..i] && pieces[..][..i + 1] == pieces[..i + 1];
      if IsZeroLength(piece) {
        zeroLengthPieces := zeroLengthPieces + 1;
        assert NonZeroText(pieces[..i + 1]) == NonZeroText(pieces[..i]) + "";
      } else {
        AppendAssociative(builder, NonZeroText(pieces[..i]), ToString(piece) + " ");
        text := text + (ToString(piece) + " ");
      }
      i := i + 1;
    }
  }

  /** One more piece for the rendering loop. */
  lemma AppendAssociative(a: string, b: string, c: string)
    ensures a + b + c == a + (b + c)
  {
  }

  lemma RenderNothing()
    ensures NonZeroText([]) == "" && ZeroCount([]) == 0
  {
  }

  lemma RenderStep(ps: seq<Measurement>, i: int)
    requires 0 <= i < |ps|
    ensures NonZeroText(ps[..i + 1]) == NonZeroText(ps[..i]) + (if IsZeroLength(ps[i]) then "" else ToString(ps[i]) + " ")
    ensures ZeroCount(ps[..i + 1]) == ZeroCount(ps[..i]) + (if IsZeroLength(ps[i]) then 1 else 0)
  {
    assert ps[..i + 1][..i] == ps[..i];
  }

  /**
   * The loop's text is empty exactly when every piece is zero; otherwise it
   * starts with the first non-zero piece's toString, so with a digit or "-".
   */
  lemma {:induction false} NonZeroTextStart(ps: seq<Measurement>)
    ensures NonZeroText(ps) == "" <==> ZeroCount(ps) == |ps|
    ensures NonZeroText(ps) != "" ==> IsDigit(NonZeroText(ps)[0]) || NonZeroText(ps)[0] == '-'
  {
    if ps != [] {
      var init, last := ps[..|ps| - 1], ps[|ps| - 1];
      NonZeroTextStart(init);
      ToStringStart(last);
      if NonZeroText(init) == "" && !IsZeroLength(last) {
        assert NonZeroText(ps) == ToString(last) + " ";
      }
    }
  }

  /** All pieces of a zero-length measurement are zero, and the last one prints as "0" and the last unit. */
  lemma ZeroPieces(units: seq<Unit>, millis: Dec)
    requires |units| > 0 && Value(millis) == 0.0
    ensures forall k :: 0 <= k < |units| ==> IsZeroLength(Pieces(units, millis)[k])
    ensures ToString(Pieces(units, millis)[|units| - 1]) == "0" + Abbreviation(units[|units| - 1])
  {
    PiecesFacts(units, millis);
    ZeroToString(Pieces(units, millis)[|units| - 1]);
  }
}
