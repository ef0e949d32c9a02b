/** The six length units, their names and their exact size in millimetres. */
module Units {
  import opened Results
  import opened Strings
  import opened Decimals

  /** The constants of the Unit enum, in declaration order. */
  datatype Unit = Millimeter | Centimeter | Meter | Inch | Foot | Yard

  /** Unit.values(). */
  const AllUnits: seq<Unit> := [Millimeter, Centimeter, Meter, Inch, Foot, Yard]

  function Abbreviation(u: Unit): (s: string)
    ensures |s| > 0 && AllLower(s)
  {
    match u
    case Millimeter => "mm"
    case Centimeter => "cm"
    case Meter => "m"
    case Inch => "in"
    case Foot => "ft"
    case Yard => "yd"
  }

  function DisplayName(u: Unit): string {
    match u
    case Millimeter => "Millimeters"
    case Centimeter => "Centimeters"
    case Meter => "Meters"
    case Inch => "Inches"
    case Foot => "Feet"
    case Yard => "Yards"
  }

  /** getMillimetersPerUnit: the ratio as new BigDecimal parses it from its string form. */
  function Ratio(u: Unit): (r: Dec)
    ensures r.unscaled > 0 && r.scale >= 0
  {
    match u
    case Millimeter => Dec(1, 0)
    case Centimeter => Dec(10, 0)
    case Meter => Dec(1000, 0)
    case Inch => Dec(254, 1)
    case Foot => Dec(3048, 1)
    case Yard => Dec(9144, 1)
  }

  /** The constants written as decimals in the enum are the numbers they denote. */
  lemma RatioValues()
    ensures Value(Ratio(Millimeter)) == 1.0 && Value(Ratio(Centimeter)) == 10.0
    ensures Value(Ratio(Meter)) == 1000.0 && Value(Ratio(Inch)) == 25.4
    ensures Value(Ratio(Foot)) == 304.8 && Value(Ratio(Yard)) == 914.4
  {
    assert Value(Dec(10, 0)) == Shift(10.0, 0);
  }

  /**
   * x units in millimetres: x times the unit's ratio, with the ratio written out per
   * unit so that the product is by a constant (a bare product of two unknowns is
   * something the solver handles badly).
   */
  function InMillimeters(x: real, u: Unit): real {
    match u
    case Millimeter => x
    case Centimeter => 10.0 * x
    case Meter => 1000.0 * x
    case Inch => 25.4 * x
    case Foot => 304.8 * x
    case Yard => 914.4 * x
  }

  /** x millimetres in unit u: x over the unit's ratio. */
  function FromMillimeters(x: real, u: Unit): real {
    match u
    case Millimeter => x
    case Centimeter => x / 10.0
    case Meter => x / 1000.0
    case Inch => x / 25.4
    case Foot => x / 304.8
    case Yard => x / 914.4
  }

  /** The per-unit forms are the product with, and the quotient by, the unit's ratio. */
  lemma ScalingByRatio(x: real, u: Unit)
    ensures InMillimeters(x, u) == Product(x, Value(Ratio(u)))
    ensures FromMillimeters(x, u) == x / Value(Ratio(u))
  {
    RatioValues();
  }

  /** One unit, either way, is its ratio in millimetres. */
  lemma OneUnit(u: Unit)
    ensures InMillimeters(1.0, u) == Value(Ratio(u))
    ensures InMillimeters(-1.0, u) == -Value(Ratio(u))
  {
    RatioValues();
  }

  /** Converting to millimetres and back is the identity, both ways round. */
  lemma MillimetersRoundTrip(x: real, u: Unit)
    ensures FromMillimeters(InMillimeters(x, u), u) == x
    ensures InMillimeters(FromMillimeters(x, u), u) == x
  {
  }

  /** A length is x units exactly when x is that length's millimetres over the unit. */
  lemma SameMillimeters(x: real, millis: real, u: Unit)
    ensures InMillimeters(x, u) == millis <==> x == FromMillimeters(millis, u)
  {
  }

  /** Scaling by a unit keeps the sign and the order. */
  lemma InMillimetersMonotone(x: real, y: real, u: Unit)
    ensures x < y <==> InMillimeters(x, u) < InMillimeters(y, u)
    ensures x == y <==> InMillimeters(x, u) == InMillimeters(y, u)
    ensures InMillimeters(0.0, u) == 0.0 && FromMillimeters(0.0, u) == 0.0
  {
  }

  /** Every unit is a positive length. */
  lemma RatioPositive(u: Unit)
    ensures Value(Ratio(u)) > 0.0
  {
    ValueZero(Ratio(u));
  }

  /** The ratios grow in the order mm, cm, in, ft, yd, m. */
  lemma RatioOrder()
    ensures Value(Ratio(Millimeter)) < Value(Ratio(Centimeter)) < Value(Ratio(Inch))
    ensures Value(Ratio(Inch)) < Value(Ratio(Foot)) < Value(Ratio(Yard)) < Value(Ratio(Meter))
  {
    RatioValues();
  }

  predicate Names(name: string, u: Unit) {
    name == ToLower(Abbreviation(u)) || name == ToLower(DisplayName(u))
  }

  /** The loop of Unit.parse over the remaining units: the first unit the name matches. */
  function Lookup(name: string, units: seq<Unit>): (r: Result<Unit>)
    ensures r.Ok? ==> r.value in units && Names(name, r.value)
    ensures r.Err? ==> r == Err(UnrecognizedUnit(name)) && forall u :: u in units ==> !Names(name, u)
  {
    if units == [] then Err(UnrecognizedUnit(name))
    else if Names(name, units[0]) then Ok(units[0])
    else Lookup(name, units[1..])
  }

  /** Unit.parse: lower-cases the name and looks it up by abbreviation or display name. */
  function Parse(name: string): (r: Result<Unit>)
  {
    Lookup(ToLower(name), AllUnits)
  }

  /** Every unit is listed by Unit.values(). */
  lemma AllUnitsComplete(u: Unit)
    ensures u in AllUnits
  {
    match u
    case Millimeter => assert AllUnits[0] == u;
    case Centimeter => assert AllUnits[1] == u;
    case Meter => assert AllUnits[2] == u;
    case Inch => assert AllUnits[3] == u;
    case Foot => assert AllUnits[4] == u;
    case Yard => assert AllUnits[5] == u;
  }

  /** The lower-cased display name of each unit. */
  function LowerDisplayName(u: Unit): string {
    match u
    case Millimeter => "millimeters"
    case Centimeter => "centimeters"
    case Meter => "meters"
    case Inch => "inches"
    case Foot => "feet"
    case Yard => "yards"
  }

  /** Abbreviations are already lower case; display names lose their capital. */
  lemma LowerNames(u: Unit)
    ensures ToLower(Abbreviation(u)) == Abbreviation(u)
    ensures ToLower(DisplayName(u)) == LowerDisplayName(u)
  {
    ToLowerNoUpper(Abbreviation(u));
    match u
    case Millimeter => LowerInitial("Millimeters", "millimeters");
    case Centimeter => LowerInitial("Centimeters", "centimeters");
    case Meter => LowerInitial("Meters", "meters");
    case Inch => LowerInitial("Inches", "inches");
    case Foot => LowerInitial("Feet", "feet");
    case Yard => LowerInitial("Yards", "yards");
  }

  /** A word whose only capital is its first letter lower-cases to the same word with that letter lowered. */
  lemma LowerInitial(d: string, l: string)
    requires |d| == |l| > 0 && l[0] == LowerChar(d[0])
    requires forall i :: 1 <= i < |d| ==> d[i] == l[i] && IsLower(l[i])
    ensures ToLower(d) == l
  {
    assert forall i :: 0 <= i < |d| ==> ToLower(d)[i] == l[i];
  }

  /** No name belongs to two units. */
  lemma NamesDistinct(name: string, u: Unit, v: Unit)
    requires Names(name, u) && Names(name, v)
    ensures u == v
  {
    NameDetermines(name, u);
    NameDetermines(name, v);
  }

  /** The unit a lower-case name can belong to, told apart by its first letter and its length. */
  function OwnerOf(length: int, first: char): Unit {
    if first == 'c' then Centimeter
    else if first == 'i' then Inch
    else if first == 'f' then Foot
    else if first == 'y' then Yard
    else if length == 1 || length == 6 then Meter
    else Millimeter
  }

  lemma NameDetermines(name: string, u: Unit)
    requires Names(name, u)
    ensures |name| > 0 && OwnerOf(|name|, name[0]) == u
  {
    LowerNames(u);
  }

  /** Parsing succeeds with u exactly when the lower-cased name is u's lower-cased abbreviation or display name; otherwise it reports the lower-cased name. */
  lemma ParseSpec(name: string, u: Unit)
    ensures Parse(name) == Ok(u) <==> Names(ToLower(name), u)
    ensures Parse(name).Err? <==> forall v :: !Names(ToLower(name), v)
    ensures Parse(name).Err? ==> Parse(name) == Err(UnrecognizedUnit(ToLower(name)))
  {
    var r := Parse(name);
    if Names(ToLower(name), u) {
      AllUnitsComplete(u);
      if r.Ok? {
        NamesDistinct(ToLower(name), u, r.value);
      }
    }
    if r.Err? {
      forall v ensures !Names(ToLower(name), v) {
        AllUnitsComplete(v);
      }
    }
  }

  /** Every unit is found by its abbreviation and by its display name. */
  lemma ParseNames(u: Unit)
    ensures Parse(Abbreviation(u)) == Ok(u)
    ensures Parse(DisplayName(u)) == Ok(u)
  {
    LowerNames(u);
    ToLowerNoUpper(ToLower(DisplayName(u)));
    ParseSpec(Abbreviation(u), u);
    ParseSpec(DisplayName(u), u);
  }

  /** Case does not matter: "IN" names the inch. */
  lemma ParseUpperCase()
    ensures Parse("IN") == Ok(Inch)
  {
    var t := ToLower("IN");
    assert t[0] == 'i' && t[1] == 'n';
    assert t == "in";
    LowerNames(Inch);
    ParseSpec("IN", Inch);
  }

  /** "inn" names no unit. */
  lemma ParseUnknown()
    ensures Parse("inn") == Err(UnrecognizedUnit("inn"))
  {
    ToLowerNoUpper("inn");
    LowerNames(Inch);
    forall v ensures !Names("inn", v) {
      if Names("inn", v) {
        NameDetermines("inn", v);
      }
    }
    ParseSpec("inn", Inch);
  }

  /** The abbreviations as the examples spell them. */
  lemma ParseAbbreviations()
    ensures Parse("mm") == Ok(Millimeter) && Parse("cm") == Ok(Centimeter) && Parse("m") == Ok(Meter)
    ensures Parse("in") == Ok(Inch) && Parse("ft") == Ok(Foot) && Parse("yd") == Ok(Yard)
  {
    ParseNames(Millimeter);
    ParseNames(Centimeter);
    ParseNames(Meter);
    ParseNames(Inch);
    ParseNames(Foot);
    ParseNames(Yard);
  }
}
