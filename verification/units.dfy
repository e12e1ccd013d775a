/** The unit model: default units per dimension, quantities, and the three
    coercions the rest of the package routes unit handling through.

    A unit is a dimension vector over the package's three base dimensions
    (mass, volume, time) with a positive size measured in the default units
    gram, millilitre and hour. Two units are compatible when their dimension
    vectors agree; converting between them rescales the magnitude so that the
    amount it denotes is unchanged. */
module Units {
  import opened Wrappers

  type Scale = r: real | r > 0.0 witness 1.0

  /** Exponents of mass, volume and time. */
  datatype Dims = Dims(mass: int, volume: int, time: int)

  /** A unit: its dimension and its size in default units. */
  datatype Unit = Unit(dims: Dims, scale: Scale)

  const NoDims: Dims := Dims(0, 0, 0)

  /** `Dim.MASS`, `Dim.VOLUME` and `Dim.TIME`: gram, millilitre and hour. */
  const MASS: Unit := Unit(Dims(1, 0, 0), 1.0)
  const VOLUME: Unit := Unit(Dims(0, 1, 0), 1.0)
  const TIME: Unit := Unit(Dims(0, 0, 1), 1.0)

  /** The product of two units. */
  function Mul(a: Unit, b: Unit): Unit
  {
    Unit(Dims(a.dims.mass + b.dims.mass, a.dims.volume + b.dims.volume, a.dims.time + b.dims.time),
         a.scale * b.scale)
  }

  /** The quotient of two units. */
  function Div(a: Unit, b: Unit): Unit
  {
    Unit(Dims(a.dims.mass - b.dims.mass, a.dims.volume - b.dims.volume, a.dims.time - b.dims.time),
         a.scale / b.scale)
  }

  predicate Compatible(a: Unit, b: Unit)
  {
    a.dims == b.dims
  }

  predicate IsDimensionless(u: Unit)
  {
    u.dims == NoDims
  }

  /** `Dim.to_unit_list()`: the public attributes of `Dim` in `dir()` order,
      which is alphabetical (MASS, TIME, VOLUME). These become the unit
      library's preferred units, so no two of them may be convertible. */
  function PreferredUnits(): (r: seq<Unit>)
    ensures |r| == 3 && MASS in r && VOLUME in r && TIME in r
    ensures forall i, j :: 0 <= i < j < |r| ==> !Compatible(r[i], r[j])
  {
    [MASS, TIME, VOLUME]
  }

  /** A value handed to the package: a bare float or a quantity with a unit. */
  datatype Value = Num(x: real) | Qty(mag: real, unit: Unit)

  /** `has_unit`: a quantity whose unit is not dimensionless, that is, one
      the unit library cannot turn into a plain number. */
  function HasUnit(v: Value): (b: bool)
    ensures b <==> v.Qty? && ConvertTo(v.mag, v.unit, Unit(NoDims, 1.0)).Err?
  {
    v.Qty? && !IsDimensionless(v.unit)
  }

  /** `has_unit` on the package's own test values: 42 millilitres (standing
      in for the test's 42 metres, as length is not one of the package's
      dimensions) has a unit; a dimensionless 1337 and a bare number do not. */
  lemma HasUnitCases()
    ensures HasUnit(Qty(42.0, VOLUME))
    ensures !HasUnit(Qty(1337.0, Unit(NoDims, 1.0)))
    ensures !HasUnit(Num(1337.0))
  {
  }

  /** `quantity.to(unit)` on the magnitude: the magnitude in the new unit, or
      the unit library's error for incompatible units. */
  function ConvertTo(mag: real, from: Unit, to: Unit): (r: Result<real>)
    ensures r.Ok? <==> Compatible(from, to)
    ensures r.Err? ==> r.error == DimensionalityMismatch
    ensures r.Ok? ==> r.value * to.scale == mag * from.scale
  {
    if Compatible(from, to) then Ok(mag * from.scale / to.scale)
    else Err(DimensionalityMismatch)
  }

  /** Converting there and back gives the magnitude one started with. */
  lemma ConvertRoundTrip(mag: real, from: Unit, to: Unit)
    requires Compatible(from, to)
    ensures ConvertTo(ConvertTo(mag, from, to).value, to, from) == Ok(mag)
  {
    var there := ConvertTo(mag, from, to).value;
    var back := ConvertTo(there, to, from).value;
    assert back * from.scale == mag * from.scale;
  }

  /** `coerce_float(value, target_unit)`: a bare number is returned as it is; a
      quantity is converted to the target unit (when one is given) and its
      magnitude returned. */
  function CoerceFloat(v: Value, target: Option<Unit>): (r: Result<real>)
    ensures v.Num? ==> r == Ok(v.x)
    ensures v.Qty? && target.None? ==> r == Ok(v.mag)
    ensures v.Qty? && target.Some? ==>
              (r.Ok? <==> Compatible(v.unit, target.value))
              && (r.Ok? ==> r.value * target.value.scale == v.mag * v.unit.scale)
  {
    match v
    case Num(x) => Ok(x)
    case Qty(mag, unit) =>
      match target
      case None => Ok(mag)
      case Some(t) => ConvertTo(mag, unit, t)
  }

  /** `coerce_unit(value, unit)`: a bare number gets the unit with the same
      magnitude; a quantity is converted to the unit. */
  function CoerceUnit(v: Value, u: Unit): (r: Result<Value>)
    ensures v.Num? ==> r == Ok(Qty(v.x, u))
    ensures v.Qty? ==> (r.Ok? <==> Compatible(v.unit, u))
    ensures r.Ok? ==> r.value.Qty? && r.value.unit == u
    ensures v.Qty? && r.Ok? ==> r.value.mag * u.scale == v.mag * v.unit.scale
  {
    match v
    case Num(x) => Ok(Qty(x, u))
    case Qty(mag, unit) =>
      match ConvertTo(mag, unit, u)
      case Ok(m) => Ok(Qty(m, u))
      case Err(e) => Err(e)
  }

  /** A bare number given a unit and then stripped of it in that same unit is
      the number one started with. */
  lemma CoerceRoundTrip(x: real, u: Unit)
    ensures CoerceUnit(Num(x), u).Ok?
    ensures CoerceFloat(CoerceUnit(Num(x), u).value, Some(u)) == Ok(x)
  {
    var q := CoerceUnit(Num(x), u).value;
    assert CoerceFloat(q, Some(u)).value * u.scale == x * u.scale;
  }

  /** 4 dL stripped to millilitres is 400; stripped with no target it is 4. */
  lemma CoerceFloatDecilitres()
    ensures CoerceFloat(Qty(4.0, Unit(Dims(0, 1, 0), 100.0)), Some(VOLUME)) == Ok(400.0)
    ensures CoerceFloat(Qty(4.0, Unit(Dims(0, 1, 0), 100.0)), None) == Ok(4.0)
  {
  }

  /** Python's `a <= v` for a bare number `a`, with the unit library's rule for
      quantities: a dimensionless quantity compares by its plain value, any
      other quantity may only be compared with zero (by its magnitude), and
      comparing it with any other number raises ValueError. */
  function NumberLe(a: real, v: Value): Result<bool>
  {
    match v
    case Num(x) => Ok(a <= x)
    case Qty(mag, unit) =>
      if IsDimensionless(unit) then Ok(a <= mag * unit.scale)
      else if a == 0.0 then Ok(0.0 <= mag)
      else Err(NotComparable)
  }

  /** Python's `v <= b` for a bound `b`, with `None` standing for `+inf`, under
      the same rule; infinity is not zero, so no dimensional quantity can be
      compared with it. */
  function LeBound(v: Value, b: Option<real>): Result<bool>
  {
    match v
    case Num(x) => Ok(b.None? || x <= b.value)
    case Qty(mag, unit) =>
      if IsDimensionless(unit) then Ok(b.None? || mag * unit.scale <= b.value)
      else if b == Some(0.0) then Ok(mag <= 0.0)
      else Err(NotComparable)
  }

  /** Python's chained `lower <= v <= upper`: the second comparison is made
      only when the first one holds. */
  function ChainedInRange(lower: real, v: Value, upper: Option<real>): (r: Result<bool>)
    ensures v.Num? ==> r == Ok(lower <= v.x && (upper.None? || v.x <= upper.value))
    ensures v.Qty? && !IsDimensionless(v.unit) && lower != 0.0 ==> r == Err(NotComparable)
    ensures v.Qty? && !IsDimensionless(v.unit) && upper.None? && 0.0 <= v.mag ==> r == Err(NotComparable)
  {
    match NumberLe(lower, v)
    case Err(e) => Err(e)
    case Ok(false) => Ok(false)
    case Ok(true) => LeBound(v, upper)
  }
}
