/** Parameter classes as the metaclass-based base implementation defines them:
    the definition-time attribute check, and the unit and range checks every
    value for a parameter passes through. */
module ParameterBase {
  import opened Wrappers
  import opened Units

  /** A parameter class: its name, its declared (default) unit and its
      inclusive valid range; `upper == None` stands for `+inf`. */
  datatype ParamClass = ParamClass(name: string, unit: Unit, lower: real, upper: Option<real>)

  /** The range every parameter inherits unless its body overrides it. */
  const DefaultLower: real := 0.0
  const DefaultUpper: Option<real> := None

  /** `lower <= x <= upper`, both ends inclusive. */
  predicate InRange(p: ParamClass, x: real)
  {
    p.lower <= x && (p.upper.None? || x <= p.upper.value)
  }

  /** The Python types a class attribute value can have in this model. */
  datatype PyType = NoneType | UnitType | FloatType | StrType

  /** A value assigned in a class body. */
  datatype Attr = AttrNone | AttrUnit(u: Unit) | AttrFloat(x: real) | AttrStr(s: string)

  function TypeOf(a: Attr): PyType
  {
    match a
    case AttrNone => NoneType
    case AttrUnit(_) => UnitType
    case AttrFloat(_) => FloatType
    case AttrStr(_) => StrType
  }

  /** A type condition: `None`, a single class, or a union written `A|B`. */
  datatype TypeCondition = CondNone | CondType(t: PyType) | CondUnion(members: seq<PyType>)

  function MemberOf(t: PyType, members: seq<PyType>): bool
    decreases |members|
  {
    members != [] && (members[0] == t || MemberOf(t, members[1..]))
  }

  /** `_type_is_correct`: a `None` condition asks whether the value is None, a
      union asks for membership in any member type, a class is an isinstance
      check. */
  function TypeIsCorrect(a: Attr, cond: TypeCondition): (b: bool)
    ensures cond.CondNone? ==> (b <==> a == AttrNone)
    ensures cond.CondType? ==> (b <==> TypeOf(a) == cond.t)
    ensures cond.CondUnion? ==> (b <==> exists i :: 0 <= i < |cond.members| && cond.members[i] == TypeOf(a))
  {
    match cond
    case CondNone => a == AttrNone
    case CondType(t) => TypeOf(a) == t
    case CondUnion(members) =>
      MemberOfIndex(TypeOf(a), members);
      MemberOf(TypeOf(a), members)
  }

  lemma {:induction false} MemberOfIndex(t: PyType, members: seq<PyType>)
    ensures MemberOf(t, members) <==> exists i :: 0 <= i < |members| && members[i] == t
    decreases |members|
  {
    if members != [] {
      MemberOfIndex(t, members[1..]);
      if members[0] != t && exists i :: 0 <= i < |members| && members[i] == t {
        var i :| 0 <= i < |members| && members[i] == t;
        assert members[1..][i - 1] == t;
      }
    }
  }

  /** `REQUIRED_ATTRIBUTES`: `unit`, of type `None|pint.Unit`. */
  const RequiredAttributes: seq<(string, TypeCondition)> := [("unit", CondUnion([NoneType, UnitType]))]

  /** The loop of `ParameterMeta.__new__` over the required attributes. */
  function CheckAttributes(body: map<string, Attr>, required: seq<(string, TypeCondition)>): Outcome
    decreases |required|
  {
    if required == [] then Pass
    else
      var (attr, cond) := required[0];
      if attr !in body then Fail(UnitNotDeclared)
      else if !TypeIsCorrect(body[attr], cond) then Fail(UnitWrongType)
      else CheckAttributes(body, required[1..])
  }

  /** `ParameterMeta.__new__`: a class body must itself assign `unit`, and the
      value must be None or a unit. */
  function CheckRequiredAttributes(body: map<string, Attr>): (r: Outcome)
    ensures r == Fail(UnitNotDeclared) <==> "unit" !in body
    ensures r == Fail(UnitWrongType) <==> "unit" in body && !(body["unit"].AttrNone? || body["unit"].AttrUnit?)
    ensures r.Pass? <==> "unit" in body && (body["unit"].AttrNone? || body["unit"].AttrUnit?)
  {
    if "unit" in body then
      UnitConditionAdmits(body["unit"]);
      CheckAttributes(body, RequiredAttributes)
    else
      CheckAttributes(body, RequiredAttributes)
  }

  /** The type condition of `unit` admits exactly None and units. */
  lemma UnitConditionAdmits(a: Attr)
    ensures TypeIsCorrect(a, RequiredAttributes[0].1) <==> a.AttrNone? || a.AttrUnit?
  {
    var members := RequiredAttributes[0].1.members;
    assert members[0] == NoneType && members[1] == UnitType;
  }

  /** `_unit_is_valid`: a bare float always passes; a quantity passes when its
      unit is compatible with the declared one. */
  function UnitIsValid(p: ParamClass, v: Value): (b: bool)
    ensures b <==> CoerceFloat(v, Some(p.unit)).Ok?
    ensures v.Num? ==> b
  {
    match v
    case Num(_) => true
    case Qty(_, u) => Compatible(u, p.unit)
  }

  /** `ensure_units`: an unforced quantity is returned unchanged when its unit
      is compatible and refused otherwise; anything else is coerced to the
      declared unit. */
  function EnsureUnits(p: ParamClass, v: Value, force: bool): (r: Result<Value>)
    ensures v.Qty? && !force ==> (r.Ok? <==> UnitIsValid(p, v))
    ensures v.Qty? && !force && r.Ok? ==> r.value == v
    ensures v.Qty? && !force && r.Err? ==> r.error == IncompatibleUnits
    ensures v.Num? ==> r == Ok(Qty(v.x, p.unit))
    ensures v.Qty? && force ==> (r.Ok? <==> UnitIsValid(p, v))
    ensures v.Qty? && force && r.Ok? ==> r.value.Qty? && r.value.unit == p.unit && r.value.mag * p.unit.scale == v.mag * v.unit.scale
    ensures r.Ok? ==> r.value.Qty? && Compatible(r.value.unit, p.unit)
  {
    if v.Qty? && !force then
      if !UnitIsValid(p, v) then Err(IncompatibleUnits) else Ok(v)
    else
      CoerceUnit(v, p.unit)
  }

  /** `ensure_float`: the magnitude of the value in the declared unit. */
  function EnsureFloat(p: ParamClass, v: Value): (r: Result<real>)
    ensures r.Ok? <==> UnitIsValid(p, v)
    ensures v.Num? ==> r == Ok(v.x)
    ensures v.Qty? && r.Ok? ==> r.value * p.unit.scale == v.mag * v.unit.scale
  {
    CoerceFloat(v, Some(p.unit))
  }

  /** A bare number given the parameter's unit and then stripped again is
      unchanged; forcing a quantity to the default unit does not change its
      magnitude in the default unit. */
  lemma EnsureRoundTrip(p: ParamClass, v: Value)
    requires UnitIsValid(p, v)
    ensures v.Num? ==> EnsureFloat(p, EnsureUnits(p, v, false).value) == Ok(v.x)
    ensures EnsureFloat(p, EnsureUnits(p, v, true).value) == EnsureFloat(p, v)
  {
    var forced := EnsureUnits(p, v, true).value;
    assert EnsureFloat(p, forced).value * p.unit.scale == forced.mag * p.unit.scale;
  }

  /** What `has_unit` says of the values the parameter operations produce:
      `ensure_units` yields a value with a unit exactly when the parameter's
      unit has a dimension, `ensure_float` never does, and a quantity the
      parameter accepts has a unit exactly when the parameter's unit does. */
  lemma HasUnitAfterCoercion(p: ParamClass, v: Value, force: bool)
    ensures EnsureUnits(p, v, force).Ok? ==> (HasUnit(EnsureUnits(p, v, force).value) <==> !IsDimensionless(p.unit))
    ensures EnsureFloat(p, v).Ok? ==> !HasUnit(Num(EnsureFloat(p, v).value))
    ensures v.Qty? && UnitIsValid(p, v) ==> (HasUnit(v) <==> !IsDimensionless(p.unit))
  {
  }

  /** `is_valid`: false for an incompatible unit; otherwise the inclusive range
      check on the magnitude in the declared unit. */
  function IsValid(p: ParamClass, v: Value): (b: bool)
    ensures !UnitIsValid(p, v) ==> !b
    ensures b <==> EnsureFloat(p, v).Ok? && InRange(p, EnsureFloat(p, v).value)
    ensures v.Num? ==> (b <==> p.lower <= v.x && (p.upper.None? || v.x <= p.upper.value))
  {
    if !UnitIsValid(p, v) then false
    else
      match EnsureFloat(p, v)
      case Ok(x) => InRange(p, x)
      case Err(_) => false
  }

  /** Both ends of the range are valid; a bare number just below the lower
      bound, or just above a finite upper bound, is not. */
  lemma BoundsAreInclusive(p: ParamClass, eps: real)
    requires eps > 0.0
    requires p.upper.None? || p.lower <= p.upper.value
    ensures IsValid(p, Num(p.lower))
    ensures !IsValid(p, Num(p.lower - eps))
    ensures p.upper.Some? ==> IsValid(p, Num(p.upper.value)) && !IsValid(p, Num(p.upper.value + eps))
  {
  }

  /** `validate`: raises ValueError exactly when `is_valid` is false. */
  function Validate(p: ParamClass, v: Value): (r: Outcome)
    ensures r.Pass? <==> IsValid(p, v)
    ensures r.Fail? ==> r.error == InvalidValue && ExceptionClass(r.error) == "ValueError"
  {
    if IsValid(p, v) then Pass else Fail(InvalidValue)
  }
}
