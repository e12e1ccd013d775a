/** Parameter classes as the registry-based implementation defines them: a
    subclass statement checks its own `unit` and registers the class under its
    name; values are checked for unit compatibility and range. Also the three
    concrete parameters `dose`, `clearance` and `auc`. */
module Parameters {
  import opened Wrappers
  import opened Units
  import opened ParameterBase
  import Registry

  /** `PARAMETER_REGISTRY`: parameter classes by class name. */
  type ParameterRegistry = map<string, ParamClass>

  /** A subclass statement `class name(Parent, register=...)`, reduced to what
      its own body assigns: `unit == None` means the body does not assign
      `unit` at all; `lower == None` / `upper == None` mean the bound is
      inherited, and an assigned `upper` of `None` is `float("inf")`. */
  datatype ClassDecl = ClassDecl(name: string, unit: Option<Attr>, lower: Option<real>, upper: Option<Option<real>>)

  /** The bounds a subclass inherits from its parent. */
  datatype Bounds = Bounds(lower: real, upper: Option<real>)

  /** `Parameter.lower` and `Parameter.upper`. */
  const ParameterBounds: Bounds := Bounds(DefaultLower, DefaultUpper)

  /** A successfully defined class and the registry after its definition. */
  datatype Defined = Defined(cls: ParamClass, registry: ParameterRegistry)

  /** `Parameter.__init_subclass__`: the body must assign `unit` itself (an
      inherited unit does not count) and to a unit; with `register` the class
      is stored in the registry under its name, which fails for a name that is
      already taken. Without `register` nothing is stored. A failing
      definition leaves the registry as it was. */
  function DefineSubclass(reg: ParameterRegistry, parent: Bounds, decl: ClassDecl, register: bool): (r: Result<Defined>)
    ensures r == Err(UnitNotDeclared) <==> decl.unit.None?
    ensures r == Err(UnitWrongType) <==> decl.unit.Some? && !decl.unit.value.AttrUnit?
    ensures decl.unit.Some? && decl.unit.value.AttrUnit? ==>
              (r == Err(AlreadyRegistered(decl.name)) <==> register && decl.name in reg)
    ensures r.Ok? <==> decl.unit.Some? && decl.unit.value.AttrUnit? && !(register && decl.name in reg)
    ensures r.Ok? ==> r.value.cls.name == decl.name && r.value.cls.unit == decl.unit.value.u
    ensures r.Ok? ==> r.value.cls.lower == (if decl.lower.Some? then decl.lower.value else parent.lower)
    ensures r.Ok? ==> r.value.cls.upper == (if decl.upper.Some? then decl.upper.value else parent.upper)
    ensures r.Ok? && !register ==> r.value.registry == reg
    ensures r.Ok? && register ==> r.value.registry == reg[decl.name := r.value.cls]
  {
    match decl.unit
    case None => Err(UnitNotDeclared)
    case Some(attr) =>
      if !attr.AttrUnit? then Err(UnitWrongType)
      else
        var cls := ParamClass(decl.name, attr.u,
                              if decl.lower.Some? then decl.lower.value else parent.lower,
                              if decl.upper.Some? then decl.upper.value else parent.upper);
        if !register then Ok(Defined(cls, reg))
        else
          var step := Registry.Set(reg, decl.name, cls);
          match step.error
          case Some(e) => Err(e)
          case None => Ok(Defined(cls, step.state))
  }

  /** `class dose(Parameter)`: grams. */
  const DoseDecl: ClassDecl := ClassDecl("dose", Some(AttrUnit(MASS)), None, None)

  /** `class clearance(Parameter)`: ml per hour, restating the default bounds. */
  const ClearanceDecl: ClassDecl := ClassDecl("clearance", Some(AttrUnit(Div(VOLUME, TIME))), Some(0.0), Some(None))

  /** `class auc(Parameter)`: g/ml times hours. */
  const AucDecl: ClassDecl := ClassDecl("auc", Some(AttrUnit(Mul(Div(MASS, VOLUME), TIME))), None, None)

  /** The module's three definitions, in order, into an empty registry. */
  function DefineModule(): Result<ParameterRegistry>
  {
    var d :- DefineSubclass(map[], ParameterBounds, DoseDecl, true);
    var c :- DefineSubclass(d.registry, ParameterBounds, ClearanceDecl, true);
    var a :- DefineSubclass(c.registry, ParameterBounds, AucDecl, true);
    Ok(a.registry)
  }

  const Dose: ParamClass := ParamClass("dose", MASS, 0.0, None)
  const Clearance: ParamClass := ParamClass("clearance", Div(VOLUME, TIME), 0.0, None)
  const Auc: ParamClass := ParamClass("auc", Mul(Div(MASS, VOLUME), TIME), 0.0, None)

  /** Defining the module registers exactly `dose` (g), `clearance` (ml/hour)
      and `auc` (g/ml times hour), each with the bounds [0, +inf); defining a
      second class named `dose` afterwards fails, and a class without a unit of
      its own is refused. */
  lemma ModuleDefinitions()
    ensures DefineModule() == Ok(map["dose" := Dose, "clearance" := Clearance, "auc" := Auc])
    ensures Dose.unit.dims == Dims(1, 0, 0)
    ensures Clearance.unit.dims == Dims(0, 1, -1)
    ensures Auc.unit.dims == Dims(1, -1, 1)
    ensures DefineSubclass(DefineModule().value, ParameterBounds, DoseDecl, true) == Err(AlreadyRegistered("dose"))
    ensures DefineSubclass(DefineModule().value, ParameterBounds, DoseDecl, false).Ok?
    ensures DefineSubclass(map[], ParameterBounds, ClassDecl("ForgotUnit", None, None, None), true) == Err(UnitNotDeclared)
  {
    var d := DefineSubclass(map[], ParameterBounds, DoseDecl, true);
    assert d == Ok(Defined(Dose, map["dose" := Dose]));
    var c := DefineSubclass(d.value.registry, ParameterBounds, ClearanceDecl, true);
    assert c == Ok(Defined(Clearance, map["dose" := Dose, "clearance" := Clearance]));
    var a := DefineSubclass(c.value.registry, ParameterBounds, AucDecl, true);
    assert a == Ok(Defined(Auc, map["dose" := Dose, "clearance" := Clearance, "auc" := Auc]));
  }

  /** `_validate_units`: only a quantity with an incompatible unit is refused;
      bare numbers always pass. */
  function ValidateUnits(p: ParamClass, v: Value): (r: Outcome)
    ensures r.Fail? <==> v.Qty? && !Compatible(v.unit, p.unit)
    ensures r.Fail? ==> r.error == IncompatibleUnits && ExceptionClass(r.error) == "RuntimeError"
  {
    if v.Qty? && !Compatible(v.unit, p.unit) then Fail(IncompatibleUnits) else Pass
  }

  /** `ensure_units`, written with `_validate_units`. */
  function EnsureUnits(p: ParamClass, v: Value, force: bool): (r: Result<Value>)
    ensures r == ParameterBase.EnsureUnits(p, v, force)
  {
    if v.Qty? && !force then
      match ValidateUnits(p, v)
      case Fail(e) => Err(e)
      case Pass => Ok(v)
    else
      CoerceUnit(v, p.unit)
  }

  /** `validate` as written: the value is converted to the declared unit, but
      the range check is then made on the ORIGINAL value, so a quantity is
      compared with the bare bounds. */
  function ValidateAsWritten(p: ParamClass, v: Value): (r: Outcome)
    ensures UnitIsValid(p, v) <==> r != Fail(DimensionalityMismatch)
    ensures v.Num? ==> (r.Pass? <==> InRange(p, v.x))
    ensures v.Num? && r.Fail? ==> r.error == InvalidValue
  {
    match EnsureFloat(p, v)
    case Err(e) => Fail(e)
    case Ok(_) =>
      match ChainedInRange(p.lower, v, p.upper)
      case Err(e) => Fail(e)
      case Ok(ok) => if ok then Pass else Fail(InvalidValue)
  }

  /** `validate` with the range check made on the converted magnitude, as the
      computed `val` evidently intends. */
  function Validate(p: ParamClass, v: Value): (r: Outcome)
    ensures r.Pass? <==> UnitIsValid(p, v) && InRange(p, EnsureFloat(p, v).value)
    ensures !UnitIsValid(p, v) ==> r == Fail(DimensionalityMismatch)
    ensures r.Fail? && UnitIsValid(p, v) ==> r.error == InvalidValue
  {
    match EnsureFloat(p, v)
    case Err(e) => Fail(e)
    case Ok(val) => if InRange(p, val) then Pass else Fail(InvalidValue)
  }

  /** On bare numbers the written and the corrected `validate` agree, and on
      values with a compatible unit the corrected one agrees with the base
      implementation's `validate`. */
  lemma ValidateAgreement(p: ParamClass, v: Value)
    ensures v.Num? ==> ValidateAsWritten(p, v) == Validate(p, v)
    ensures UnitIsValid(p, v) ==> Validate(p, v) == ParameterBase.Validate(p, v)
  {
  }

  /** As written, `validate` refuses every quantity with a dimension that the
      corrected `validate` accepts, for a parameter whose upper bound is
      `+inf`: either the lower bound is not zero and cannot be compared with
      it, or the comparison with infinity raises. The base implementation's
      `is_valid` accepts every such quantity. A gram of dose is the smallest
      example. */
  lemma ValidateAsWrittenRefusesQuantities(p: ParamClass, mag: real, u: Unit)
    requires p.upper.None? && !IsDimensionless(u)
    requires Validate(p, Qty(mag, u)).Pass?
    ensures ValidateAsWritten(p, Qty(mag, u)) == Fail(NotComparable)
    ensures ExceptionClass(NotComparable) == "ValueError"
    ensures ParameterBase.IsValid(p, Qty(mag, u))
  {
  }

  lemma DoseGramAsWrittenRefused()
    ensures ValidateAsWritten(Dose, Qty(1.0, MASS)) == Fail(NotComparable)
    ensures Validate(Dose, Qty(1.0, MASS)) == Pass
  {
    ValidateAsWrittenRefusesQuantities(Dose, 1.0, MASS);
  }
}
