/** A small worked formulary built from the package's own parameters: the
    clearance of a drug is its dose divided by the area under its
    concentration curve. */
module Scenario {
  import opened Wrappers
  import opened Units
  import opened ParameterBase
  import opened Parameters
  import opened Formulas
  import opened Formularies
  import Ordering

  /** `clearance = dose / auc`, with a default area of 0.3. */
  const ClearanceFormula: Formula :=
    Formula(Clearance, [Arg("dose", None), Arg("auc", Some(Num(0.3)))], Expr("dose / auc", {"dose", "auc"}))

  /** A solver that knows one rearrangement. */
  function SolveOne(eq: Equation, target: string): seq<Expr>
  {
    if eq == EquationOf(ClearanceFormula) && target == "clearance" then [ClearanceFormula.rhs] else []
  }

  /** Division of values: quantities divide their units too, and a zero
      divisor raises ZeroDivisionError. */
  function Divide(a: Value, b: Value): (r: Result<Value>)
    ensures r.Err? <==> (b.Num? && b.x == 0.0) || (b.Qty? && b.mag == 0.0)
    ensures r.Ok? ==> (r.value.Num? <==> a.Num? && b.Num?)
  {
    match (a, b)
    case (Num(x), Num(y)) => if y == 0.0 then Err(Raised("ZeroDivisionError")) else Ok(Num(x / y))
    case (Qty(m, u), Num(y)) => if y == 0.0 then Err(Raised("ZeroDivisionError")) else Ok(Qty(m / y, u))
    case (Num(x), Qty(n, w)) => if n == 0.0 then Err(Raised("ZeroDivisionError")) else Ok(Qty(x / n, Div(Unit(NoDims, 1.0), w)))
    case (Qty(m, u), Qty(n, w)) => if n == 0.0 then Err(Raised("ZeroDivisionError")) else Ok(Qty(m / n, Div(u, w)))
  }

  /** The callable made from `dose / auc`: both arguments are required. */
  function Evaluate(e: Expr, env: map<string, Value>): Result<Value>
  {
    if "dose" in env && "auc" in env then Divide(env["dose"], env["auc"]) else Err(BadArguments)
  }

  const Solver: Oracle := Oracle(SolveOne, (eqs: seq<Equation>, target: string) => [], Evaluate)

  const Params: seq<ParamClass> := [Dose, Clearance, Auc]

  /** The three parameters register, and so does the formula over them. */
  lemma BuildFormulary()
    ensures NewFormulary(Params, [ClearanceFormula]).Ok?
    ensures var fy := NewFormulary(Params, [ClearanceFormula]).value;
            fy.parameters.Keys == {"dose", "clearance", "auc"} && fy.parameters["clearance"] == Clearance
            && fy.equations == [EquationOf(ClearanceFormula)]
  {
    assert NamesFresh(Empty, Params) by {
      forall i | 0 <= i < |Params| ensures !Clash(Empty, Params, i) {
      }
    }
    assert NamesOf(Params) == {"dose", "clearance", "auc"} by {
      assert Params[0].name == "dose" && Params[1].name == "clearance" && Params[2].name == "auc";
    }
    assert Vars(ClearanceFormula) == ["dose", "auc", "clearance"];
    var fy := NewFormulary(Params, [ClearanceFormula]).value;
    assert EquationsMatch(fy);
    assert fy.parameters[Params[1].name] == Params[1];
  }

  /** A dose of 0.5 and an area of 1.7 determine a clearance of 0.5 / 1.7. */
  lemma DetermineClearance()
    ensures NewFormulary(Params, [ClearanceFormula]).Ok?
    ensures DetermineParameter(NewFormulary(Params, [ClearanceFormula]).value, Clearance,
                               map["dose" := Num(0.5), "auc" := Num(1.7)], Solver)
            == Ok(Num(0.5 / 1.7))
  {
    BuildFormulary();
    ClearanceIn(NewFormulary(Params, [ClearanceFormula]).value);
  }

  lemma ClearanceIn(fy: Formulary)
    requires fy.parameters.Keys == {"dose", "clearance", "auc"}
    requires fy.equations == [EquationOf(ClearanceFormula)]
    ensures DetermineParameter(fy, Clearance, map["dose" := Num(0.5), "auc" := Num(1.7)], Solver) == Ok(Num(0.5 / 1.7))
  {
    var kwargs := map["dose" := Num(0.5), "auc" := Num(1.7)];
    assert ValidateInput(kwargs).Pass? by {
      assert !HasUnit(kwargs["dose"]) && !HasUnit(kwargs["auc"]);
    }
    assert Evaluate(ClearanceFormula.rhs, kwargs) == Ok(Num(0.5 / 1.7));
    assert IsValid(Clearance, Num(0.5 / 1.7));
    DetermineIn(fy, kwargs);
  }

  /** A zero area raises the division's ZeroDivisionError out of
      `determine_parameter`. */
  lemma ZeroArea()
    ensures NewFormulary(Params, [ClearanceFormula]).Ok?
    ensures DetermineParameter(NewFormulary(Params, [ClearanceFormula]).value, Clearance,
                               map["dose" := Num(0.5), "auc" := Num(0.0)], Solver)
            == Err(Raised("ZeroDivisionError"))
  {
    BuildFormulary();
    ZeroAreaIn(NewFormulary(Params, [ClearanceFormula]).value);
  }

  lemma ZeroAreaIn(fy: Formulary)
    requires fy.parameters.Keys == {"dose", "clearance", "auc"}
    requires fy.equations == [EquationOf(ClearanceFormula)]
    ensures DetermineParameter(fy, Clearance, map["dose" := Num(0.5), "auc" := Num(0.0)], Solver) == Err(Raised("ZeroDivisionError"))
  {
    var kwargs := map["dose" := Num(0.5), "auc" := Num(0.0)];
    assert ValidateInput(kwargs).Pass? by {
      assert !HasUnit(kwargs["dose"]) && !HasUnit(kwargs["auc"]);
    }
    assert Evaluate(ClearanceFormula.rhs, kwargs) == Err(Raised("ZeroDivisionError"));
    DetermineIn(fy, kwargs);
  }

  /** A determination from a dose and an area in any formulary with these
      parameters and this single equation: the division's result, or what it
      raises. */
  lemma DetermineIn(fy: Formulary, kwargs: map<string, Value>)
    requires fy.parameters.Keys == {"dose", "clearance", "auc"}
    requires fy.equations == [EquationOf(ClearanceFormula)]
    requires kwargs.Keys == {"dose", "auc"} && ValidateInput(kwargs).Pass?
    ensures var v := Evaluate(ClearanceFormula.rhs, kwargs);
            (v.Err? || IsValid(Clearance, v.value)) ==> DetermineParameter(fy, Clearance, kwargs, Solver) == v
  {
    var rhs := ClearanceFormula.rhs;
    SelectsTheFormula(fy.equations, kwargs);
    assert Restrict(kwargs, rhs.free) == kwargs;
    DetermineThroughOneEquation(fy, Clearance, kwargs, Solver, EquationOf(ClearanceFormula), rhs);
  }

  /** Given `dose` and `auc`, the subset pass selects the formula's
      equation. */
  lemma SelectsTheFormula(eqs: seq<Equation>, kwargs: map<string, Value>)
    requires eqs == [EquationOf(ClearanceFormula)] && kwargs.Keys == {"dose", "auc"}
    ensures Select(eqs, "clearance", {"clearance"} + kwargs.Keys, true) == eqs
  {
    assert FreeSymbols(eqs[0]) == {"clearance", "dose", "auc"};
  }

  /** Calling the formula with only a dose takes the default area. */
  lemma CallWithDefault()
    ensures Bind(ClearanceFormula.signature, [Num(0.5)], map[]) == Ok(map["dose" := Num(0.5), "auc" := Num(0.3)])
    ensures Bind(ClearanceFormula.signature, [], map["auc" := Num(1.7)]) == Err(BadArguments)
  {
    var sig := ClearanceFormula.signature;
    assert sig[1..] == [Arg("auc", Some(Num(0.3)))] && sig[1..][1..] == [];
    assert Bind(sig[1..][1..], [], map[]) == Ok(map[]);
    assert Bind(sig[1..], [], map[]) == Ok(map["auc" := Num(0.3)]);
    assert Bind(sig, [Num(0.5)], map[]) == Ok(map["auc" := Num(0.3)]["dose" := Num(0.5)]);
    assert map["auc" := Num(0.3)]["dose" := Num(0.5)] == map["dose" := Num(0.5), "auc" := Num(0.3)];
    assert !Bindable(sig, [], map["auc" := Num(1.7)]) by {
      assert sig[0].name !in map["auc" := Num(1.7)] && sig[0].default.None?;
    }
  }

  /** Registering `dose` twice fails on the second one. */
  lemma DuplicateParameter()
    ensures NewFormulary([Dose, Clearance, Dose], []) == Err(AlreadyRegistered("dose"))
  {
    var params := [Dose, Clearance, Dose];
    assert params[..2] == [Dose, Clearance] && params[..2][..1] == [Dose] && params[..2][..1][..0] == [];
    var one := RegisterParameters(Empty, [Dose]);
    assert one == Step(Empty.(parameters := map["dose" := Dose]), None);
    var two := RegisterParameters(Empty, [Dose, Clearance]);
    assert two.Succeeded() && "dose" in two.state.parameters;
    assert RegisterParameters(Empty, params).error == Some(AlreadyRegistered("dose"));
  }

  /** A formula over an unregistered `auc` is refused with exactly that
      name. */
  lemma UnregisteredInput()
    ensures NewFormulary([Dose, Clearance], [ClearanceFormula]) == Err(NotRegistered(["auc"]))
  {
    var params := [Dose, Clearance];
    var p := RegisterParameters(Empty, params);
    assert NamesFresh(Empty, params) by {
      forall i | 0 <= i < |params| ensures !Clash(Empty, params, i) {
      }
    }
    assert p.state.parameters.Keys == {"dose", "clearance"} by {
      assert params[0].name == "dose" && params[1].name == "clearance";
    }
    MissingArea(p.state);
  }

  /** The formula's registration reports `auc` as the missing name. */
  lemma MissingArea(fy: Formulary)
    requires fy.parameters.Keys == {"dose", "clearance"}
    ensures RegisterFormulas(fy, [ClearanceFormula]).error == Some(NotRegistered(["auc"]))
  {
    MissingAreaReported(fy);
    RegisteredIff(fy, ClearanceFormula);
    assert !RegisterFormulas(fy, [ClearanceFormula]).Succeeded() by {
      assert !Registered(fy, [ClearanceFormula][0]);
    }
    RegisterFormulasFailure(fy, [ClearanceFormula]);
  }

  /** `ensure_registered` names exactly `auc`. */
  lemma MissingAreaReported(fy: Formulary)
    requires fy.parameters.Keys == {"dose", "clearance"}
    ensures EnsureRegistered(fy, Vars(ClearanceFormula)) == Fail(NotRegistered(["auc"]))
  {
    assert Vars(ClearanceFormula) == ["dose", "auc", "clearance"];
    var missing := set k | k in Vars(ClearanceFormula) && k !in fy.parameters;
    assert missing == {"auc"};
    SortOne("auc");
  }

  /** A single name sorts to itself. */
  lemma SortOne(x: string)
    ensures Ordering.SortSet({x}) == [x]
  {
    var sorted := Ordering.SortSet({x});
    assert |sorted| == 1 && sorted[0] in {x};
  }

  /** As written, registering the formula into a formulary without `auc`
      raises but leaves the formula behind, breaking the invariant; the
      corrected registration leaves the formulary untouched. */
  lemma AsWrittenKeepsAreaFormula()
    ensures NewFormulary([Dose, Clearance], []).Ok?
    ensures var fy := NewFormulary([Dose, Clearance], []).value;
            var r := RegisterFormulasAsWritten(fy, [ClearanceFormula]);
            !r.Succeeded() && r.state.formulae == [ClearanceFormula] && !Valid(r.state)
            && RegisterFormulas(fy, [ClearanceFormula]).state == fy
  {
    var params := [Dose, Clearance];
    assert NamesFresh(Empty, params) by {
      forall i | 0 <= i < |params| ensures !Clash(Empty, params, i) {
      }
    }
    var fy := NewFormulary(params, []).value;
    assert "auc" !in fy.parameters by {
      assert params[0].name == "dose" && params[1].name == "clearance";
    }
    assert !Registered(fy, ClearanceFormula) by {
      assert Vars(ClearanceFormula)[1] == "auc";
    }
    AsWrittenKeepsRejectedFormula(fy, ClearanceFormula);
  }
}
