# pharmakin formulary, modelled in Dafny

pharmakin keeps a registry of pharmacokinetic *parameters*, such as `dose`,
`clearance` and `auc`, and of *formulas* that relate them. From a few known
values it derives an unknown parameter. To do that it picks an equation that
expresses the target in terms of the known names, solves it, evaluates it
and validates the result.

This project models that registry and its checks as pure functions over
immutable datatypes:

- **Write-once registry.** A name can be bound once; a second binding raises.
  Modelled in `registry.dfy` (module `Registry`).
- **Units.** A unit is a vector of exponents over mass, volume and time, plus
  a positive size measured in gram, millilitre and hour. A value is a bare
  number or a quantity. The coercions to and from the default unit live in
  `units.dfy` (module `Units`).
- **Parameter classes**, in two implementations:
  - the metaclass-based base class, in `parameter_base.dfy` (module `ParameterBase`);
  - the registering class with the three concrete parameters, in `parameters.dfy` (module `Parameters`).
  Each covers the definition-time check on `unit`, the unit checks, and the
  inclusive range check.
- **Formulas.** A formula is a result parameter, the function's declared
  arguments and the symbolic right-hand side. Its rules are:
  - inputs must all carry units or none may;
  - the output is validated;
  - the `with_units` policy decides the result's units;
  - arguments bind to the signature.
  These are in `formulas.dfy` (module `Formulas`), together with equation
  formatting and `make_symbol_key`.
- **The formulary.** It holds the registered parameters, the formulas and
  their equations, and two indices: the formulas *for* a parameter, and the
  formulas *containing* a parameter. Its operations are:
  - registration;
  - `ensure_registered`;
  - the equation selection of `express_parameter`, with its whole-system fallback;
  - `determine_parameter`.
  These are in `formulary.dfy` (module `Formularies`). The invariant
  `Formularies.Valid` states that the indices and lists agree with the
  registered parameters.
- A worked instance, `clearance = dose / auc`, is in `scenario.dfy`
  (module `Scenario`).

A Python exception is an `Err` carrying an `Error`. `ExceptionClass` gives
the Python class that each error is raised as. A method that mutates the
object and may raise halfway is modelled as a `Step`: the state the object is
left in, plus the exception if one was raised.

The symbolic algebra library is abstracted:
- an expression is its printed text plus its set of free symbol names;
- `solve` on one equation, `solve` on the whole system, and numeric
  evaluation of an expression are the three functions of an `Oracle` value
  passed in by the caller.

The unit library is abstracted to the dimension vector and scale described
above. Floats are exact reals, and an infinite upper bound is `None`.

## Model

| member | source | states |
|---|---|---|
| Registry.Set | src/pharmakin/registry.py:5-8 | binding an absent key stores the value, adds exactly that key and grows the size by one; binding a present key raises RuntimeError and leaves the registry unchanged; no other key's value ever changes |
| Registry.SetAllKeepsFirstValue | src/pharmakin/registry.py:5-8 | over any run of assignments, each carrying on past a refused one, every key keeps the value it already had, or else the first value assigned to it; a key never assigned stays absent |
| Units.PreferredUnits | src/pharmakin/units.py:11-33 | the default units are gram, hour and millilitre, and no two of them are convertible into each other |
| Units.HasUnit | src/pharmakin/units.py:36-37 | a value has a unit exactly when it is a quantity that the unit library cannot convert into a plain dimensionless number |
| Units.HasUnitCases | src/pharmakin/units.py:36-37 | on the package's own test values: a dimensional quantity has a unit (42 ml, standing in for the test's 42 m, as length is not one of the package's dimensions); a dimensionless 1337 and a bare 1337 do not |
| Units.ConvertTo | src/pharmakin/units.py:50 | conversion succeeds exactly between compatible units and preserves the amount (magnitude times size); otherwise it raises the unit library's dimensionality error |
| Units.ConvertRoundTrip | src/pharmakin/units.py:50 | converting to a compatible unit and back returns the original magnitude |
| Units.CoerceFloat | src/pharmakin/units.py:40-54 | a bare number is returned as it is; a quantity with no target yields its raw magnitude; with a target it yields the amount-preserving magnitude in that unit, or raises for an incompatible unit |
| Units.CoerceUnit | src/pharmakin/units.py:57-66 | a bare number gets the unit with the same magnitude; a quantity is converted into the unit, amount preserved, and this succeeds exactly when the units are compatible |
| Units.CoerceRoundTrip | src/pharmakin/units.py:40-66 | giving a bare number a unit and stripping it again in that unit returns the number |
| Units.CoerceFloatDecilitres | src/pharmakin/units.py:40-51 | 4 dL stripped to millilitres is 400; stripped with no target it is 4 |
| Units.ChainedInRange | src/pharmakin/parameters.py:78 | the chained comparison `lower <= v <= upper` on a bare number is the inclusive range test; on a dimensional quantity it raises ValueError whenever the lower bound is non-zero, or the upper bound is infinite and the lower test passes |
| ParameterBase.TypeIsCorrect | src/pharmakin/utils/parameter_base.py:16-29 | a None condition accepts only None; a union accepts a value of any member type; a plain class is an instance check |
| ParameterBase.CheckRequiredAttributes | src/pharmakin/utils/parameter_base.py:11-45 | a class body without its own `unit` raises RuntimeError; a `unit` that is neither None nor a unit raises TypeError; both directions of each case hold |
| ParameterBase.UnitIsValid | src/pharmakin/utils/parameter_base.py:67-75 | a bare number always passes; any value passes exactly when it can be stripped to a magnitude in the parameter's unit |
| ParameterBase.EnsureUnits | src/pharmakin/utils/parameter_base.py:77-92 | an unforced quantity is returned unchanged when its unit is compatible and refused with RuntimeError otherwise; a bare number gets the default unit; a forced quantity is converted into the default unit with its amount preserved |
| ParameterBase.EnsureFloat | src/pharmakin/utils/parameter_base.py:94-98 | the magnitude in the default unit: a bare number unchanged, a compatible quantity with its amount preserved; fails exactly for an incompatible unit |
| ParameterBase.EnsureRoundTrip | src/pharmakin/utils/parameter_base.py:77-98 | a bare number given the default unit and stripped again is unchanged; forcing a value to the default unit does not change its magnitude in that unit |
| ParameterBase.HasUnitAfterCoercion | src/pharmakin/utils/parameter_base.py:77-98 | `ensure_units` yields a value with a unit exactly when the parameter's unit has a dimension; `ensure_float` never yields one; an accepted quantity has a unit exactly when the parameter's unit does |
| ParameterBase.IsValid | src/pharmakin/utils/parameter_base.py:67-107 | false for an incompatible unit; otherwise `lower <= magnitude in the default unit <= upper`, both ends inclusive, with no upper limit when the bound is infinite |
| ParameterBase.BoundsAreInclusive | src/pharmakin/utils/parameter_base.py:63-107 | both bounds are themselves valid, and values just outside a bound are not |
| ParameterBase.Validate | src/pharmakin/utils/parameter_base.py:109-113 | passes exactly when `is_valid` holds, and otherwise raises ValueError |
| Parameters.DefineSubclass | src/pharmakin/parameters.py:31-45 | a body without its own `unit` raises RuntimeError (an inherited unit does not count); a non-unit raises TypeError; with `register` the class is stored under its name, and a taken name raises; without `register` the registry is unchanged; unassigned bounds are inherited |
| Parameters.ModuleDefinitions | src/pharmakin/parameters.py:91-115 | the module registers exactly `dose` (g), `clearance` (ml/h) and `auc` (g/ml·h), each with bounds [0, +inf); a second `dose` is refused unless unregistered; a class without a unit is refused |
| Parameters.ValidateUnits | src/pharmakin/parameters.py:48-52 | raises RuntimeError exactly for a quantity whose unit is incompatible; bare numbers always pass |
| Parameters.EnsureUnits | src/pharmakin/parameters.py:54-68 | behaves exactly as the base implementation's `ensure_units` |
| Parameters.ValidateAsWritten | src/pharmakin/parameters.py:81-86 | as written: raises the dimensionality error exactly for an incompatible unit; on a bare number it passes exactly inside the inclusive range and otherwise raises ValueError |
| Parameters.ValidateAsWrittenRefusesQuantities | src/pharmakin/parameters.py:76-86 | as written, for a parameter with an infinite upper bound, every dimensional quantity the corrected check accepts raises ValueError from the comparison; the base implementation's `is_valid` accepts it too |
| Parameters.Validate | src/pharmakin/parameters.py:81-86 | corrected: passes exactly when the unit is compatible and the converted magnitude is in range; an incompatible unit raises the dimensionality error and an out-of-range value raises ValueError |
| Parameters.ValidateAgreement | src/pharmakin/parameters.py:81-86 | on bare numbers the written and the corrected check agree; on compatible values the corrected check agrees with the base implementation's `validate` |
| Formulas.FormatEquation | src/pharmakin/utils/formulas.py:21-28 | an equality is rendered as its left text, ` = `, its right text; anything else raises TypeError |
| Formulas.FormatParseRoundTrip | src/pharmakin/utils/formula.py:32-39 | a rendered equation whose left side has no `=` splits back into exactly its two sides |
| Formulas.MakeSymbolKey | src/pharmakin/utils/formulas.py:31-36 | the key is sorted by name and is a permutation of the given symbols |
| Formulas.SymbolKeyIgnoresOrder | src/pharmakin/utils/formula.py:42-47 | any two orderings of the same symbols give the same key |
| Formulas.Inputs | src/pharmakin/utils/formulas.py:53-57 | the function's argument names, in declaration order |
| Formulas.Bind | src/pharmakin/utils/formulas.py:85-92 | binding succeeds exactly when the positionals fit, every keyword names an argument not already filled, and every unfilled argument has a default; the result maps every argument name to its positional, its keyword or its default; otherwise TypeError |
| Formulas.ValidateInput | src/pharmakin/utils/formula.py:94-99 | raises RuntimeError, reporting the unit-bearing count and the total, exactly when some inputs carry units and some do not; an empty input passes |
| Formulas.Compute | src/pharmakin/utils/formulas.py:94-109 | raises on mixed inputs, then whatever the function raises, then on an output the result parameter does not accept; it succeeds exactly when none of these happens; `with_units` true gives the result units (a bare result gets the default unit; a quantity keeps its own compatible unit), false a bare magnitude in the default unit with the amount preserved, None the validated output unchanged |
| Formulas.ComputeChecksBeforeForcing | src/pharmakin/utils/formula.py:114-128 | the input and output checks come before the unit policy: whether and how `compute` raises does not depend on `with_units` |
| Formulas.Call | src/pharmakin/utils/formulas.py:111-119 | arguments that do not bind raise TypeError; otherwise the call is `compute` on the bound keywords |
| Formularies.EnsureRegistered | src/pharmakin/utils/formula.py:191-201 | passes exactly when every name is registered; otherwise raises RuntimeError listing exactly the missing names, sorted and without repeats |
| Formularies.RegisterParameters | src/pharmakin/utils/formula.py:203-213 | succeeds exactly when no name is already registered or repeated; on success every parameter is stored under its name and nothing else is added; earlier entries and everything but the parameter map stay unchanged |
| Formularies.RegisterParametersFailure | src/pharmakin/utils/formula.py:205-208 | a failing registration raises RuntimeError at the first clashing parameter, having registered exactly the parameters before it |
| Formularies.AddFormulaResultIndex | src/pharmakin/utils/formula.py:226-227 | registering a formula appends it once to the list for its result, and to no other parameter's list |
| Formularies.AddFormulaContainingIndex | src/pharmakin/utils/formula.py:223-230 | registering a formula appends it to the containing-list of every input and of the result, once per occurrence, and to no other list |
| Formularies.AppendedOncePerName | src/pharmakin/utils/formula.py:223-230 | for a formula whose arguments are distinct and differ from its result, each mentioned name receives it exactly once |
| Formularies.AddFormulaPreservesValid | src/pharmakin/utils/formula.py:219-230 | registering a formula whose names are all registered keeps the formulary invariant |
| Formularies.RegisterFormulas | src/pharmakin/utils/formula.py:216-231 | corrected: leaves the parameters unchanged; succeeds exactly when every formula mentions only registered names; then appends all formulas in order |
| Formularies.RegisterFormulasFailure | src/pharmakin/utils/formula.py:218-224 | corrected: a failing registration raises the `ensure_registered` error of the first rejected formula, having registered exactly the formulas before it |
| Formularies.RegisterFormulasPreservesValid | src/pharmakin/utils/formula.py:216-231 | corrected: registration from a valid formulary always leaves a valid formulary, whether or not it raises |
| Formularies.RegisterFormulasAsWritten | src/pharmakin/utils/formula.py:216-231 | as written: leaves the parameters unchanged; raises RuntimeError exactly when some formula mentions an unregistered name; a run that raises nothing appends every formula in order |
| Formularies.RegisterFormulasAgreement | src/pharmakin/utils/formula.py:216-231 | the written and the corrected registration raise the same error and agree on success; on failure the written one leaves the rejected formula and its equation appended |
| Formularies.AsWrittenKeepsRejectedFormula | src/pharmakin/utils/formula.py:219-224 | as written, a formula over an unregistered name raises but stays in `formulae` and `equations`, breaking the invariant; the corrected registration leaves the formulary as it was |
| Formularies.ValidVars | src/pharmakin/utils/formula.py:254-266 | a passing symbol set contains the target and lies within the allowed names, and equals them in exact mode; no expression whose symbols pass is a solution free of the target |
| Formularies.ExactSelectionWithinSubset | src/pharmakin/utils/formula.py:252-273 | every equation the exact pass selects is selected by the subset pass, so the subset pass selects at least as many |
| Formularies.SolveEach | src/pharmakin/utils/formula.py:271-278 | the per-equation pass succeeds exactly when every selected equation solves to one expression, and returns those expressions in order; otherwise AssertionError |
| Formularies.FilterCounts | src/pharmakin/utils/formula.py:283-286 | the filtering loop keeps each passing element as often as it occurs and drops every other element |
| Formularies.FilterAppend | src/pharmakin/utils/formula.py:283-286 | the filtering loop keeps the list's order: filtering a concatenation concatenates the filtered parts |
| Formularies.FallbackAsWritten | src/pharmakin/utils/formula.py:281-287 | as written: the fallback keeps exactly the solutions passing `valid_vars`, each as often as the solver returned it, so every kept solution still mentions the target |
| Formularies.Fallback | src/pharmakin/utils/formula.py:281-287 | corrected: keeps exactly the solutions that do not mention the target and use the given names (all of them in exact mode, some of them in subset mode), each as often as the solver returned it |
| Formularies.FallbackAsWrittenDropsSolutions | src/pharmakin/utils/formula.py:254-287 | a solution expressing the target from the given names is dropped by the written fallback and kept by the corrected one |
| Formularies.ExpressParameter | src/pharmakin/utils/formula.py:234-288 | an unregistered target or given name raises KeyError; the target among the given names raises ValueError; otherwise it raises exactly when a selected equation does not solve to one expression; with a selection, the result is one solution per selected equation; with none, exactly the whole-system solutions passing `valid_vars`, each as often as the solver returned it, and each mentioning the target |
| Formularies.ExpressParameterCorrected | src/pharmakin/utils/formula.py:234-288 | corrected: raises exactly when the written one does and agrees with it whenever an equation is selected; with none, keeps exactly the whole-system solutions that are free of the target and use the given names, each as often as the solver returned it |
| Formularies.FallbackOnlyWhenNoneSelected | src/pharmakin/utils/formula.py:280-282 | when some equation is selected, the whole-system solver is never consulted |
| Formularies.Restrict | src/pharmakin/utils/formula.py:309-310 | the known values passed to the expression are exactly those it mentions, unchanged |
| Formularies.Determine | src/pharmakin/utils/formula.py:297-314 | mixed inputs raise; errors from `express_parameter` propagate; anything but exactly one expression raises RuntimeError; an expression mentioning a name without a value raises TypeError; what the evaluation raises propagates; a returned value is that expression evaluated on the values it mentions and is valid for the target, and a valid evaluation is returned |
| Formularies.DetermineParameter | src/pharmakin/utils/formula.py:290-314 | as written: the determination over `express_parameter` in subset mode on the sorted known names; when no equation is selected it always raises |
| Formularies.DetermineParameterCorrected | src/pharmakin/utils/formula.py:290-314 | corrected: the determination over the corrected `express_parameter`; it agrees with the written one whenever an equation is selected |
| Formularies.WrittenFallbackNeverDetermines | src/pharmakin/utils/formula.py:280-311 | as written, with no equation selected every expression handed over mentions the target, which has no value, so the determination raises |
| Formularies.CorrectedFallbackDetermines | src/pharmakin/utils/formula.py:280-314 | when no equation is selected and the system's only solution expresses the target through known values, the corrected determination returns its valid value or raises what its evaluation raises, while the written one raises |
| Formularies.AmbiguityIsRefused | src/pharmakin/utils/formula.py:301-303 | two registered equations that both express the target from the known names make the determination raise |
| Formularies.DetermineThroughOneEquation | src/pharmakin/utils/formula.py:290-314 | with one selected equation that solves to one expression over known names, the determination returns that expression's value when it is valid, raises when it is not, and raises what the evaluation raises |
| Formularies.NewFormulary | src/pharmakin/utils/formula.py:160-174 | construction succeeds exactly when the parameter names are distinct and every formula mentions only them; the result satisfies the invariant and holds exactly those parameters and formulas |
| Formularies.ConstructedIndicesComplete | src/pharmakin/utils/formula.py:160-230 | in a constructed formulary every formula is filed under its result and under every name it mentions |
| Scenario.DetermineClearance | src/pharmakin/utils/formula.py:290-314 | with dose 0.5 and auc 1.7, the `clearance = dose / auc` formulary determines a clearance of 0.5 / 1.7 |
| Scenario.ZeroArea | src/pharmakin/utils/formula.py:308-311 | with dose 0.5 and auc 0, the determination raises the division's ZeroDivisionError |
| Scenario.CallWithDefault | src/pharmakin/utils/formulas.py:85-92 | the clearance formula called with only a dose takes the default area 0.3; called with only an area it raises TypeError |
| Scenario.DuplicateParameter | src/pharmakin/utils/formula.py:205-208 | a parameter list naming `dose` twice raises on the second one |
| Scenario.UnregisteredInput | src/pharmakin/utils/formula.py:191-224 | a formula over an unregistered `auc` raises, listing exactly `auc` |
| Scenario.AsWrittenKeepsAreaFormula | src/pharmakin/utils/formula.py:219-224 | as written, the rejected clearance formula stays in the formulary and breaks the invariant; the corrected registration leaves it untouched |

## Left out

- Symbolic algebra: building expressions from the formula's function, `solve`, `lambdify` and `evalf` are caller-supplied `Oracle` functions or a formula's `call` argument. Which exceptions they raise is theirs to say: one is carried as `Raised` with the exception's class name. The numeric evaluation after `evalf` (`evaluate_numerically`) is not modelled.
- `solve` on the whole system is taken to return a list of expressions. The other shapes its result can take (a dictionary, or a list of tuples) are not modelled.
- The unit library: its registry, the real conversion factors and `default_preferred_units`. Units are dimension vectors with a size; only the rule for comparing a quantity with a bare number is modelled, because `validate` in parameters.py depends on it.
- A `unit` of `None`, which the base implementation's definition check accepts. It is modelled only in `ParameterBase.CheckRequiredAttributes`. The value operations need a unit.
- Python's int/float distinction and floating-point rounding: numbers are exact reals, and `+inf` is `None`.
- `has_units`: its module is not part of this model. It is given the meaning of `has_unit` in src/pharmakin/units.py.
- `Parameter.formula` (the decorator), `example_values` and the random sampling behind it, `is_symbolic`, docstring building, `__repr__`/`__str__`, `__main__` blocks, and `Parameter.__init__`, which only raises.
- The `symbols` map of the formulary: a symbol is determined by its name (`Formularies.Symbols`), so it is not stored.
- `get_formulas_containing_parameter` is only the lookup `Formularies.FormulasContaining`.
- Bulk discovery of parameters and formulas, the second, unfinished formulary, the demo script and the domain formula modules are outside this model.
- Python allows `params` and `formulas` to be any iterable. They are modelled as sequences.
- Formulas.Bind: models the binding of positional-or-keyword arguments only. It does not model `*args`, `**kwargs` or keyword-only parameters.
- Formularies.DetermineParameter: the value is validated with the base implementation's `validate`, which the formulary's parameter classes use. It is not validated with the registering class's `validate`.
- Formulas.Compute: the docstrings of `compute` (src/pharmakin/utils/formula.py:115-116 and src/pharmakin/utils/formulas.py:95-96) say that with `with_units` unset the result has units only if all inputs do. The code leaves the result as computed, and the model follows the code.

## Findings

| source | as written | input that shows it | evidently intended | confidence | as-written member | corrected member |
|---|---|---|---|---|---|---|
| src/pharmakin/parameters.py:84-85 | `validate` converts the value to `val` but range-checks the original `value`; comparing a dimensional quantity with `+inf` (or a non-zero bound) raises ValueError | `dose.validate(1 g)` | range-check the converted magnitude `val` | high, not executed | Parameters.ValidateAsWritten, Parameters.ValidateAsWrittenRefusesQuantities | Parameters.Validate |
| src/pharmakin/utils/formula.py:219-224 | `register_formulas` appends the formula and its equation before `ensure_registered`, so a rejected formula stays in `formulae` and `equations` | a formulary with `dose` and `clearance` only, given `clearance = dose / auc` | check the names before touching any list | high, not executed | Formularies.RegisterFormulasAsWritten, Formularies.RegisterFormulasAgreement, Scenario.AsWrittenKeepsAreaFormula | Formularies.RegisterFormulas, Formularies.RegisterFormulasPreservesValid |
| src/pharmakin/utils/formula.py:281-287 | the whole-system fallback filters solutions with `valid_vars`, which demands the target among the solution's symbols; a solution for the target never contains it, so every expression the fallback returns mentions the target, and `determine_parameter` raises whenever it falls back | the system solution `dose/auc` for `clearance` given `dose`, `auc` | keep solutions free of the target whose symbols are the given names | medium, not executed | Formularies.FallbackAsWritten, Formularies.FallbackAsWrittenDropsSolutions, Formularies.ExpressParameter, Formularies.DetermineParameter, Formularies.WrittenFallbackNeverDetermines | Formularies.Fallback, Formularies.ExpressParameterCorrected, Formularies.DetermineParameterCorrected, Formularies.CorrectedFallbackDetermines |
