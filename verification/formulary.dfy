/** The formulary: a registry of parameters and formulas, two indices from
    parameter names to formulas, and the solver that expresses a target
    parameter in terms of given ones and evaluates it.

    The computer-algebra system is an `Oracle`: `solveOne` solves one equation
    for a symbol, `solveSystem` solves the whole list of equations for it, and
    `evaluate` evaluates an expression on values for its free symbols, or
    reports the exception the evaluation raises. */
module Formularies {
  import opened Wrappers
  import opened Units
  import opened ParameterBase
  import opened Ordering
  import opened Formulas

  /** A formulary. The source also keeps a `symbols` dictionary, but it always
      maps each registered name to the symbol of that name, so it is derived
      here (`Symbols`) rather than stored. */
  datatype Formulary = Formulary(
    parameters: map<string, ParamClass>,
    formulae: seq<Formula>,
    equations: seq<Equation>,
    formulasFor: map<string, seq<Formula>>,
    formulasContaining: map<string, seq<Formula>>)

  const Empty: Formulary := Formulary(map[], [], [], map[], map[])

  /** `Formulary.symbols`. */
  function Symbols(fy: Formulary): map<string, Expr>
  {
    map k | k in fy.parameters :: Symbol(k)
  }

  /** Reading a `defaultdict(list)`: an absent key reads as the empty list. */
  function Lookup(m: map<string, seq<Formula>>, k: string): seq<Formula>
  {
    if k in m then m[k] else []
  }

  /** `get_formulas_containing_parameter`. */
  function FormulasContaining(fy: Formulary, p: ParamClass): seq<Formula>
  {
    Lookup(fy.formulasContaining, p.name)
  }

  /** `vars_` in `register_formulas`: the inputs, then the result. */
  function Vars(f: Formula): seq<string>
  {
    Inputs(f) + [f.result.name]
  }

  /** Every name the formula mentions is a registered parameter. */
  predicate Registered(fy: Formulary, f: Formula)
  {
    forall v :: v in Vars(f) ==> v in fy.parameters
  }

  /** Parameters are filed under their own names. */
  predicate ParametersNamed(fy: Formulary)
  {
    forall k :: k in fy.parameters ==> fy.parameters[k].name == k
  }

  /** `equations[i]` is the equation of `formulae[i]`. */
  predicate EquationsMatch(fy: Formulary)
  {
    |fy.equations| == |fy.formulae|
    && forall i :: 0 <= i < |fy.formulae| ==> fy.equations[i] == EquationOf(fy.formulae[i])
  }

  /** Every registered formula mentions only registered parameters. */
  predicate FormulasRegistered(fy: Formulary)
  {
    forall i :: 0 <= i < |fy.formulae| ==> Registered(fy, fy.formulae[i])
  }

  /** The indices hold only registered formulas that compute, respectively
      mention, the name they are filed under. */
  ghost predicate IndicesSound(fy: Formulary)
  {
    && (forall k, g :: g in Lookup(fy.formulasFor, k) ==> g.result.name == k && g in fy.formulae)
    && (forall k, g :: g in Lookup(fy.formulasContaining, k) ==> k in Vars(g) && g in fy.formulae)
  }

  /** Every registered formula is filed under its result and under every name
      it mentions. */
  predicate IndicesComplete(fy: Formulary)
  {
    && (forall i :: 0 <= i < |fy.formulae| ==> fy.formulae[i] in Lookup(fy.formulasFor, fy.formulae[i].result.name))
    && (forall i, v :: 0 <= i < |fy.formulae| && v in Vars(fy.formulae[i]) ==> fy.formulae[i] in Lookup(fy.formulasContaining, v))
  }

  /** The formulary invariant. */
  ghost predicate Valid(fy: Formulary)
  {
    ParametersNamed(fy) && EquationsMatch(fy) && FormulasRegistered(fy) && IndicesSound(fy) && IndicesComplete(fy)
  }

  lemma EmptyIsValid()
    ensures Valid(Empty)
  {
  }

  /** `ensure_registered`: raises iff some given name is not registered, with
      a message listing exactly the missing names, sorted, each once. */
  function EnsureRegistered(fy: Formulary, names: seq<string>): (r: Outcome)
    ensures r.Pass? <==> forall i :: 0 <= i < |names| ==> names[i] in fy.parameters
    ensures r.Fail? ==> r.error.NotRegistered? && ExceptionClass(r.error) == "RuntimeError"
    ensures r.Fail? ==> StrictlySorted(r.error.missing)
    ensures r.Fail? ==> forall k :: k in r.error.missing <==> k in names && k !in fy.parameters
  {
    var failed := set k | k in names && k !in fy.parameters;
    assert failed == {} ==> forall i :: 0 <= i < |names| ==> names[i] in fy.parameters by {
      if failed == {} {
        forall i | 0 <= i < |names| ensures names[i] in fy.parameters {
          assert names[i] !in failed;
        }
      }
    }
    if failed == {} then Pass else Fail(NotRegistered(SortSet(failed)))
  }

  /** The names of a list of parameters. */
  function NamesOf(params: seq<ParamClass>): set<string>
  {
    set i | 0 <= i < |params| :: params[i].name
  }

  lemma NamesOfSnoc(params: seq<ParamClass>, n: nat)
    requires n < |params|
    ensures NamesOf(params[..n + 1]) == NamesOf(params[..n]) + {params[n].name}
  {
    var a, b := params[..n + 1], params[..n];
    forall x | x in NamesOf(a) ensures x in NamesOf(b) + {params[n].name} {
      var i :| 0 <= i < |a| && a[i].name == x;
      if i < n { assert b[i].name == x; }
    }
    forall x | x in NamesOf(b) ensures x in NamesOf(a) {
      var i :| 0 <= i < |b| && b[i].name == x;
      assert a[i].name == x;
    }
    assert a[n] == params[n];
  }

  /** The name of `params[i]` is taken: registered already, or used by an
      earlier parameter of the list. */
  predicate Clash(fy: Formulary, params: seq<ParamClass>, i: nat)
    requires i < |params|
  {
    params[i].name in fy.parameters || params[i].name in NamesOf(params[..i])
  }

  /** `params[i]` is the first parameter whose name is taken. */
  predicate FirstClash(fy: Formulary, params: seq<ParamClass>, i: nat)
  {
    i < |params| && Clash(fy, params, i) && forall j :: 0 <= j < i ==> !Clash(fy, params, j)
  }

  /** No parameter's name is registered already or repeated in the list. */
  predicate NamesFresh(fy: Formulary, params: seq<ParamClass>)
  {
    forall i :: 0 <= i < |params| ==> !Clash(fy, params, i)
  }

  /** `after` is `before` with the parameters added under their names. */
  predicate Adds(before: map<string, ParamClass>, params: seq<ParamClass>, after: map<string, ParamClass>)
  {
    && after.Keys == before.Keys + NamesOf(params)
    && forall i :: 0 <= i < |params| ==> params[i].name in after && after[params[i].name] == params[i]
  }

  /** Whether a parameter clashes depends only on the list before it. */
  lemma ClashInPrefix(fy: Formulary, params: seq<ParamClass>, n: nat)
    requires n <= |params|
    ensures forall j :: 0 <= j < n ==> (Clash(fy, params[..n], j) <==> Clash(fy, params, j))
  {
    forall j | 0 <= j < n ensures Clash(fy, params[..n], j) <==> Clash(fy, params, j) {
      assert params[..n][..j] == params[..j];
    }
  }

  /** One step of `register_parameters`: once a step has raised nothing more
      happens; otherwise `p` is registered unless its name is taken. */
  function RegisterNextParameter(s: Step<Formulary>, p: ParamClass): Step<Formulary>
  {
    if !s.Succeeded() then s
    else if p.name in s.state.parameters then Step(s.state, Some(AlreadyRegistered(p.name)))
    else Step(s.state.(parameters := s.state.parameters[p.name := p]), None)
  }

  /** `register_parameters`: registers the parameters in order; it succeeds
      exactly when no name is taken, and then adds them all. Nothing but the
      parameters changes, and earlier entries never change (see
      `RegisterParametersFailure` for a failing run). (The recursion
      registers all but the last parameter first, then the last.) */
  function RegisterParameters(fy: Formulary, params: seq<ParamClass>): (r: Step<Formulary>)
    ensures r.Succeeded() <==> NamesFresh(fy, params)
    ensures r.state == fy.(parameters := r.state.parameters)
    ensures forall k :: k in fy.parameters ==> k in r.state.parameters && r.state.parameters[k] == fy.parameters[k]
    ensures r.Succeeded() ==> Adds(fy.parameters, params, r.state.parameters)
    ensures ParametersNamed(fy) ==> ParametersNamed(r.state)
    decreases |params|
  {
    if params == [] then Step(fy, None)
    else
      var n := |params| - 1;
      var s := RegisterParameters(fy, params[..n]);
      NamesFreshSnoc(fy, params, n);
      assert s.Succeeded() ==> (params[n].name in s.state.parameters <==> Clash(fy, params, n));
      assert s.Succeeded() && !Clash(fy, params, n) ==>
               Adds(fy.parameters, params, s.state.parameters[params[n].name := params[n]]) by {
        if s.Succeeded() && !Clash(fy, params, n) {
          AddsSnoc(fy.parameters, params, n, s.state.parameters);
        }
      }
      RegisterNextParameter(s, params[n])
  }

  lemma NamesFreshSnoc(fy: Formulary, params: seq<ParamClass>, n: nat)
    requires n + 1 == |params|
    ensures NamesFresh(fy, params) <==> NamesFresh(fy, params[..n]) && !Clash(fy, params, n)
  {
    ClashInPrefix(fy, params, n);
  }

  lemma AddsSnoc(before: map<string, ParamClass>, params: seq<ParamClass>, n: nat, after: map<string, ParamClass>)
    requires n + 1 == |params|
    requires Adds(before, params[..n], after) && params[n].name !in after
    ensures Adds(before, params, after[params[n].name := params[n]])
  {
    NamesOfSnoc(params, n);
    assert params[..n + 1] == params;
    forall i | 0 <= i < n ensures params[i].name != params[n].name {
      assert params[..n][i] == params[i];
    }
  }

  /** A failing run stops at the first parameter whose name is taken, raising
      for that name, with exactly the parameters before it added. */
  lemma {:induction false} RegisterParametersFailure(fy: Formulary, params: seq<ParamClass>)
    requires !RegisterParameters(fy, params).Succeeded()
    ensures var r := RegisterParameters(fy, params);
            exists i: nat :: FirstClash(fy, params, i) && r.error == Some(AlreadyRegistered(params[i].name))
                             && Adds(fy.parameters, params[..i], r.state.parameters)
    decreases |params|
  {
    var n := |params| - 1;
    var s := RegisterParameters(fy, params[..n]);
    ClashInPrefix(fy, params, n);
    if !s.Succeeded() {
      RegisterParametersFailure(fy, params[..n]);
      var i: nat :| FirstClash(fy, params[..n], i) && s.error == Some(AlreadyRegistered(params[..n][i].name))
                    && Adds(fy.parameters, params[..n][..i], s.state.parameters);
      assert params[..n][..i] == params[..i];
      assert FirstClash(fy, params, i);
    } else {
      NamesFreshSnoc(fy, params, n);
      assert FirstClash(fy, params, n);
    }
  }

  /** Registering more parameters keeps the formulary invariant. */
  lemma MoreParametersKeepValid(fy: Formulary, fy2: Formulary)
    requires Valid(fy) && ParametersNamed(fy2)
    requires fy2 == fy.(parameters := fy2.parameters) && fy.parameters.Keys <= fy2.parameters.Keys
    ensures Valid(fy2)
  {
    forall i | 0 <= i < |fy2.formulae| ensures Registered(fy2, fy2.formulae[i]) {
      assert Registered(fy, fy.formulae[i]);
    }
  }

  /** `n` copies of a formula. */
  function Repeat(f: Formula, n: nat): (r: seq<Formula>)
    ensures |r| == n
    ensures forall g :: g in r ==> g == f
  {
    if n == 0 then [] else [f] + Repeat(f, n - 1)
  }

  /** How often `k` occurs in `names`. */
  function Count(names: seq<string>, k: string): (n: nat)
    ensures n > 0 <==> k in names
  {
    if names == [] then 0 else (if names[0] == k then 1 else 0) + Count(names[1..], k)
  }

  lemma RepeatAdd(f: Formula, a: nat, b: nat)
    ensures Repeat(f, a + b) == Repeat(f, a) + Repeat(f, b)
  {
    if a > 0 {
      RepeatAdd(f, a - 1, b);
    }
  }

  /** The loop at the end of `register_formulas`: the formula is appended to
      the list of every name in `names`, once per occurrence (see
      `AppendEachLookup`). */
  function AppendEach(m: map<string, seq<Formula>>, names: seq<string>, f: Formula): (r: map<string, seq<Formula>>)
    decreases |names|
  {
    if names == [] then m
    else AppendEach(m[names[0] := Lookup(m, names[0]) + [f]], names[1..], f)
  }

  lemma {:induction false} AppendEachLookup(m: map<string, seq<Formula>>, names: seq<string>, f: Formula, k: string)
    ensures Lookup(AppendEach(m, names, f), k) == Lookup(m, k) + Repeat(f, Count(names, k))
    decreases |names|
  {
    if names != [] {
      var next := m[names[0] := Lookup(m, names[0]) + [f]];
      AppendEachLookup(next, names[1..], f, k);
      if k == names[0] {
        RepeatAdd(f, 1, Count(names[1..], k));
      }
    }
  }

  /** A formula whose inputs are distinct and do not include its result is
      appended exactly once under each name it mentions. */
  lemma AppendedOncePerName(f: Formula)
    requires DistinctNames(f.signature) && f.result.name !in Inputs(f)
    ensures forall k :: Count(Vars(f), k) == if k in Vars(f) then 1 else 0
  {
    var vars := Vars(f);
    forall i, j | 0 <= i < j < |vars| ensures vars[i] != vars[j] {
      if j < |vars| - 1 {
        assert vars[i] == Inputs(f)[i] && vars[j] == Inputs(f)[j];
      } else {
        assert vars[i] in Inputs(f);
      }
    }
    forall k ensures Count(vars, k) == if k in vars then 1 else 0 {
      CountDistinct(vars, k);
    }
  }

  lemma {:induction false} CountDistinct(names: seq<string>, k: string)
    requires forall i, j :: 0 <= i < j < |names| ==> names[i] != names[j]
    ensures Count(names, k) == if k in names then 1 else 0
    decreases |names|
  {
    if names != [] {
      CountDistinct(names[1..], k);
      if names[0] == k {
        assert k !in names[1..] by {
          forall i | 0 <= i < |names[1..]| ensures names[1..][i] != k {
            assert names[1..][i] == names[i + 1];
          }
        }
      }
    }
  }

  /** The formula and its equation appended to `formulae` and `equations`, as
      `register_formulas` does first. */
  function AppendFormula(fy: Formulary, f: Formula): Formulary
  {
    fy.(formulae := fy.formulae + [f], equations := fy.equations + [EquationOf(f)])
  }

  /** The formula filed under its result and every name it mentions, as
      `register_formulas` does once the names are registered. */
  function IndexFormula(fy: Formulary, f: Formula): Formulary
  {
    var k := f.result.name;
    fy.(formulasFor := fy.formulasFor[k := Lookup(fy.formulasFor, k) + [f]],
        formulasContaining := AppendEach(fy.formulasContaining, Vars(f), f))
  }

  /** A checked formula appended: one more formula and equation, the
      parameters untouched (see `AddFormulaResultIndex` and `AddFormulaContainingIndex` for the indices). */
  function AddFormula(fy: Formulary, f: Formula): (r: Formulary)
    ensures r.parameters == fy.parameters
    ensures r.formulae == fy.formulae + [f] && r.equations == fy.equations + [EquationOf(f)]
  {
    IndexFormula(AppendFormula(fy, f), f)
  }

  /** Registering a formula files it once more under its result; no other
      result list changes. */
  lemma AddFormulaResultIndex(fy: Formulary, f: Formula, k: string)
    ensures Lookup(AddFormula(fy, f).formulasFor, k) == Lookup(fy.formulasFor, k) + (if k == f.result.name then [f] else [])
  {
  }

  /** Registering a formula files it once per occurrence under each name it
      mentions; no other list changes. */
  lemma AddFormulaContainingIndex(fy: Formulary, f: Formula, k: string)
    ensures Lookup(AddFormula(fy, f).formulasContaining, k) == Lookup(fy.formulasContaining, k) + Repeat(f, Count(Vars(f), k))
  {
    AppendEachLookup(fy.formulasContaining, Vars(f), f, k);
  }

  lemma AddFormulaKeepsSound(fy: Formulary, f: Formula)
    requires IndicesSound(fy)
    ensures IndicesSound(AddFormula(fy, f))
  {
    ResultIndexSound(fy, f);
    ContainingIndexSound(fy, f);
  }

  lemma ResultIndexSound(fy: Formulary, f: Formula)
    requires forall k, g :: g in Lookup(fy.formulasFor, k) ==> g.result.name == k && g in fy.formulae
    ensures var r := AddFormula(fy, f);
            forall k, g :: g in Lookup(r.formulasFor, k) ==> g.result.name == k && g in r.formulae
  {
    var r := AddFormula(fy, f);
    forall k, g | g in Lookup(r.formulasFor, k) ensures g.result.name == k && g in r.formulae {
      var before := Lookup(fy.formulasFor, k);
      AddFormulaResultIndex(fy, f, k);
      if g !in before {
        assert g == f;
      }
    }
  }

  lemma ContainingIndexSound(fy: Formulary, f: Formula)
    requires forall k, g :: g in Lookup(fy.formulasContaining, k) ==> k in Vars(g) && g in fy.formulae
    ensures var r := AddFormula(fy, f);
            forall k, g :: g in Lookup(r.formulasContaining, k) ==> k in Vars(g) && g in r.formulae
  {
    var r := AddFormula(fy, f);
    forall k, g | g in Lookup(r.formulasContaining, k) ensures k in Vars(g) && g in r.formulae {
      var before := Lookup(fy.formulasContaining, k);
      var c := Count(Vars(f), k);
      AddFormulaContainingIndex(fy, f, k);
      if g !in before {
        assert g in Repeat(f, c);
        assert g == f && c > 0;
      }
    }
  }

  lemma AddFormulaKeepsComplete(fy: Formulary, f: Formula)
    requires IndicesComplete(fy)
    ensures IndicesComplete(AddFormula(fy, f))
  {
    var r := AddFormula(fy, f);
    var n := |fy.formulae|;
    forall i | 0 <= i < |r.formulae| ensures r.formulae[i] in Lookup(r.formulasFor, r.formulae[i].result.name) {
      AddFormulaResultIndex(fy, f, r.formulae[i].result.name);
      if i < n {
        assert r.formulae[i] == fy.formulae[i];
      }
    }
    forall i, v | 0 <= i < |r.formulae| && v in Vars(r.formulae[i]) ensures r.formulae[i] in Lookup(r.formulasContaining, v) {
      AddFormulaContainingIndex(fy, f, v);
      if i < n {
        assert r.formulae[i] == fy.formulae[i];
      } else {
        assert Repeat(f, Count(Vars(f), v))[0] == f;
      }
    }
  }

  lemma AddFormulaPreservesValid(fy: Formulary, f: Formula)
    requires Valid(fy) && Registered(fy, f)
    ensures Valid(AddFormula(fy, f))
  {
    var r := AddFormula(fy, f);
    AddFormulaKeepsSound(fy, f);
    AddFormulaKeepsComplete(fy, f);
    assert EquationsMatch(r) by {
      forall i | 0 <= i < |r.formulae| ensures r.equations[i] == EquationOf(r.formulae[i]) {
        if i < |fy.formulae| {
          assert r.formulae[i] == fy.formulae[i] && r.equations[i] == fy.equations[i];
        }
      }
    }
    assert FormulasRegistered(r) by {
      forall i | 0 <= i < |r.formulae| ensures Registered(r, r.formulae[i]) {
        if i < |fy.formulae| {
          assert r.formulae[i] == fy.formulae[i];
          assert Registered(fy, fy.formulae[i]);
        }
      }
    }
  }

  /** `fs[i]` is the first formula that mentions an unregistered name. */
  predicate FirstRejected(fy: Formulary, fs: seq<Formula>, i: nat)
  {
    i < |fs| && !Registered(fy, fs[i]) && forall j :: 0 <= j < i ==> Registered(fy, fs[j])
  }

  lemma RegisteredIff(fy: Formulary, f: Formula)
    ensures Registered(fy, f) <==> EnsureRegistered(fy, Vars(f)).Pass?
  {
  }

  /** One step of `register_formulas`, checking the formula before touching
      anything: once a step has raised nothing more happens. */
  function RegisterNextFormula(s: Step<Formulary>, f: Formula): Step<Formulary>
  {
    if !s.Succeeded() then s
    else
      match EnsureRegistered(s.state, Vars(f))
      case Fail(e) => Step(s.state, Some(e))
      case Pass => Step(AddFormula(s.state, f), None)
  }

  /** `register_formulas`, checking each formula before touching anything:
      it succeeds exactly when every formula mentions only registered names,
      and then appends them all in order (see `RegisterFormulasFailure` for a
      failing run). (The recursion registers all but the last formula first,
      then the last.) */
  function RegisterFormulas(fy: Formulary, fs: seq<Formula>): (r: Step<Formulary>)
    ensures r.state.parameters == fy.parameters
    ensures r.Succeeded() <==> forall i :: 0 <= i < |fs| ==> Registered(fy, fs[i])
    ensures r.Succeeded() ==> r.state.formulae == fy.formulae + fs
    decreases |fs|
  {
    if fs == [] then Step(fy, None)
    else
      var n := |fs| - 1;
      var s := RegisterFormulas(fy, fs[..n]);
      assert fs[..n + 1] == fs;
      assert forall j :: 0 <= j < n ==> fs[..n][j] == fs[j];
      RegisteredIff(fy, fs[n]);
      SameParametersSameCheck(s.state, fy, Vars(fs[n]));
      RegisterNextFormula(s, fs[n])
  }

  /** A failing run stops at the first formula that mentions an unregistered
      name, raising that formula's registration error, with exactly the
      formulas before it registered. */
  lemma {:induction false} RegisterFormulasFailure(fy: Formulary, fs: seq<Formula>)
    requires !RegisterFormulas(fy, fs).Succeeded()
    ensures var r := RegisterFormulas(fy, fs);
            exists i: nat :: FirstRejected(fy, fs, i) && r.state.formulae == fy.formulae + fs[..i]
                             && r.error == Some(EnsureRegistered(fy, Vars(fs[i])).error)
    decreases |fs|
  {
    var n := |fs| - 1;
    if !RegisterFormulas(fy, fs[..n]).Succeeded() {
      RegisterFormulasFailure(fy, fs[..n]);
      FailureInPrefix(fy, fs, n);
    } else {
      FailureAtLast(fy, fs, n);
    }
  }

  lemma FailureInPrefix(fy: Formulary, fs: seq<Formula>, n: nat)
    requires n + 1 == |fs|
    requires var s := RegisterFormulas(fy, fs[..n]);
             exists i: nat :: FirstRejected(fy, fs[..n], i) && s.state.formulae == fy.formulae + fs[..n][..i]
                              && s.error == Some(EnsureRegistered(fy, Vars(fs[..n][i])).error)
    requires !RegisterFormulas(fy, fs[..n]).Succeeded()
    ensures var r := RegisterFormulas(fy, fs);
            exists i: nat :: FirstRejected(fy, fs, i) && r.state.formulae == fy.formulae + fs[..i]
                             && r.error == Some(EnsureRegistered(fy, Vars(fs[i])).error)
  {
    var s := RegisterFormulas(fy, fs[..n]);
    assert RegisterFormulas(fy, fs) == RegisterNextFormula(s, fs[n]) == s;
    var i: nat :| FirstRejected(fy, fs[..n], i) && s.state.formulae == fy.formulae + fs[..n][..i]
                  && s.error == Some(EnsureRegistered(fy, Vars(fs[..n][i])).error);
    FirstRejectedInPrefix(fy, fs, n, i);
  }

  lemma FirstRejectedInPrefix(fy: Formulary, fs: seq<Formula>, n: nat, i: nat)
    requires n <= |fs| && FirstRejected(fy, fs[..n], i)
    ensures FirstRejected(fy, fs, i) && fs[..n][..i] == fs[..i] && fs[..n][i] == fs[i]
  {
    assert forall j :: 0 <= j <= i ==> fs[..n][j] == fs[j];
  }

  lemma FailureAtLast(fy: Formulary, fs: seq<Formula>, n: nat)
    requires n + 1 == |fs|
    requires RegisterFormulas(fy, fs[..n]).Succeeded() && !RegisterFormulas(fy, fs).Succeeded()
    ensures var r := RegisterFormulas(fy, fs);
            exists i: nat :: FirstRejected(fy, fs, i) && r.state.formulae == fy.formulae + fs[..i]
                             && r.error == Some(EnsureRegistered(fy, Vars(fs[i])).error)
  {
    var s := RegisterFormulas(fy, fs[..n]);
    assert RegisterFormulas(fy, fs) == RegisterNextFormula(s, fs[n]);
    assert forall j :: 0 <= j < n ==> fs[..n][j] == fs[j];
    RegisteredIff(fy, fs[n]);
    SameParametersSameCheck(s.state, fy, Vars(fs[n]));
    assert FirstRejected(fy, fs, n);
  }

  /** Registering formulas keeps the formulary invariant, whether or not it
      raises. */
  lemma {:induction false} RegisterFormulasPreservesValid(fy: Formulary, fs: seq<Formula>)
    requires Valid(fy)
    ensures Valid(RegisterFormulas(fy, fs).state)
    decreases |fs|
  {
    if fs != [] {
      var n := |fs| - 1;
      RegisterFormulasPreservesValid(fy, fs[..n]);
      var s := RegisterFormulas(fy, fs[..n]);
      if s.Succeeded() && EnsureRegistered(s.state, Vars(fs[n])).Pass? {
        RegisteredIff(s.state, fs[n]);
        AddFormulaPreservesValid(s.state, fs[n]);
      }
    }
  }

  /** One step of `register_formulas` as written: the formula and its
      equation are appended BEFORE the registration check, so a formula that
      fails the check is left in `formulae` and `equations` (but in neither
      index). */
  function RegisterNextFormulaAsWritten(s: Step<Formulary>, f: Formula): Step<Formulary>
  {
    if !s.Succeeded() then s
    else
      var appended := AppendFormula(s.state, f);
      match EnsureRegistered(appended, Vars(f))
      case Fail(e) => Step(appended, Some(e))
      case Pass => Step(IndexFormula(appended, f), None)
  }

  /** `register_formulas` as written: it raises RuntimeError exactly when
      some formula mentions an unregistered name, and a run that raises
      nothing appends every formula in order (see `RegisterFormulasAgreement`
      for the state a failing run leaves behind). */
  function RegisterFormulasAsWritten(fy: Formulary, fs: seq<Formula>): (r: Step<Formulary>)
    ensures r.state.parameters == fy.parameters
    ensures r.Succeeded() <==> forall i :: 0 <= i < |fs| ==> Registered(fy, fs[i])
    ensures r.Succeeded() ==> r.state.formulae == fy.formulae + fs
    ensures !r.Succeeded() ==> r.error.value.NotRegistered? && ExceptionClass(r.error.value) == "RuntimeError"
    decreases |fs|
  {
    if fs == [] then Step(fy, None)
    else
      var n := |fs| - 1;
      var s := RegisterFormulasAsWritten(fy, fs[..n]);
      assert fs[..n + 1] == fs;
      assert forall j :: 0 <= j < n ==> fs[..n][j] == fs[j];
      RegisteredIff(fy, fs[n]);
      SameParametersSameCheck(AppendFormula(s.state, fs[n]), fy, Vars(fs[n]));
      RegisterNextFormulaAsWritten(s, fs[n])
  }

  /** The written and the corrected registration raise the same errors and
      agree on every successful run; they differ only in the state a failing
      run leaves behind, which as written still holds the rejected formula
      and its equation. */
  lemma {:induction false} RegisterFormulasAgreement(fy: Formulary, fs: seq<Formula>)
    ensures RegisterFormulasAsWritten(fy, fs).error == RegisterFormulas(fy, fs).error
    ensures RegisterFormulas(fy, fs).Succeeded() ==> RegisterFormulasAsWritten(fy, fs).state == RegisterFormulas(fy, fs).state
    ensures !RegisterFormulas(fy, fs).Succeeded() ==>
              exists i: nat :: FirstRejected(fy, fs, i)
                               && RegisterFormulasAsWritten(fy, fs).state == AppendFormula(RegisterFormulas(fy, fs).state, fs[i])
    decreases |fs|
  {
    if fs != [] {
      var n := |fs| - 1;
      var f := fs[n];
      RegisterFormulasAgreement(fy, fs[..n]);
      var s := RegisterFormulas(fy, fs[..n]);
      var w := RegisterFormulasAsWritten(fy, fs[..n]);
      assert forall j :: 0 <= j < n ==> fs[..n][j] == fs[j];
      if !s.Succeeded() {
        var i: nat :| FirstRejected(fy, fs[..n], i) && w.state == AppendFormula(s.state, fs[..n][i]);
        assert FirstRejected(fy, fs, i);
      } else {
        SameParametersSameCheck(AppendFormula(s.state, f), fy, Vars(f));
        SameParametersSameCheck(s.state, fy, Vars(f));
        RegisteredIff(fy, f);
        if !Registered(fy, f) {
          assert FirstRejected(fy, fs, n);
        }
      }
    }
  }

  /** The registration check reads nothing but the registered parameters. */
  lemma SameParametersSameCheck(a: Formulary, b: Formulary, names: seq<string>)
    requires a.parameters == b.parameters
    ensures EnsureRegistered(a, names) == EnsureRegistered(b, names)
  {
  }

  /** Registering `clearance = dose / auc` into a valid formulary that does not
      know `auc` raises as written, yet leaves the formula and its equation
      registered and breaks the formulary invariant; the corrected
      registration leaves the formulary unchanged. */
  lemma AsWrittenKeepsRejectedFormula(fy: Formulary, f: Formula)
    requires Valid(fy) && !Registered(fy, f)
    ensures !RegisterFormulasAsWritten(fy, [f]).Succeeded()
    ensures RegisterFormulasAsWritten(fy, [f]).state.formulae == fy.formulae + [f]
    ensures RegisterFormulasAsWritten(fy, [f]).state.equations == fy.equations + [EquationOf(f)]
    ensures !Valid(RegisterFormulasAsWritten(fy, [f]).state)
    ensures RegisterFormulas(fy, [f]).state == fy
  {
    RegisteredIff(fy, f);
    assert [f][..0] == [];
    var appended := AppendFormula(fy, f);
    SameParametersSameCheck(appended, fy, Vars(f));
    assert RegisterFormulasAsWritten(fy, [f]) == Step(appended, Some(EnsureRegistered(fy, Vars(f)).error));
    assert appended.formulae[|fy.formulae|] == f;
    assert !FormulasRegistered(appended);
  }

  /** `valid_vars`: the symbols must include the target, and equal the allowed
      set (exact mode) or lie within it (subset mode). */
  function ValidVars(syms: set<string>, target: string, allowed: set<string>, allowSubsets: bool): (b: bool)
    ensures b ==> target in syms && syms <= allowed
    ensures b && !allowSubsets ==> syms == allowed
    ensures forall e: Expr ::
              e.free == syms && b ==> !ValidSolution(e, target, allowed, allowSubsets)
  {
    target in syms && (if allowSubsets then syms <= allowed else syms == allowed)
  }

  /** An exact match is also a subset match. */
  lemma ExactIsSubsetMatch(syms: set<string>, target: string, allowed: set<string>)
    ensures ValidVars(syms, target, allowed, false) ==> ValidVars(syms, target, allowed, true)
  {
  }

  /** The evidently intended test for a solution of the whole system: it must
      not mention the target, and its symbols must be the given names (exact
      mode) or some of them (subset mode). */
  predicate ValidSolution(e: Expr, target: string, allowed: set<string>, allowSubsets: bool)
  {
    target !in e.free && (if allowSubsets then e.free <= allowed - {target} else e.free == allowed - {target})
  }

  /** The elements of `s` that pass `keep`, in order, each as often as it
      occurs in `s`. */
  function Filter<T(!new)>(s: seq<T>, keep: T -> bool): (r: seq<T>)
    ensures |r| <= |s|
    ensures forall x :: x in r <==> x in s && keep(x)
  {
    if s == [] then []
    else (if keep(s[0]) then [s[0]] else []) + Filter(s[1..], keep)
  }

  /** Each kept element occurs in the filtered list as often as in `s`; every
      other element not at all. */
  lemma {:induction false} FilterCounts<T(!new)>(s: seq<T>, keep: T -> bool)
    ensures forall x :: multiset(Filter(s, keep))[x] == if keep(x) then multiset(s)[x] else 0
    decreases |s|
  {
    if s != [] {
      FilterCounts(s[1..], keep);
      assert s == [s[0]] + s[1..];
    }
  }

  /** Filtering keeps the order of the list: filtering a concatenation
      concatenates the filtered parts. */
  lemma {:induction false} FilterAppend<T(!new)>(s: seq<T>, t: seq<T>, keep: T -> bool)
    ensures Filter(s + t, keep) == Filter(s, keep) + Filter(t, keep)
    decreases |s|
  {
    if s == [] {
      assert s + t == t;
    } else {
      var head := if keep(s[0]) then [s[0]] else [];
      assert (s + t)[0] == s[0] && (s + t)[1..] == s[1..] + t;
      assert Filter(s + t, keep) == head + Filter(s[1..] + t, keep);
      FilterAppend(s[1..], t, keep);
      assert Filter(s, keep) == head + Filter(s[1..], keep);
      assert head + (Filter(s[1..], keep) + Filter(t, keep)) == (head + Filter(s[1..], keep)) + Filter(t, keep);
    }
  }

  /** Two kept elements at different positions make a filtered list of at
      least two. */
  lemma {:induction false} FilterKeepsBoth<T(!new)>(s: seq<T>, keep: T -> bool, i: nat, j: nat)
    requires i < j < |s| && keep(s[i]) && keep(s[j])
    ensures |Filter(s, keep)| >= 2
    decreases |s|
  {
    if i == 0 {
      assert s[j] in s[1..];
      assert |Filter(s[1..], keep)| >= 1;
    } else {
      FilterKeepsBoth(s[1..], keep, i - 1, j - 1);
    }
  }

  /** `{target} ∪ given`. */
  function Allowed(target: string, given: seq<string>): set<string>
  {
    {target} + set k | k in given
  }

  /** The equations the per-equation pass solves. */
  function Select(eqs: seq<Equation>, target: string, allowed: set<string>, allowSubsets: bool): seq<Equation>
  {
    Filter(eqs, (eq: Equation) => ValidVars(FreeSymbols(eq), target, allowed, allowSubsets))
  }

  /** Every equation the exact pass selects, the subset pass selects too. */
  lemma ExactSelectionWithinSubset(eqs: seq<Equation>, target: string, allowed: set<string>)
    ensures forall eq :: eq in Select(eqs, target, allowed, false) ==> eq in Select(eqs, target, allowed, true)
    ensures |Select(eqs, target, allowed, false)| <= |Select(eqs, target, allowed, true)|
  {
    SelectMonotone(eqs, target, allowed);
  }

  lemma {:induction false} SelectMonotone(eqs: seq<Equation>, target: string, allowed: set<string>)
    ensures |Select(eqs, target, allowed, false)| <= |Select(eqs, target, allowed, true)|
    decreases |eqs|
  {
    if eqs != [] {
      SelectMonotone(eqs[1..], target, allowed);
    }
  }

  /** The solver. */
  datatype Oracle = Oracle(
    solveOne: (Equation, string) -> seq<Expr>,
    solveSystem: (seq<Equation>, string) -> seq<Expr>,
    evaluate: (Expr, map<string, Value>) -> Result<Value>)

  /** The per-equation pass: each selected equation must solve to exactly one
      expression (the length `assert` in `express_parameter`). */
  function SolveEach(eqs: seq<Equation>, target: string, solveOne: (Equation, string) -> seq<Expr>): (r: Result<seq<Expr>>)
    ensures r.Ok? <==> forall i :: 0 <= i < |eqs| ==> |solveOne(eqs[i], target)| == 1
    ensures r.Ok? ==> |r.value| == |eqs| && forall i :: 0 <= i < |eqs| ==> solveOne(eqs[i], target) == [r.value[i]]
    ensures r.Err? ==> r.error.SolutionNotSingle? && ExceptionClass(r.error) == "AssertionError"
    decreases |eqs|
  {
    if eqs == [] then Ok([])
    else
      var sols := solveOne(eqs[0], target);
      if |sols| != 1 then Err(SolutionNotSingle(|sols|))
      else
        var rest :- SolveEach(eqs[1..], target, solveOne);
        assert forall i :: 1 <= i < |eqs| ==> eqs[i] == eqs[1..][i - 1];
        Ok([sols[0]] + rest)
  }

  /** The whole-system fallback as written: solutions are kept by `valid_vars`,
      which demands the target among their symbols. */
  function FallbackAsWritten(solutions: seq<Expr>, target: string, allowed: set<string>, allowSubsets: bool): (r: seq<Expr>)
    ensures forall e :: e in r <==> e in solutions && ValidVars(e.free, target, allowed, allowSubsets)
    ensures forall e :: multiset(r)[e] == if ValidVars(e.free, target, allowed, allowSubsets) then multiset(solutions)[e] else 0
    ensures forall e :: e in r ==> target in e.free
  {
    FilterCounts(solutions, (e: Expr) => ValidVars(e.free, target, allowed, allowSubsets));
    Filter(solutions, (e: Expr) => ValidVars(e.free, target, allowed, allowSubsets))
  }

  /** The whole-system fallback with the intended test. */
  function Fallback(solutions: seq<Expr>, target: string, allowed: set<string>, allowSubsets: bool): (r: seq<Expr>)
    ensures forall e :: e in r <==> e in solutions && ValidSolution(e, target, allowed, allowSubsets)
    ensures forall e :: multiset(r)[e] == if ValidSolution(e, target, allowed, allowSubsets) then multiset(solutions)[e] else 0
    ensures forall e :: e in r ==> target !in e.free && e.free <= allowed
  {
    FilterCounts(solutions, (e: Expr) => ValidSolution(e, target, allowed, allowSubsets));
    Filter(solutions, (e: Expr) => ValidSolution(e, target, allowed, allowSubsets))
  }

  /** A solution expressing the target from the given names is thrown away by
      the written fallback and kept by the intended one: solving for
      `clearance` given `dose` and `auc` and getting `dose/auc`. */
  lemma FallbackAsWrittenDropsSolutions(e: Expr, target: string, given: seq<string>, allowSubsets: bool)
    requires target !in e.free && target !in given
    requires if allowSubsets then e.free <= set k | k in given else e.free == set k | k in given
    ensures FallbackAsWritten([e], target, Allowed(target, given), allowSubsets) == []
    ensures Fallback([e], target, Allowed(target, given), allowSubsets) == [e]
  {
    var allowed := Allowed(target, given);
    assert ValidSolution(e, target, allowed, allowSubsets) by {
      if !allowSubsets {
        assert allowed - {target} == set k | k in given;
      }
    }
    var kept := Fallback([e], target, allowed, allowSubsets);
    assert e in kept;
    assert |kept| <= 1;
  }

  /** The first name in `names` that is not registered. */
  function FirstUnregistered(fy: Formulary, names: seq<string>): (r: Option<string>)
    ensures r.None? <==> forall i :: 0 <= i < |names| ==> names[i] in fy.parameters
    ensures r.Some? ==> r.value in names && r.value !in fy.parameters
  {
    if names == [] then None
    else if names[0] !in fy.parameters then Some(names[0])
    else FirstUnregistered(fy, names[1..])
  }

  /** The target and every given name are registered. */
  predicate AllKnown(fy: Formulary, target: ParamClass, given: seq<string>)
  {
    target.name in fy.parameters && forall i :: 0 <= i < |given| ==> given[i] in fy.parameters
  }

  /** `express_parameter`: the expressions for the target in terms of the given
      names. Looking up an unregistered name raises KeyError; a target among
      the given names raises ValueError. Each equation whose symbols pass
      `valid_vars` is solved for the target; only when that yields nothing is
      the whole system solved, keeping the solutions that pass `valid_vars`
      too, so every one of them mentions the target. */
  function ExpressParameter(fy: Formulary, target: ParamClass, given: seq<string>, allowSubsets: bool, o: Oracle): (r: Result<seq<Expr>>)
    ensures target.name !in fy.parameters ==> r == Err(MissingKey(target.name))
    ensures target.name in fy.parameters && !AllKnown(fy, target, given) ==>
              r.Err? && r.error.MissingKey? && r.error.key in given && r.error.key !in fy.parameters
    ensures AllKnown(fy, target, given) ==> (r == Err(SelfReference) <==> target.name in given)
    ensures r.Ok? ==> AllKnown(fy, target, given) && target.name !in given
    ensures var sel := Select(fy.equations, target.name, Allowed(target.name, given), allowSubsets);
            AllKnown(fy, target, given) && target.name !in given ==>
              (r.Err? <==> exists i :: 0 <= i < |sel| && |o.solveOne(sel[i], target.name)| != 1)
    ensures var sel := Select(fy.equations, target.name, Allowed(target.name, given), allowSubsets);
            r.Ok? && |sel| > 0 ==>
              |r.value| == |sel| && forall i :: 0 <= i < |sel| ==> o.solveOne(sel[i], target.name) == [r.value[i]]
    ensures var sel := Select(fy.equations, target.name, Allowed(target.name, given), allowSubsets);
            r.Ok? && |sel| == 0 ==>
              forall e :: e in r.value <==>
                e in o.solveSystem(fy.equations, target.name) && ValidVars(e.free, target.name, Allowed(target.name, given), allowSubsets)
    ensures var sel := Select(fy.equations, target.name, Allowed(target.name, given), allowSubsets);
            r.Ok? && |sel| == 0 ==>
              forall e :: multiset(r.value)[e] ==
                if ValidVars(e.free, target.name, Allowed(target.name, given), allowSubsets)
                then multiset(o.solveSystem(fy.equations, target.name))[e] else 0
    ensures var sel := Select(fy.equations, target.name, Allowed(target.name, given), allowSubsets);
            r.Ok? && |sel| == 0 ==> forall e :: e in r.value ==> target.name in e.free
  {
    if target.name !in fy.parameters then Err(MissingKey(target.name))
    else
      match FirstUnregistered(fy, given)
      case Some(k) => Err(MissingKey(k))
      case None =>
        if target.name in given then Err(SelfReference)
        else
          var allowed := Allowed(target.name, given);
          var selected := Select(fy.equations, target.name, allowed, allowSubsets);
          var solved :- SolveEach(selected, target.name, o.solveOne);
          if solved != [] then Ok(solved)
          else Ok(FallbackAsWritten(o.solveSystem(fy.equations, target.name), target.name, allowed, allowSubsets))
  }

  /** `express_parameter` with the intended whole-system test: it raises
      exactly when the written one does, agrees with it whenever some equation
      is selected, and otherwise keeps the solutions of the system that
      express the target through the given names. */
  function ExpressParameterCorrected(fy: Formulary, target: ParamClass, given: seq<string>, allowSubsets: bool, o: Oracle): (r: Result<seq<Expr>>)
    ensures r.Err? <==> ExpressParameter(fy, target, given, allowSubsets, o).Err?
    ensures r.Err? ==> r == ExpressParameter(fy, target, given, allowSubsets, o)
    ensures |Select(fy.equations, target.name, Allowed(target.name, given), allowSubsets)| > 0 ==>
              r == ExpressParameter(fy, target, given, allowSubsets, o)
    ensures var sel := Select(fy.equations, target.name, Allowed(target.name, given), allowSubsets);
            r.Ok? && |sel| == 0 ==>
              forall e :: e in r.value <==>
                e in o.solveSystem(fy.equations, target.name) && ValidSolution(e, target.name, Allowed(target.name, given), allowSubsets)
    ensures var sel := Select(fy.equations, target.name, Allowed(target.name, given), allowSubsets);
            r.Ok? && |sel| == 0 ==>
              forall e :: multiset(r.value)[e] ==
                if ValidSolution(e, target.name, Allowed(target.name, given), allowSubsets)
                then multiset(o.solveSystem(fy.equations, target.name))[e] else 0
  {
    var written :- ExpressParameter(fy, target, given, allowSubsets, o);
    var allowed := Allowed(target.name, given);
    if |Select(fy.equations, target.name, allowed, allowSubsets)| > 0 then Ok(written)
    else Ok(Fallback(o.solveSystem(fy.equations, target.name), target.name, allowed, allowSubsets))
  }

  /** The whole system is consulted only when no single equation was
      selected: otherwise changing the system solver changes nothing. */
  lemma FallbackOnlyWhenNoneSelected(fy: Formulary, target: ParamClass, given: seq<string>, allowSubsets: bool,
                                     o: Oracle, system: (seq<Equation>, string) -> seq<Expr>)
    requires |Select(fy.equations, target.name, Allowed(target.name, given), allowSubsets)| > 0
    ensures ExpressParameter(fy, target, given, allowSubsets, o) == ExpressParameter(fy, target, given, allowSubsets, o.(solveSystem := system))
  {
  }

  /** The known values an expression is evaluated on: those it mentions. */
  function Restrict(kwargs: map<string, Value>, names: set<string>): (r: map<string, Value>)
    ensures r.Keys == kwargs.Keys * names
    ensures forall k :: k in r ==> r[k] == kwargs[k]
  {
    map k | k in kwargs && k in names :: kwargs[k]
  }

  /** The body of `determine_parameter` around the expressions `ex` it
      obtains: check the known values for unit consistency, insist on exactly
      one expression, call it with the known values it mentions (a symbol of
      the expression without a value is a missing argument, TypeError), let
      whatever the evaluation raises propagate, and validate the result
      against the target parameter. */
  function Determine(target: ParamClass, kwargs: map<string, Value>, o: Oracle, ex: Result<seq<Expr>>): (r: Result<Value>)
    ensures ValidateInput(kwargs).Fail? ==> r == Err(ValidateInput(kwargs).error)
    ensures ValidateInput(kwargs).Pass? && ex.Err? ==> r == Err(ex.error)
    ensures ValidateInput(kwargs).Pass? && ex.Ok? && |ex.value| != 1 ==> r == Err(NotUnique(|ex.value|))
    ensures ValidateInput(kwargs).Pass? && ex.Ok? && |ex.value| == 1 && !(ex.value[0].free <= kwargs.Keys) ==>
              r == Err(BadArguments)
    ensures r.Ok? ==> ValidateInput(kwargs).Pass? && IsValid(target, r.value)
    ensures r.Ok? ==> ex.Ok? && |ex.value| == 1 && ex.value[0].free <= kwargs.Keys
                      && o.evaluate(ex.value[0], Restrict(kwargs, ex.value[0].free)) == Ok(r.value)
    ensures ValidateInput(kwargs).Pass? && ex.Ok? && |ex.value| == 1 && ex.value[0].free <= kwargs.Keys ==>
              var v := o.evaluate(ex.value[0], Restrict(kwargs, ex.value[0].free));
              (v.Err? ==> r == v) && (v.Ok? ==> (r.Ok? <==> IsValid(target, v.value)))
  {
    match ValidateInput(kwargs)
    case Fail(e) => Err(e)
    case Pass =>
      var exprs :- ex;
      if |exprs| != 1 then Err(NotUnique(|exprs|))
      else
        var e := exprs[0];
        if !(e.free <= kwargs.Keys) then Err(BadArguments)
        else
          var res :- o.evaluate(e, Restrict(kwargs, e.free));
          match Validate(target, res)
          case Fail(err) => Err(err)
          case Pass => Ok(res)
  }

  /** `determine_parameter` as written: the expressions come from
      `express_parameter` in subset mode over the sorted known names. When no
      single equation is selected it never determines anything, because every
      solution the written fallback keeps mentions the target, which has no
      value. */
  function DetermineParameter(fy: Formulary, target: ParamClass, kwargs: map<string, Value>, o: Oracle): (r: Result<Value>)
    ensures r == Determine(target, kwargs, o, ExpressParameter(fy, target, SortSet(kwargs.Keys), true, o))
    ensures |Select(fy.equations, target.name, {target.name} + kwargs.Keys, true)| == 0 ==> r.Err?
  {
    var ex := ExpressParameter(fy, target, SortSet(kwargs.Keys), true, o);
    if |Select(fy.equations, target.name, {target.name} + kwargs.Keys, true)| == 0 then
      WrittenFallbackNeverDetermines(fy, target, kwargs, o);
      Determine(target, kwargs, o, ex)
    else
      Determine(target, kwargs, o, ex)
  }

  /** `determine_parameter` over the corrected `express_parameter`: it agrees
      with the written one whenever some equation is selected. */
  function DetermineParameterCorrected(fy: Formulary, target: ParamClass, kwargs: map<string, Value>, o: Oracle): (r: Result<Value>)
    ensures r == Determine(target, kwargs, o, ExpressParameterCorrected(fy, target, SortSet(kwargs.Keys), true, o))
    ensures |Select(fy.equations, target.name, {target.name} + kwargs.Keys, true)| > 0 ==>
              r == DetermineParameter(fy, target, kwargs, o)
  {
    GivenNames(kwargs, target.name);
    Determine(target, kwargs, o, ExpressParameterCorrected(fy, target, SortSet(kwargs.Keys), true, o))
  }

  /** The names `determine_parameter` passes on are exactly the known names. */
  lemma GivenNames(kwargs: map<string, Value>, target: string)
    ensures Allowed(target, SortSet(kwargs.Keys)) == {target} + kwargs.Keys
    ensures target in kwargs <==> target in SortSet(kwargs.Keys)
  {
  }

  /** With no equation selected, the written fallback only hands over
      expressions that mention the target; the target has no value, so the
      determination raises. */
  lemma WrittenFallbackNeverDetermines(fy: Formulary, target: ParamClass, kwargs: map<string, Value>, o: Oracle)
    requires |Select(fy.equations, target.name, {target.name} + kwargs.Keys, true)| == 0
    ensures Determine(target, kwargs, o, ExpressParameter(fy, target, SortSet(kwargs.Keys), true, o)).Err?
  {
    var given := SortSet(kwargs.Keys);
    GivenNames(kwargs, target.name);
    var ex := ExpressParameter(fy, target, given, true, o);
    if ValidateInput(kwargs).Pass? && ex.Ok? && |ex.value| == 1 {
      assert ex.value[0] in ex.value;
      assert target.name in ex.value[0].free && target.name !in kwargs.Keys;
    }
  }

  /** With the corrected fallback, a system whose only solution expresses the
      target through known values determines the target from it. */
  lemma CorrectedFallbackDetermines(fy: Formulary, target: ParamClass, kwargs: map<string, Value>, o: Oracle, e: Expr)
    requires ValidateInput(kwargs).Pass?
    requires target.name in fy.parameters && kwargs.Keys <= fy.parameters.Keys && target.name !in kwargs
    requires |Select(fy.equations, target.name, {target.name} + kwargs.Keys, true)| == 0
    requires o.solveSystem(fy.equations, target.name) == [e]
    requires target.name !in e.free && e.free <= kwargs.Keys
    ensures var v := o.evaluate(e, Restrict(kwargs, e.free));
            (v.Err? || IsValid(target, v.value)) ==> DetermineParameterCorrected(fy, target, kwargs, o) == v
    ensures DetermineParameter(fy, target, kwargs, o).Err?
  {
    var given := SortSet(kwargs.Keys);
    GivenNames(kwargs, target.name);
    ExpressThroughSystem(fy, target, given, o, e);
    var v := o.evaluate(e, Restrict(kwargs, e.free));
    if v.Ok? && IsValid(target, v.value) {
      assert Validate(target, v.value) == Pass;
    }
  }

  lemma ExpressThroughSystem(fy: Formulary, target: ParamClass, given: seq<string>, o: Oracle, e: Expr)
    requires AllKnown(fy, target, given) && target.name !in given
    requires |Select(fy.equations, target.name, Allowed(target.name, given), true)| == 0
    requires o.solveSystem(fy.equations, target.name) == [e]
    requires target.name !in e.free && e.free <= Allowed(target.name, given)
    ensures ExpressParameterCorrected(fy, target, given, true, o) == Ok([e])
  {
    assert FirstUnregistered(fy, given).None?;
    assert ValidSolution(e, target.name, Allowed(target.name, given), true);
    var kept := Fallback([e], target.name, Allowed(target.name, given), true);
    assert e in kept && |kept| <= 1;
    assert kept == [e];
  }

  /** Two registered equations that both express the target from the known
      names make `determine_parameter` raise: it never picks one of them. */
  lemma AmbiguityIsRefused(fy: Formulary, target: ParamClass, kwargs: map<string, Value>, o: Oracle, i: nat, j: nat)
    requires i < j < |fy.equations|
    requires ValidVars(FreeSymbols(fy.equations[i]), target.name, {target.name} + kwargs.Keys, true)
    requires ValidVars(FreeSymbols(fy.equations[j]), target.name, {target.name} + kwargs.Keys, true)
    ensures DetermineParameter(fy, target, kwargs, o).Err?
  {
    var given := SortSet(kwargs.Keys);
    GivenNames(kwargs, target.name);
    var keep := (eq: Equation) => ValidVars(FreeSymbols(eq), target.name, Allowed(target.name, given), true);
    FilterKeepsBoth(fy.equations, keep, i, j);
  }

  /** When exactly one equation is selected and it solves to one expression
      over known names, `determine_parameter` returns that expression
      evaluated on the known values it mentions, or raises what the
      evaluation raises; a value outside the target's range raises. */
  lemma DetermineThroughOneEquation(fy: Formulary, target: ParamClass, kwargs: map<string, Value>, o: Oracle, eq: Equation, e: Expr)
    requires ValidateInput(kwargs).Pass?
    requires target.name in fy.parameters && kwargs.Keys <= fy.parameters.Keys && target.name !in kwargs
    requires Select(fy.equations, target.name, {target.name} + kwargs.Keys, true) == [eq]
    requires o.solveOne(eq, target.name) == [e]
    requires e.free <= kwargs.Keys
    ensures var v := o.evaluate(e, Restrict(kwargs, e.free));
            (v.Err? || IsValid(target, v.value)) ==> DetermineParameter(fy, target, kwargs, o) == v
    ensures var v := o.evaluate(e, Restrict(kwargs, e.free));
            v.Ok? && !IsValid(target, v.value) ==> DetermineParameter(fy, target, kwargs, o).Err?
  {
    var given := SortSet(kwargs.Keys);
    GivenNames(kwargs, target.name);
    ExpressThroughOneEquation(fy, target, given, o, eq, e);
    DetermineFromOne(target, kwargs, o, e);
  }

  /** `determine_parameter` once `express_parameter` has returned the single
      expression `e` over known names. */
  lemma DetermineFromOne(target: ParamClass, kwargs: map<string, Value>, o: Oracle, e: Expr)
    requires ValidateInput(kwargs).Pass? && e.free <= kwargs.Keys
    ensures var v := o.evaluate(e, Restrict(kwargs, e.free));
            (v.Err? || IsValid(target, v.value)) ==> Determine(target, kwargs, o, Ok([e])) == v
    ensures var v := o.evaluate(e, Restrict(kwargs, e.free));
            v.Ok? && !IsValid(target, v.value) ==> Determine(target, kwargs, o, Ok([e])).Err?
  {
    var v := o.evaluate(e, Restrict(kwargs, e.free));
    if v.Ok? && IsValid(target, v.value) {
      assert Validate(target, v.value) == Pass;
    }
  }

  lemma ExpressThroughOneEquation(fy: Formulary, target: ParamClass, given: seq<string>, o: Oracle, eq: Equation, e: Expr)
    requires AllKnown(fy, target, given) && target.name !in given
    requires Select(fy.equations, target.name, Allowed(target.name, given), true) == [eq]
    requires o.solveOne(eq, target.name) == [e]
    ensures ExpressParameter(fy, target, given, true, o) == Ok([e])
  {
    var sel := Select(fy.equations, target.name, Allowed(target.name, given), true);
    var solved := SolveEach(sel, target.name, o.solveOne);
    assert solved.Ok? && |solved.value| == 1 && o.solveOne(sel[0], target.name) == [solved.value[0]];
    assert solved.value[0] == e;
    assert solved.value == [solved.value[0]];
    assert FirstUnregistered(fy, given).None?;
  }

  /** `Formulary(parameters, formulas)`: registers the parameters, then the
      formulas; a failure raises out of the constructor. */
  function NewFormulary(params: seq<ParamClass>, formulas: seq<Formula>): (r: Result<Formulary>)
    ensures r.Ok? <==> NamesFresh(Empty, params) && forall i :: 0 <= i < |formulas| ==> forall v :: v in Vars(formulas[i]) ==> v in NamesOf(params)
    ensures r.Ok? ==> Valid(r.value)
    ensures r.Ok? ==> r.value.parameters.Keys == NamesOf(params) && r.value.formulae == formulas
    ensures r.Ok? ==> forall i :: 0 <= i < |params| ==> r.value.parameters[params[i].name] == params[i]
  {
    var p := RegisterParameters(Empty, params);
    match p.error
    case Some(e) => Err(e)
    case None =>
      EmptyIsValid();
      MoreParametersKeepValid(Empty, p.state);
      RegisterFormulasPreservesValid(p.state, formulas);
      assert p.state.parameters.Keys == NamesOf(params);
      var f := RegisterFormulas(p.state, formulas);
      match f.error
      case Some(e) => Err(e)
      case None => Ok(f.state)
  }

  /** In a formulary built by the constructor every registered formula can be
      found among the formulas containing each parameter it mentions. */
  lemma ConstructedIndicesComplete(params: seq<ParamClass>, formulas: seq<Formula>)
    requires NewFormulary(params, formulas).Ok?
    ensures var fy := NewFormulary(params, formulas).value;
            forall i, v :: 0 <= i < |formulas| && v in Vars(formulas[i]) ==>
              formulas[i] in Lookup(fy.formulasContaining, v) && formulas[i] in Lookup(fy.formulasFor, formulas[i].result.name)
  {
  }
}
