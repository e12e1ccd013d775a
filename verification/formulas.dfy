/** Formulas: a result parameter, the declared arguments of the function that
    computes it, and the symbolic equation derived from that function; plus the
    checks `compute` runs around the computation and the helpers for equations.

    Symbolic expressions are abstracted to their printed text and the set of
    names of their free symbols. */
module Formulas {
  import opened Wrappers
  import opened Units
  import opened ParameterBase
  import opened Ordering

  /** A symbolic expression: its printed form and its free symbols, by name. */
  datatype Expr = Expr(text: string, free: set<string>)

  /** `sympy.Symbol(name)`. */
  function Symbol(name: string): Expr
  {
    Expr(name, {name})
  }

  /** A symbolic equality `lhs = rhs`. */
  datatype Equation = Equation(lhs: Expr, rhs: Expr)

  /** `eq.atoms(sympy.Symbol)`. */
  function FreeSymbols(eq: Equation): set<string>
  {
    eq.lhs.free + eq.rhs.free
  }

  /** The objects `format_sympy_equation` may be handed. */
  datatype SymObject = EquationObject(eq: Equation) | OtherObject(text: string)

  /** `format_sympy_equation`: `"<lhs> = <rhs>"` for an equality, TypeError for
      anything else. */
  function FormatEquation(o: SymObject): (r: Result<string>)
    ensures o.OtherObject? ==> r == Err(NotAnEquality)
    ensures o.EquationObject? ==> r.Ok? && |r.value| == |o.eq.lhs.text| + 3 + |o.eq.rhs.text|
    ensures o.EquationObject? ==> r.value[..|o.eq.lhs.text|] == o.eq.lhs.text
    ensures o.EquationObject? ==> r.value[|o.eq.lhs.text| + 3..] == o.eq.rhs.text
  {
    match o
    case OtherObject(_) => Err(NotAnEquality)
    case EquationObject(eq) => Ok(eq.lhs.text + " = " + eq.rhs.text)
  }

  /** The index of the first `=` in `s`, or `|s|` if there is none. */
  function FirstEquals(s: string): (i: nat)
    ensures i <= |s|
    ensures forall j :: 0 <= j < i ==> s[j] != '='
    ensures i < |s| ==> s[i] == '='
  {
    if s == [] then 0
    else if s[0] == '=' then 0
    else 1 + FirstEquals(s[1..])
  }

  /** Reads `"<lhs> = <rhs>"` back, splitting at the first `=`. */
  function ParseEquation(s: string): Option<(string, string)>
  {
    var i := FirstEquals(s);
    if 1 <= i && i + 1 < |s| && s[i - 1] == ' ' && s[i + 1] == ' ' then Some((s[..i - 1], s[i + 2..]))
    else None
  }

  /** Formatting an equation whose left side has no `=` in it can be read back
      into its two sides: the output is the left text, ` = `, the right text. */
  lemma {:induction false} FormatParseRoundTrip(eq: Equation)
    requires forall j :: 0 <= j < |eq.lhs.text| ==> eq.lhs.text[j] != '='
    ensures ParseEquation(FormatEquation(EquationObject(eq)).value) == Some((eq.lhs.text, eq.rhs.text))
  {
    var s := FormatEquation(EquationObject(eq)).value;
    var n := |eq.lhs.text|;
    assert s[n] == ' ' && s[n + 1] == '=' && s[n + 2] == ' ';
    var i := FirstEquals(s);
    assert i == n + 1;
    assert s[..i - 1] == eq.lhs.text;
    assert s[i + 2..] == eq.rhs.text;
  }

  /** `make_symbol_key`: the symbols sorted by their printed names. */
  function MakeSymbolKey(symbols: seq<string>): (r: seq<string>)
    ensures Sorted(r)
    ensures multiset(r) == multiset(symbols)
  {
    Sort(symbols)
  }

  /** The key depends only on which symbols are given, not on their order. */
  lemma SymbolKeyIgnoresOrder(a: seq<string>, b: seq<string>)
    requires multiset(a) == multiset(b)
    ensures MakeSymbolKey(a) == MakeSymbolKey(b)
  {
    SortedUnique(MakeSymbolKey(a), MakeSymbolKey(b));
  }

  /** One declared argument of a formula's function and its default, if any. */
  datatype Arg = Arg(name: string, default: Option<Value>)

  /** A formula: the parameter it computes, the function's declared arguments
      in order, and the right-hand side obtained by calling the function on one
      symbol per argument. */
  datatype Formula = Formula(result: ParamClass, signature: seq<Arg>, rhs: Expr)

  /** The names of a signature's arguments. */
  function ArgNames(sig: seq<Arg>): (r: seq<string>)
    ensures |r| == |sig|
    ensures forall i :: 0 <= i < |sig| ==> r[i] == sig[i].name
  {
    if sig == [] then [] else [sig[0].name] + ArgNames(sig[1..])
  }

  /** `Formula.inputs`: the function's argument names in declaration order. */
  function Inputs(f: Formula): (r: seq<string>)
    ensures |r| == |f.signature|
    ensures forall i :: 0 <= i < |r| ==> r[i] == f.signature[i].name
  {
    ArgNames(f.signature)
  }

  /** `Formula.eq`: the result's symbol equated with the right-hand side. */
  function EquationOf(f: Formula): Equation
  {
    Equation(Symbol(f.result.name), f.rhs)
  }

  /** Python signatures never repeat an argument name. */
  predicate DistinctNames(sig: seq<Arg>)
  {
    forall i, j :: 0 <= i < j < |sig| ==> sig[i].name != sig[j].name
  }

  /** When positional `args` and keyword `kwargs` bind to a signature: no more
      positionals than arguments, every keyword names an argument not already
      filled positionally, and every argument left unfilled has a default. */
  predicate Bindable(sig: seq<Arg>, args: seq<Value>, kwargs: map<string, Value>)
  {
    && |args| <= |sig|
    && (forall k :: k in kwargs ==> exists i :: |args| <= i < |sig| && sig[i].name == k)
    && (forall i :: |args| <= i < |sig| ==> sig[i].name in kwargs || sig[i].default.Some?)
  }

  /** The value bound to argument `i`: its positional, its keyword, or its
      default. */
  function BoundValue(sig: seq<Arg>, args: seq<Value>, kwargs: map<string, Value>, i: nat): Value
    requires i < |sig| && Bindable(sig, args, kwargs)
  {
    if i < |args| then args[i]
    else if sig[i].name in kwargs then kwargs[sig[i].name]
    else sig[i].default.value
  }

  /** `_to_keywords`: bind the arguments to the signature and fill in the
      defaults, argument by argument; TypeError when they do not bind. */
  function Bind(sig: seq<Arg>, args: seq<Value>, kwargs: map<string, Value>): (r: Result<map<string, Value>>)
    requires DistinctNames(sig)
    ensures r.Ok? <==> Bindable(sig, args, kwargs)
    ensures r.Err? ==> r.error == BadArguments
    ensures r.Ok? ==> r.value.Keys == set i | 0 <= i < |sig| :: sig[i].name
    ensures r.Ok? ==> forall i :: 0 <= i < |sig| ==> r.value[sig[i].name] == BoundValue(sig, args, kwargs, i)
    decreases |sig|
  {
    if sig == [] then
      if args == [] && kwargs == map[] then Ok(map[]) else Err(BadArguments)
    else
      var a := sig[0];
      var value: Option<Value> :=
        if args != [] then (if a.name in kwargs then None else Some(args[0]))
        else if a.name in kwargs then Some(kwargs[a.name])
        else a.default;
      var restArgs := if args != [] then args[1..] else [];
      match value
      case None => BindFails(sig, args, kwargs); Err(BadArguments)
      case Some(v) =>
        match Bind(sig[1..], restArgs, kwargs - {a.name})
        case Err(e) => BindStep(sig, args, kwargs); Err(e)
        case Ok(m) => BindStep(sig, args, kwargs); Ok(m[a.name := v])
  }

  /** The first argument can take no value: the arguments do not bind. */
  lemma BindFails(sig: seq<Arg>, args: seq<Value>, kwargs: map<string, Value>)
    requires sig != [] && DistinctNames(sig)
    requires if args != [] then sig[0].name in kwargs else sig[0].name !in kwargs && sig[0].default.None?
    ensures !Bindable(sig, args, kwargs)
  {
  }

  /** Binding the rest of the signature to the rest of the arguments. */
  lemma BindStep(sig: seq<Arg>, args: seq<Value>, kwargs: map<string, Value>)
    requires sig != [] && DistinctNames(sig)
    requires args != [] ==> sig[0].name !in kwargs
    requires args == [] ==> sig[0].name in kwargs || sig[0].default.Some?
    ensures var restArgs := if args != [] then args[1..] else [];
            Bindable(sig, args, kwargs) <==> Bindable(sig[1..], restArgs, kwargs - {sig[0].name})
    ensures var restArgs := if args != [] then args[1..] else [];
            Bindable(sig, args, kwargs) ==>
              forall i :: 1 <= i < |sig| ==>
                BoundValue(sig[1..], restArgs, kwargs - {sig[0].name}, i - 1) == BoundValue(sig, args, kwargs, i)
  {
    var restArgs := if args != [] then args[1..] else [];
    if Bindable(sig, args, kwargs) {
      BindableTail(sig, args, kwargs, restArgs);
    }
    if Bindable(sig[1..], restArgs, kwargs - {sig[0].name}) {
      BindableFromTail(sig, args, kwargs, restArgs);
    }
  }

  lemma BindableTail(sig: seq<Arg>, args: seq<Value>, kwargs: map<string, Value>, restArgs: seq<Value>)
    requires sig != [] && DistinctNames(sig) && Bindable(sig, args, kwargs)
    requires restArgs == if args != [] then args[1..] else []
    requires args == [] ==> sig[0].name in kwargs || sig[0].default.Some?
    ensures Bindable(sig[1..], restArgs, kwargs - {sig[0].name})
  {
    var rest := sig[1..];
    var kw := kwargs - {sig[0].name};
    forall k | k in kw ensures exists i :: |restArgs| <= i < |rest| && rest[i].name == k {
      var i :| |args| <= i < |sig| && sig[i].name == k;
      assert rest[i - 1].name == k;
    }
    forall i | |restArgs| <= i < |rest| ensures rest[i].name in kw || rest[i].default.Some? {
      assert rest[i] == sig[i + 1];
      assert sig[i + 1].name != sig[0].name;
    }
  }

  lemma BindableFromTail(sig: seq<Arg>, args: seq<Value>, kwargs: map<string, Value>, restArgs: seq<Value>)
    requires sig != [] && Bindable(sig[1..], restArgs, kwargs - {sig[0].name})
    requires restArgs == if args != [] then args[1..] else []
    requires args != [] ==> sig[0].name !in kwargs
    requires args == [] ==> sig[0].name in kwargs || sig[0].default.Some?
    ensures Bindable(sig, args, kwargs)
  {
    var rest := sig[1..];
    var kw := kwargs - {sig[0].name};
    forall k | k in kwargs ensures exists i :: |args| <= i < |sig| && sig[i].name == k {
      if k == sig[0].name {
        assert sig[0].name == k;
      } else {
        assert k in kw;
        var i :| |restArgs| <= i < |rest| && rest[i].name == k;
        assert sig[i + 1].name == k;
      }
    }
    forall i | |args| <= i < |sig| ensures sig[i].name in kwargs || sig[i].default.Some? {
      if i >= 1 {
        assert sig[i] == rest[i - 1];
      }
    }
  }

  /** `has_units` counted over the inputs. */
  function UnitCount(kwds: map<string, Value>): nat
  {
    |set k | k in kwds && HasUnit(kwds[k])|
  }

  /** `validate_input`: the inputs must all carry units or all be bare; an
      empty input set passes. */
  function ValidateInput(kwds: map<string, Value>): (r: Outcome)
    ensures r.Fail? <==> (exists a :: a in kwds && HasUnit(kwds[a])) && (exists b :: b in kwds && !HasUnit(kwds[b]))
    ensures r.Fail? ==> r.error == MixedUnits(UnitCount(kwds), |kwds|) && ExceptionClass(r.error) == "RuntimeError"
    ensures kwds == map[] ==> r.Pass?
  {
    var withUnits := set k | k in kwds && HasUnit(kwds[k]);
    var n := |withUnits|;
    assert n == 0 <==> forall a :: a in kwds ==> !HasUnit(kwds[a]) by {
      if exists a :: a in kwds && HasUnit(kwds[a]) {
        var a :| a in kwds && HasUnit(kwds[a]);
        assert a in withUnits;
      }
    }
    assert n == |kwds| <==> forall b :: b in kwds ==> HasUnit(kwds[b]) by {
      assert |kwds| == |kwds.Keys|;
      if exists b :: b in kwds && !HasUnit(kwds[b]) {
        var b :| b in kwds && !HasUnit(kwds[b]);
        SubsetCardinality(withUnits, kwds.Keys - {b});
      } else {
        assert withUnits == kwds.Keys;
      }
    }
    if n == 0 || n == |kwds| then Pass else Fail(MixedUnits(n, |kwds|))
  }

  lemma SubsetCardinality<T>(a: set<T>, b: set<T>)
    requires a <= b
    ensures |a| <= |b|
    decreases b
  {
    if b - a == {} {
      assert forall x :: x in b ==> x in a by {
        forall x | x in b ensures x in a {
          assert x !in b - a;
        }
      }
      assert a == b;
    } else {
      var x :| x in b - a;
      SubsetCardinality(a, b - {x});
    }
  }

  /** `Formula.compute`: check the inputs, evaluate the function (`call`, which
      may raise), validate the output against the result parameter, then
      apply the unit policy: `true` gives the result units (a bare result
      gets the default unit; a quantity, already validated, keeps its own),
      `false` gives its bare magnitude in the default unit, `None` leaves it
      as computed. */
  function Compute(f: Formula, call: map<string, Value> -> Result<Value>, kwds: map<string, Value>, withUnits: Option<bool>): (r: Result<Value>)
    ensures ValidateInput(kwds).Fail? ==> r == Err(ValidateInput(kwds).error)
    ensures ValidateInput(kwds).Pass? && call(kwds).Err? ==> r == call(kwds)
    ensures ValidateInput(kwds).Pass? && call(kwds).Ok? && !IsValid(f.result, call(kwds).value) ==> r == Err(InvalidValue)
    ensures r.Ok? <==> ValidateInput(kwds).Pass? && call(kwds).Ok? && IsValid(f.result, call(kwds).value)
    ensures r.Ok? && withUnits == Some(true) ==>
              call(kwds).Ok? && r.value.Qty? && Compatible(r.value.unit, f.result.unit)
              && (call(kwds).value.Num? ==> r.value == Qty(call(kwds).value.x, f.result.unit))
              && (call(kwds).value.Qty? ==> r.value == call(kwds).value)
    ensures r.Ok? && withUnits == Some(false) ==>
              call(kwds).Ok? && r.value.Num?
              && (call(kwds).value.Num? ==> r.value == call(kwds).value)
              && (call(kwds).value.Qty? ==> r.value.x * f.result.unit.scale == call(kwds).value.mag * call(kwds).value.unit.scale)
    ensures r.Ok? && withUnits.None? ==> r == call(kwds)
    ensures r.Ok? && withUnits != Some(true) && call(kwds).value.Num? ==> r == call(kwds)
  {
    match ValidateInput(kwds)
    case Fail(e) => Err(e)
    case Pass =>
      var res :- call(kwds);
      match Validate(f.result, res)
      case Fail(e) => Err(e)
      case Pass =>
        match withUnits
        case None => Ok(res)
        case Some(true) => EnsureUnits(f.result, res, false)
        case Some(false) =>
          match EnsureFloat(f.result, res)
          case Ok(x) => Ok(Num(x))
          case Err(e) => Err(e)
  }

  /** The checks come before the unit policy: whatever `with_units` asks for,
      mixed inputs and an invalid output raise the same error. */
  lemma ComputeChecksBeforeForcing(f: Formula, call: map<string, Value> -> Result<Value>, kwds: map<string, Value>, w1: Option<bool>, w2: Option<bool>)
    ensures Compute(f, call, kwds, w1).Err? <==> Compute(f, call, kwds, w2).Err?
    ensures Compute(f, call, kwds, w1).Err? ==> Compute(f, call, kwds, w1) == Compute(f, call, kwds, w2)
  {
  }

  /** `Formula.__call__`: bind the arguments, then compute. */
  function Call(f: Formula, call: map<string, Value> -> Result<Value>, args: seq<Value>, kwargs: map<string, Value>, withUnits: Option<bool>): (r: Result<Value>)
    requires DistinctNames(f.signature)
    ensures !Bindable(f.signature, args, kwargs) ==> r == Err(BadArguments)
    ensures Bindable(f.signature, args, kwargs) ==>
              r == Compute(f, call, Bind(f.signature, args, kwargs).value, withUnits)
  {
    var kwds :- Bind(f.signature, args, kwargs);
    Compute(f, call, kwds, withUnits)
  }
}
