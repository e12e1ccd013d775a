/** Failure-carrying datatypes shared by the whole model, and the taxonomy of
    exceptions the modelled Python code raises. */
module Wrappers {

  datatype Option<+T> = None | Some(value: T)

  /** One constructor per distinct raise site (or family of raise sites) of the
      modelled code. `ExceptionClass` names the Python exception class. */
  datatype Error =
    | AlreadyRegistered(key: string)          // a write-once name assigned twice
    | NotRegistered(missing: seq<string>)     // names a formula needs that are not registered
    | UnitNotDeclared                         // `unit` absent from the class's own body
    | UnitWrongType                           // `unit` declared with a value of the wrong type
    | IncompatibleUnits                       // a quantity whose unit does not fit the parameter
    | DimensionalityMismatch                  // the unit library refused a conversion
    | MixedUnits(withUnits: nat, total: nat)  // some, but not all, inputs carry units
    | InvalidValue                            // a value outside the parameter's range
    | NotComparable                           // a quantity compared with a bare non-zero number
    | SelfReference                           // a target expressed in terms of itself
    | MissingKey(key: string)                 // a dictionary lookup of an absent name
    | SolutionNotSingle(count: nat)           // one equation solved to other than one expression
    | NotUnique(count: nat)                   // a determination found other than one expression
    | BadArguments                            // arguments that do not bind to a signature
    | NotAnEquality                           // formatting an object that is not an equation
    | Raised(exception: string)               // raised by a formula's function or an evaluated expression

  /** The Python exception class raised for each error. */
  function ExceptionClass(e: Error): string
  {
    match e
    case AlreadyRegistered(_) => "RuntimeError"
    case NotRegistered(_) => "RuntimeError"
    case UnitNotDeclared => "RuntimeError"
    case UnitWrongType => "TypeError"
    case IncompatibleUnits => "RuntimeError"
    case DimensionalityMismatch => "DimensionalityError"
    case MixedUnits(_, _) => "RuntimeError"
    case InvalidValue => "ValueError"
    case NotComparable => "ValueError"
    case SelfReference => "ValueError"
    case MissingKey(_) => "KeyError"
    case SolutionNotSingle(_) => "AssertionError"
    case NotUnique(_) => "RuntimeError"
    case BadArguments => "TypeError"
    case NotAnEquality => "TypeError"
    case Raised(c) => c
  }

  /** A computed value or the exception raised instead. */
  datatype Result<+T> = Ok(value: T) | Err(error: Error) {

    predicate IsFailure() {
      Err?
    }

    function PropagateFailure<U>(): Result<U>
      requires Err?
    {
      Err(error)
    }

    function Extract(): T
      requires Ok?
    {
      value
    }
  }

  /** The outcome of a check that returns nothing when it passes. */
  datatype Outcome = Pass | Fail(error: Error) {

    predicate IsFailure() {
      Fail?
    }

    function PropagateFailure<U>(): Result<U>
      requires Fail?
    {
      Err(error)
    }
  }

  /** The state a mutating call leaves behind, together with the exception it
      raised, if any. Python objects keep whatever was mutated before a raise. */
  datatype Step<+S> = Step(state: S, error: Option<Error>) {

    predicate Succeeded() {
      error.None?
    }
  }
}
