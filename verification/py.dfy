/** Python runtime notions the scraper relies on: optional values, the
    exceptions its code can raise, dynamically typed slot values and
    Python's truthiness rule. */
module Py {

  datatype Option<+T> = None | Some(value: T) {
    function GetOr(default: T): T {
      match this
      case Some(v) => v
      case None => default
    }
  }

  /** The exception kinds the modelled code can raise; `Exception` stands for an
      explicit `raise Exception(msg)`. `NameError` is raised by a use of a
      module that was never imported, and `UnicodeEncodeError` by Python 2's
      `str.format` when a byte-string template is given a `unicode` argument
      with a character outside ASCII. */
  datatype Exc =
    | IndexError
    | AttributeError
    | TypeError
    | ValueError
    | KeyError
    | ZeroDivisionError
    | NameError
    | UnicodeEncodeError
    | Exception(msg: string)

  /** A computation that either returns a value or raises. */
  datatype Result<+T> = Ok(value: T) | Err(exc: Exc) {
    predicate IsFailure() { Err? }

    function PropagateFailure<U>(): Result<U>
      requires Err?
    {
      Err(exc)
    }

    function Extract(): T
      requires Ok?
    {
      value
    }
  }

  /** The values a recovery-stack slot or a POST field can hold. */
  datatype Value = PyNone | PyStr(s: string) | PyInt(i: int)

  /** Python truthiness: None, the empty string and 0 are false. */
  predicate Truthy(v: Value) {
    match v
    case PyNone => false
    case PyStr(s) => s != ""
    case PyInt(i) => i != 0
  }

  /** Truthiness of an optional string (`if s:` on a value that may be None). */
  predicate TruthyText(s: Option<string>) {
    s.Some? && s.value != ""
  }
}
