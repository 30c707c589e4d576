/** Exceptions the library's backend raises, and the Option/Result wrappers
    that stand for nullable returns and thrown exceptions. */
module Errors {

  datatype Option<+T> = None | Some(value: T)

  /** An outcome of a C# call: the value it returned, or the exception it threw. */
  datatype Result<+T> = Ok(value: T) | Err(error: Exception) {
    predicate IsFailure() { Err? }
    function PropagateFailure<U>(): Result<U> requires Err? { Err(error) }
    function Extract(): T requires Ok? { value }
  }

  /** The exception classes the core throws. `Argument` stands for the
      ArgumentException of the guard clauses, `Db` for the errors the ORM
      raises when a write does not match the stored keys. */
  datatype Exception =
    | InvalidOperation(message: string)
    | Argument(paramName: string, text: string)
    | NotFound(message: string)
    | Unauthorized(message: string)
    | Db(message: string)
  {
    /** The exception's Message property. An ArgumentException appends the
        name of the offending parameter to its text. */
    function Message(): string {
      match this
      case InvalidOperation(m) => m
      case Argument(p, t) => t + " (Parameter '" + p + "')"
      case NotFound(m) => m
      case Unauthorized(m) => m
      case Db(m) => m
    }
  }
}
