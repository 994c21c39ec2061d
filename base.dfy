/** Failure values shared by every module: the Ruby exception classes the
    core raises, and a Result type that carries either a value or the
    exception a Ruby method would have raised. */
module Base {

  datatype Option<+T> = None | Some(value: T) {
    function GetOr(default: T): T {
      match this
      case Some(v) => v
      case None => default
    }
  }

  /** The exception classes raised by the modelled code.  `RuntimeError` is
      what a bare `raise "message"` raises in Ruby. */
  datatype Error =
    | ArgumentError(message: string)
    | RuntimeError(message: string)
    | NoMethodError(message: string)
    | EOFError(message: string)
    | HttpClientError(message: string)
    | InvalidURIError(message: string)

  datatype Result<+T> = Ok(value: T) | Err(error: Error) {
    predicate IsFailure() { Err? }

    function PropagateFailure<U>(): Result<U>
      requires Err?
    {
      Err(error)
    }

    function Extract(): T
      requires Ok?
    {
      value
    }
  }
}
