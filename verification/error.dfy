/**
  The failure values of the server (src/error.rs).

  The source boxes every failure as a `dyn Error`: its own `Fail(String)`, an
  I/O error from the socket, or the `FromUtf8Error` of a text conversion. A
  panic is not a value in the source; the model makes it one (`Panic`) so that
  the inputs that make the server panic are visible in contracts.
*/
module Errors {

  datatype Error =
    | Fail(message: string)   // crate::error::Fail
    | Io                      // std::io::Error from `read` or `read_exact`
    | InvalidUtf8             // std::string::FromUtf8Error
    | Panic(reason: string)   // the source panics here instead of returning

  /** crate::error::Result: a value or a boxed error; supports `:-`. */
  datatype Result<+T> = Ok(value: T) | Err(error: Error) {

    predicate IsFailure() {
      Err?
    }

    function PropagateFailure<U>(): Result<U>
      requires Err?
    {
      Err(error)
    }

    function Extract(): T
      requires Ok?
    {
      value
    }
  }
}
