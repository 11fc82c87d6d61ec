/** Outcomes of operations that may throw, and the errors they throw.

    A JavaScript `throw` is modelled as an `Err` carrying an `Error`; a normal
    return as an `Ok`.  `Result` is failure-compatible, so `:-` propagates a
    thrown error the way an `await` of a rejected promise does.
 */
module Results {

  /** A thrown error.  `Thrown` covers `new Error(message)` (name "Error") and the
      engine's own `TypeError`s; `HookFailure` is the `ErrorHook` class, which
      keeps the hook coordinates and the error it wraps. */
  datatype Error =
    | Thrown(name: string, message: string)
    | HookFailure(message: string, hookName: string, lifeCycle: string, cause: Error)
  {
    /** The `name` property of the error object. */
    function Name(): string {
      if HookFailure? then "ErrorHook" else name
    }
  }

  /** `new Error(message)`. */
  function Plain(message: string): Error {
    Thrown("Error", message)
  }

  /** A `TypeError` raised by the engine itself. */
  function TypeError(message: string): Error {
    Thrown("TypeError", message)
  }

  datatype Result<+T> = Ok(value: T) | Err(error: Error) {

    predicate IsFailure() {
      Err?
    }

    function PropagateFailure<U>(): Result<U>
      requires Err?
    {
      Err(error)
    }

    function Extract(): T
      requires Ok?
    {
      value
    }
  }

  /** An outcome without a value: `Pass` for a normal return, `Fail` for a throw. */
  datatype Outcome = Pass | Fail(error: Error) {

    predicate IsFailure() {
      Fail?
    }

    function PropagateFailure<U>(): Result<U>
      requires Fail?
    {
      Err(error)
    }
  }

  datatype Option<+T> = None | Some(value: T)

  /** Which reading of the code an operation follows where the code and its
      evident intent part: the code as written, or the corrected behaviour. */
  datatype Reading = AsWritten | Corrected
}
