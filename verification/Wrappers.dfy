/** Outcome types shared by every module. The source's many error messages are
    one outcome here: a rejection carries no data the callers inspect. */
module Wrappers {

  datatype Option<+T> = None | Some(value: T)

  datatype Result<+T> = Ok(value: T) | Err {

    predicate IsFailure() {
      Err?
    }

    function PropagateFailure<U>(): Result<U>
      requires Err?
    {
      Err
    }

    function Extract(): T
      requires Ok?
    {
      value
    }
  }

  /** `:- Need(condition)` rejects when the condition does not hold. */
  datatype Check = Pass | Fail {

    predicate IsFailure() {
      Fail?
    }

    function PropagateFailure<U>(): Result<U>
      requires Fail?
    {
      Err
    }
  }

  function Need(condition: bool): Check {
    if condition then Pass else Fail
  }
}
