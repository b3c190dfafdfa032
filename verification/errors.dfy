/** The exceptions the in-memory namespace engine can raise, and the
    failure-compatible wrappers the model uses to carry them. */
module Errors {

  /** One constructor per Python exception kind the engine lets escape. */
  datatype Error =
    | NotFound      // FileNotFoundError: a missing key, or a conflict found by set-with-create
    | TypeErr       // TypeError: subscripting, deleting from or wrapping a node of the wrong kind
    | AttributeErr  // AttributeError: calling decode on a node that is not a byte string
    | ValueErr      // ValueError: a cp destination of the wrong shape, or a rejected StringIO argument
    | EmptyPath     // IndexError: taking the last segment of the empty path
    | RuntimeErr    // RuntimeError: the open context manager yielded a second time

  datatype Option<+T> = None | Some(value: T)

  /** Either a value or the exception that replaced it. */
  datatype Result<+T> = Ok(value: T) | Err(error: Error) {

    predicate IsFailure() {
      Err?
    }

    function PropagateFailure<U>(): Result<U>
      requires Err?
    {
      Err(error)
    }

    function Extract(): T
      requires Ok?
    {
      value
    }
  }
}
