/** Failure-carrying result types shared by the whole model.

    The repository signals malformed input by panicking (`unwrap`, `expect`,
    an out-of-range index, `panic!`, `todo!`). Each such panic is modelled as
    the `Panic` alternative of `Result`, so that every operation is total and
    its error cases can be stated.
 */
module Wrappers {

  datatype Option<+T> = None | Some(value: T)

  /** Why an operation aborted. */
  datatype Abort =
    | IndexOutOfRange      // a slice or table index past its end, or negative
    | MissingEntry         // `unwrap`/`expect` on an absent entry
    | DuplicateEntry       // an explicit `panic!` on a repeated key
    | Unimplemented        // `todo!()`
    | Unreachable          // `unreachable!()`
    | AssertionFailed      // a failing `assert!`

  datatype Result<+T> = Ok(value: T) | Panic(reason: Abort) {

    predicate IsFailure() {
      Panic?
    }

    function PropagateFailure<U>(): Result<U>
      requires Panic?
    {
      Panic(reason)
    }

    function Extract(): T
      requires Ok?
    {
      value
    }
  }
}
