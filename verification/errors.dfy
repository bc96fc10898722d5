/** Failure kinds an instruction of the blog program can end with.

    The program's own codes are the `BlogError` enum; the other variants are
    the failures the Anchor framework raises while it checks and writes back
    the accounts of an instruction, and the panic of Rust's checked integer
    arithmetic. A failed instruction is rolled back as a whole, so a failure
    carries no ledger: whoever applies an instruction keeps the old one. */
module Errors {

  /** The program's own error codes, in declaration order. */
  datatype BlogError =
    | InvalidTitle
    | InvalidContent
    | Unauthorized
    | PostLimitReached
    | PostNotFound

  datatype Error =
    | Program(code: BlogError)
      /** `has_one = author`: the post's stored author is not the signer. */
    | ConstraintHasOne
      /** `init` on an address that already holds an account. */
    | AccountAlreadyInUse
      /** An `Account<T>` argument whose address holds no such account. */
    | AccountNotInitialized
      /** The account's data no longer fits the space allocated for it. */
    | AccountDidNotSerialize
      /** A `u64` addition or subtraction left the type's range (a panic). */
    | ArithmeticOverflow

  datatype Result<+T> = Ok(value: T) | Err(error: Error) {

    predicate IsFailure() {
      Err?
    }

    function PropagateFailure<U>(): Result<U>
      requires Err?
    {
      Err(error)
    }

    function Extract(): T
      requires Ok?
    {
      value
    }
  }
}
