/** The error taxonomy shared by every codec (`AscError`), and the result type the codecs return. */
module Errors {
  import opened Ints

  /** Where an error forwarded unchanged from another library came from. */
  datatype TransparentOrigin =
    | BigNumber        // `BigNumberErr`: big-number parsing or range failures
    | MemoryAccess     // `MemoryAccessError`: the guest memory reported an invalid access

  datatype AscError =
    | SizeNotFit
    | Overflow(magnitude: u32)
    | Plain(message: string)
    | IncorrectBool(byte: nat)
    | SizeNotMatch
    | MaxRecursion
      /** Both forwarded variants, whose payloads belong to other libraries. */
    | Transparent(origin: TransparentOrigin)

  /** `Result<T, AscError>`; usable with `:-` as the source uses `?`. */
  datatype Result<+T> = Ok(value: T) | Err(error: AscError) {

    predicate IsFailure() {
      Err?
    }

    function PropagateFailure<U>(): Result<U>
      requires Err?
    {
      Err(error)
    }

    function Extract(): T
      requires Ok?
    {
      value
    }
  }
}
