/**
 * How the contract aborts. `require!` panics with its message; `unwrap` panics on the
 * `Err` it was handed. Each abort is modelled as a `Failure` carrying what caused it.
 */
module Panics {
  import Hex

  /** The error `borsh` returns when a `Vec` length does not fit its u32 prefix (an I/O `InvalidInput`). */
  datatype BorshError = InvalidInput

  datatype Panic =
    | RequireFailed(message: string)
    | HexUnwrapFailed(hexError: Hex.HexError)
    | BorshUnwrapFailed(borshError: BorshError)
}
