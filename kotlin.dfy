/** Values of the Kotlin runtime that every modelled file shares: byte types
    and the exceptions the code raises, as a result type. */
module Kotlin {

  /** Kotlin's signed `Byte`. */
  type int8 = x: int | -128 <= x < 128

  /** An element of a `ByteArray` seen through `asUByteArray()`, as native code reads it. */
  type uint8 = x: int | 0 <= x < 256

  type Bytes = seq<uint8>

  /** What a `Secp256k1Exception` says. */
  datatype Reason =
    | UnknownSignatureFormat
    | CannotParseSignature(sig: Bytes)
    | CallFailed(message: string)
    | InvalidPublicKey

  datatype Exception =
    | IllegalArgument                      // a failed `require(...)`
    | IndexOutOfBounds                     // `addressOf(0)` on an empty array
    | NullPointer                          // `!!` applied to null
    | Secp256k1Exception(reason: Reason)

  /** A Kotlin call either returns a value or throws. */
  datatype Result<+T> = Ok(value: T) | Err(error: Exception) {
    predicate IsFailure() { Err? }

    function PropagateFailure<U>(): Result<U>
      requires Err?
    {
      Err(error)
    }

    function Extract(): T
      requires Ok?
    {
      value
    }
  }

  datatype Option<+T> = None | Some(value: T)
}
