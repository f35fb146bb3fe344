/** Option and Result, and the exceptions of the .NET runtime that the
    catalog code can raise, as values. */
module Wrappers {

  datatype Option<+T> = None | Some(value: T)

  /** The exceptions the modelled code can throw. */
  datatype Fault =
    | NullReference        // a member called through a null reference
    | InvalidCast          // a descriptor block of the wrong class
    | ArgumentOutOfRange   // Substring(0, Length - 1) on an empty string
    | IndexOutOfRange      // indexing the last character of an empty path
    | EndOfStream          // BinaryReader ran out of bytes
    | BadSevenBitInt       // FormatException from Read7BitEncodedInt
    | InvalidStringLength  // IOException: negative string length prefix
    | DecodeFailure        // the backup stream could not decode a block
    | NotExtractable       // ExtractTo on a tape (root) or set node

  datatype Result<+T> = Ok(value: T) | Err(fault: Fault) {
    predicate IsFailure() { Err? }

    function PropagateFailure<U>(): Result<U>
      requires Err?
    {
      Err(fault)
    }

    function Extract(): T
      requires Ok?
    {
      value
    }
  }
}
