/** The error type of the engine and the result type every fallible operation returns. */
module Errors {
  import opened Bytes

  datatype Error =
    | Pcsc(pcscCode: uint32)        // a failure reported by the PC/SC transport
    | NoDevice                      // no reader looks like a YubiKey
    | InsufficientData              // a reply or a TLV is shorter than it must be
    | UnknownCode(code: uint16)     // a status word outside the table
    | UnexpectedValue(value: byte)  // a tag, or an algorithm byte, that is not allowed here
    | NoSpace                       // status 0x6A84
    | NoSuchObject                  // status 0x6984
    | AuthRequired                  // status 0x6982
    | WrongSyntax                   // status 0x6A80
    | GenericError                  // status 0x6581
    | Utf8                          // an account name that is not UTF-8

  datatype Result<+T> = Ok(value: T) | Err(error: Error) {
    predicate IsFailure() {
      Err?
    }

    function PropagateFailure<U>(): Result<U>
      requires Err?
    {
      Err(error)
    }

    function Extract(): T
      requires Ok?
    {
      value
    }
  }
}
