/**
 The result and error model every command shares. A command's execution ends
 in exactly one of an integer success or an error, and the error kinds stay
 distinguishable: a wrong argument count, an argument that fails validation,
 a type mismatch with the stored value, and a backend failure passed on as is.
 */
module Command {
  import Storage

  datatype Error =
    | WrongArgsNumber
    | WrongTypeOp
    /** The argument error GETBIT reports as "invalid offset". */
    | InvalidOffset
    | StorageFailure(fault: Storage.StorageError)

  datatype Result =
    | IntResult(value: int)
    | ErrResult(err: Error)
}
