/** Value types shared by the whole model. */
module Common {

  datatype Option<+T> = None | Some(value: T)

  datatype Result<+T, +E> = Ok(value: T) | Err(error: E)

  type byte = b: int | 0 <= b < 256

  /** The errors of the core that cross to the host. */
  datatype StackError =
    | InvalidCredentials(message: string)
    | Auth(message: string)
    | PendingAgreements(message: string)
    | Http(status: nat, message: string)
    | Decode(message: string)
    | Network(message: string)
    | Unsupported(message: string)
    | SubmissionNotRemovable(message: string)
}
