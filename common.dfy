/** Shared value types: optional values, results, and the errors the repository reports. */
module Common {

  datatype Option<+T> = None | Some(value: T)

  datatype Result<+R, +E> = Success(value: R) | Failure(error: E)

  /** The error values the repository returns. */
  datatype Error =
      /** strconv.Atoi refused the identifier (a *NumError with ErrSyntax). */
    | InvalidSyntax(input: string)
      /** A well-formed identifier with no entry; carries the message Get builds. */
    | NoFullURL(message: string)
      /** An open, read or write on the log file failed. */
    | IoFailure
      /** json.Unmarshal refused the line read by the given ReadBytes call (0-based). */
    | CorruptLine(lineNo: nat)
}
