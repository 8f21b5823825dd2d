/** Replies of the remote file-storage server, as the scanner sees them.

    The server library reports a refused command by raising one of four
    exception classes; here each command instead yields a `Reply`, and each
    operation that may let an error escape yields a `Result`. */
module FtpReplies {

  /** The four error classes the scanner distinguishes: a permanent refusal
      (the permission signal), a temporary failure, an unexpected reply and a
      protocol violation. */
  datatype FtpError = ErrorPerm | ErrorTemp | ErrorReply | ErrorProto

  /** The outcome of one command sent to the server. */
  datatype Reply = Done | Failed(error: FtpError)

  /** The value of an operation, or the error that escaped from it. */
  datatype Result<+T> = Ok(value: T) | Err(error: FtpError)

  /** A reply that the permission probe does not absorb: any failure other
      than a permission refusal. */
  predicate Raises(reply: Reply) {
    reply.Failed? && reply.error != ErrorPerm
  }
}
