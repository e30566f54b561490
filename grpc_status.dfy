/** The outcome of a handler: a gRPC status (a code and a message), or a response. */
module GrpcStatus {
  /** The status codes the calculator handlers produce: OK for a nil error, InvalidArgument for a refused request. */
  datatype Code = OK | InvalidArgument

  datatype Status = Status(code: Code, message: string)

  /** What the client sees when a handler returns a nil error. */
  const Nil: Status := Status(OK, "")

  /** A unary handler returns either a response and a nil error, or no response and an error status. */
  datatype Outcome<R> = Response(value: R) | Failure(status: Status)
}
