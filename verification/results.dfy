/** Failure-carrying values for the leader-side metadata computation.

    The Java code signals failure by throwing; the model returns a `Result`
    whose `Failure` names the exception the code would raise.
 */
module Results {

  /** The exceptions the leader callback can raise. */
  datatype Error =
    | EmptyCluster       // HodorException("running node count is 0.")
    | DivisionByZero     // ArithmeticException from `% copySetIps.size()` on an empty list
    | IndexOutOfBounds   // IndexOutOfBoundsException from `servers.get(0)` on an empty list

  datatype Option<+T> = None | Some(value: T)

  datatype Result<+T> = Success(value: T) | Failure(error: Error)
}
