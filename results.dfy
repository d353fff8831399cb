/** Outcomes of operations that can fail. */
module Results {

  /** A value or its absence; `None` stands for a JavaScript value that is
      `NaN` or for an exception thrown where the value should be produced. */
  datatype Option<T> = None | Some(value: T)

  /** The settled state of an awaited promise returned by a contract call:
      the call resolved with a value, or it rejected (a reverted transaction,
      a refused signature, a network failure). */
  datatype Reply<T> = Resolved(value: T) | Rejected(reason: string)
}
