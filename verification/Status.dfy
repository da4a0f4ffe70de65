/** Return codes of the public interface, and calls that may raise an error instead of returning. */
module Status {
  const QV_SUCCESS: int := 0
  const QV_ERR_INTERNAL: int := 4
  const QV_ERR_INVLD_ARG: int := 8
  const QV_ERR_HWLOC: int := 9
  const QV_ERR_NOT_SUPPORTED: int := 12
  const QV_ERR_SPLIT: int := 14

  /** A call returns a value, raises a run-time error carrying a code, or fails in a way for which the interface
      has no code: on an assertion, on an access checked to be out of range, or on a division by zero. */
  datatype Outcome<T> = Returned(value: T) | Thrown(rc: int) | Aborted
}
