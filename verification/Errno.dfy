/** Error numbers, returned negated, and the results of calls that can fail. */
module Errno {

  datatype Result<+T> = Ok(value: T) | Err(code: int)

  const ENOENT := 2
  const EIO := 5
  const EAGAIN := 11
  const EISDIR := 21
  const EINVAL := 22
  const ENOSPC := 28

  /** A negated error number, and the status of a foreign call. */
  type Failure = code: int | code < 0 witness -1

  type Status = status: int | status <= 0
}
