/** Small failure-carrying datatypes shared by the modules of this model. */
module Common {

  /** An unsigned byte (unsigned char, as memcmp compares them). */
  newtype Byte = b: int | 0 <= b < 0x100

  /** A value that may be absent: the model of a NULL pointer or an SQL NULL. */
  datatype Option<+T> = None | Some(value: T)

  /** Either a result or the error PostgreSQL would raise with ereport/elog(ERROR). */
  datatype Result<+T, +E> = Success(value: T) | Failure(error: E)
}
