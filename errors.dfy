/** The two exceptions the heap throws, as values. */
module HeapErrors {

  /** IllegalArgumentException and UnderflowException. */
  datatype HeapError = IllegalArgument | Underflow

  /** Either a value or the exception the source would throw instead. */
  datatype Result<T> = Ok(value: T) | Err(error: HeapError)
}
