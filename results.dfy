/** Failure-carrying values shared by the page store and the B+tree. */
module Results {

  /** The read-path failures the store and the tree distinguish. */
  datatype Error =
    | OutOfRange    // a page id at or beyond the page count
    | CorruptPage   // a cookie mismatch or a malformed header or body

  datatype Option<+T> = None | Some(value: T)

  datatype Result<+T> = Ok(value: T) | Err(error: Error)
}
