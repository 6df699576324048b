/** Optional values and fallible results, shared by the system builder and the texture formats. */
module Results {

  /** An optional value: the node weight of a graph node, the next node of a traversal. */
  datatype Option<+T> = None | Some(value: T)

  /** The outcome of an operation that can fail with an error of type E. */
  datatype Result<+T, +E> = Ok(value: T) | Err(error: E)
}
