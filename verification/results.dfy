/** Failure-carrying results for the tree API.

    The Java classes signal misuse by throwing; here every such exit is a
    value. Because an operation that fails returns no new state, "the
    argument is checked before anything is changed" holds by construction:
    the caller keeps the state it had.
 */
module Results {

  /** An optional value; `None` stands for a Java `null`. */
  datatype Option<+T> = None | Some(value: T)

  /** The ways a tree operation can refuse its input. */
  datatype Error =
    | NullArgument      // a null element passed to add, contains or search
    | EmptyTree         // getRoot on a tree without a root
    | IndexOutOfBounds  // next() reading past the end of the buffer

  datatype Result<+T> = Ok(value: T) | Err(error: Error)
}
