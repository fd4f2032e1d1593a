/** Error results of the tree's operations. The source raises Python exceptions;
    here they are values that a caller can inspect. */
module Wrappers {

  /** The two exception classes the operations of the tree can raise. */
  datatype Error =
    | TypeError       // the `root` setter was given something that is not a node
    | AttributeError  // an attribute was read from or written to a missing node (`None`)

  /** The outcome of an operation whose only result is success or an exception. */
  datatype Outcome = Pass | Fail(error: Error)

  /** The outcome of an operation that returns a value or raises. */
  datatype Result<T> = Ok(value: T) | Err(error: Error)
}
