/** Failure-compatible wrapper used where the Python code returns `None`
    or raises. */
module Wrappers {

  /** `None` stands for Python's `None` result or for a raised `ValueError`. */
  datatype Option<+T> = None | Some(value: T)
}
