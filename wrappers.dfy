/** Option and Result: the outcomes the scraper's parsing steps produce in place of
    Python's `None` and of the exceptions that escape them. */
module Wrappers {

  datatype Option<+T> = None | Some(value: T)

  datatype Result<+T, +E> = Ok(value: T) | Err(error: E)
}
