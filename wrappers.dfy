/** Optional values and pass/fail outcomes, used for the source's nullable
    references and for the exceptions thrown by argument validation. */
module Wrappers {

  datatype Option<+T> = None | Some(value: T)

  datatype Outcome<+E> = Pass | Fail(error: E)
}
