/** The result of an operation that either yields a value or traps at run time. */
module Outcomes {

  datatype Outcome<T> = Ok(result: T) | Trap
}
