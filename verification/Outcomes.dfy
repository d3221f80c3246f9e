/** How the library reports a failed check: DIEIF ends the process with a message. */
module Outcomes {
  datatype Outcome<+T> = Ok(value: T) | Die(message: string)
}
