/**
 * The shapes the validators return. The library's `validate` module is not
 * part of this model; only the values used by the two validators are
 * declared here.
 */
module Validation {
  import opened Wrappers

  /** `ValidationResult`: more input needed, rejected with a message, or accepted. */
  datatype ValidationResult =
    | Incomplete(nat)
    | Invalid(message: Option<string>)
    | Valid(message: Option<string>)

  /** The library's error type, which neither validator ever produces. */
  datatype ReadlineError = ReadlineError(description: string)
}
