/** The `(string, error)` pair the string services return, and their one error value. */
module Reflectsvc {
  import opened Wrappers

  /** `ErrEmpty`, "empty string" (reflectsvc.go). */
  datatype ServiceError = ErrEmpty

  datatype Reply = Reply(value: string, err: Option<ServiceError>)
}
