/** What several modules share: an optional result, and an allocator that may refuse. */
module Wrappers {
  datatype Option<+T> = None | Some(value: T)

  /** Whether an allocation succeeds is up to the system. */
  method Malloc() returns (ok: bool)
  {
    ok := *;
  }
}
