/** Permission bits that the storage code compares against. */
module Modes {
  /** 0o700, 0o600 and 0o777. */
  const PRIVATE_DIRECTORY: nat := 448
  const PRIVATE_FILE: nat := 384
  const PERMISSION_BITS: nat := 511
}
