/** Sizes and status codes of include/nearcade.h and src/nearcade_internal.h. */
module Limits {
  const MAX_VIEWERS: nat := 64
  const MAX_SLOTS: nat := 16
  const ID_LEN: nat := 64

  const OK := 0
  const ERR_INIT := -1
  const ERR_PERMISSION := -2
  const ERR_NO_DEVICE := -3
  const ERR_INVALID_ARG := -5
}
