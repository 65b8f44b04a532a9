/** The error numbers the drivers return, negated. */
module Errno {
  const ENOENT: int := 2
  const ENOTDIR: int := 20
  const EINVAL: int := 22
  const ENOSPC: int := 28
  const EROFS: int := 30
}
