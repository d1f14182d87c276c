// Linux errno values returned (negated) by the fskit core.
module Errno {
  const EPERM: int := 1
  const ENOENT: int := 2
  const EIO: int := 5
  const EBADF: int := 9
  const ENOMEM: int := 12
  const EACCES: int := 13
  const EFAULT: int := 14
  const EEXIST: int := 17
  const ENOTDIR: int := 20
  const EISDIR: int := 21
  const EINVAL: int := 22
  const ENFILE: int := 23
  const ERANGE: int := 34
  const ENAMETOOLONG: int := 36
  const ENOSYS: int := 38
  const ENOTEMPTY: int := 39
  const ENODATA: int := 61
  // ENOATTR is an alias of ENODATA on Linux
  const ENOATTR: int := ENODATA
}
