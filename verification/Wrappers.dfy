/** Option, and the results of operations that can fail with an error number. */
module Wrappers {
  datatype Option<+T> = None | Some(value: T)

  datatype Errno =
    | ENOENT | EIO | EEXIST | ENOTDIR | EISDIR | EINVAL | EFBIG | ENOSPC | EROFS
    | ENOTEMPTY | ENAMETOOLONG | EPIPE | ENOMEM | E2BIG | ENOEXEC | EBADF

  datatype Result<+T> = Ok(value: T) | Err(error: Errno)
}
