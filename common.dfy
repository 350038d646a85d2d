/** Shared vocabulary: machine integers, optional values, Linux error codes
    and the `syscall_body!` translation of results into `ssize_t`. */
module Common {

  /** `u8` */
  newtype byte = x: int | 0 <= x < 256

  const USIZE_LIMIT: int := 0x1_0000_0000_0000_0000
  const ISIZE_MAX: int := 0x7fff_ffff_ffff_ffff

  /** `usize` on a 64-bit target */
  type usize = x: int | 0 <= x < USIZE_LIMIT

  /** The cast `n as isize`: the `isize` with the same 64-bit pattern as `n`,
      so values above `isize::MAX` wrap to negatives. */
  function AsIsize(n: usize): (r: int)
    ensures -ISIZE_MAX - 1 <= r <= ISIZE_MAX && (n - r) % USIZE_LIMIT == 0
  {
    if n <= ISIZE_MAX then n else n - USIZE_LIMIT
  }

  datatype Option<T> = None | Some(value: T)

  /** The part of `axerrno::LinuxError` this core can produce. */
  datatype LinuxError = EPERM | EBADF | EFAULT | EINVAL

  /** Linux errno numbers. */
  function Errno(e: LinuxError): (code: nat)
    ensures code > 0
  {
    match e
    case EPERM => 1
    case EBADF => 9
    case EFAULT => 14
    case EINVAL => 22
  }

  datatype Result<T> = Ok(value: T) | Err(error: LinuxError)

  /** `syscall_body!`: a success value is returned as is, an error as its negated errno. */
  function SyscallRet(r: Result<int>): (ret: int)
    ensures r.Err? ==> ret == -(Errno(r.error) as int) && ret < 0
    ensures r.Ok? ==> ret == r.value
  {
    match r
    case Ok(v) => v
    case Err(e) => -(Errno(e) as int)
  }
}
