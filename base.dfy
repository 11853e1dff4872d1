/** An optional value, usable with `:-` in the decoders. */
module Optional {

  datatype Option<+T> = None | Some(value: T) {

    predicate IsFailure() {
      None?
    }

    function PropagateFailure<U>(): Option<U>
      requires None?
    {
      None
    }

    function Extract(): T
      requires Some?
    {
      value
    }
  }
}

/**
 * The error codes the core returns, as negative status codes.
 * Only their identity matters to the model: they are distinct, non-zero,
 * and negative, as every iPXE status code is.
 */
module Errno {

  const EINVAL: int := -22
  const ENOMEM: int := -12
  const EAGAIN: int := -11
  const EPROTO: int := -71
  const ENOTSUP: int := -95
  const ECONNRESET: int := -104
  const ENOBUFS: int := -105
}
