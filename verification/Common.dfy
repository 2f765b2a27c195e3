/** Bytes, error codes and results shared by every component. */
module Common {

  type byte = b: int | 0 <= b < 256
  type bytes = seq<byte>

  /** The error codes of include/gg/error.h that the modelled code returns. */
  datatype GgError =
    | OK
    | FAILURE
    | INVALID
    | PARSE
    | RANGE
    | NOMEM
    | NOCONN
    | NOENTRY
    | REMOTE
    | TIMEOUT

  datatype Option<+T> = None | Some(value: T)

  /** A value, or the error code returned in its place. */
  datatype Result<+T> = Success(value: T) | Failure(error: GgError) {
    function Code(): GgError {
      if Success? then OK else error
    }
  }

  const INT64_MAX: int := 0x7fff_ffff_ffff_ffff
  const INT64_MIN: int := -0x8000_0000_0000_0000
}
