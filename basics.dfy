/** Small shared vocabulary: bytes and an optional value. */
module Basics {

  /** One octet of an uploaded image or of a synthesized wav file. */
  newtype byte = x: int | 0 <= x < 256

  type Bytes = seq<byte>

  /** A value that may be missing: a cache miss, or a collaborator that raised. */
  datatype Option<+T> = None | Some(value: T)
}
