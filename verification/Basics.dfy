/** Types that all parts of the model share. */
module Basics {
  datatype Option<+T> = None | Some(value: T)

  type byte = x: nat | x < 256

  type Bytes = seq<byte>
}
