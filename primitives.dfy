/** Raw bytes, as Foundation's `Data` holds them. */
module Primitives {

  type Byte = b: int | 0 <= b < 256

  type Bytes = seq<Byte>
}
