/** Python `bytes`. */
module ByteStrings {
  type byte = x: int | 0 <= x < 256
  type Bytes = seq<byte>
}
