/** Bytes, and the hash functions that this model leaves open. */
module Bytes {

  /** uint8_t. */
  type Byte = x: int | 0 <= x < 256

  /** Any function of the bytes that returns at least four of them. */
  type Hash = h: seq<Byte> -> seq<Byte> | forall b :: |h(b)| >= 4 witness (b: seq<Byte>) => [0, 0, 0, 0]

}
