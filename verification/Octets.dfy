/** Bytes and hardware addresses as numbers. */
module Octets {
  type Octet = x: nat | x < 256

  type Mac = x: nat | x < 0x1_0000_0000_0000
}
