/** Addresses and sizes are 64-bit and unsigned; arithmetic on them wraps. */
module Addresses {
  const ADDRESS_SPACE: nat := 0x1_0000_0000_0000_0000

  type Address = a: int | 0 <= a < ADDRESS_SPACE witness 0

  const MAX_ADDRESS: Address := ADDRESS_SPACE - 1
}
