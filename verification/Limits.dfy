/** Sizes of the machine: 64-bit words, and the physical memory that bounds a reservation. */
module Limits {
  const TWO_63: int := 0x8000_0000_0000_0000
  const TWO_64: int := 0x1_0000_0000_0000_0000
  const PHYSICAL_MEMORY_SIZE: nat := 0x8000_0000
}
