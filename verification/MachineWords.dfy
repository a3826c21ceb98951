/** The sizes of machine integers, and what two components share of the machine. */
module MachineWords {
  const TWO_31: int := 0x8000_0000
  const TWO_32: int := 0x1_0000_0000
  const TWO_63: int := 0x8000_0000_0000_0000
  const TWO_64: int := 0x1_0000_0000_0000_0000

  /** PAGE_OFFSET: where the kernel's half of the address space begins. */
  const PAGE_OFFSET: nat := 0xffff_8000_0000_0000

  type Byte = x: int | 0 <= x < 256
}
