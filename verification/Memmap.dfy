/** Memory-map entries and their types (common/mm/pmm.h). */
module Memmap {
  import opened Wrappers


  type u64 = x: nat | x < 0x1_0000_0000_0000_0000

  const USABLE: nat := 1
  const RESERVED: nat := 2
  const BAD_MEMORY: nat := 5
  const BOOTLOADER_RECLAIMABLE: nat := 0x1000
  const KERNEL_AND_MODULES: nat := 0x1001
  const FRAMEBUFFER: nat := 0x1002
  const RESERVED_MAPPED: nat := 0x1003
  const EFI_RECLAIMABLE: nat := 0x2000

  datatype Entry = Entry(base: u64, length: u64, kind: nat) {
    /** CHECKED_ADD(base, length) does not overflow 64 bits. */
    predicate Fits() {
      base + length < U64
    }

    function Top(): nat {
      base + length
    }

    /** The addresses the entry describes; code that finds an overflow ignores the entry. */
    predicate Covers(a: nat) {
      Fits() && base <= a < base + length
    }
  }
}
