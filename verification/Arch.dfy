/**
 Constants of the kernel's memory management: x86-64 page tables and the largest page block.
 */
module Arch {

  const PAGE_SIZE := 0x1000
  const ENTRIES := 512

  // Present, writable, user
  const ATTR := 7

  const KERNEL_OFFSET := 0xffff_8000_0000_0000

  // Page blocks have orders below this
  const MAX_ORDER := 8

  function PageLowerAlign(addr: nat): nat {
    addr / PAGE_SIZE * PAGE_SIZE
  }
}
