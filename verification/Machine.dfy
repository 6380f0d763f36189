/** The machine: word sizes, pages, and where kernel addresses begin (threads/vaddr.h). */
module Machine {
  const B32: nat := 0x1_0000_0000
  const B64: nat := 0x1_0000_0000_0000_0000
  const PGSIZE: nat := 4096
  const PHYS_BASE: nat := 0xc000_0000
}
