/**
 * The parts of the memory-management layer that the syscall layer and the
 * task manager use: virtual-address decomposition, the `MapPermission` flag
 * set, and page-table translation viewed as a partial map.
 */
module Mm {
  import opened Config
  import opened Wrappers

  /** `VirtAddr::floor`: the virtual page number that holds `va`. */
  function Floor(va: Usize): (vpn: nat)
    ensures vpn * PAGE_SIZE <= va < (vpn + 1) * PAGE_SIZE
  {
    va / PAGE_SIZE
  }

  /** `VirtAddr::page_offset`: the position of `va` inside its page. */
  function PageOffset(va: Usize): (off: nat)
    ensures off < PAGE_SIZE
    ensures Floor(va) * PAGE_SIZE + off == va
  {
    va % PAGE_SIZE
  }

  /** `VirtAddr::is_align`: `va` is the first byte of a page. */
  predicate IsAligned(va: Usize)
    ensures IsAligned(va) <==> va == Floor(va) * PAGE_SIZE
  {
    PageOffset(va) == 0
  }

  /** `PhysAddr::from(PhysPageNum)`: the address of the first byte of page `ppn`. */
  function PageBase(ppn: nat): (pa: nat)
    ensures pa % PAGE_SIZE == 0 && pa / PAGE_SIZE == ppn
  {
    ppn * PAGE_SIZE
  }

  /**
   * Translation through a task's page table, from virtual page number to
   * physical page number; a page that is absent translates to nothing.
   */
  type PageTable = map<nat, nat>

  /** The `MapPermission` flag bits of a map area. */
  const PERM_R: bv8 := 0x02
  const PERM_W: bv8 := 0x04
  const PERM_X: bv8 := 0x08
  const PERM_U: bv8 := 0x10
  const PERM_ALL: bv8 := 0x1E

  datatype MapPermission = MapPermission(bits: bv8)

  /** `MapPermission::from_bits`: the flag set, or nothing when an undefined bit is set. */
  function FromBits(b: bv8): (p: Option<MapPermission>)
    ensures p.Some? <==> b & !PERM_ALL == 0
    ensures p.Some? ==> p.value.bits == b
  {
    if b & !PERM_ALL == 0 then Some(MapPermission(b)) else None
  }
}
