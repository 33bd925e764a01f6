/** The coremap entry of one physical frame (struct frame in pagetable.h). */
module Coremap {
  import opened PageEntries

  const PAGE := 4096  // 1 << PAGE_SHIFT

  datatype Frame = Frame(inUse: bool, pte: Pte?, distance: int, vaddr: nat)
}
