/** Simulated memory: page table, coremap, frames, swap and counters (pagetable.c, swap.c,
    sim.c), updated in place and tied to the paging machine's cells and slots. */
module Memory {
  import opened Replay
  import opened Policies
  import opened PageEntries
  import opened Coremap
  import opened Paging
  import opened PageTable
  import opened SwapBitmap
  import opened Correspondence

  const SIMPAGESIZE := 16

  /** The 16 bytes of a simulated frame: a version counter and a copy of an address. */
  datatype Content = Content(version: nat, checkaddr: nat)

  /** The swap offset of a page whose slot is its place in slots. */
  function OffsetOf(slots: seq<Page>, p: Page): int {
    if p in slots then Index(slots, p) * SIMPAGESIZE else INVALID_SWAP
  }

  /** The first n slots. */
  function Slots(n: nat): (s: set<nat>)
    ensures forall i: nat :: i in s <==> i < n
  {
    if n == 0 then {} else Slots(n - 1) + {n - 1}
  }

  lemma MoreSlots(n: nat)
    ensures Slots(n + 1) == Slots(n) + {n} && n !in Slots(n)
  {
  }

  lemma OffsetGrow(slots: seq<Page>, p: Page)
    requires p !in slots && Distinct(slots)
    ensures Distinct(slots + [p])
    ensures forall q :: OffsetOf(slots + [p], q) == if q == p then |slots| * SIMPAGESIZE else OffsetOf(slots, q)
  {
    forall q ensures OffsetOf(slots + [p], q) == if q == p then |slots| * SIMPAGESIZE else OffsetOf(slots, q) {
      if q in slots { assert (slots + [p])[Index(slots, q)] == q; }
    }
  }

  /** The sixteen bytes of one page's slot lie apart from those of any other's, all within the slots. */
  lemma SlotsApart(slots: seq<Page>, p: Page, q: Page)
    requires p in slots && q in slots && p != q
    ensures 0 <= OffsetOf(slots, p) && OffsetOf(slots, p) + 16 <= 16 * |slots|
    ensures OffsetOf(slots, p) + 16 <= OffsetOf(slots, q) || OffsetOf(slots, q) + 16 <= OffsetOf(slots, p)
  {
    var i, j := Index(slots, p), Index(slots, q);
    assert slots[i] != slots[j];
  }

  class Memory {
    const memsize: nat
    const swapsize: nat
    const table: TwoLevel
    const coremap: array<Frame>
    const physmem: array<Content>
    const swapmap: Bitmap
    var swapfile: map<int, Content>
    var hitCount: nat
    var missCount: nat
    var evictCleanCount: nat
    var evictDirtyCount: nat

    /** main: frames not in use, an empty page table and an empty swap map. */
    constructor (memsize: nat, swapsize: nat)
      requires 0 < memsize <= 0x10_0000 && swapsize <= 0x800_0000
      ensures this.memsize == memsize && this.swapsize == swapsize
      ensures fresh(table) && fresh(table.pgdir) && fresh(coremap) && fresh(physmem)
              && fresh(swapmap) && fresh(swapmap.v)
      ensures table.Valid() && Shape() && FramesOk([], -1, -1) && SwapOk([]) && table.entry == map[] && table.ptes == {}
      ensures hitCount == missCount == evictCleanCount == evictDirtyCount == 0
    {
      this.memsize, this.swapsize := memsize, swapsize;
      table := new TwoLevel();
      coremap := new Frame[memsize](_ => Frame(false, null, 0, 0));
      physmem := new Content[memsize](_ => Content(0, 0));
      swapmap := new Bitmap(swapsize);
      swapfile := map[];
      hitCount, missCount, evictCleanCount, evictDirtyCount := 0, 0, 0, 0;
    }

    ghost predicate Shape()
      reads table
    {
      && 0 < memsize <= 0x10_0000 && coremap.Length == memsize && physmem.Length == memsize
      && Injective(table.entry) && -1 !in table.entry
    }

    /** Frame f is in use for cell c, and c's entry points back at f. */
    ghost predicate FrameHolds(f: nat, c: Cell)
      requires f < coremap.Length && f < physmem.Length
      reads table, table.ptes, coremap, physmem
    {
      && c.page in table.entry
      && var p := table.entry[c.page];
      && p in table.ptes
      && coremap[f].inUse && coremap[f].pte == p && coremap[f].vaddr / PAGE == c.page
      && physmem[f] == Content(c.version, c.stamp)
      && p.frame == FrameWord(f, true, 0 < c.version, p.frame.ref, false)
    }

    /** The frames hold the cells and only they are valid, except that frame hole and the
        entry of page pg are being worked on (-1 for none). */
    ghost predicate FramesOk(cells: seq<Cell>, hole: int, pg: Page)
      reads table, table.ptes, coremap, physmem
    {
      && |cells| <= memsize == coremap.Length == physmem.Length
      && (forall f :: 0 <= f < |cells| && f != hole ==> FrameHolds(f, cells[f]))
      && (forall f :: |cells| <= f < memsize && f != hole ==> !coremap[f].inUse)
      && (forall p :: p in table.entry ==> table.entry[p] in table.ptes)
      && (forall p :: p in table.entry && p != pg ==>
            var w := table.entry[p].frame;
            && !w.onSwap
            && (w.valid ==> w.number < |cells| && w.number != hole && cells[w.number].page == p))
    }

    /** Slots are handed out in order and their offsets are recorded in the entries. */
    ghost predicate SwapOk(slots: seq<Page>)
      reads table, table.ptes, swapmap.v
    {
      && swapmap.Valid() && swapmap.nbits == swapsize && Distinct(slots)
      && |slots| <= swapsize && swapmap.Used() == Slots(|slots|)
      && (forall p :: p in slots ==> p in table.entry)
      && (forall p :: p in table.entry ==> table.entry[p] in table.ptes && table.entry[p].swapOff == OffsetOf(slots, p))
    }

    /** The search at the start of allocate_frame: the first frame not in use, or -1. */
    method FindFree(ghost cells: seq<Cell>) returns (frame: int)
      requires FramesOk(cells, -1, -1)
      ensures frame == if |cells| < memsize then |cells| else -1
    {
      frame := -1;
      for i := 0 to memsize
        invariant i <= |cells| && frame == -1
      {
        assert i < |cells| ==> FrameHolds(i, cells[i]);
        if !coremap[i].inUse {
          frame := i;
          break;
        }
      }
    }

    /** swap_pageout: the content of a frame goes to the given offset, or to a new slot. */
    method SwapPageOut(frame: nat, swapOffset: int, ghost n: nat) returns (offset: int)
      requires swapmap.Valid() && frame < physmem.Length
      requires n <= swapmap.nbits && swapmap.Used() == Slots(n)
      modifies `swapfile, swapmap.v
      ensures swapmap.Valid()
      ensures offset == if swapOffset != INVALID_SWAP then swapOffset
                        else if n < swapmap.nbits then n * SIMPAGESIZE else INVALID_SWAP
      ensures swapmap.Used() == Slots(if swapOffset == INVALID_SWAP && n < swapmap.nbits then n + 1 else n)
      ensures offset != INVALID_SWAP ==> swapfile == old(swapfile)[offset := physmem[frame]]
    {
      offset := swapOffset;
      if offset == INVALID_SWAP {
        var r, idx := swapmap.Alloc();
        if r != 0 {
          assert n in Slots(n) || n == swapmap.nbits;
          return INVALID_SWAP;
        }
        MoreSlots(n);
        assert idx == n;
        offset := idx * SIMPAGESIZE;
      }
      swapfile := swapfile[offset := physmem[frame]];
    }

    /** A dirty victim is written out, under a shifted frame number (pagetable.c:44-51). */
    method WriteBack(pteOrig: Pte, frame: nat, ghost page: Page, ghost slots: seq<Page>) returns (ok: bool)
      requires Shape() && SwapOk(slots) && page in table.entry && table.entry[page] == pteOrig && frame < memsize
      modifies `swapfile, `evictDirtyCount, swapmap.v, pteOrig
      ensures ok <==> page in slots || |slots| < swapsize
      ensures ok ==> SwapOk(if page in slots then slots else slots + [page])
      ensures ok ==> pteOrig.frame == old(pteOrig.frame).(dirty := !old(pteOrig.frame).dirty)
      ensures ok ==> evictDirtyCount == old(evictDirtyCount) + 1
      ensures ok ==> swapfile == old(swapfile)[pteOrig.swapOff := physmem[frame / PAGE]]
      ensures pteOrig.frame.ref == old(pteOrig.frame).ref && pteOrig.frame.number == old(pteOrig.frame).number
    {
      if page !in slots { OffsetGrow(slots, page); }
      pteOrig.swapOff := SwapPageOut(frame / PAGE, pteOrig.swapOff, |slots|);
      if pteOrig.swapOff == INVALID_SWAP {
        return false;
      }
      pteOrig.frame := pteOrig.frame.(dirty := !pteOrig.frame.dirty);
      evictDirtyCount := evictDirtyCount + 1;
      ok := true;
    }

    lemma InFrame(frame: nat, cells: seq<Cell>)
      requires FramesOk(cells, -1, -1) && frame < |cells|
      ensures frame < coremap.Length && coremap[frame].pte != null
    {
      assert FrameHolds(frame, cells[frame]);
    }

    /** The victim's entry is no longer valid: its frame may be worked on. */
    method Invalidate(frame: nat, pteOrig: Pte, ghost cells: seq<Cell>)
      requires Shape() && FramesOk(cells, -1, -1) && frame < |cells| && pteOrig == coremap[frame].pte
      modifies pteOrig`frame
      ensures cells[frame].page in table.entry && pteOrig == table.entry[cells[frame].page]
              && FramesOk(cells, frame, -1)
      ensures pteOrig.frame == old(pteOrig.frame).(valid := false)
      ensures old(pteOrig.frame) == FrameWord(frame, true, 0 < cells[frame].version, pteOrig.frame.ref, false)
    {
      assert FrameHolds(frame, cells[frame]);
      pteOrig.frame := pteOrig.frame.(valid := !pteOrig.frame.valid);
    }

    /** Writing back leaves every frame and every other entry alone. */
    method WriteVictim(pteOrig: Pte, frame: nat, ghost cells: seq<Cell>, ghost slots: seq<Page>) returns (ok: bool)
      requires Shape() && FramesOk(cells, frame, -1) && SwapOk(slots) && frame < |cells|
      requires cells[frame].page in table.entry && pteOrig == table.entry[cells[frame].page] && !pteOrig.frame.valid
      modifies `swapfile, `evictDirtyCount, swapmap.v, pteOrig
      ensures ok <==> cells[frame].page in slots || |slots| < swapsize
      ensures ok ==> FramesOk(cells, frame, -1)
      ensures ok ==> SwapOk(if cells[frame].page in slots then slots else slots + [cells[frame].page])
      ensures ok ==> evictDirtyCount == old(evictDirtyCount) + 1
      ensures pteOrig.frame.ref == old(pteOrig.frame).ref && pteOrig.frame.number == old(pteOrig.frame).number
    {
      hide SwapOk;
      ok := WriteBack(pteOrig, frame, cells[frame].page, slots);
    }

    /** The eviction half of allocate_frame (pagetable.c:42-56). */
    method Evict(frame: nat, ghost m: Machine) returns (ok: bool, freed: nat)
      requires Shape() && FramesOk(m.cells, -1, -1) && SwapOk(m.slots) && frame < |m.cells|
      modifies `swapfile, `evictCleanCount, `evictDirtyCount, swapmap.v, coremap[frame].pte
      ensures ok <==> PageOut(swapsize, m, m.cells[frame]).Running?
      ensures freed == frame
      ensures ok ==> FramesOk(m.cells, frame, -1) && SwapOk(PageOut(swapsize, m, m.cells[frame]).m.slots)
      ensures ok ==> evictCleanCount - old(evictCleanCount) == PageOut(swapsize, m, m.cells[frame]).m.clean - m.clean
      ensures ok ==> evictDirtyCount - old(evictDirtyCount) == PageOut(swapsize, m, m.cells[frame]).m.dirty - m.dirty
      ensures forall p :: p in table.entry ==> table.entry[p].frame.ref == old(table.entry[p].frame).ref
    {
      hide FramesOk;
      InFrame(frame, m.cells);
      var pteOrig := coremap[frame].pte;
      Invalidate(frame, pteOrig, m.cells);
      ok := true;
      if pteOrig.frame.dirty {
        ok := WriteVictim(pteOrig, frame, m.cells, m.slots);
      } else {
        evictCleanCount := evictCleanCount + 1;
      }
      freed := pteOrig.frame.number;
    }

    /** The end of allocate_frame (pagetable.c:61-66): every flag of the entry but VALID is reset. */
    method Record(frame: nat, p: Pte, ghost page: Page, ghost cells: seq<Cell>)
      requires Shape() && FramesOk(cells, frame, -1) && frame < memsize && frame <= |cells|
      requires page in table.entry && p == table.entry[page] && !p.frame.valid
      modifies p`frame, coremap
      ensures FramesOk(cells, frame, page)
      ensures coremap[frame] == Frame(true, p, 0, 0) && p.frame == FrameWord(frame, true, false, false, false)
    {
      coremap[frame] := Frame(true, p, 0, 0);
      p.frame := FrameWord(frame, true, false, false, false);
    }

    /** init_frame: zero the frame and store the address. */
    method InitFrame(frame: nat, vaddr: nat, ghost page: Page, ghost cells: seq<Cell>)
      requires FramesOk(cells, frame, page) && frame < memsize
      modifies physmem
      ensures FramesOk(cells, frame, page) && physmem[frame] == Content(0, vaddr)
    {
      physmem[frame] := Content(0, vaddr);
    }

    /** The end of find_physpage before ref_fcn (pagetable.c:187-195). */
    method MarkReferenced(p: Pte, a: Access, ghost cells: seq<Cell>)
      requires Shape() && PageOf(a) in table.entry && p == table.entry[PageOf(a)]
      requires FramesOk(cells, p.frame.number, PageOf(a)) && p.frame.number < memsize
      modifies p`frame, coremap
      ensures FramesOk(cells, p.frame.number, PageOf(a))
      ensures p.frame == old(p.frame).(valid := true, dirty := old(p.frame).dirty || a.kind in {'S', 'M'}, ref := true)
      ensures coremap[p.frame.number] == old(coremap[p.frame.number]).(vaddr := a.vaddr)
    {
      p.frame := p.frame.(valid := true);
      if a.kind == 'S' || a.kind == 'M' {
        p.frame := p.frame.(dirty := true);
      }
      p.frame := p.frame.(ref := true);
      coremap[p.frame.number] := coremap[p.frame.number].(vaddr := a.vaddr);
    }

    /** The content check and the version counter of access_mem (sim.c:55-65). */
    method CheckAndCount(frame: nat, a: Access, ghost cells: seq<Cell>, ghost c: Cell) returns (asExpected: bool)
      requires Shape() && frame < memsize && frame <= |cells| && c.page == PageOf(a)
      requires FramesOk(cells, frame, c.page) && c.page in table.entry
      requires coremap[frame].inUse && coremap[frame].pte == table.entry[c.page] && coremap[frame].vaddr == a.vaddr
      requires physmem[frame].version + Count(IsWrite(a)) == c.version && physmem[frame].checkaddr == c.stamp
      requires table.entry[c.page].frame == FrameWord(frame, true, 0 < c.version, true, false)
      modifies physmem
      ensures asExpected <==> old(physmem[frame]).checkaddr == a.vaddr
      ensures physmem[frame].version == old(physmem[frame]).version + if a.kind in {'S', 'M'} then 1 else 0
      ensures physmem[frame].checkaddr == old(physmem[frame]).checkaddr
      ensures forall f | 0 <= f < physmem.Length && f != frame :: physmem[f] == old(physmem[f])
      ensures FramesOk(Place(cells, frame, c), -1, -1)
    {
      asExpected := physmem[frame].checkaddr == a.vaddr;
      if a.kind == 'S' || a.kind == 'M' {
        physmem[frame] := physmem[frame].(version := physmem[frame].version + 1);
      }
      ghost var cells' := Place(cells, frame, c);
      assert FrameHolds(frame, c);
      assert forall f :: 0 <= f < |cells'| && f != frame ==> cells'[f] == cells[f];
    }
  }
}
