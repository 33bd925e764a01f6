/** The two-level page table (pagetable.c, with the 64-bit trace layout of pagetable.h). */
module PageTable {
  import opened Replay
  import opened PageEntries
  import opened Coremap
  import opened Correspondence

  const PTRS_PER_PGDIR := 4096
  const PTRS_PER_PGTBL := 4096
  const PAGES := PTRS_PER_PGDIR * PTRS_PER_PGTBL
  const VADDRS := PAGES * PAGE  // 36-bit addresses

  function DirIndex(vaddr: nat): nat { vaddr / (PTRS_PER_PGTBL * PAGE) }

  function TblIndex(vaddr: nat): nat { vaddr / PAGE % PTRS_PER_PGTBL }

  /** The two indices of an address are the two halves of its page number, so two addresses
      share both indices exactly when they lie in one page. */
  lemma IndexPairIsPage(vaddr: nat, waddr: nat)
    requires vaddr < VADDRS
    ensures DirIndex(vaddr) < PTRS_PER_PGDIR && DirIndex(vaddr) * PTRS_PER_PGTBL + TblIndex(vaddr) == vaddr / PAGE
    ensures DirIndex(vaddr) == DirIndex(waddr) && TblIndex(vaddr) == TblIndex(waddr) <==> vaddr / PAGE == waddr / PAGE
  {
    assert vaddr / (PTRS_PER_PGTBL * PAGE) == vaddr / PAGE / PTRS_PER_PGTBL;
    assert waddr / (PTRS_PER_PGTBL * PAGE) == waddr / PAGE / PTRS_PER_PGTBL;
  }

  /** The halves of a page number. */
  function High(p: Page): int { p / PTRS_PER_PGTBL }

  function Low(p: Page): int { p % PTRS_PER_PGTBL }

  lemma HalvesOk()
    ensures forall q :: 0 <= q < PAGES ==> 0 <= High(q) < PTRS_PER_PGDIR
    ensures forall q :: 0 <= Low(q) < PTRS_PER_PGTBL
  {
  }

  class TwoLevel {
    const pgdir: array<seq<Pte>>     // a second-level table for each slot, [] where pde is 0
    ghost var entry: map<Page, Pte>  // the flat table this stands for
    ghost var ptes: set<Pte>         // its entries

    ghost predicate Valid()
      reads this, pgdir
    {
      && pgdir.Length == PTRS_PER_PGDIR
      && (forall d :: 0 <= d < PTRS_PER_PGDIR ==> pgdir[d] == [] || |pgdir[d]| == PTRS_PER_PGTBL)
      && (forall p :: p in entry <==> 0 <= p < PAGES && pgdir[High(p)] != [])
      && (forall p :: p in entry ==> entry[p] == pgdir[High(p)][Low(p)] && entry[p] in ptes)
      && Injective(entry)
    }

    /** init_pagetable. */
    constructor ()
      ensures Valid() && entry == map[] && ptes == {} && fresh(pgdir)
    {
      pgdir := new seq<Pte>[PTRS_PER_PGDIR](_ => []);
      entry := map[];
      ptes := {};
    }

    /** init_second_level: a table of zeroed entries, all different from any other. */
    static method InitSecondLevel() returns (pgtbl: seq<Pte>)
      ensures |pgtbl| == PTRS_PER_PGTBL
      ensures forall i :: 0 <= i < |pgtbl| ==>
                fresh(pgtbl[i]) && pgtbl[i].frame == FrameWord(0, false, false, false, false)
                    && pgtbl[i].swapOff == INVALID_SWAP
      ensures forall i, j :: 0 <= i < j < |pgtbl| ==> pgtbl[i] != pgtbl[j]
    {
      pgtbl := [];
      for i := 0 to PTRS_PER_PGTBL
        invariant |pgtbl| == i
        invariant forall j :: 0 <= j < i ==>
                  fresh(pgtbl[j]) && pgtbl[j].frame == FrameWord(0, false, false, false, false)
        invariant forall j :: 0 <= j < i ==> pgtbl[j].swapOff == INVALID_SWAP
        invariant forall j, m :: 0 <= j < m < i ==> pgtbl[j] != pgtbl[m]
      {
        var pte := new Pte();
        pgtbl := pgtbl + [pte];
      }
    }

    /** Make the second-level table of one directory slot. */
    method AddSecondLevel(idx: nat)
      requires Valid() && idx < PTRS_PER_PGDIR && pgdir[idx] == []
      modifies this, pgdir
      ensures Valid() && pgdir[idx] != []
      ensures forall q :: q in old(entry) ==> q in entry && entry[q] == old(entry)[q]
      ensures forall q :: q in entry && q !in old(entry) ==>
                && fresh(entry[q]) && entry[q].swapOff == INVALID_SWAP
                && entry[q].frame == FrameWord(0, false, false, false, false)
      ensures old(ptes) <= ptes && fresh(ptes - old(ptes))
    {
      hide Injective, High, Low;
      HalvesOk();
      var pgtbl := InitSecondLevel();
      pgdir[idx] := pgtbl;
      entry := entry + Added(idx, pgtbl);
      ptes := ptes + set x | x in pgtbl;
      Grown(idx, pgtbl, old(entry), old(ptes));
    }

    /** What one second-level table adds to the flat table. */
    static ghost function Added(idx: nat, pgtbl: seq<Pte>): (added: map<Page, Pte>)
      requires |pgtbl| == PTRS_PER_PGTBL
      ensures forall q :: q in added ==> added[q] in pgtbl
    {
      HalvesOk();
      map q | idx * PTRS_PER_PGTBL <= q < idx * PTRS_PER_PGTBL + PTRS_PER_PGTBL && High(q) == idx :: pgtbl[Low(q)]
    }

    /** The flat table with one more slot filled. */
    lemma Grown(idx: nat, pgtbl: seq<Pte>, before: map<Page, Pte>, known: set<Pte>)
      requires pgdir.Length == PTRS_PER_PGDIR && idx < PTRS_PER_PGDIR
               && pgdir[idx] == pgtbl && |pgtbl| == PTRS_PER_PGTBL
      requires forall d :: 0 <= d < PTRS_PER_PGDIR ==> pgdir[d] == [] || |pgdir[d]| == PTRS_PER_PGTBL
      requires forall p :: p in before <==> 0 <= p < PAGES && High(p) != idx && pgdir[High(p)] != []
      requires forall p :: p in before ==> before[p] == pgdir[High(p)][Low(p)] && before[p] in known
      requires Injective(before) && ptes == known + set x | x in pgtbl
      requires forall x | x in pgtbl :: x !in known
      requires forall i, j :: 0 <= i < j < |pgtbl| ==> pgtbl[i] != pgtbl[j]
      requires entry == before + Added(idx, pgtbl)
      ensures Valid()
    {
    }

    /** The walk at the start of find_physpage: the entry of an address, in a second-level
        table made on first use.  No existing translation changes. */
    method Locate(vaddr: nat) returns (p: Pte)
      requires Valid() && vaddr < VADDRS
      modifies this, pgdir
      ensures Valid() && vaddr / PAGE in entry && p == entry[vaddr / PAGE]
      ensures forall q :: q in old(entry) ==> q in entry && entry[q] == old(entry)[q]
      ensures forall q :: q in entry && q !in old(entry) ==>
                && fresh(entry[q]) && entry[q].swapOff == INVALID_SWAP
                && entry[q].frame == FrameWord(0, false, false, false, false)
      ensures old(ptes) <= ptes && fresh(ptes - old(ptes))
    {
      IndexPairIsPage(vaddr, vaddr);
      var idx := DirIndex(vaddr);
      if pgdir[idx] == [] {
        AddSecondLevel(idx);
      }
      p := pgdir[idx][TblIndex(vaddr)];
      assert High(vaddr / PAGE) == idx && Low(vaddr / PAGE) == TblIndex(vaddr);
    }
  }
}
