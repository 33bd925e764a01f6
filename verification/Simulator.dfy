/** The simulator: find_physpage with a pluggable replacement algorithm, and the replay loop
    (pagetable.c, sim.c). */
module Simulator {
  import opened Replay
  import opened Policies
  import opened PageEntries
  import opened Coremap
  import opened Paging
  import opened PageTable
  import opened Memory
  import opened ReferenceList
  import opened OptPolicy
  import opened Correspondence
  import PagingLaws
  import Survival
  import Optimal

  /** The algs table of sim.c. */
  datatype Algorithm = Rand | Listed(pol: Policy) | Opt

  /** The victim frame of opt_evict: its page is used farthest ahead, and every frame before it holds
      a page used sooner. */
  ghost predicate FirstFarthest(cells: seq<Cell>, victim: nat, future: seq<Page>)
    requires victim < |cells|
  {
    && Optimal.Farthest(Resident(cells), future, cells[victim].page)
    && forall f :: 0 <= f < victim ==>
         Optimal.NextUse(future, cells[f].page) < Optimal.NextUse(future, cells[victim].page)
  }

  /** One access as the algorithm demands it: before and cells are the list and the frames
      before the access, now is the list after it, future the references still to come. */
  ghost predicate Obeyed(alg: Algorithm, k: nat, cells: seq<Cell>, victim: nat, page: Page,
                         before: Queue<Page>, now: Queue<Page>, future: seq<Page>)
  {
    var needed := NeedsVictim(k, Resident(cells), page);
    && (needed ==> victim < |cells|)
    && (alg.Listed? ==>
          && 0 < k && now == Policies.Access(alg.pol, k, before, page)
          && (needed ==> cells[victim].page == VictimOf(alg.pol, k, before, page)))
    && (alg.Opt? && needed ==> FirstFarthest(cells, victim, future))
  }

  lemma FutureOnlyForOpt(alg: Algorithm, k: nat, cells: seq<Cell>, victim: nat, page: Page,
                         before: Queue<Page>, now: Queue<Page>, future: seq<Page>, future': seq<Page>)
    requires Obeyed(alg, k, cells, victim, page, before, now, future) && (alg.Opt? ==> future == future')
    ensures Obeyed(alg, k, cells, victim, page, before, now, future')
  {
  }

  /** For a list policy, the list after t is the policy's, and holds the resident pages. */
  ghost predicate ListedProgress(pol: Policy, k: nat, t: seq<Access>, m: Machine, q: Queue<Page>) {
    && 0 < k && q == ListAfter(pol, k, PagesOf(t)) && m.misses == Misses(pol, k, PagesOf(t))
    && Elements(q.list) == Resident(m.cells)
  }

  /** A run part of the way through a trace: m and q are what the lines t, replayed with the
      victim frames vs, make of memory and of the reference list. */
  ghost predicate Progress(alg: Algorithm, k: nat, swapsize: nat, lines: seq<Access>, vs: seq<nat>, m: Machine,
                           q: Queue<Page>)
  {
    && |vs| <= |lines| && InRange(k, lines[..|vs|], vs)
    && Run(k, swapsize, lines[..|vs|], vs) == Running(m)
    && (alg.Listed? ==> ListedProgress(alg.pol, k, lines[..|vs|], m, q))
    && (alg.Opt? ==> Optimal.FarthestSoFar(k, PagesOf(lines), PageVictims(k, swapsize, lines[..|vs|], vs)))
  }

  /** The list after a reference has been noted; without a list policy, just the bit. */
  ghost function Noted(alg: Algorithm, q: Queue<Page>, page: Page): Queue<Page> {
    if alg.Listed? then Refer(alg.pol, q, page) else q.(marked := q.marked + {page})
  }

  lemma ListedStep(pol: Policy, k: nat, swapsize: nat, t: seq<Access>, m: Machine, q: Queue<Page>, a: Access, v: nat,
                   q': Queue<Page>)
    requires ListedProgress(pol, k, t, m, q) && v < k && PagingLaws.OnePerFrame(m.cells) && |m.cells| <= k
    requires Step(k, swapsize, m, a, v).Running?
    requires Obeyed(Listed(pol), k, m.cells, v, PageOf(a), q, q', [])
    ensures ListedProgress(pol, k, t + [a], Step(k, swapsize, m, a, v).m, q')
  {
    hide Step, Policies.Access, VictimOf, Sound, Elements, Resident, ListAfter, Misses, PagesOf;
    var p := PageOf(a);
    PagingLaws.StepCells(k, swapsize, m, a, v);
    PagingLaws.CellsNext(k, m.cells, a, v);
    AfterSound(pol, k, PagesOf(t));
    AccessSound(pol, k, q, p);
    ListedSnoc(pol, k, t, a);
  }

  lemma ListedSnoc(pol: Policy, k: nat, t: seq<Access>, a: Access)
    requires 0 < k
    ensures ListAfter(pol, k, PagesOf(t + [a])) == Policies.Access(pol, k, ListAfter(pol, k, PagesOf(t)), PageOf(a))
    ensures Misses(pol, k, PagesOf(t + [a])) ==
            Misses(pol, k, PagesOf(t)) + if PageOf(a) in ListAfter(pol, k, PagesOf(t)).list then 0 else 1
  {
    hide ListAfter, Misses, Policies.Access, Victims;
    assert PagesOf(t + [a]) == PagesOf(t) + [PageOf(a)];
    OneMore(pol, k, PagesOf(t), PageOf(a));
  }

  lemma OptStep(k: nat, swapsize: nat, lines: seq<Access>, vs: seq<nat>, m: Machine, v: nat)
    requires |vs| < |lines| && InRange(k, lines[..|vs|], vs) && Run(k, swapsize, lines[..|vs|], vs) == Running(m)
             && v < k
    requires Optimal.FarthestSoFar(k, PagesOf(lines), PageVictims(k, swapsize, lines[..|vs|], vs))
    requires NeedsVictim(k, Resident(m.cells), PageOf(lines[|vs|])) ==>
               v < |m.cells| && Optimal.Farthest(Resident(m.cells), PagesOf(lines)[|vs| + 1..], m.cells[v].page)
    ensures InRange(k, lines[..|vs| + 1], vs + [v])
    ensures Optimal.FarthestSoFar(k, PagesOf(lines), PageVictims(k, swapsize, lines[..|vs| + 1], vs + [v]))
  {
    hide Run, PageVictims, Optimal.FarthestSoFar, Optimal.Farthest, After, Faults, Legal, Resident;
    var t, a, ps := lines[..|vs|], lines[|vs|], PageVictims(k, swapsize, lines[..|vs|], vs);
    PagingLaws.RunIsReplay(k, swapsize, t, vs);
    PagingLaws.PageVictimsSnoc(k, swapsize, t, vs, a, v);
    assert lines[..|vs| + 1] == t + [a];
    assert PagesOf(lines)[..|vs|] == PagesOf(t);
    Optimal.FarthestExtend(k, PagesOf(lines), ps, PageAt(Running(m), v));
  }

  lemma ProgressStep(alg: Algorithm, k: nat, swapsize: nat, lines: seq<Access>, vs: seq<nat>, m: Machine,
                     q: Queue<Page>, v: nat, q': Queue<Page>)
    requires Progress(alg, k, swapsize, lines, vs, m, q) && |vs| < |lines| && v < k
    requires Step(k, swapsize, m, lines[|vs|], v).Running?
    requires Obeyed(alg, k, m.cells, v, PageOf(lines[|vs|]), q, q', PagesOf(lines)[|vs| + 1..])
    ensures Progress(alg, k, swapsize, lines, vs + [v], Step(k, swapsize, m, lines[|vs|], v).m, q')
  {
    hide Run, ListedProgress, Step, PageVictims, PagesOf, Policies.Access, VictimOf;
    hide Optimal.FarthestSoFar, Optimal.Farthest, PagingLaws.OnePerFrame;
    var t, a := lines[..|vs|], lines[|vs|];
    assert lines[..|vs| + 1] == t + [a];
    PagingLaws.RunSnoc(k, swapsize, t, vs, a, v);
    PagingLaws.RunConsistent(k, swapsize, t, vs);
    if alg.Listed? { ListedStep(alg.pol, k, swapsize, t, m, q, a, v, q'); }
    if alg.Opt? { OptStep(k, swapsize, lines, vs, m, v); }
  }

  class Simulator {
    const alg: Algorithm
    const mem: Memory
    const refs: RefList
    const trace: TraceList
    var refCount: nat
    ghost var m: Machine       // the paging machine this has reached
    ghost var q: Queue<Page>   // the reference list, as pages

    /** Memory holds the machine's state, but for a frame and an entry being worked on. */
    ghost predicate Working(hole: int, page: Page)
      reads `m, mem, mem.table, mem.table.ptes, mem.coremap, mem.physmem, mem.swapmap.v
    {
      && mem.Shape() && mem.FramesOk(m.cells, hole, page) && mem.SwapOk(m.slots)
      && mem.hitCount == m.hits && mem.missCount == m.misses
      && mem.evictCleanCount == m.clean && mem.evictDirtyCount == m.dirty
      && PagingLaws.OnePerFrame(m.cells)
    }

    ghost predicate MemoryOk()
      reads `m, mem, mem.table, mem.table.ptes, mem.coremap, mem.physmem, mem.swapmap.v
    {
      Working(-1, -1)
    }

    /** main: memory, then init_fcn, which for OPT reads the trace beforehand. */
    constructor (alg: Algorithm, memsize: nat, swapsize: nat, lines: seq<Access>)
      requires 0 < memsize <= 0x10_0000 && swapsize <= 0x800_0000 && (alg.Listed? ==> 2 <= memsize)
      requires forall i :: 0 <= i < |lines| ==> lines[i].vaddr < VADDRS
      ensures this.alg == alg && mem.memsize == memsize && mem.swapsize == swapsize
      ensures AtStart(lines) && refs.repr == {} && refs.ptes == [] && mem.table.ptes == {}
      ensures fresh(mem) && fresh(mem.coremap) && fresh(mem.physmem) && fresh(mem.swapmap.v)
      ensures fresh(mem.table) && fresh(mem.table.pgdir) && fresh(refs) && fresh(trace)
    {
      hide AtStart;
      this.alg := alg;
      mem := new Memory(memsize, swapsize);
      refs := new RefList();
      var vaddrs := seq(if alg.Opt? then |lines| else 0, i requires 0 <= i < |lines| => lines[i].vaddr);
      trace := new TraceList(vaddrs);
      refCount := 0;
      m, q := Start, Queue([], {});
      new;
      NothingYet(lines);
    }

    /** Empty memory and an empty list are in order. */
    lemma NothingYet(lines: seq<Access>)
      requires mem.table.Valid() && mem.Shape() && mem.FramesOk([], -1, -1) && mem.SwapOk([])
      requires mem.hitCount == mem.missCount == mem.evictCleanCount == mem.evictDirtyCount == 0
      requires m == Start && q == Queue([], {}) && refCount == 0 && (alg.Listed? ==> 2 <= mem.memsize)
      requires refs.nodes == [] && refs.ptes == [] && refs.head == null
      requires alg.Opt? ==> trace.Valid() && trace.pos == 0 && trace.pages == PagesOf(lines)
      requires forall i :: 0 <= i < |lines| ==> lines[i].vaddr < VADDRS
      ensures AtStart(lines)
    {
    }

    lemma FrameOf(f: nat)
      requires MemoryOk() && f < |m.cells|
      ensures m.cells[f].page in mem.table.entry && mem.table.entry[m.cells[f].page].frame.number == f
      ensures mem.coremap[f].vaddr / PAGE == m.cells[f].page
      ensures mem.coremap[f].pte == mem.table.entry[m.cells[f].page] && mem.coremap[f].pte in mem.table.ptes
    {
      assert mem.FrameHolds(f, m.cells[f]);
    }

    /** The reference list holds exactly the given pages. */
    ghost predicate ListOk(pages: set<Page>)
      reads `q, mem.table, refs, refs.nodes, refs.ptes
    {
      if alg.Listed? then
        && refs.Shaped(alg.pol)
        && Related(mem.table.entry, q, refs.Contents())
        && Distinct(q.list) && Elements(q.list) == pages
      else
        refs.ptes == []
    }

    /** OPT stands at the next reference. */
    ghost predicate TraceOk()
      reads `refCount, trace, trace.nodes
    {
      alg.Opt? ==> trace.Valid() && trace.pos == refCount
    }

    ghost function Future(): seq<Page>
      reads trace
    {
      if trace.pos < |trace.pages| then trace.pages[trace.pos + 1..] else []
    }

    /** What the list will give up, as a page, an entry and a frame. */
    lemma ListedVictim(pol: Policy) returns (f: nat)
      requires MemoryOk() && alg == Listed(pol) && ListOk(Resident(m.cells)) && 0 < |m.cells|
      ensures f < |m.cells| && |refs.nodes| == |m.cells|
      ensures q.list != [] && Evict(pol, q).victim == m.cells[f].page
      ensures refs.ptes != [] && Evict(pol, refs.Contents()).victim.frame.number == f
      ensures Related(mem.table.entry, Evict(pol, q).rest, Evict(pol, refs.Contents()).rest)
      ensures Distinct(Evict(pol, q).rest.list)
      ensures Elements(Evict(pol, q).rest.list) == Resident(m.cells) - {m.cells[f].page}
    {
      PagingLaws.ResidentSize(m.cells);
      DistinctSize(q.list);
      EvictRelated(pol, mem.table.entry, q, refs.Contents());
      EvictSound(pol, q);
      f := Find(m.cells, Evict(pol, q).victim);
      assert Evict(pol, q).victim in Elements(q.list);
      PagingLaws.FindResident(m.cells, Evict(pol, q).victim);
      FrameOf(f);
    }

    method EvictListed(pol: Policy) returns (frame: nat)
      requires MemoryOk() && alg == Listed(pol) && ListOk(Resident(m.cells))
      requires |m.cells| == mem.memsize && 2 <= mem.memsize
      modifies `q, refs, refs.repr`next, refs.ptes`frame
      ensures MemoryOk() && frame < mem.memsize
      ensures ListOk(Resident(m.cells) - {m.cells[frame].page})
      ensures old(q).list != [] && Evict(pol, old(q)) == Eviction(m.cells[frame].page, q)
      ensures refs.repr == old(refs.repr)
    {
      hide Working;
      ghost var f := ListedVictim(pol);
      ghost var rest := Evict(pol, q).rest;
      frame := EvictKeepingMemory(pol);
      q := rest;
    }

    /** The hand clears reference bits and touches nothing else of any entry. */
    method EvictKeepingWords(pol: Policy) returns (frame: nat)
      requires refs.Shaped(pol) && 2 <= |refs.nodes|
      modifies refs, refs.repr`next, refs.ptes`frame
      ensures forall p :: p in mem.table.ptes ==> p.frame == old(p.frame).(ref := p.frame.ref)
      ensures refs.Shaped(pol) && refs.Contents() == Evict(pol, old(refs.Contents())).rest
      ensures frame == old(Evict(pol, refs.Contents()).victim.frame.number)
      ensures refs.repr == old(refs.repr)
    {
      hide Evict;
      EvictSound(pol, refs.Contents());
      ghost var victim := Evict(pol, refs.Contents()).victim;
      frame := refs.EvictBy(pol);
      assert victim in old(refs.ptes);
    }

    /** So memory stays as it was. */
    method EvictKeepingMemory(pol: Policy) returns (frame: nat)
      requires MemoryOk() && refs.Shaped(pol) && 2 <= |refs.nodes|
      modifies refs, refs.repr`next, refs.ptes`frame
      ensures MemoryOk() == old(MemoryOk()) && refs.Shaped(pol)
      ensures refs.Contents() == Evict(pol, old(refs.Contents())).rest
      ensures frame == old(Evict(pol, refs.Contents()).victim.frame.number)
      ensures refs.repr == old(refs.repr)
    {
      hide Evict, refs.Shaped, PagingLaws.OnePerFrame;
      frame := EvictKeepingWords(pol);
      forall f | 0 <= f < |m.cells| ensures mem.FrameHolds(f, m.cells[f]) {
        assert old(mem.FrameHolds(f, m.cells[f]));
      }
    }

    method EvictFarthest() returns (frame: nat)
      requires MemoryOk() && alg.Opt? && TraceOk() && trace.pos < |trace.nodes| && |m.cells| == mem.memsize
      modifies mem.coremap
      ensures MemoryOk() && TraceOk() && frame < mem.memsize
      ensures FirstFarthest(m.cells, frame, Future())
    {
      forall f | 0 <= f < |m.cells| ensures mem.coremap[f].vaddr / PAGE == m.cells[f].page { FrameOf(f); }
      frame := trace.OptEvict(mem.coremap);
      assert m.cells[frame] in m.cells;
    }

    /** evict_fcn: the frame of a victim, which the reference list gives up. */
    method EvictFcn() returns (frame: nat)
      requires MemoryOk() && ListOk(Resident(m.cells)) && TraceOk()
      requires |m.cells| == mem.memsize && (alg.Listed? ==> 2 <= mem.memsize)
      requires alg.Opt? ==> trace.pos < |trace.nodes|
      modifies `q, refs, refs.repr`next, refs.ptes`frame, mem.coremap
      ensures MemoryOk() && frame < mem.memsize
      ensures ListOk(Resident(m.cells) - {m.cells[frame].page})
      ensures alg.Listed? ==> old(q).list != [] && Evict(alg.pol, old(q)) == Eviction(m.cells[frame].page, q)
      ensures alg.Opt? ==> TraceOk() && FirstFarthest(m.cells, frame, Future())
      ensures refs.repr == old(refs.repr)
    {
      match alg {
        case Rand =>
          frame :| frame < mem.memsize;
        case Listed(pol) =>
          frame := EvictListed(pol);
        case Opt =>
          frame := EvictFarthest();
      }
    }

    /** The table walk of find_physpage; a new second-level table changes nothing else. */
    method Translate(vaddr: nat, ghost pages: set<Page>) returns (p: Pte)
      requires mem.table.Valid() && MemoryOk() && ListOk(pages) && vaddr < VADDRS
      modifies mem.table, mem.table.pgdir
      ensures mem.table.Valid() && MemoryOk() && ListOk(pages)
      ensures vaddr / PAGE in mem.table.entry && p == mem.table.entry[vaddr / PAGE]
      ensures old(mem.table.ptes) <= mem.table.ptes && fresh(mem.table.ptes - old(mem.table.ptes))
    {
      p := mem.table.Locate(vaddr);
      assert refs.Contents() == old(refs.Contents());
      if alg.Listed? { RelatedGrow(old(mem.table.entry), mem.table.entry, q, refs.Contents()); }
    }

    /** Write the victim back if it is dirty and note the eviction. */
    method PageOutMemory(frame: nat) returns (ok: bool, freed: nat)
      requires MemoryOk() && frame < |m.cells|
      modifies `m, mem`swapfile, mem`evictCleanCount, mem`evictDirtyCount, mem.swapmap.v, mem.coremap[frame].pte
      ensures ok <==> PageOut(mem.swapsize, old(m), old(m).cells[frame]).Running?
      ensures ok ==> m == PageOut(mem.swapsize, old(m), old(m).cells[frame]).m && Working(frame, -1)
      ensures freed == frame
      ensures forall p :: p in mem.table.entry ==> mem.table.entry[p].frame.ref == old(mem.table.entry[p].frame.ref)
    {
      hide mem.FramesOk, mem.SwapOk, PagingLaws.OnePerFrame;
      FrameOf(frame);
      ok, freed := mem.Evict(frame, m);
      if ok {
        m := PageOut(mem.swapsize, m, m.cells[frame]).m;
      }
    }

    /** The reference list is not touched. */
    method PageOutVictim(frame: nat, ghost pages: set<Page>) returns (ok: bool, freed: nat)
      requires MemoryOk() && ListOk(pages) && frame < |m.cells|
      modifies `m, mem`swapfile, mem`evictCleanCount, mem`evictDirtyCount, mem.swapmap.v, mem.coremap[frame].pte
      ensures ok <==> PageOut(mem.swapsize, old(m), old(m).cells[frame]).Running?
      ensures ok ==> m == PageOut(mem.swapsize, old(m), old(m).cells[frame]).m && Working(frame, -1)
      ensures freed == frame && ListOk(pages)
    {
      hide PagingLaws.OnePerFrame, Distinct, mem.SwapOk;
      ok, freed := PageOutMemory(frame);
      if alg.Listed? {
        forall p | p in refs.ptes ensures p.frame.ref == old(p.frame.ref) {
          var i := Index(refs.ptes, p);
          assert refs.ptes[i] == mem.table.entry[q.list[i]];
        }
        assert refs.Marked() == old(refs.Marked());
      }
    }

    /** allocate_frame with every frame in use (pagetable.c:36-57). */
    method EvictFrame() returns (frame: int, ghost victim: nat)
      requires MemoryOk() && ListOk(Resident(m.cells)) && TraceOk() && |m.cells| == mem.memsize
      requires alg.Listed? ==> 2 <= mem.memsize
      requires alg.Opt? ==> trace.pos < |trace.nodes|
      modifies `m, `q, refs, refs.repr`next, refs.ptes`frame, mem.coremap
      modifies mem`swapfile, mem`evictCleanCount, mem`evictDirtyCount, mem.swapmap.v, mem.table.ptes
      ensures victim < mem.memsize
      ensures var o := PageOut(mem.swapsize, old(m), old(m).cells[victim]);
              && frame == (if o.Running? then victim else INVALID_SWAP)
              && (o.Running? ==> m == o.m && Working(frame, -1))
      ensures TraceOk() && ListOk(Resident(old(m).cells) - {old(m).cells[victim].page})
      ensures alg.Listed? ==> old(q).list != [] && Evict(alg.pol, old(q)) == Eviction(old(m).cells[victim].page, q)
      ensures alg.Opt? ==> FirstFarthest(old(m).cells, victim, Future())
      ensures refs.repr == old(refs.repr)
    {
      hide Working, ListOk, Optimal.Farthest;
      frame := EvictFcn();
      victim := frame;
      FrameOf(frame);
      var ok, freed := PageOutVictim(frame, Resident(m.cells) - {m.cells[frame].page});
      frame := if ok then freed else INVALID_SWAP;
    }

    /** What the invariants say without their definitions. */
    lemma Facts(page: Page)
      requires MemoryOk() && ListOk(Resident(m.cells))
      ensures 0 < mem.memsize && |m.cells| <= mem.memsize && PagingLaws.OnePerFrame(m.cells)
      ensures page in mem.table.entry ==> mem.table.entry[page] in mem.table.ptes
      ensures alg.Listed? ==> Distinct(q.list) && Elements(q.list) == Resident(m.cells)
    {
    }

    /** An entry is valid exactly when its page is resident, and then it knows the frame. */
    lemma ValidIffResident(page: Page)
      requires MemoryOk() && page in mem.table.entry
      ensures var w, f := mem.table.entry[page].frame, Find(m.cells, page);
              && !w.onSwap && (w.valid <==> f < |m.cells|) && (w.valid ==> w.number == f)
      ensures page in Resident(m.cells) <==> mem.table.entry[page].frame.valid
    {
      var f := Find(m.cells, page);
      PagingLaws.FindResident(m.cells, page);
      if f < |m.cells| { assert mem.FrameHolds(f, m.cells[f]); }
    }

    /** Count a miss; the DIRTY flag set here is reset again by allocate_frame. */
    method StartMiss(p: Pte, page: Page, ghost pages: set<Page>)
      requires MemoryOk() && ListOk(pages)
      requires page in mem.table.entry && p == mem.table.entry[page] && !p.frame.valid
      modifies `m, mem`missCount, p`frame
      ensures MemoryOk() && ListOk(pages) && !p.frame.valid
      ensures m == old(m).(misses := old(m).misses + 1)
    {
      mem.missCount := mem.missCount + 1;
      m := m.(misses := m.misses + 1);
      p.frame := p.frame.(dirty := true);
      assert refs.Marked() == old(refs.Marked());
    }

    /** A frame not in use may be worked on. */
    lemma Frames()
      requires MemoryOk() && ListOk(Resident(m.cells))
      ensures mem.FramesOk(m.cells, -1, -1) && 0 < mem.memsize && |m.cells| <= mem.memsize
      ensures |m.cells| < mem.memsize ==> Working(|m.cells|, -1)
    {
    }

    /** The first half of allocate_frame: a free frame, or a victim's. */
    method TakeFrame() returns (frame: int, ghost victim: nat)
      requires MemoryOk() && ListOk(Resident(m.cells)) && TraceOk()
      requires alg.Listed? ==> 2 <= mem.memsize
      requires alg.Opt? ==> trace.pos < |trace.nodes|
      modifies `m, `q, refs, refs.repr`next, refs.ptes`frame, mem.coremap
      modifies mem`swapfile, mem`evictCleanCount, mem`evictDirtyCount, mem.swapmap.v, mem.table.ptes
      ensures victim < mem.memsize
      ensures var o := MakeRoom(mem.memsize, mem.swapsize, old(m), victim);
              && frame == (if o.Running? then Target(mem.memsize, old(m), victim) else INVALID_SWAP)
              && (o.Running? ==> m == o.m && Working(frame, -1) && frame <= |m.cells|)
      ensures TraceOk() && Taken(old(m).cells, victim, old(q))
      ensures refs.repr == old(refs.repr)
    {
      hide Working, ListOk;
      Frames();
      victim := 0;
      frame := mem.FindFree(m.cells);
      if frame == -1 {
        frame, victim := EvictFrame();
      }
    }

    /** The pages listed while the access is under way, given the frames before it. */
    ghost function PagesInWork(cells: seq<Cell>, page: Page, victim: nat): set<Page>
    {
      if page in Resident(cells) || |cells| < mem.memsize || |cells| <= victim then Resident(cells)
      else Resident(cells) - {cells[victim].page}
    }

    /** What evict_fcn has done, if it was called: the victim is off the list, and is the
        one the algorithm names. */
    ghost predicate Taken(cells: seq<Cell>, victim: nat, before: Queue<Page>)
      reads `q, mem.table, refs, refs.nodes, refs.ptes, trace
    {
      if |cells| < mem.memsize then ListOk(Resident(cells)) && q == before
      else
        && victim < |cells|
        && ListOk(Resident(cells) - {cells[victim].page})
        && (alg.Listed? ==> before.list != [] && Evict(alg.pol, before) == Eviction(cells[victim].page, q))
        && (alg.Opt? ==> FirstFarthest(cells, victim, Future()))
    }

    lemma TakenLists(page: Page, victim: nat, before: Queue<Page>)
      requires Taken(m.cells, victim, before) && page !in Resident(m.cells)
      ensures ListOk(PagesInWork(m.cells, page, victim))
    {
    }

    /** Frame f holds c for entry p, before the access is noted in the flags. */
    ghost predicate Holding(p: Pte, f: nat, c: Cell)
      reads `m, mem, mem.table, mem.table.ptes, mem.coremap, mem.physmem, mem.swapmap.v, p
    {
      && Working(f, c.page) && f <= |m.cells| && f < mem.memsize
      && c.page in mem.table.entry && p == mem.table.entry[c.page]
      && mem.coremap[f].inUse && mem.coremap[f].pte == p && mem.physmem[f] == Content(c.version, c.stamp)
      && p.frame == FrameWord(f, true, 0 < c.version, p.frame.ref, false)
    }

    /** Record the page in its frame and zero the frame. */
    method FillFrame(frame: nat, p: Pte, a: Access)
      requires Working(frame, -1) && frame <= |m.cells| && frame < mem.memsize
      requires PageOf(a) in mem.table.entry && p == mem.table.entry[PageOf(a)] && PageOf(a) !in Resident(m.cells)
      modifies p`frame, mem.coremap, mem.physmem
      ensures Holding(p, frame, Cell(PageOf(a), a.vaddr, 0)) && p.frame.number == frame
    {
      PagingLaws.FindResident(m.cells, PageOf(a));
      mem.Record(frame, p, PageOf(a), m.cells);
      mem.InitFrame(p.frame.number, a.vaddr, PageOf(a), m.cells);
    }

    /** The page is new to the algorithm, so its entry is not on the list. */
    method NewPage(frame: nat, p: Pte, a: Access, ghost victim: nat, ghost before: Queue<Page>)
      requires Working(frame, -1) && Taken(m.cells, victim, before) && frame <= |m.cells| && frame < mem.memsize
      requires PageOf(a) in mem.table.entry && p == mem.table.entry[PageOf(a)] && PageOf(a) !in Resident(m.cells)
      modifies p`frame, mem.coremap, mem.physmem
      ensures Holding(p, frame, Cell(PageOf(a), a.vaddr, 0)) && p.frame.number == frame
      ensures Taken(m.cells, victim, before) == old(Taken(m.cells, victim, before))
    {
      hide Holding;
      NotListed(p, PageOf(a), victim, before);
      FillFrame(frame, p, a);
      assert refs.Marked() == old(refs.Marked());
    }

    lemma NotListed(p: Pte, page: Page, victim: nat, before: Queue<Page>)
      requires mem.Shape() && Taken(m.cells, victim, before) && page !in Resident(m.cells)
      requires page in mem.table.entry && p == mem.table.entry[page]
      ensures alg.Listed? ==> p !in refs.ptes
    {
      if alg.Listed? {
        RelatedMember(mem.table.entry, q, refs.Contents(), page);
        assert page !in Elements(q.list);
      }
    }

    /** allocate_frame and init_frame for a page that is not resident. */
    method FetchPage(p: Pte, a: Access) returns (ok: bool, ghost victim: nat)
      requires MemoryOk() && ListOk(Resident(m.cells)) && TraceOk()
      requires PageOf(a) in mem.table.entry && p == mem.table.entry[PageOf(a)] && PageOf(a) !in Resident(m.cells)
      requires alg.Listed? ==> 2 <= mem.memsize
      requires alg.Opt? ==> trace.pos < |trace.nodes|
      modifies `m, `q, refs, refs.repr`next, refs.ptes`frame, mem.coremap, mem.physmem
      modifies mem`swapfile, mem`evictCleanCount, mem`evictDirtyCount, mem.swapmap.v, mem.table.ptes
      ensures victim < mem.memsize
      ensures ok <==> MakeRoom(mem.memsize, mem.swapsize, old(m), victim).Running?
      ensures ok ==> p.frame.number == Target(mem.memsize, old(m), victim) && p.frame.number <= |m.cells|
      ensures ok ==>
              Holding(p, p.frame.number, Cell(PageOf(a), a.vaddr, 0)) && ListOk(PagesInWork(m.cells, PageOf(a), victim))
      ensures ok ==> Taken(old(m).cells, victim, old(q)) && TraceOk()
      ensures ok ==> m == MakeRoom(mem.memsize, mem.swapsize, old(m), victim).m
      ensures refs.repr == old(refs.repr)
    {
      hide Working, ListOk, Holding, Taken;
      Facts(PageOf(a));
      var frame;
      frame, victim := TakeFrame();
      ok := frame != INVALID_SWAP;
      if ok {
        NewPage(frame, p, a, victim, old(q));
        TakenLists(PageOf(a), victim, old(q));
      }
    }

    /** The state find_physpage leaves just before ref_fcn: frame f is ready for access a, and
        will hold c once the access is counted. */
    ghost predicate Ready(a: Access, f: nat, c: Cell)
      reads `m, mem, mem.table, mem.table.ptes, mem.coremap, mem.physmem, mem.swapmap.v
    {
      && Working(f, PageOf(a)) && f <= |m.cells| && f < mem.memsize
      && c.page == PageOf(a) && c.page in mem.table.entry
      && mem.coremap[f].inUse && mem.coremap[f].pte == mem.table.entry[c.page] && mem.coremap[f].vaddr == a.vaddr
      && mem.physmem[f].version + Count(IsWrite(a)) == c.version && mem.physmem[f].checkaddr == c.stamp
      && mem.table.entry[c.page].frame == FrameWord(f, true, 0 < c.version, true, false)
    }

    /** Setting a bit that is set changes no entry. */
    method ReferKeepingWords(pol: Policy, p: Pte)
      requires refs.Shaped(pol) && refs.Identified(p) && p.frame.ref
      modifies refs, refs.repr`next, p`frame
      ensures forall e :: e in mem.table.ptes ==> e.frame == old(e.frame)
      ensures p.frame == old(p.frame)
      ensures refs.Shaped(pol) && refs.Contents() == Refer(pol, old(refs.Contents()), p)
      ensures old(refs.repr) <= refs.repr && fresh(refs.repr - old(refs.repr))
    {
      hide Refer;
      refs.ReferBy(pol, p);
    }

    /** So memory stays as it was. */
    method ReferKeepingMemory(pol: Policy, p: Pte, a: Access, ghost c: Cell)
      requires Ready(a, p.frame.number, c) && p == mem.table.entry[PageOf(a)]
      requires refs.Shaped(pol) && refs.Identified(p)
      modifies refs, refs.repr`next, p`frame
      ensures Ready(a, p.frame.number, c) == old(Ready(a, p.frame.number, c))
      ensures p.frame == old(p.frame)
      ensures refs.Shaped(pol) && refs.Contents() == Refer(pol, old(refs.Contents()), p)
      ensures old(refs.repr) <= refs.repr && fresh(refs.repr - old(refs.repr))
    {
      hide Refer, refs.Shaped, PagingLaws.OnePerFrame;
      ReferKeepingWords(pol, p);
      forall f | 0 <= f < |m.cells| && f != p.frame.number ensures mem.FrameHolds(f, m.cells[f]) {
        assert old(mem.FrameHolds(f, m.cells[f]));
      }
    }

    method ReferListed(pol: Policy, p: Pte, a: Access, ghost c: Cell, ghost pages: set<Page>)
      requires PageOf(a) in mem.table.entry && Ready(a, p.frame.number, c) && p == mem.table.entry[PageOf(a)]
      requires alg == Listed(pol) && ListOk(pages)
      requires pages <= Resident(Place(m.cells, p.frame.number, c))
      modifies `q, refs, refs.repr`next, p`frame
      ensures Ready(a, p.frame.number, c) == old(Ready(a, p.frame.number, c))
      ensures p.frame == old(p.frame) && ListOk(pages + {PageOf(a)})
      ensures q == Refer(pol, old(q), PageOf(a))
      ensures old(refs.repr) <= refs.repr && fresh(refs.repr - old(refs.repr))
    {
      hide Ready, Related, Distinct, Refer;
      ghost var q' := Refer(pol, q, PageOf(a));
      Identify(p, a, c, pages);
      ReferRelated(pol, mem.table.entry, q, refs.Contents(), PageOf(a));
      ReferSound(pol, q, PageOf(a));
      ReferKeepingMemory(pol, p, a, c);
      q := q';
    }

    lemma NothingListed(pages: set<Page>, pages': set<Page>)
      requires !alg.Listed? && ListOk(pages)
      ensures ListOk(pages')
    {
    }

    /** ref_fcn and the reference count. */
    method RefFcn(p: Pte, a: Access, ghost c: Cell, ghost pages: set<Page>)
      requires Ready(a, p.frame.number, c) && PageOf(a) in mem.table.entry
      requires p == mem.table.entry[PageOf(a)] && ListOk(pages) && TraceOk()
      requires pages <= Resident(Place(m.cells, p.frame.number, c))
      requires alg.Opt? ==> trace.pos < |trace.nodes|
      modifies `q, `refCount, refs, refs.repr`next, p`frame, trace
      ensures Ready(a, p.frame.number, c) == old(Ready(a, p.frame.number, c))
      ensures p.frame == old(p.frame) && ListOk(pages + {PageOf(a)}) && TraceOk()
      ensures q == if alg.Listed? then Refer(alg.pol, old(q), PageOf(a)) else old(q)
      ensures refCount == old(refCount) + 1 && trace.nodes == old(trace.nodes) && trace.pages == old(trace.pages)
      ensures old(refs.repr) <= refs.repr && fresh(refs.repr - old(refs.repr))
    {
      hide Ready, ListOk;
      match alg {
        case Rand =>
          NothingListed(pages, pages + {PageOf(a)});
        case Listed(pol) =>
          ReferListed(pol, p, a, c, pages);
        case Opt =>
          NothingListed(pages, pages + {PageOf(a)});
          trace.Advance();
      }
      refCount := refCount + 1;
    }

    /** The words of the listed entries have their own frame numbers, also as the 32-bit values that
        the lists compare. */
    lemma Identify(p: Pte, a: Access, c: Cell, pages: set<Page>)
      requires Ready(a, p.frame.number, c) && p == mem.table.entry[PageOf(a)] && alg.Listed? && ListOk(pages)
      requires pages <= Resident(Place(m.cells, p.frame.number, c))
      ensures refs.Identified(p) && Injective(mem.table.entry)
      ensures p.frame.ref
      ensures forall i | 0 <= i < |refs.ptes| :: Pack(refs.ptes[i].frame) == Pack(p.frame) ==> refs.ptes[i] == p
    {
      hide Pack, PagingLaws.OnePerFrame, mem.SwapOk;
      forall i | 0 <= i < |refs.ptes| && (refs.ptes[i].frame == p.frame || Pack(refs.ptes[i].frame) == Pack(p.frame))
        ensures refs.ptes[i] == p
      {
        assert q.list[i] in Elements(q.list);
        var cells := Place(m.cells, p.frame.number, c);
        var g :| 0 <= g < |cells| && cells[g].page == q.list[i];
        if g != p.frame.number {
          assert mem.FrameHolds(g, m.cells[g]);
          PackFaithful(refs.ptes[i].frame, p.frame);
        }
      }
    }

    /** A hit: the frame found through the entry. */
    method HitPage(p: Pte, a: Access)
      requires MemoryOk() && PageOf(a) in mem.table.entry && p == mem.table.entry[PageOf(a)] && p.frame.valid
      modifies `m, mem`hitCount
      ensures Find(m.cells, PageOf(a)) < |m.cells|
      ensures p.frame.number == Find(m.cells, PageOf(a))
      ensures Holding(p, p.frame.number, m.cells[p.frame.number])
      ensures m == old(m).(hits := old(m).hits + 1)
    {
      ValidIffResident(PageOf(a));
      mem.hitCount := mem.hitCount + 1;
      m := m.(hits := m.hits + 1);
      assert mem.FrameHolds(p.frame.number, m.cells[p.frame.number]);
    }

    /** Set the flags of the entry that is being used; a listed entry gains its mark. */
    method Mark(p: Pte, a: Access, ghost c: Cell, ghost pages: set<Page>)
      requires Holding(p, p.frame.number, c) && c.page == PageOf(a) && ListOk(pages)
      modifies p`frame, mem.coremap, `q
      ensures Ready(a, p.frame.number, Touch(c, a)) && p.frame.number == old(p.frame.number)
      ensures ListOk(pages) && q == Queue(old(q).list, old(q).marked + {c.page})
    {
      mem.MarkReferenced(p, a, m.cells);
      if alg.Listed? {
        MarkRelated(mem.table.entry, q, old(refs.Contents()), refs.Marked(), c.page);
      }
      q := Queue(q.list, q.marked + {c.page});
    }

    /** The page is in its frame, after a run of which before and asked were the machine and the
        list. */
    ghost predicate Obtained(p: Pte, a: Access, victim: nat, c: Cell, before: Machine, asked: Queue<Page>)
      reads `m, `q, `refCount, mem, mem.table, mem.table.ptes, mem.coremap, mem.physmem, mem.swapmap.v, p
      reads refs, refs.nodes, refs.ptes, trace, trace.nodes
    {
      && Holding(p, p.frame.number, c) && c.page == PageOf(a) && TraceOk() && m.cells == before.cells
      && p.frame.number <= |m.cells| && ListOk(PagesInWork(before.cells, PageOf(a), victim))
      && if PageOf(a) in Resident(before.cells) then q == asked else Taken(before.cells, victim, asked)
    }

    /** A page that is not resident is counted as a miss and given a zeroed frame. */
    method ObtainMiss(p: Pte, a: Access) returns (ok: bool, ghost victim: nat)
      requires MemoryOk() && ListOk(Resident(m.cells)) && TraceOk()
      requires PageOf(a) in mem.table.entry && p == mem.table.entry[PageOf(a)] && !p.frame.valid
      requires alg.Listed? ==> 2 <= mem.memsize
      requires alg.Opt? ==> trace.pos < |trace.nodes|
      modifies `m, `q, refs, refs.repr`next, refs.ptes`frame, mem.coremap, mem.physmem, mem`missCount
      modifies mem`swapfile, mem`evictCleanCount, mem`evictDirtyCount, mem.swapmap.v, mem.table.ptes
      ensures victim < mem.memsize
      ensures ok <==> Step(mem.memsize, mem.swapsize, old(m), a, victim).Running?
      ensures ok ==> Obtained(p, a, victim, Cell(PageOf(a), a.vaddr, 0), old(m), old(q))
      ensures ok ==> Step(mem.memsize, mem.swapsize, old(m), a, victim).m ==
                     m.(cells := Place(m.cells, p.frame.number, Touch(Cell(PageOf(a), a.vaddr, 0), a)))
      ensures refs.repr == old(refs.repr)
    {
      hide Working, ListOk, Holding, Taken;
      ValidIffResident(PageOf(a));
      Facts(PageOf(a));
      StartMiss(p, PageOf(a), Resident(m.cells));
      ok, victim := FetchPage(p, a);
      MissesDoNotMatter(mem.memsize, mem.swapsize, old(m), victim, old(m).misses + 1);
    }

    /** The branch of find_physpage on the VALID bit.  No entry ever has PG_ONSWAP, so a page
        that is not resident is always given a zeroed frame. */
    method Obtain(p: Pte, a: Access) returns (ok: bool, ghost victim: nat, ghost c: Cell)
      requires MemoryOk() && ListOk(Resident(m.cells)) && TraceOk()
      requires PageOf(a) in mem.table.entry && p == mem.table.entry[PageOf(a)]
      requires alg.Listed? ==> 2 <= mem.memsize
      requires alg.Opt? ==> trace.pos < |trace.nodes|
      modifies `m, `q, refs, refs.repr`next, refs.ptes`frame, mem.coremap, mem.physmem, mem`hitCount, mem`missCount
      modifies mem`swapfile, mem`evictCleanCount, mem`evictDirtyCount, mem.swapmap.v, mem.table.ptes
      ensures victim < mem.memsize
      ensures ok <==> Step(mem.memsize, mem.swapsize, old(m), a, victim).Running?
      ensures ok ==> Obtained(p, a, victim, c, old(m), old(q))
      ensures ok ==> Step(mem.memsize, mem.swapsize, old(m), a, victim).m ==
                     m.(cells := Place(m.cells, p.frame.number, Touch(c, a)))
      ensures refs.repr == old(refs.repr)
    {
      hide Working, ListOk, Holding, Taken;
      ValidIffResident(PageOf(a));
      if p.frame.valid {
        ok, victim, c := true, 0, m.cells[Find(m.cells, PageOf(a))];
        PagingLaws.FindResident(m.cells, PageOf(a));
        Facts(PageOf(a));
        HitPage(p, a);
      } else {
        if p.frame.onSwap {
          assert false;
        }
        c := Cell(PageOf(a), a.vaddr, 0);
        ok, victim := ObtainMiss(p, a);
      }
    }

    lemma PagesAfter(before: Machine, a: Access, victim: nat, f: nat, c: Cell)
      requires victim < mem.memsize && |before.cells| <= mem.memsize && PagingLaws.OnePerFrame(before.cells)
      requires Step(mem.memsize, mem.swapsize, before, a, victim).Running?
      requires Place(before.cells, f, c) == Step(mem.memsize, mem.swapsize, before, a, victim).m.cells
      requires f <= |before.cells| && c.page == PageOf(a)
      ensures var pages, after := PagesInWork(before.cells, PageOf(a), victim), Resident(Place(before.cells, f, c));
              pages <= after && pages + {PageOf(a)} == after
      ensures PagingLaws.OnePerFrame(Place(before.cells, f, c))
    {
      PagingLaws.StepCells(mem.memsize, mem.swapsize, before, a, victim);
      PagingLaws.CellsNext(mem.memsize, before.cells, a, victim);
      PagingLaws.ResidentSize(before.cells);
    }

    /** The end of find_physpage: note the access in the entry, tell the algorithm. */
    method NoteReference(p: Pte, a: Access, ghost c: Cell, ghost pages: set<Page>)
      requires Holding(p, p.frame.number, c) && c.page == PageOf(a) && ListOk(pages) && TraceOk()
      requires PageOf(a) in mem.table.entry && p == mem.table.entry[PageOf(a)]
      requires pages <= Resident(Place(m.cells, p.frame.number, Touch(c, a)))
      requires alg.Opt? ==> trace.pos < |trace.nodes|
      modifies `q, `refCount, refs, refs.repr`next, p`frame, mem.coremap, trace
      ensures Ready(a, p.frame.number, Touch(c, a)) && p.frame.number == old(p.frame.number)
      ensures ListOk(pages + {PageOf(a)}) && TraceOk()
      ensures q == Noted(alg, old(q), PageOf(a))
      ensures refCount == old(refCount) + 1 && trace.nodes == old(trace.nodes) && trace.pages == old(trace.pages)
      ensures old(refs.repr) <= refs.repr && fresh(refs.repr - old(refs.repr))
    {
      hide Ready, Holding, ListOk;
      Mark(p, a, c, pages);
      RefFcn(p, a, Touch(c, a), pages);
    }

    lemma ObeyedAfter(cells: seq<Cell>, victim: nat, page: Page, before: Queue<Page>, mid: Queue<Page>,
                      now: Queue<Page>)
      requires 0 < mem.memsize && |cells| <= mem.memsize && PagingLaws.OnePerFrame(cells)
      requires alg.Listed? ==> Distinct(before.list) && Elements(before.list) == Resident(cells)
      requires now == Noted(alg, mid, page)
      requires if page in Resident(cells) then mid == before else Taken(cells, victim, before) && mid == q
      ensures Obeyed(alg, mem.memsize, cells, victim, page, before, now, Future())
    {
      PagingLaws.ResidentSize(cells);
      if alg.Listed? { DistinctSize(before.list); }
      assert alg.Listed? ==> (page in before.list <==> page in Elements(before.list));
    }

    /** The access a is noted and frame is ready for it, which will then hold c: one step of the
        machine, as the algorithm demands it. */
    ghost predicate Referenced(a: Access, frame: nat, victim: nat, c: Cell, before: Machine, asked: Queue<Page>,
                               future: seq<Page>)
      reads `m, `q, `refCount, mem, mem.table, mem.table.ptes, mem.coremap, mem.physmem, mem.swapmap.v
      reads refs, refs.nodes, refs.ptes, trace, trace.nodes
    {
      && Ready(a, frame, c) && TraceOk() && m.cells == before.cells && c.page == PageOf(a) && frame <= |m.cells|
      && victim < mem.memsize
      && Step(mem.memsize, mem.swapsize, before, a, victim) == Running(m.(cells := Place(m.cells, frame, c)))
      && ListOk(Resident(Place(m.cells, frame, c)))
      && Obeyed(alg, mem.memsize, before.cells, victim, PageOf(a), asked, q, future)
    }

    /** And now the reference is noted. */
    method Conclude(p: Pte, a: Access, ghost victim: nat, ghost c: Cell, ghost before: Machine,
                    ghost asked: Queue<Page>)
      requires Obtained(p, a, victim, c, before, asked) && PageOf(a) in mem.table.entry
               && p == mem.table.entry[PageOf(a)]
      requires 0 < mem.memsize && |before.cells| <= mem.memsize && PagingLaws.OnePerFrame(before.cells)
      requires alg.Listed? ==> Distinct(asked.list) && Elements(asked.list) == Resident(before.cells)
      requires victim < mem.memsize && Step(mem.memsize, mem.swapsize, before, a, victim).Running?
      requires Step(mem.memsize, mem.swapsize, before, a, victim).m
               == m.(cells := Place(m.cells, p.frame.number, Touch(c, a)))
      requires alg.Opt? ==> trace.pos < |trace.nodes|
      modifies `q, `refCount, refs, refs.repr`next, p`frame, mem.coremap, trace
      ensures Referenced(a, old(p.frame.number), victim, Touch(c, a), before, asked, old(Future()))
      ensures refCount == old(refCount) + 1 && trace.nodes == old(trace.nodes) && trace.pages == old(trace.pages)
      ensures old(refs.repr) <= refs.repr && fresh(refs.repr - old(refs.repr))
    {
      hide Working, ListOk, Holding, Ready, Taken, Obeyed, PagesInWork, Step, Place, Noted, Resident, TraceOk,
           Elements, Distinct, Future, PagingLaws.OnePerFrame;
      PagesAfter(before, a, victim, p.frame.number, Touch(c, a));
      ObeyedAfter(before.cells, victim, PageOf(a), asked, q, Noted(alg, q, PageOf(a)));
      NoteReference(p, a, c, PagesInWork(before.cells, PageOf(a), victim));
    }

    /** find_physpage from the entry on. */
    method Reference(p: Pte, a: Access) returns (ok: bool, frame: nat, ghost victim: nat, ghost c: Cell)
      requires MemoryOk() && ListOk(Resident(m.cells)) && TraceOk()
      requires PageOf(a) in mem.table.entry && p == mem.table.entry[PageOf(a)]
      requires alg.Listed? ==> 2 <= mem.memsize
      requires alg.Opt? ==> trace.pos < |trace.nodes|
      modifies this, refs, refs.repr`next, refs.ptes`frame, mem, mem.coremap, mem.physmem, mem.swapmap.v
      modifies mem.table.ptes, trace
      ensures victim < mem.memsize
      ensures ok <==> Step(mem.memsize, mem.swapsize, old(m), a, victim).Running?
      ensures ok ==> Referenced(a, frame, victim, c, old(m), old(q), old(Future()))
      ensures ok ==> refCount == old(refCount) + 1 && trace.nodes == old(trace.nodes) && trace.pages == old(trace.pages)
      ensures old(refs.repr) <= refs.repr && fresh(refs.repr - old(refs.repr))
    {
      hide ListOk, Obtained, Referenced, Step, Place, Resident, TraceOk, Elements, Distinct, Future,
          MemoryOk, PagingLaws.OnePerFrame;
      ghost var before := m;
      Facts(PageOf(a));
      ok, victim, c := Obtain(p, a);
      frame := p.frame.number;
      if ok {
        Conclude(p, a, victim, c, before, old(q));
        c := Touch(c, a);
      }
    }

    /** Between two trace lines. */
    ghost predicate Valid()
      reads this, refs, refs.nodes, refs.ptes, trace, trace.nodes
      reads mem, mem.table, mem.table.ptes, mem.coremap, mem.physmem, mem.swapmap.v
      reads mem.table.pgdir
    {
      && mem.table.Valid() && MemoryOk() && ListOk(Resident(m.cells)) && TraceOk()
      && (alg.Listed? ==> 2 <= mem.memsize)
    }

    lemma FrameFacts()
      requires Valid()
      ensures |m.cells| <= mem.memsize && PagingLaws.OnePerFrame(m.cells) && (alg.Listed? ==> 2 <= mem.memsize)
    {
    }

    /** find_physpage: translate, then reference the page. */
    method FindPhyspage(a: Access) returns (ok: bool, frame: nat, ghost victim: nat, ghost c: Cell)
      requires Valid() && a.vaddr < VADDRS
      requires alg.Opt? ==> trace.pos < |trace.nodes|
      modifies this, refs, refs.repr`next, refs.ptes`frame, mem, mem.coremap, mem.physmem, mem.swapmap.v
      modifies mem.table, mem.table.pgdir, mem.table.ptes, trace
      ensures victim < mem.memsize
      ensures ok <==> Step(mem.memsize, mem.swapsize, old(m), a, victim).Running?
      ensures ok ==> mem.table.Valid() && Referenced(a, frame, victim, c, old(m), old(q), old(Future()))
      ensures ok ==> refCount == old(refCount) + 1 && trace.nodes == old(trace.nodes) && trace.pages == old(trace.pages)
      ensures old(refs.repr) <= refs.repr && fresh(refs.repr - old(refs.repr))
      ensures old(mem.table.ptes) <= mem.table.ptes && fresh(mem.table.ptes - old(mem.table.ptes))
    {
      hide Working, ListOk, Referenced, Step;
      var p := Translate(a.vaddr, Resident(m.cells));
      ok, frame, victim, c := Reference(p, a);
    }

    /** What follows from an access that has been noted. */
    lemma ReferencedPages(a: Access, frame: nat, victim: nat, c: Cell, before: Machine, asked: Queue<Page>,
                          future: seq<Page>)
      requires Referenced(a, frame, victim, c, before, asked, future)
      requires |before.cells| <= mem.memsize && PagingLaws.OnePerFrame(before.cells)
      ensures Ready(a, frame, c) && TraceOk() && PagingLaws.OnePerFrame(Place(m.cells, frame, c))
      ensures ListOk(Resident(Place(m.cells, frame, c))) && frame <= |m.cells| && c.page == PageOf(a)
      ensures Step(mem.memsize, mem.swapsize, before, a, victim) == Running(m.(cells := Place(m.cells, frame, c)))
      ensures Obeyed(alg, mem.memsize, before.cells, victim, PageOf(a), asked, q, future)
    {
      hide Ready, ListOk, Obeyed, Step, Resident, TraceOk, PagesInWork, PagingLaws.OnePerFrame;
      PagesAfter(before, a, victim, frame, c);
    }

    /** The counter in page's frame, or 0 if it has none. */
    ghost function VersionOf(page: Page): int
      reads `m, mem, mem.physmem
    {
      var f := Find(m.cells, page);
      if f < |m.cells| && f < mem.physmem.Length then mem.physmem[f].version else 0
    }

    lemma VersionIs(page: Page)
      requires Valid()
      ensures VersionOf(page) == Survival.Held(m.cells, page)
    {
      var f := Find(m.cells, page);
      if f < |m.cells| { assert mem.FrameHolds(f, m.cells[f]); }
    }

    lemma VersionsAre()
      requires Valid()
      ensures forall p :: VersionOf(p) == Survival.Held(m.cells, p)
    {
      hide Valid, VersionOf;
      forall p ensures VersionOf(p) == Survival.Held(m.cells, p) { VersionIs(p); }
    }

    /** The check and the counter of access_mem. */
    method Account(frame: nat, a: Access, ghost c: Cell) returns (asExpected: bool)
      requires Ready(a, frame, c) && PagingLaws.OnePerFrame(Place(m.cells, frame, c))
               && frame <= |m.cells| && c.page == PageOf(a)
      requires mem.table.Valid() && ListOk(Resident(Place(m.cells, frame, c))) && TraceOk()
               && (alg.Listed? ==> 2 <= mem.memsize)
      modifies `m, mem.physmem
      ensures Valid() && m == old(m).(cells := Place(old(m).cells, frame, c))
      ensures exists f ::
              0 <= f < |m.cells| && m.cells[f].page == PageOf(a) && (asExpected <==> m.cells[f].stamp == a.vaddr)
    {
      hide ListOk, TraceOk, Resident, mem.FramesOk, mem.SwapOk;
      asExpected := mem.CheckAndCount(frame, a, m.cells, c);
      m := m.(cells := Place(m.cells, frame, c));
      assert m.cells[frame] == c;
    }

    /** The access a is done: one step of the machine, and the answer of the check. */
    ghost predicate Accessed(a: Access, asExpected: bool, victim: nat, before: Machine, asked: Queue<Page>,
                             future: seq<Page>)
      reads this, refs, refs.nodes, refs.ptes, trace, trace.nodes
      reads mem, mem.table, mem.table.ptes, mem.coremap, mem.physmem, mem.swapmap.v
      reads mem.table.pgdir
    {
      && Valid() && victim < mem.memsize && Step(mem.memsize, mem.swapsize, before, a, victim) == Running(m)
      && Obeyed(alg, mem.memsize, before.cells, victim, PageOf(a), asked, q, future)
      && exists f :: 0 <= f < |m.cells| && m.cells[f].page == PageOf(a) && (asExpected <==> m.cells[f].stamp == a.vaddr)
    }

    /** access_mem, one trace line. */
    method AccessLine(a: Access) returns (ok: bool, asExpected: bool, ghost victim: nat)
      requires Valid() && a.vaddr < VADDRS
      requires alg.Opt? ==> trace.pos < |trace.nodes|
      modifies this, refs, refs.repr`next, refs.ptes`frame, mem, mem.coremap, mem.physmem, mem.swapmap.v
      modifies mem.table, mem.table.pgdir, mem.table.ptes, trace
      ensures victim < mem.memsize
      ensures ok <==> Step(mem.memsize, mem.swapsize, old(m), a, victim).Running?
      ensures ok ==> Accessed(a, asExpected, victim, old(m), old(q), old(Future()))
      ensures ok ==> refCount == old(refCount) + 1 && trace.nodes == old(trace.nodes) && trace.pages == old(trace.pages)
      ensures old(refs.repr) <= refs.repr && fresh(refs.repr - old(refs.repr))
      ensures old(mem.table.ptes) <= mem.table.ptes && fresh(mem.table.ptes - old(mem.table.ptes))
    {
      hide Valid, ListOk, Ready, Referenced, Obeyed, TraceOk, Step, PagingLaws.OnePerFrame, Resident, Future;
      asExpected := true;
      ghost var before := m;
      FrameFacts();
      var frame;
      ghost var c;
      ok, frame, victim, c := FindPhyspage(a);
      if ok {
        ReferencedPages(a, frame, victim, c, before, old(q), old(Future()));
        asExpected := Account(frame, a, c);
      }
    }

    lemma AccessedFacts(a: Access, asExpected: bool, victim: nat, before: Machine, asked: Queue<Page>,
                        future: seq<Page>)
      requires Accessed(a, asExpected, victim, before, asked, future)
      requires |before.cells| <= mem.memsize && PagingLaws.OnePerFrame(before.cells)
      ensures Valid() && Step(mem.memsize, mem.swapsize, before, a, victim) == Running(m)
      ensures Obeyed(alg, mem.memsize, before.cells, victim, PageOf(a), asked, q, future)
      ensures exists f ::
                0 <= f < |m.cells| && m.cells[f].page == PageOf(a) && (asExpected <==> m.cells[f].stamp == a.vaddr)
      ensures VersionOf(PageOf(a)) == Survival.Held(before.cells, PageOf(a)) + if a.kind in {'S', 'M'} then 1 else 0
      ensures forall p | p in Resident(m.cells) && p != PageOf(a) :: VersionOf(p) == Survival.Held(before.cells, p)
    {
      hide Valid, Obeyed, Step, VersionOf, Survival.Held, Resident, PagingLaws.OnePerFrame;
      VersionsAre();
      HeldAfter(mem.memsize, mem.swapsize, before, a, victim);
    }

    /** access_mem: the machine's step and the check; and the counter of the page's frame goes up by
        one exactly on S and M, that of no other frame. */
    method AccessMem(a: Access) returns (ok: bool, asExpected: bool, ghost victim: nat)
      requires Valid() && a.vaddr < VADDRS
      requires alg.Opt? ==> trace.pos < |trace.nodes|
      modifies this, refs, refs.repr`next, refs.ptes`frame, mem, mem.coremap, mem.physmem, mem.swapmap.v
      modifies mem.table, mem.table.pgdir, mem.table.ptes, trace
      ensures victim < mem.memsize
      ensures var o := Step(mem.memsize, mem.swapsize, old(m), a, victim);
              (ok <==> o.Running?) && (ok ==> m == o.m)
      ensures !ok || Valid()
      ensures !ok || Obeyed(alg, mem.memsize, old(m).cells, victim, PageOf(a), old(q), q, old(Future()))
      ensures ok ==> refCount == old(refCount) + 1 && trace.nodes == old(trace.nodes) && trace.pages == old(trace.pages)
      ensures ok ==> exists f ::
                0 <= f < |m.cells| && m.cells[f].page == PageOf(a) && (asExpected <==> m.cells[f].stamp == a.vaddr)
      ensures ok ==> VersionOf(PageOf(a)) == old(VersionOf(PageOf(a))) + if a.kind in {'S', 'M'} then 1 else 0
      ensures ok ==> forall p | p in Resident(m.cells) && p != PageOf(a) :: VersionOf(p) == old(VersionOf(p))
      ensures old(refs.repr) <= refs.repr && fresh(refs.repr - old(refs.repr))
      ensures old(mem.table.ptes) <= mem.table.ptes && fresh(mem.table.ptes - old(mem.table.ptes))
    {
      hide VersionOf, Valid, Accessed, Obeyed, Step, PagingLaws.OnePerFrame, Resident, Future;
      ghost var before := m;
      FrameFacts();
      VersionsAre();
      ok, asExpected, victim := AccessLine(a);
      if ok { AccessedFacts(a, asExpected, victim, before, old(q), old(Future())); }
    }

    lemma ListedEntriesKnown()
      requires Valid()
      ensures forall p :: p in refs.ptes ==> p in mem.table.ptes
    {
      if alg.Listed? {
        forall p | p in refs.ptes ensures p in mem.table.ptes {
          var x := q.list[Index(refs.ptes, p)];
          assert x in mem.table.entry && p == mem.table.entry[x];
        }
      }
    }

    /** Ready to replay lines from the first one. */
    ghost predicate AtStart(lines: seq<Access>)
      reads this, refs, refs.nodes, refs.ptes, trace, trace.nodes
      reads mem, mem.table, mem.table.ptes, mem.coremap, mem.physmem, mem.swapmap.v
      reads mem.table.pgdir
    {
      && Valid() && m == Start && q == Queue([], {}) && refCount == 0
      && (alg.Opt? ==> trace.pages == PagesOf(lines))
      && forall i :: 0 <= i < |lines| ==> lines[i].vaddr < VADDRS
    }

    /** Before an access: the page's entry has no swap offset. */
    ghost predicate NeverOut(page: Page)
      reads mem, mem.table, mem.table.ptes
    {
      page in mem.table.entry && mem.table.entry[page] in mem.table.ptes ==>
        mem.table.entry[page].swapOff == INVALID_SWAP
    }

    lemma NeverOutMeans(page: Page)
      requires Valid()
      ensures NeverOut(page) <==> page !in m.slots
    {
    }

    /** The counter that the page's frame holds is its number of writes. */
    ghost predicate FullCount(page: Page, writes: nat)
      reads `m, mem, mem.physmem
    {
      var f := Find(m.cells, page);
      f < |m.cells| && f < mem.physmem.Length && mem.physmem[f].version == writes
    }

    lemma CountOf(page: Page)
      requires Valid() && page in Resident(m.cells)
      ensures var f := Find(m.cells, page); f < |m.cells| && forall n: nat ::
              FullCount(page, n) <==> m.cells[f].version == n
    {
      PagingLaws.FindResident(m.cells, page);
      assert mem.FrameHolds(Find(m.cells, page), m.cells[Find(m.cells, page)]);
    }

    /** After an access, the counter of its page counts every write to it exactly if its entry had no
        swap offset before. */
    lemma CountAfter(lines: seq<Access>, vs: seq<nat>, before: Machine)
      requires Valid() && Progress(alg, mem.memsize, mem.swapsize, lines, vs, m, q) && 0 < |vs|
      requires |before.cells| <= mem.memsize && PagingLaws.OnePerFrame(before.cells)
      requires vs[|vs| - 1] < mem.memsize
      requires Step(mem.memsize, mem.swapsize, before, lines[|vs| - 1], vs[|vs| - 1]) == Running(m)
      ensures var page := PageOf(lines[|vs| - 1]);
              FullCount(page, PagingLaws.Writes(lines[..|vs|], page)) <==> page !in before.slots
    {
      hide Valid, Run, Step, FullCount, PagingLaws.Writes, PagingLaws.OnePerFrame, Resident;
      var k, a, v := mem.memsize, lines[|vs| - 1], vs[|vs| - 1];
      var page := PageOf(a);
      AccessedResident(k, mem.swapsize, before, a, v);
      CountOf(page);
      Survival.SurvivesIffNeverSwapped(k, mem.swapsize, lines[..|vs|], vs, Find(m.cells, page));
    }

    /** The first |vs| lines have gone well, with the victims vs. */
    ghost predicate Playing(lines: seq<Access>, vs: seq<nat>)
      reads this, refs, refs.nodes, refs.ptes, trace, trace.nodes
      reads mem, mem.table, mem.table.ptes, mem.coremap, mem.physmem, mem.swapmap.v
      reads mem.table.pgdir
    {
      && Valid() && refCount == |vs| && Progress(alg, mem.memsize, mem.swapsize, lines, vs, m, q)
      && (alg.Opt? ==> trace.pages == PagesOf(lines))
    }

    /** One line of a trace that has gone well so far. */
    method ReplayLine(lines: seq<Access>, n: nat, ghost vs: seq<nat>) returns (ok: bool, asExpected: bool, ghost v: nat)
      requires n == |vs| < |lines| && lines[n].vaddr < VADDRS && Playing(lines, vs)
      modifies this, refs, refs.repr`next, refs.ptes`frame, mem, mem.coremap, mem.physmem, mem.swapmap.v
      modifies mem.table, mem.table.pgdir, mem.table.ptes, trace
      ensures v < mem.memsize && (ok <==> Step(mem.memsize, mem.swapsize, old(m), lines[n], v).Running?)
      ensures !ok || Playing(lines, vs + [v])
      ensures ok ==>
                && InRange(mem.memsize, lines[..n + 1], vs + [v])
                && (asExpected <==> PagingLaws.Matches(mem.memsize, mem.swapsize, lines[..n + 1], vs + [v]))
      ensures ok ==> (FullCount(PageOf(lines[n]), PagingLaws.Writes(lines[..n + 1], PageOf(lines[n])))
              <==> old(NeverOut(PageOf(lines[n]))))
      ensures old(refs.repr) <= refs.repr && fresh(refs.repr - old(refs.repr))
      ensures old(mem.table.ptes) <= mem.table.ptes && fresh(mem.table.ptes - old(mem.table.ptes))
    {
      hide Valid, Obeyed, Step, Progress, Run, FullCount, NeverOut, PagingLaws.Matches;
      LineFacts(lines, vs);
      NeverOutMeans(PageOf(lines[n]));
      FrameFacts();
      ghost var m0, q0, future := m, q, Future();
      ok, asExpected, v := AccessMem(lines[n]);
      if ok {
        FutureOnlyForOpt(alg, mem.memsize, m0.cells, v, PageOf(lines[n]), q0, q, future, PagesOf(lines)[n + 1..]);
        ProgressStep(alg, mem.memsize, mem.swapsize, lines, vs, m0, q0, v, q);
        CheckMeans(alg, mem.memsize, mem.swapsize, lines, vs + [v], m, q, asExpected);
        CountAfter(lines, vs + [v], m0);
      }
    }

    /** replay_trace: every line in turn, until swap runs out.  mismatches counts the lines
        whose content check failed. */
    method ReplayTrace(lines: seq<Access>) returns (ok: bool, mismatches: nat, ghost vs: seq<nat>)
      requires AtStart(lines)
      modifies this, refs, refs.repr`next, refs.ptes`frame, mem, mem.coremap, mem.physmem, mem.swapmap.v
      modifies mem.table, mem.table.pgdir, mem.table.ptes, trace
      ensures InRange(mem.memsize, lines, vs) && (ok <==> Run(mem.memsize, mem.swapsize, lines, vs).Running?)
      ensures ok ==> Valid() && Progress(alg, mem.memsize, mem.swapsize, lines, vs, m, q) && refCount == |lines|
      ensures ok ==> mismatches == PagingLaws.Mismatches(mem.memsize, mem.swapsize, lines, vs)
      ensures (forall i :: 0 <= i < |lines| ==> lines[i].vaddr % PAGE == 0) ==> mismatches == 0
    {
      hide Valid, Obeyed, Step, Progress, AtStart, Run, FullCount, NeverOut, PagingLaws.Writes, Playing;
      hide PagingLaws.Matches, PagingLaws.Mismatches;
      StartFacts(lines);
      mismatches, vs := 0, [];
      for n := 0 to |lines|
        invariant Playing(lines, vs) && |vs| == n
        invariant old(refs.repr) <= refs.repr && fresh(refs.repr - old(refs.repr))
        invariant old(mem.table.ptes) <= mem.table.ptes && fresh(mem.table.ptes - old(mem.table.ptes))
        invariant InRange(mem.memsize, lines[..n], vs)
        invariant mismatches == PagingLaws.Mismatches(mem.memsize, mem.swapsize, lines[..n], vs)
      {
        PlayingFacts(lines, vs);
        ListedEntriesKnown();
        ghost var m0, q0 := m, q;
        var asExpected;
        ghost var v;
        ok, asExpected, v := ReplayLine(lines, n, vs);
        if !ok {
          NoMismatch(alg, mem.memsize, mem.swapsize, lines, vs, m0, q0);
          vs := Abandoned(alg, mem.memsize, mem.swapsize, lines, vs, m0, q0, v);
          return;
        }
        assert lines[..n + 1] == lines[..n] + [lines[n]];
        PagingLaws.MismatchesSnoc(mem.memsize, mem.swapsize, lines[..n], vs, lines[n], v);
        vs := vs + [v];
        if !asExpected {
          mismatches := mismatches + 1;
        }
      }
      ok := true;
      PlayingFacts(lines, vs);
      ProgressRun(alg, mem.memsize, mem.swapsize, lines, vs, m, q);
      NoMismatch(alg, mem.memsize, mem.swapsize, lines, vs, m, q);
      assert lines[..|lines|] == lines;
    }

    lemma PlayingFacts(lines: seq<Access>, vs: seq<nat>)
      requires Playing(lines, vs)
      ensures Valid() && Progress(alg, mem.memsize, mem.swapsize, lines, vs, m, q) && refCount == |vs|
    {
    }

    lemma StartFacts(lines: seq<Access>)
      requires AtStart(lines)
      ensures Playing(lines, []) && InRange(mem.memsize, lines[..0], [])
      ensures PagingLaws.Mismatches(mem.memsize, mem.swapsize, lines[..0], []) == 0
      ensures forall i :: 0 <= i < |lines| ==> lines[i].vaddr < VADDRS
    {
    }

    lemma LineFacts(lines: seq<Access>, vs: seq<nat>)
      requires Valid() && |vs| < |lines| && refCount == |vs| && (alg.Opt? ==> trace.pages == PagesOf(lines))
      ensures alg.Opt? ==> trace.pos < |trace.nodes| && Future() == PagesOf(lines)[|vs| + 1..]
    {
    }
  }

  lemma HeldAfter(k: nat, swapsize: nat, m: Machine, a: Access, v: nat)
    requires v < k && PagingLaws.OnePerFrame(m.cells) && |m.cells| <= k && Step(k, swapsize, m, a, v).Running?
    ensures var cells := Step(k, swapsize, m, a, v).m.cells;
            && Survival.Held(cells, PageOf(a))
               == Survival.Held(m.cells, PageOf(a)) + (if a.kind in {'S', 'M'} then 1 else 0)
            && forall p | p in Resident(cells) && p != PageOf(a) :: Survival.Held(cells, p) == Survival.Held(m.cells, p)
  {
    hide Step, Survival.Held, PagingLaws.OnePerFrame, Resident;
    var cells := Step(k, swapsize, m, a, v).m.cells;
    Survival.StepHeld(k, swapsize, m, a, v, PageOf(a));
    forall p | p in Resident(cells) && p != PageOf(a) ensures Survival.Held(cells, p) == Survival.Held(m.cells, p) {
      PagingLaws.FindResident(cells, p);
      Survival.StepHeld(k, swapsize, m, a, v, p);
    }
  }

  /** The page of a line is in a frame after it, and the line gives slots to other pages only. */
  lemma AccessedResident(k: nat, swapsize: nat, m: Machine, a: Access, v: nat)
    requires v < k && |m.cells| <= k && PagingLaws.OnePerFrame(m.cells) && Step(k, swapsize, m, a, v).Running?
    ensures var m' := Step(k, swapsize, m, a, v).m;
            PageOf(a) in Resident(m'.cells) && (PageOf(a) in m'.slots <==> PageOf(a) in m.slots)
  {
    PagingLaws.StepCells(k, swapsize, m, a, v);
    PagingLaws.CellsNext(k, m.cells, a, v);
  }

  lemma ProgressRun(alg: Algorithm, k: nat, swapsize: nat, lines: seq<Access>, vs: seq<nat>, m: Machine, q: Queue<Page>)
    requires Progress(alg, k, swapsize, lines, vs, m, q) && |vs| == |lines|
    ensures InRange(k, lines, vs) && Run(k, swapsize, lines, vs) == Running(m)
  {
    assert lines[..|vs|] == lines;
  }

  /** A failed line fails the whole trace, whatever victims the rest would have had. */
  lemma Abandoned(alg: Algorithm, k: nat, swapsize: nat, lines: seq<Access>, vs: seq<nat>, m: Machine,
                  q: Queue<Page>, v: nat)
    returns (vs': seq<nat>)
    requires Progress(alg, k, swapsize, lines, vs, m, q) && |vs| < |lines|
    requires v < k && Step(k, swapsize, m, lines[|vs|], v).SwapFull?
    ensures InRange(k, lines, vs') && Run(k, swapsize, lines, vs').SwapFull?
  {
    var n := |vs|;
    PagingLaws.RunSnoc(k, swapsize, lines[..n], vs, lines[n], v);
    assert lines[..n + 1] == lines[..n] + [lines[n]];
    vs' := vs + [v] + seq(|lines| - n - 1, _ => 0);
    assert vs'[..n + 1] == vs + [v];
    PagingLaws.FailedStays(k, swapsize, lines, vs', n + 1);
  }

  lemma NoMismatch(alg: Algorithm, k: nat, swapsize: nat, lines: seq<Access>, vs: seq<nat>, m: Machine, q: Queue<Page>)
    requires Progress(alg, k, swapsize, lines, vs, m, q)
    ensures InRange(k, lines[..|vs|], vs)
    ensures (forall i :: 0 <= i < |lines| ==> lines[i].vaddr % PAGE == 0) ==>
              PagingLaws.Mismatches(k, swapsize, lines[..|vs|], vs) == 0
  {
    hide Run, PagingLaws.Mismatches, ListedProgress;
    if forall i :: 0 <= i < |lines| ==> lines[i].vaddr % PAGE == 0 {
      PagingLaws.AlignedMatch(k, swapsize, lines[..|vs|], vs);
    }
  }

  /** The content check compares the addresses of the line and of the one that loaded its page. */
  lemma CheckMeans(alg: Algorithm, k: nat, swapsize: nat, lines: seq<Access>, vs: seq<nat>, m: Machine, q: Queue<Page>,
                   asExpected: bool)
    requires Progress(alg, k, swapsize, lines, vs, m, q) && 0 < |vs|
    requires exists f :: 0 <= f < |m.cells| && m.cells[f].page == PageOf(lines[|vs| - 1])
                         && (asExpected <==> m.cells[f].stamp == lines[|vs| - 1].vaddr)
    ensures InRange(k, lines[..|vs|], vs)
    ensures asExpected <==> PagingLaws.Matches(k, swapsize, lines[..|vs|], vs)
  {
    hide Run, PagingLaws.Matches, ListedProgress;
    var f :| 0 <= f < |m.cells| && m.cells[f].page == PageOf(lines[|vs| - 1])
             && (asExpected <==> m.cells[f].stamp == lines[|vs| - 1].vaddr);
    PagingLaws.StampShows(k, swapsize, lines[..|vs|], vs, f);
  }
}
