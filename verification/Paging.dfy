/** The whole simulator as one transition per trace line: what find_physpage, allocate_frame,
    swap_pageout and access_mem do to frames, swap slots and counters, for any choice of
    victim frames. */
module Paging {
  import opened Replay
  import opened Policies
  import opened Coremap

  /** A trace line: an access type and an address. */
  datatype Access = Access(kind: char, vaddr: nat)

  predicate IsWrite(a: Access) { a.kind == 'S' || a.kind == 'M' }

  function PageOf(a: Access): Page { a.vaddr / PAGE }

  function PagesOf(t: seq<Access>): (ps: seq<Page>)
    ensures |ps| == |t|
  {
    seq(|t|, i requires 0 <= i < |t| => PageOf(t[i]))
  }

  /** What a frame holds: which page, the address init_frame stored, the version counter. */
  datatype Cell = Cell(page: Page, stamp: nat, version: nat)

  /** cells: the frames in use, in frame order.  slots: the pages that own a swap slot, in
      slot order; no slot is ever given back. */
  datatype Machine = Machine(cells: seq<Cell>, slots: seq<Page>, hits: nat, misses: nat, clean: nat, dirty: nat)

  /** The run goes on, or swap_pageout found no free slot. */
  datatype Outcome = Running(m: Machine) | SwapFull

  const Start := Machine([], [], 0, 0, 0, 0)

  /** The frame that holds p, or the number of frames in use. */
  function Find(cells: seq<Cell>, p: Page): (f: nat)
    ensures f <= |cells| && (f < |cells| ==> cells[f].page == p)
    ensures forall i :: 0 <= i < f ==> cells[i].page != p
  {
    if cells == [] || cells[0].page == p then 0 else 1 + Find(cells[1..], p)
  }

  function Count(b: bool): nat { if b then 1 else 0 }

  function Load(a: Access): Cell { Cell(PageOf(a), a.vaddr, Count(IsWrite(a))) }

  function Touch(c: Cell, a: Access): Cell { c.(version := c.version + Count(IsWrite(a))) }

  /** The eviction half of allocate_frame: a modified page is written out, to a slot it is
      given the first time. */
  function PageOut(swapsize: nat, m: Machine, victim: Cell): Outcome {
    if victim.version == 0 then Running(m.(clean := m.clean + 1))
    else if victim.page in m.slots then Running(m.(dirty := m.dirty + 1))
    else if |m.slots| < swapsize then Running(m.(slots := m.slots + [victim.page], dirty := m.dirty + 1))
    else SwapFull
  }

  /** allocate_frame: what happens before the new page is recorded. */
  function MakeRoom(k: nat, swapsize: nat, m: Machine, victim: nat): Outcome
    requires victim < k
  {
    if |m.cells| < k then Running(m) else PageOut(swapsize, m, m.cells[victim])
  }

  lemma MissesDoNotMatter(k: nat, swapsize: nat, m: Machine, victim: nat, misses: nat)
    requires victim < k
    ensures var o, o' := MakeRoom(k, swapsize, m, victim), MakeRoom(k, swapsize, m.(misses := misses), victim);
            && (o.Running? <==> o'.Running?)
            && (o.Running? ==> o'.m == o.m.(misses := misses) && o.m.cells == m.cells && o.m.misses == m.misses)
  {
  }

  /** The frame a new page goes to: the first free one, or the victim's. */
  function Target(k: nat, m: Machine, victim: nat): nat {
    if |m.cells| < k then |m.cells| else victim
  }

  function Place(cells: seq<Cell>, frame: nat, c: Cell): seq<Cell> {
    if frame < |cells| then cells[frame := c] else cells + [c]
  }

  function Step(k: nat, swapsize: nat, m: Machine, a: Access, victim: nat): Outcome
    requires victim < k
  {
    var f := Find(m.cells, PageOf(a));
    if f < |m.cells| then Running(m.(cells := m.cells[f := Touch(m.cells[f], a)], hits := m.hits + 1))
    else
      match MakeRoom(k, swapsize, m, victim)
      case SwapFull => SwapFull
      case Running(m') =>
        Running(m'.(cells := Place(m.cells, Target(k, m, victim), Load(a)), misses := m'.misses + 1))
  }

  /** One victim frame is noted for every line, and evict_fcn only answers with frames. */
  ghost predicate InRange(k: nat, t: seq<Access>, vs: seq<nat>) {
    |vs| == |t| && forall i :: 0 <= i < |vs| ==> vs[i] < k
  }

  /** A whole trace from the start. */
  ghost function Run(k: nat, swapsize: nat, t: seq<Access>, vs: seq<nat>): Outcome
    requires InRange(k, t, vs)
  {
    if t == [] then Running(Start)
    else
      var n := |t| - 1;
      match Run(k, swapsize, t[..n], vs[..n])
      case SwapFull => SwapFull
      case Running(m) => Step(k, swapsize, m, t[n], vs[n])
  }

  ghost function Resident(cells: seq<Cell>): set<Page> { set c | c in cells :: c.page }

  /** The victims of a run as pages. */
  ghost function PageVictims(k: nat, swapsize: nat, t: seq<Access>, vs: seq<nat>): (ps: seq<Page>)
    requires InRange(k, t, vs)
    ensures |ps| == |t|
  {
    if t == [] then []
    else
      var n := |t| - 1;
      PageVictims(k, swapsize, t[..n], vs[..n]) + [PageAt(Run(k, swapsize, t[..n], vs[..n]), vs[n])]
  }

  function PageAt(o: Outcome, f: nat): Page {
    if o.Running? && f < |o.m.cells| then o.m.cells[f].page else 0
  }
}
