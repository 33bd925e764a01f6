/** What becomes of a page's contents.  allocate_frame resets every flag of the entry it is
    given and nothing sets PG_ONSWAP, so a page that comes back is zero-filled: swap is
    written and never read.  Its counter survives exactly as long as it was never written
    out, which its entry shows by still having no swap offset. */
module Survival {
  import opened Replay
  import opened Policies
  import opened Paging
  import opened PagingLaws

  /** The counter of p's frame, or 0 when p is not resident. */
  function Held(cells: seq<Cell>, p: Page): nat {
    var f := Find(cells, p);
    if f < |cells| then cells[f].version else 0
  }

  ghost predicate Exact(m: Machine, p: Page, writes: nat) {
    if p in m.slots then Held(m.cells, p) < writes else Held(m.cells, p) == writes
  }

  lemma FindUnique(cells: seq<Cell>, f: nat)
    requires OnePerFrame(cells) && f < |cells|
    ensures Find(cells, cells[f].page) == f
  {
  }

  lemma HeldUpdate(cells: seq<Cell>, f: nat, c: Cell, p: Page)
    requires OnePerFrame(cells) && f < |cells| && OnePerFrame(cells[f := c])
    ensures Held(cells[f := c], p) ==
            if p == c.page then c.version else if p == cells[f].page then 0 else Held(cells, p)
  {
    var cells' := cells[f := c];
    FindUnique(cells', f);
    FindUnique(cells, f);
    if p != c.page {
      var g := Find(cells, p);
      if g < |cells| && g != f { FindUnique(cells', g); }
    }
  }

  lemma HeldGrow(cells: seq<Cell>, c: Cell, p: Page)
    requires OnePerFrame(cells + [c])
    ensures Held(cells + [c], p) == if p == c.page then c.version else Held(cells, p)
  {
    var cells' := cells + [c];
    FindUnique(cells', |cells|);
    var g := Find(cells, p);
    if g < |cells| { FindUnique(cells', g); }
  }

  lemma EvictExact(swapsize: nat, m: Machine, a: Access, v: nat, p: Page, writes: nat)
    requires OnePerFrame(m.cells) && v < |m.cells| && Exact(m, p, writes)
    requires Find(m.cells, PageOf(a)) == |m.cells| && PageOut(swapsize, m, m.cells[v]).Running?
    ensures var m' := PageOut(swapsize, m, m.cells[v]).m;
            Exact(m'.(cells := m'.cells[v := Load(a)]), p, writes + Count(PageOf(a) == p && IsWrite(a)))
  {
    HeldUpdate(m.cells, v, Load(a), p);
    FindUnique(m.cells, v);
  }

  lemma StepExact(k: nat, swapsize: nat, m: Machine, a: Access, v: nat, p: Page, writes: nat)
    requires v < k && OnePerFrame(m.cells) && |m.cells| <= k && Step(k, swapsize, m, a, v).Running?
    requires Exact(m, p, writes)
    ensures Exact(Step(k, swapsize, m, a, v).m, p, writes + Count(PageOf(a) == p && IsWrite(a)))
  {
    hide OnePerFrame, Resident;
    var f := Find(m.cells, PageOf(a));
    CellsNext(k, m.cells, a, v);
    if f < |m.cells| {
      HeldUpdate(m.cells, f, Touch(m.cells[f], a), p);
    } else if |m.cells| < k {
      HeldGrow(m.cells, Load(a), p);
    } else {
      EvictExact(swapsize, m, a, v, p, writes);
    }
  }

  /** A line raises the counter of its page by one exactly if it is an S or an M, and leaves the other
      frames' counters alone. */
  lemma StepHeld(k: nat, swapsize: nat, m: Machine, a: Access, v: nat, p: Page)
    requires v < k && OnePerFrame(m.cells) && |m.cells| <= k && Step(k, swapsize, m, a, v).Running?
    ensures var m' := Step(k, swapsize, m, a, v).m;
            && (p == PageOf(a) ==> Held(m'.cells, p) == Held(m.cells, p) + if a.kind in {'S', 'M'} then 1 else 0)
            && (p != PageOf(a) && Find(m'.cells, p) < |m'.cells| ==> Held(m'.cells, p) == Held(m.cells, p))
  {
    hide OnePerFrame, Resident;
    var f := Find(m.cells, PageOf(a));
    CellsNext(k, m.cells, a, v);
    if f < |m.cells| {
      HeldUpdate(m.cells, f, Touch(m.cells[f], a), p);
    } else if |m.cells| < k {
      HeldGrow(m.cells, Load(a), p);
    } else {
      HeldUpdate(m.cells, v, Load(a), p);
      FindUnique(m.cells, v);
      GoneFrom(m.cells, v, Load(a));
    }
  }

  lemma GoneFrom(cells: seq<Cell>, f: nat, c: Cell)
    requires OnePerFrame(cells) && f < |cells| && OnePerFrame(cells[f := c]) && c.page != cells[f].page
    ensures Find(cells[f := c], cells[f].page) == |cells|
  {
    var cells' := cells[f := c];
    forall g | 0 <= g < |cells'| ensures cells'[g].page != cells[f].page {
      if g != f { assert cells'[g] == cells[g]; }
    }
  }

  lemma {:induction false} RunExact(k: nat, swapsize: nat, t: seq<Access>, vs: seq<nat>, p: Page)
    requires InRange(k, t, vs) && Run(k, swapsize, t, vs).Running?
    ensures Exact(Run(k, swapsize, t, vs).m, p, Writes(t, p))
    decreases |t|
  {
    if t != [] {
      var n := |t| - 1;
      RunExact(k, swapsize, t[..n], vs[..n], p);
      RunConsistent(k, swapsize, t[..n], vs[..n]);
      StepExact(k, swapsize, Run(k, swapsize, t[..n], vs[..n]).m, t[n], vs[n], p, Writes(t[..n], p));
    }
  }

  /** A resident page's counter is its total number of writes exactly when it owns no swap
      slot; once it owns one, writes have been lost for good. */
  lemma SurvivesIffNeverSwapped(k: nat, swapsize: nat, t: seq<Access>, vs: seq<nat>, f: nat)
    requires InRange(k, t, vs) && Run(k, swapsize, t, vs).Running?
    requires f < |Run(k, swapsize, t, vs).m.cells|
    ensures var m := Run(k, swapsize, t, vs).m;
            && m.cells[f].version <= Writes(t, m.cells[f].page)
            && (m.cells[f].version == Writes(t, m.cells[f].page) <==> m.cells[f].page !in m.slots)
  {
    var m := Run(k, swapsize, t, vs).m;
    RunConsistent(k, swapsize, t, vs);
    FindUnique(m.cells, f);
    RunExact(k, swapsize, t, vs, m.cells[f].page);
  }

  /** Four lines on two frames that lose a write: page 0 is written, evicted, read back. */
  const Losing := [Access('S', 0), Access('L', 4096), Access('L', 8192), Access('L', 0)]

  const One := Machine([Cell(0, 0, 1)], [], 0, 1, 0, 0)
  const Two := Machine([Cell(0, 0, 1), Cell(1, 4096, 0)], [], 0, 2, 0, 0)
  const Three := Machine([Cell(2, 8192, 0), Cell(1, 4096, 0)], [0], 0, 3, 0, 1)
  const Four := Machine([Cell(2, 8192, 0), Cell(0, 0, 0)], [0], 0, 4, 1, 1)

  lemma LosingSteps()
    ensures Step(2, 4, Start, Losing[0], 0) == Running(One) && Step(2, 4, One, Losing[1], 0) == Running(Two)
    ensures Step(2, 4, Two, Losing[2], 0) == Running(Three) && Step(2, 4, Three, Losing[3], 1) == Running(Four)
  {
    LosingFirst();
    LosingLast();
  }

  lemma LosingFirst()
    ensures Step(2, 4, Start, Losing[0], 0) == Running(One) && Step(2, 4, One, Losing[1], 0) == Running(Two)
  {
    FindTwo(Cell(0, 0, 1), Cell(1, 4096, 0), 1);
  }

  lemma LosingLast()
    ensures Step(2, 4, Two, Losing[2], 0) == Running(Three) && Step(2, 4, Three, Losing[3], 1) == Running(Four)
  {
    hide Find;
    FindTwo(Cell(0, 0, 1), Cell(1, 4096, 0), 2);
    FindTwo(Cell(2, 8192, 0), Cell(1, 4096, 0), 0);
  }

  lemma FindTwo(c: Cell, d: Cell, p: Page)
    ensures Find([], p) == 0 && Find([c], p) == (if c.page == p then 0 else 1)
    ensures Find([c, d], p) == if c.page == p then 0 else if d.page == p then 1 else 2
  {
    assert [c][1..] == [] && [c, d][1..] == [d];
  }

  lemma LosingRun()
    ensures InRange(2, Losing, [0, 0, 0, 1])
    ensures Run(2, 4, Losing, [0, 0, 0, 1]) == Running(Four)
  {
    hide Step;
    var s, l, l', r := Losing[0], Losing[1], Losing[2], Losing[3];
    LosingSteps();
    RunSnoc(2, 4, [], [], s, 0);
    assert [] + [s] == [s] && [] + [0] == [0];
    RunSnoc(2, 4, [s], [0], l, 0);
    assert [s] + [l] == [s, l] && [0] + [0] == [0, 0];
    RunSnoc(2, 4, [s, l], [0, 0], l', 0);
    assert [s, l] + [l'] == [s, l, l'] && [0, 0] + [0] == [0, 0, 0];
    RunSnoc(2, 4, [s, l, l'], [0, 0, 0], r, 1);
    assert [s, l, l'] + [r] == Losing && [0, 0, 0] + [1] == [0, 0, 0, 1];
  }

  lemma LosingWrites()
    ensures Writes(Losing, 0) == 1
  {
    var s, l, l', r := Losing[0], Losing[1], Losing[2], Losing[3];
    WritesOf([], s, 0);
    WritesOf([s], l, 0);
    WritesOf([s, l], l', 0);
    WritesOf([s, l, l'], r, 0);
    assert [] + [s] == [s] && [s] + [l] == [s, l] && [s, l] + [l'] == [s, l, l'] && [s, l, l'] + [r] == Losing;
  }

  lemma WritesOf(t: seq<Access>, a: Access, p: Page)
    ensures Writes(t + [a], p) == Writes(t, p) + Count(PageOf(a) == p && IsWrite(a))
  {
    assert (t + [a])[..|t|] == t;
  }

  /** Contents do not survive in general: after these lines frame 1 holds page 0 with a zero
      counter, although page 0 has been written once. */
  lemma WriteLost()
    ensures InRange(2, Losing, [0, 0, 0, 1]) && Run(2, 4, Losing, [0, 0, 0, 1]).Running?
    ensures var m := Run(2, 4, Losing, [0, 0, 0, 1]).m;
            m.cells[1].page == 0 && m.cells[1].version != Writes(Losing, 0)
  {
    LosingRun();
    LosingWrites();
  }
}
