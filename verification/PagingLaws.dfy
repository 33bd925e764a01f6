/** Whole-run properties of the paging machine, under every choice of victim frames. */
module PagingLaws {
  import opened Replay
  import opened Policies
  import opened Coremap
  import opened Paging
  import Competitive
  import Sets

  ghost predicate OnePerFrame(cells: seq<Cell>) {
    forall i, j :: 0 <= i < j < |cells| ==> cells[i].page != cells[j].page
  }

  /** What every line keeps. */
  ghost predicate Consistent(k: nat, t: seq<Access>, m: Machine) {
    && OnePerFrame(m.cells) && |m.cells| <= k
    && m.hits + m.misses == |t|
    && m.misses == |m.cells| + m.clean + m.dirty
    && Distinct(m.slots)
    && Resident(m.cells) <= Competitive.Pages(PagesOf(t))
    && Elements(m.slots) <= Competitive.Pages(PagesOf(t))
  }

  lemma RunSnoc(k: nat, swapsize: nat, t: seq<Access>, vs: seq<nat>, a: Access, v: nat)
    requires InRange(k, t, vs) && v < k
    ensures InRange(k, t + [a], vs + [v])
    ensures var before := Run(k, swapsize, t, vs);
            Run(k, swapsize, t + [a], vs + [v]) == if before.Running?
                then Step(k, swapsize, before.m, a, v) else SwapFull
  {
    assert (t + [a])[..|t|] == t && (vs + [v])[..|vs|] == vs;
  }

  lemma PageVictimsSnoc(k: nat, swapsize: nat, t: seq<Access>, vs: seq<nat>, a: Access, v: nat)
    requires InRange(k, t, vs) && v < k
    ensures InRange(k, t + [a], vs + [v])
    ensures PageVictims(k, swapsize, t + [a], vs + [v]) ==
            PageVictims(k, swapsize, t, vs) + [PageAt(Run(k, swapsize, t, vs), v)]
    ensures PagesOf(t + [a]) == PagesOf(t) + [PageOf(a)]
  {
    assert (t + [a])[..|t|] == t && (vs + [v])[..|vs|] == vs;
  }

  lemma PagesOfSnoc(t: seq<Access>)
    requires t != []
    ensures var n := |t| - 1;
            && PagesOf(t) == PagesOf(t[..n]) + [PageOf(t[n])]
            && Competitive.Pages(PagesOf(t)) == Competitive.Pages(PagesOf(t[..n])) + {PageOf(t[n])}
  {
    var n := |t| - 1;
    assert PagesOf(t) == PagesOf(t[..n]) + [PageOf(t[n])];
    Competitive.PagesSplit(PagesOf(t[..n]), [PageOf(t[n])]);
  }

  lemma {:induction false} ResidentSize(cells: seq<Cell>)
    requires OnePerFrame(cells)
    ensures |Resident(cells)| == |cells|
    decreases |cells|
  {
    if cells != [] {
      var n := |cells| - 1;
      ResidentSize(cells[..n]);
      assert cells == cells[..n] + [cells[n]];
      assert Resident(cells) == Resident(cells[..n]) + {cells[n].page};
    }
  }

  lemma FindResident(cells: seq<Cell>, p: Page)
    ensures p in Resident(cells) <==> Find(cells, p) < |cells|
  {
    var f := Find(cells, p);
    if f < |cells| {
      assert cells[f] in cells;
    }
  }

  lemma ResidentUpdate(cells: seq<Cell>, f: nat, c: Cell)
    requires OnePerFrame(cells) && f < |cells|
    ensures Resident(cells[f := c]) == Resident(cells) - {cells[f].page} + {c.page}
  {
    var cells' := cells[f := c];
    forall p | p in Resident(cells) && p != cells[f].page ensures p in Resident(cells') {
      var i :| 0 <= i < |cells| && cells[i].page == p;
      assert cells'[i] == cells[i];
    }
    assert cells'[f] == c;
    forall p | p in Resident(cells') ensures p in Resident(cells) - {cells[f].page} + {c.page} {
      var i :| 0 <= i < |cells'| && cells'[i].page == p;
      if i != f { assert cells[i] in cells; }
    }
  }

  lemma ResidentGrow(cells: seq<Cell>, c: Cell)
    ensures Resident(cells + [c]) == Resident(cells) + {c.page}
  {
    var cells' := cells + [c];
    forall p | p in Resident(cells) ensures p in Resident(cells') {
      var i :| 0 <= i < |cells| && cells[i].page == p;
      assert cells'[i] == cells[i];
    }
    assert cells'[|cells|] == c;
  }

  /** The frames after a line that does not fail. */
  function CellsAfter(k: nat, cells: seq<Cell>, a: Access, v: nat): seq<Cell>
    requires v < k
  {
    var f := Find(cells, PageOf(a));
    if f < |cells| then cells[f := Touch(cells[f], a)]
    else if |cells| < k then cells + [Load(a)]
    else cells[v := Load(a)]
  }

  /** Seen as a set of pages, a line is one step of the open paging machine. */
  lemma CellsNext(k: nat, cells: seq<Cell>, a: Access, v: nat)
    requires v < k && OnePerFrame(cells) && |cells| <= k
    ensures var cells', p, victim := CellsAfter(k, cells, a, v), PageOf(a), if v < |cells| then cells[v].page else 0;
            && OnePerFrame(cells') && |cells'| <= k
            && Resident(cells') == Next(k, Resident(cells), p, victim)
            && (NeedsVictim(k, Resident(cells), p) ==> victim in Resident(cells))
  {
    var p := PageOf(a);
    var f := Find(cells, p);
    FindResident(cells, p);
    ResidentSize(cells);
    if f < |cells| {
      ResidentUpdate(cells, f, Touch(cells[f], a));
    } else if |cells| < k {
      ResidentGrow(cells, Load(a));
    } else {
      ResidentUpdate(cells, v, Load(a));
      assert cells[v] in cells;
    }
  }

  lemma StepCells(k: nat, swapsize: nat, m: Machine, a: Access, v: nat)
    requires v < k && |m.cells| <= k && Step(k, swapsize, m, a, v).Running?
    ensures var m' := Step(k, swapsize, m, a, v).m;
            && m'.cells == CellsAfter(k, m.cells, a, v)
            && m'.misses == m.misses + (if PageOf(a) in Resident(m.cells) then 0 else 1)
            && m'.hits + m'.misses == m.hits + m.misses + 1
            && m'.misses + |m.cells| + m.clean + m.dirty == m.misses + |m'.cells| + m'.clean + m'.dirty
  {
    FindResident(m.cells, PageOf(a));
  }

  lemma StepSlots(k: nat, swapsize: nat, m: Machine, a: Access, v: nat)
    requires v < k && |m.cells| <= k && Distinct(m.slots) && Step(k, swapsize, m, a, v).Running?
    ensures var m' := Step(k, swapsize, m, a, v).m;
            && Distinct(m'.slots) && m.slots <= m'.slots
            && Elements(m'.slots) <= Elements(m.slots) + Resident(m.cells)
            && |m'.slots| <= if |m.slots| <= swapsize then swapsize else |m.slots|
  {
    var m' := Step(k, swapsize, m, a, v).m;
    if m'.slots != m.slots {
      assert m'.slots == m.slots + [m.cells[v].page];
      ElementsConcat(m.slots, [m.cells[v].page]);
      assert m.cells[v] in m.cells;
    }
  }

  /** Counters and sizes, after any trace: hits plus misses are the references, misses are
      the frames in use plus both kinds of eviction, no page has two frames or two slots. */
  lemma {:induction false} RunConsistent(k: nat, swapsize: nat, t: seq<Access>, vs: seq<nat>)
    requires InRange(k, t, vs) && Run(k, swapsize, t, vs).Running?
    ensures Consistent(k, t, Run(k, swapsize, t, vs).m)
    decreases |t|
  {
    if t != [] {
      var n := |t| - 1;
      RunConsistent(k, swapsize, t[..n], vs[..n]);
      var m := Run(k, swapsize, t[..n], vs[..n]).m;
      PagesOfSnoc(t);
      StepCells(k, swapsize, m, t[n], vs[n]);
      CellsNext(k, m.cells, t[n], vs[n]);
      StepSlots(k, swapsize, m, t[n], vs[n]);
    }
  }

  /** A run of the simulator is a legal run of the open paging machine with the same misses,
      so every bound on Faults is a bound on its miss count. */
  lemma {:induction false} RunIsReplay(k: nat, swapsize: nat, t: seq<Access>, vs: seq<nat>)
    requires InRange(k, t, vs) && Run(k, swapsize, t, vs).Running?
    ensures var m, ps := Run(k, swapsize, t, vs).m, PageVictims(k, swapsize, t, vs);
            && Legal(k, {}, PagesOf(t), ps)
            && After(k, {}, PagesOf(t), ps) == Resident(m.cells)
            && Faults(k, {}, PagesOf(t), ps) == m.misses
    decreases |t|
  {
    if t != [] {
      var n := |t| - 1;
      RunIsReplay(k, swapsize, t[..n], vs[..n]);
      RunConsistent(k, swapsize, t[..n], vs[..n]);
      var m := Run(k, swapsize, t[..n], vs[..n]).m;
      StepCells(k, swapsize, m, t[n], vs[n]);
      CellsNext(k, m.cells, t[n], vs[n]);
      PagesOfSnoc(t);
      Extend(k, PagesOf(t[..n]), PageVictims(k, swapsize, t[..n], vs[..n]), PageOf(t[n]), PageAt(Running(m), vs[n]));
    }
  }

  /** With a slot for every distinct page of the trace, no run fails. */
  lemma {:induction false} SwapSuffices(k: nat, swapsize: nat, t: seq<Access>, vs: seq<nat>)
    requires InRange(k, t, vs) && |Competitive.Pages(PagesOf(t))| <= swapsize
    ensures Run(k, swapsize, t, vs).Running?
    decreases |t|
  {
    if t != [] {
      var n := |t| - 1;
      PagesOfSnoc(t);
      Sets.SubsetSize(Competitive.Pages(PagesOf(t[..n])), Competitive.Pages(PagesOf(t)));
      SwapSuffices(k, swapsize, t[..n], vs[..n]);
      RunConsistent(k, swapsize, t[..n], vs[..n]);
      var m := Run(k, swapsize, t[..n], vs[..n]).m;
      if Step(k, swapsize, m, t[n], vs[n]).SwapFull? {
        var p := m.cells[vs[n]].page;
        assert m.cells[vs[n]] in m.cells;
        DistinctSize(m.slots + [p]);
        ElementsConcat(m.slots, [p]);
        Sets.SubsetSize(Elements(m.slots + [p]), Competitive.Pages(PagesOf(t)));
      }
    }
  }

  /** S and M accesses to p in a trace. */
  function Writes(t: seq<Access>, p: Page): nat {
    if t == [] then 0
    else
      var a := t[|t| - 1];
      Writes(t[..|t| - 1], p) + if PageOf(a) == p && (a.kind == 'S' || a.kind == 'M') then 1 else 0
  }

  /** The place of the line that loaded p last. */
  ghost function LoadedAt(k: nat, swapsize: nat, t: seq<Access>, vs: seq<nat>, p: Page): (n: nat)
    requires InRange(k, t, vs)
    ensures n <= |t|
  {
    if t == [] then 0
    else
      var n := |t| - 1;
      var o := Run(k, swapsize, t[..n], vs[..n]);
      if PageOf(t[n]) == p && o.Running? && p !in Resident(o.m.cells) then n
      else LoadedAt(k, swapsize, t[..n], vs[..n], p)
  }

  lemma WritesSnoc(t: seq<Access>, from: nat, p: Page)
    requires from < |t|
    ensures var n := |t| - 1;
            Writes(t[from..], p) == Writes(t[..n][from..], p) + Count(PageOf(t[n]) == p && IsWrite(t[n]))
  {
    assert t[from..][..|t[from..]| - 1] == t[..|t| - 1][from..];
  }

  /** A frame after a line: the one that was there, perhaps written, or the page just loaded. */
  lemma CellAfter(k: nat, cells: seq<Cell>, a: Access, v: nat, f: nat)
    requires v < k && OnePerFrame(cells) && |cells| <= k && f < |CellsAfter(k, cells, a, v)|
    ensures var c := CellsAfter(k, cells, a, v)[f];
            if f < |cells| && cells[f].page == c.page then
              && c.page in Resident(cells) && c.stamp == cells[f].stamp
              && c.version == cells[f].version + Count(PageOf(a) == c.page && IsWrite(a))
            else c == Load(a) && PageOf(a) !in Resident(cells)
  {
    FindResident(cells, PageOf(a));
    if f < |cells| { assert cells[f] in cells; }
  }

  /** A frame's counter is the number of S and M accesses to its page since it was loaded,
      and the address stored in the frame is the one that loaded it. */
  lemma {:induction false} CounterSinceLoad(k: nat, swapsize: nat, t: seq<Access>, vs: seq<nat>, f: nat)
    requires InRange(k, t, vs) && Run(k, swapsize, t, vs).Running?
    requires f < |Run(k, swapsize, t, vs).m.cells|
    ensures var c := Run(k, swapsize, t, vs).m.cells[f];
            var at := LoadedAt(k, swapsize, t, vs, c.page);
            && at < |t| && PageOf(t[at]) == c.page && c.stamp == t[at].vaddr
            && c.version == Writes(t[at..], c.page)
    decreases |t|
  {
    hide Step, Distinct, Elements, OnePerFrame, CellsAfter, Resident;
    var n := |t| - 1;
    var a, m, m' := t[n], Run(k, swapsize, t[..n], vs[..n]).m, Run(k, swapsize, t, vs).m;
    RunConsistent(k, swapsize, t[..n], vs[..n]);
    StepCells(k, swapsize, m, a, vs[n]);
    CellAfter(k, m.cells, a, vs[n], f);
    var p := m'.cells[f].page;
    if f < |m.cells| && m.cells[f].page == p {
      CounterSinceLoad(k, swapsize, t[..n], vs[..n], f);
      WritesSnoc(t, LoadedAt(k, swapsize, t[..n], vs[..n], p), p);
    } else {
      assert t[n..] == [a];
      assert [a][..0] == [];
      assert Writes([a], p) == Writes([], p) + Count(IsWrite(a));
    }
  }

  /** The last line has to take a frame from a page; and the page has been written, or has not, since
      it was loaded. */
  ghost predicate TakesFrom(k: nat, swapsize: nat, t: seq<Access>, vs: seq<nat>, p: Page, written: bool)
    requires InRange(k, t, vs) && t != []
  {
    var n := |t| - 1;
    var o := Run(k, swapsize, t[..n], vs[..n]);
    && o.Running? && PageOf(t[n]) !in Resident(o.m.cells) && k <= |o.m.cells| && o.m.cells[vs[n]].page == p
    && (0 < Writes(t[..n][LoadedAt(k, swapsize, t[..n], vs[..n], p)..], p) <==> written)
  }

  /** How many lines take a frame from a page that has, or has not, been written since it was loaded. */
  ghost function Takings(k: nat, swapsize: nat, t: seq<Access>, vs: seq<nat>, written: bool): nat
    requires InRange(k, t, vs)
  {
    if t == [] then 0
    else
      Takings(k, swapsize, t[..|t| - 1], vs[..|t| - 1], written)
      + if exists p :: TakesFrom(k, swapsize, t, vs, p, written) then 1 else 0
  }

  /** A line took a frame from p when p had been written since it was loaded. */
  ghost predicate TakenWritten(k: nat, swapsize: nat, t: seq<Access>, vs: seq<nat>, p: Page)
    requires InRange(k, t, vs)
  {
    t != [] &&
    (TakesFrom(k, swapsize, t, vs, p, true) || TakenWritten(k, swapsize, t[..|t| - 1], vs[..|t| - 1], p))
  }

  /** Dirty evictions are those of pages written since they were loaded, clean ones the others, and
      the pages that have been evicted dirty are those that own a slot. */
  lemma {:induction false} EvictionsExact(k: nat, swapsize: nat, t: seq<Access>, vs: seq<nat>)
    requires InRange(k, t, vs) && Run(k, swapsize, t, vs).Running?
    ensures var m := Run(k, swapsize, t, vs).m;
            && m.dirty == Takings(k, swapsize, t, vs, true) && m.clean == Takings(k, swapsize, t, vs, false)
            && forall p :: p in m.slots <==> TakenWritten(k, swapsize, t, vs, p)
    decreases |t|
  {
    hide Step, TakesFrom;
    if t != [] {
      var n := |t| - 1;
      EvictionsExact(k, swapsize, t[..n], vs[..n]);
      LastTaking(k, swapsize, t, vs);
    }
  }

  /** One line, seen by the victim's counter. */
  lemma StepTakes(k: nat, swapsize: nat, m: Machine, a: Access, v: nat)
    requires v < k && |m.cells| <= k && Step(k, swapsize, m, a, v).Running?
    ensures var m', taking := Step(k, swapsize, m, a, v).m, PageOf(a) !in Resident(m.cells) && k <= |m.cells|;
            && m'.dirty == m.dirty + Count(taking && 0 < m.cells[v].version)
            && m'.clean == m.clean + Count(taking && 0 == m.cells[v].version)
            && forall p :: p in m'.slots <==> p in m.slots || (taking && 0 < m.cells[v].version && p == m.cells[v].page)
  {
    FindResident(m.cells, PageOf(a));
  }

  lemma VictimTaken(k: nat, swapsize: nat, t: seq<Access>, vs: seq<nat>)
    requires InRange(k, t, vs) && t != [] && Run(k, swapsize, t[..|t| - 1], vs[..|t| - 1]).Running?
    ensures var m := Run(k, swapsize, t[..|t| - 1], vs[..|t| - 1]).m;
            var v := vs[|t| - 1];
            forall p, written ::
              TakesFrom(k, swapsize, t, vs, p, written) <==>
              PageOf(t[|t| - 1]) !in Resident(m.cells) && k <= |m.cells| && p == m.cells[v].page
              && (0 < m.cells[v].version <==> written)
  {
    hide Run, Writes, LoadedAt, Resident;
    var n := |t| - 1;
    var m := Run(k, swapsize, t[..n], vs[..n]).m;
    if k <= |m.cells| { CounterSinceLoad(k, swapsize, t[..n], vs[..n], vs[n]); }
  }

  lemma LastTaking(k: nat, swapsize: nat, t: seq<Access>, vs: seq<nat>)
    requires InRange(k, t, vs) && t != [] && Run(k, swapsize, t, vs).Running?
    ensures Run(k, swapsize, t[..|t| - 1], vs[..|t| - 1]).Running?
    ensures var m, m' := Run(k, swapsize, t[..|t| - 1], vs[..|t| - 1]).m, Run(k, swapsize, t, vs).m;
            && m'.dirty == m.dirty + (if exists p :: TakesFrom(k, swapsize, t, vs, p, true) then 1 else 0)
            && m'.clean == m.clean + (if exists p :: TakesFrom(k, swapsize, t, vs, p, false) then 1 else 0)
            && forall p :: p in m'.slots <==> p in m.slots || TakesFrom(k, swapsize, t, vs, p, true)
  {
    hide Step, TakesFrom, Resident;
    var n := |t| - 1;
    var m, v := Run(k, swapsize, t[..n], vs[..n]).m, vs[n];
    RunConsistent(k, swapsize, t[..n], vs[..n]);
    StepTakes(k, swapsize, m, t[n], v);
    VictimTaken(k, swapsize, t, vs);
    if v < |m.cells| {
      var p := m.cells[v].page;
      assert TakesFrom(k, swapsize, t, vs, p, true) <==>
             PageOf(t[n]) !in Resident(m.cells) && k <= |m.cells| && 0 < m.cells[v].version;
      assert TakesFrom(k, swapsize, t, vs, p, false) <==>
             PageOf(t[n]) !in Resident(m.cells) && k <= |m.cells| && 0 == m.cells[v].version;
    }
  }

  /** The content check of access_mem: on page-aligned traces the address stored in a frame
      is its page's own. */
  lemma ContentCheck(k: nat, swapsize: nat, t: seq<Access>, vs: seq<nat>, f: nat)
    requires InRange(k, t, vs) && Run(k, swapsize, t, vs).Running?
    requires f < |Run(k, swapsize, t, vs).m.cells|
    requires forall i :: 0 <= i < |t| ==> t[i].vaddr % PAGE == 0
    ensures var c := Run(k, swapsize, t, vs).m.cells[f]; c.stamp == c.page * PAGE
  {
    CounterSinceLoad(k, swapsize, t, vs, f);
  }

  /** The last line gives the address of the line that loaded its page. */
  ghost predicate Matches(k: nat, swapsize: nat, t: seq<Access>, vs: seq<nat>)
    requires InRange(k, t, vs) && t != []
  {
    var a := t[|t| - 1];
    var at := LoadedAt(k, swapsize, t, vs, PageOf(a));
    at < |t| && t[at].vaddr == a.vaddr
  }

  /** How many lines give another address. */
  ghost function Mismatches(k: nat, swapsize: nat, t: seq<Access>, vs: seq<nat>): nat
    requires InRange(k, t, vs)
  {
    if t == [] then 0
    else
      Mismatches(k, swapsize, t[..|t| - 1], vs[..|t| - 1]) + if Matches(k, swapsize, t, vs) then 0 else 1
  }

  lemma MismatchesSnoc(k: nat, swapsize: nat, t: seq<Access>, vs: seq<nat>, a: Access, v: nat)
    requires InRange(k, t, vs) && v < k
    ensures InRange(k, t + [a], vs + [v])
    ensures Mismatches(k, swapsize, t + [a], vs + [v]) ==
            Mismatches(k, swapsize, t, vs) + if Matches(k, swapsize, t + [a], vs + [v]) then 0 else 1
  {
    assert (t + [a])[..|t|] == t && (vs + [v])[..|vs|] == vs;
  }

  /** The address that the frame of the last line's page has stored shows it. */
  lemma StampShows(k: nat, swapsize: nat, t: seq<Access>, vs: seq<nat>, f: nat)
    requires InRange(k, t, vs) && t != [] && Run(k, swapsize, t, vs).Running?
    requires f < |Run(k, swapsize, t, vs).m.cells|
    requires Run(k, swapsize, t, vs).m.cells[f].page == PageOf(t[|t| - 1])
    ensures Run(k, swapsize, t, vs).m.cells[f].stamp == t[|t| - 1].vaddr <==> Matches(k, swapsize, t, vs)
  {
    hide Run;
    CounterSinceLoad(k, swapsize, t, vs, f);
  }

  /** On page-aligned traces none does. */
  lemma {:induction false} AlignedMatch(k: nat, swapsize: nat, t: seq<Access>, vs: seq<nat>)
    requires InRange(k, t, vs) && Run(k, swapsize, t, vs).Running?
    requires forall i :: 0 <= i < |t| ==> t[i].vaddr % PAGE == 0
    ensures Mismatches(k, swapsize, t, vs) == 0
    decreases |t|
  {
    hide Step, Matches;
    if t != [] {
      var n := |t| - 1;
      AlignedMatch(k, swapsize, t[..n], vs[..n]);
      AlignedLast(k, swapsize, t, vs);
    }
  }

  lemma AlignedLast(k: nat, swapsize: nat, t: seq<Access>, vs: seq<nat>)
    requires InRange(k, t, vs) && t != [] && Run(k, swapsize, t, vs).Running?
    requires forall i :: 0 <= i < |t| ==> t[i].vaddr % PAGE == 0
    ensures Matches(k, swapsize, t, vs)
  {
    hide Step, OnePerFrame, Resident;
    var n := |t| - 1;
    var m, m' := Run(k, swapsize, t[..n], vs[..n]).m, Run(k, swapsize, t, vs).m;
    RunConsistent(k, swapsize, t[..n], vs[..n]);
    StepCells(k, swapsize, m, t[n], vs[n]);
    CellsNext(k, m.cells, t[n], vs[n]);
    FindResident(m'.cells, PageOf(t[n]));
    var f := Find(m'.cells, PageOf(t[n]));
    ContentCheck(k, swapsize, t, vs, f);
    StampShows(k, swapsize, t, vs, f);
  }

  /** A run that has failed stays failed. */
  lemma {:induction false} FailedStays(k: nat, swapsize: nat, t: seq<Access>, vs: seq<nat>, n: nat)
    requires InRange(k, t, vs) && n <= |t| && Run(k, swapsize, t[..n], vs[..n]).SwapFull?
    ensures Run(k, swapsize, t, vs).SwapFull?
    decreases |t|
  {
    if n < |t| {
      var l := |t| - 1;
      assert t[..l][..n] == t[..n] && vs[..l][..n] == vs[..n];
      FailedStays(k, swapsize, t[..l], vs[..l], n);
    } else {
      assert t[..n] == t && vs[..n] == vs;
    }
  }
}
