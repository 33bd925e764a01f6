/** Three repairs to allocate_frame: it hands swap_pageout the victim's own frame number, it sets
    PG_ONSWAP in the entry of a page that it has written out, and it keeps PG_ONSWAP in the entry of
    the page that comes in. The machine here has frames, the flags of the entries, swap slots and
    the swap file; without the repairs it is the program's own, and with all three, and only then,
    paging and swap together behave as one flat memory. */
module Repaired {
  import opened Replay
  import opened Policies
  import opened Coremap
  import opened Paging
  import opened PagingLaws
  import opened Survival
  import opened Memory

  datatype Repairs = Repairs(ownFrame: bool, setsOnSwap: bool, keepsOnSwap: bool)

  const AsWritten := Repairs(false, false, false)
  const All := Repairs(true, true, true)

  /** dirty, onSwap: the pages whose entries have PG_DIRTY, PG_ONSWAP.  file: the swap file, by
      offset. */
  datatype State = State(m: Machine, dirty: set<Page>, onSwap: set<Page>, file: map<int, Content>)

  /** Unread: the swap file has nothing at the offset that swap_pagein is given. */
  datatype Result = Ready(s: State) | Full | Unread

  const Blank := State(Start, {}, {}, map[])

  // ----- the machine

  /** The frame that swap_pageout is told to write (pagetable.c:45). */
  function Written(r: Repairs, cells: seq<Cell>, victim: nat): Content
    requires victim < |cells|
  {
    var c := cells[if r.ownFrame then victim else victim / PAGE];
    Content(c.version, c.stamp)
  }

  /** The eviction half of allocate_frame (pagetable.c:42-56) and swap_pageout (swap.c:222-256). */
  function Out(r: Repairs, swapsize: nat, s: State, victim: nat): Result
    requires victim < |s.m.cells|
  {
    var m, p := s.m, s.m.cells[victim].page;
    if p !in s.dirty then Ready(s.(m := m.(clean := m.clean + 1)))
    else if p !in m.slots && swapsize <= |m.slots| then Full
    else
      var slots := if p in m.slots then m.slots else m.slots + [p];
      Ready(s.(m := m.(slots := slots, dirty := m.dirty + 1), dirty := s.dirty - {p},
               onSwap := if r.setsOnSwap then s.onSwap + {p} else s.onSwap,
               file := s.file[OffsetOf(slots, p) := Written(r, m.cells, victim)]))
  }

  /** The end of allocate_frame (pagetable.c:65-66): the entry of the page that comes in is written
      anew. */
  function Recorded(r: Repairs, s: State, p: Page): State {
    s.(dirty := s.dirty - {p}, onSwap := if r.keepsOnSwap then s.onSwap else s.onSwap - {p})
  }

  function Soil(dirty: set<Page>, a: Access): set<Page> { if IsWrite(a) then dirty + {PageOf(a)} else dirty }

  /** The page in its frame, zero-filled or read back, and accessed (pagetable.c:171-191). */
  function Filled(k: nat, s: State, a: Access, victim: nat, c: Content): State {
    var cell := Touch(Cell(PageOf(a), c.checkaddr, c.version), a);
    s.(m := s.m.(cells := Place(s.m.cells, Target(k, s.m, victim), cell), misses := s.m.misses + 1),
        dirty := Soil(s.dirty, a))
  }

  function Hit(s: State, a: Access, f: nat): State
    requires f < |s.m.cells|
  {
    s.(m := s.m.(cells := s.m.cells[f := Touch(s.m.cells[f], a)], hits := s.m.hits + 1), dirty := Soil(s.dirty, a))
  }

  /** The entry of a page that is not on swap is marked dirty, but only until it is written anew. */
  function Asked(s: State, p: Page): State { if p in s.onSwap then s else s.(dirty := s.dirty + {p}) }

  function Step(r: Repairs, k: nat, swapsize: nat, s: State, a: Access, victim: nat): Result
    requires victim < k
  {
    var p := PageOf(a);
    var f, asked := Find(s.m.cells, p), Asked(s, p);
    if f < |s.m.cells| then Ready(Hit(s, a, f))
    else
      match if |s.m.cells| < k then Ready(asked) else Out(r, swapsize, asked, victim)
      case Ready(out) =>
        var offset := OffsetOf(out.m.slots, p);
        if p !in s.onSwap then Ready(Filled(k, Recorded(r, out, p), a, victim, Content(0, a.vaddr)))
        else if offset in out.file then Ready(Filled(k, Recorded(r, out, p), a, victim, out.file[offset]))
        else Unread
      case other => other
  }

  ghost function Run(r: Repairs, k: nat, swapsize: nat, t: seq<Access>, vs: seq<nat>): Result
    requires InRange(k, t, vs)
  {
    if t == [] then Ready(Blank)
    else
      var n := |t| - 1;
      match Run(r, k, swapsize, t[..n], vs[..n])
      case Ready(s) => Step(r, k, swapsize, s, t[n], vs[n])
      case other => other
  }

  // ----- without repairs it is the program's own

  /** PG_DIRTY says that the frame has been written. */
  ghost predicate Told(cells: seq<Cell>, dirty: set<Page>) { forall p :: p in dirty <==> 0 < Held(cells, p) }

  /** And PG_ONSWAP is never set. */
  ghost predicate Plain(k: nat, s: State) {
    OnePerFrame(s.m.cells) && |s.m.cells| <= k && s.onSwap == {} && Told(s.m.cells, s.dirty)
  }

  lemma HitTold(cells: seq<Cell>, dirty: set<Page>, a: Access)
    requires OnePerFrame(cells) && Told(cells, dirty) && Find(cells, PageOf(a)) < |cells|
    ensures var f := Find(cells, PageOf(a));
            var cells' := cells[f := Touch(cells[f], a)];
            OnePerFrame(cells') && Told(cells', Soil(dirty, a))
  {
    var f := Find(cells, PageOf(a));
    var c := Touch(cells[f], a);
    FreshPage(cells, f, c);
    forall p ensures p in Soil(dirty, a) <==> 0 < Held(cells[f := c], p) { HeldUpdate(cells, f, c, p); }
  }

  lemma GrowTold(cells: seq<Cell>, dirty: set<Page>, a: Access)
    requires OnePerFrame(cells) && Told(cells, dirty) && Find(cells, PageOf(a)) == |cells|
    ensures OnePerFrame(cells + [Load(a)]) && Told(cells + [Load(a)], Soil(dirty, a))
  {
    FreshPage(cells, |cells|, Load(a));
    forall p ensures p in Soil(dirty, a) <==> 0 < Held(cells + [Load(a)], p) { HeldGrow(cells, Load(a), p); }
  }

  lemma ReplaceTold(cells: seq<Cell>, dirty: set<Page>, a: Access, v: nat)
    requires OnePerFrame(cells) && Told(cells, dirty) && Find(cells, PageOf(a)) == |cells| && v < |cells|
    ensures OnePerFrame(cells[v := Load(a)]) && Told(cells[v := Load(a)], Soil(dirty - {cells[v].page}, a))
    ensures cells[v].page != PageOf(a) && (cells[v].page in dirty <==> 0 < cells[v].version)
  {
    FreshPage(cells, v, Load(a));
    FindUnique(cells, v);
    forall p ensures p in Soil(dirty - {cells[v].page}, a) <==> 0 < Held(cells[v := Load(a)], p) {
      HeldUpdate(cells, v, Load(a), p);
    }
  }

  lemma StepAsWritten(k: nat, swapsize: nat, s: State, a: Access, v: nat)
    requires v < k && Plain(k, s)
    ensures match Step(AsWritten, k, swapsize, s, a, v)
            case Ready(s') => Paging.Step(k, swapsize, s.m, a, v) == Running(s'.m) && Plain(k, s')
            case Full => Paging.Step(k, swapsize, s.m, a, v) == SwapFull
            case Unread => false
  {
    hide OnePerFrame, Find, Held, Told, OffsetOf;
    var p, cells := PageOf(a), s.m.cells;
    NotYet(cells, s.dirty, p);
    assert s.onSwap - {p} == {};
    if Find(cells, p) < |cells| {
      HitTold(cells, s.dirty, a);
    } else if |cells| < k {
      GrowTold(cells, s.dirty, a);
    } else {
      ReplaceTold(cells, s.dirty, a, v);
      assert s.dirty + {p} - {cells[v].page} - {p} == s.dirty - {cells[v].page};
      assert cells[v].page !in s.dirty ==> s.dirty - {cells[v].page} == s.dirty;
    }
  }

  /** A page without a frame is not marked dirty; marking and unmarking it changes nothing. */
  lemma NotYet(cells: seq<Cell>, dirty: set<Page>, p: Page)
    requires Told(cells, dirty)
    ensures Find(cells, p) == |cells| ==> p !in dirty && dirty + {p} - {p} == dirty
  {
  }

  /** Without the repairs a run is the paging machine's, line for line. */
  lemma {:induction false} RunAsWritten(k: nat, swapsize: nat, t: seq<Access>, vs: seq<nat>)
    requires InRange(k, t, vs)
    ensures match Run(AsWritten, k, swapsize, t, vs)
            case Ready(s) => Paging.Run(k, swapsize, t, vs) == Running(s.m) && Plain(k, s)
            case Full => Paging.Run(k, swapsize, t, vs) == SwapFull
            case Unread => false
    decreases |t|
  {
    hide Step, Paging.Step;
    if t != [] {
      var n := |t| - 1;
      RunAsWritten(k, swapsize, t[..n], vs[..n]);
      var before := Run(AsWritten, k, swapsize, t[..n], vs[..n]);
      if before.Ready? { StepAsWritten(k, swapsize, before.s, t[n], vs[n]); }
    }
  }

  // ----- with all three it is one flat memory

  lemma FindUpdate(cells: seq<Cell>, f: nat, c: Cell, p: Page)
    requires OnePerFrame(cells) && f < |cells| && OnePerFrame(cells[f := c])
    ensures Find(cells[f := c], p) < |cells| <==> p == c.page || (p != cells[f].page && Find(cells, p) < |cells|)
  {
    var cells' := cells[f := c];
    FindUnique(cells', f);
    FindUnique(cells, f);
    if p != c.page {
      var g, g' := Find(cells, p), Find(cells', p);
      if g < |cells| && g != f { FindUnique(cells', g); }
      if g' < |cells| { FindUnique(cells, g'); }
    }
  }

  lemma FindGrow(cells: seq<Cell>, c: Cell, p: Page)
    requires OnePerFrame(cells + [c])
    ensures Find(cells + [c], p) < |cells| + 1 <==> p == c.page || Find(cells, p) < |cells|
  {
    var cells' := cells + [c];
    FindUnique(cells', |cells|);
    var g, g' := Find(cells, p), Find(cells', p);
    if g < |cells| { FindUnique(cells', g); }
  }

  /** A fresh page in a frame keeps every frame's page different. */
  lemma FreshPage(cells: seq<Cell>, f: nat, c: Cell)
    requires OnePerFrame(cells) && f <= |cells|
    requires if f < |cells| then c.page == cells[f].page || Find(cells, c.page) == |cells|
             else Find(cells, c.page) == |cells|
    ensures OnePerFrame(Place(cells, f, c))
  {
  }


  /** What swap holds of p's counter. */
  function OnDisk(s: State, p: Page): nat {
    if p in s.onSwap && OffsetOf(s.m.slots, p) in s.file then s.file[OffsetOf(s.m.slots, p)].version else 0
  }

  /** The counter of p wherever it is. */
  function Flat(s: State, p: Page): nat {
    if Find(s.m.cells, p) < |s.m.cells| then Held(s.m.cells, p) else OnDisk(s, p)
  }

  /** A page that PG_ONSWAP is set for is in the swap file at its slot's offset; one in memory that is
      not marked dirty is as swap has it, or was never written. */
  ghost predicate Faithful(k: nat, s: State) {
    && OnePerFrame(s.m.cells) && |s.m.cells| <= k && Distinct(s.m.slots)
    && (forall p | p in s.onSwap :: p in s.m.slots && OffsetOf(s.m.slots, p) in s.file)
    && (forall p | p in s.dirty :: Find(s.m.cells, p) < |s.m.cells|)
    && forall p | p !in s.dirty :: Flat(s, p) == OnDisk(s, p)
  }

  lemma SlotsAfter(s: State, p: Page)
    requires Distinct(s.m.slots)
    ensures var slots := if p in s.m.slots then s.m.slots else s.m.slots + [p];
            && Distinct(slots) && p in slots
            && (forall q | q in s.m.slots :: q in slots && OffsetOf(slots, q) == OffsetOf(s.m.slots, q))
            && (forall q | q in s.m.slots && q != p :: OffsetOf(slots, q) != OffsetOf(slots, p))
  {
    hide OffsetOf, Distinct;
    var slots := if p in s.m.slots then s.m.slots else s.m.slots + [p];
    if p !in s.m.slots { OffsetGrow(s.m.slots, p); }
    forall q | q in s.m.slots && q != p ensures OffsetOf(slots, q) != OffsetOf(slots, p) {
      assert q in slots && p in slots;
      SlotsApart(slots, p, q);
    }
  }

  /** Writing a modified page out loses nothing. */
  lemma OutFaithful(k: nat, swapsize: nat, s: State, v: nat)
    requires Faithful(k, s) && v < |s.m.cells| && Out(All, swapsize, s, v).Ready?
    ensures var s' := Out(All, swapsize, s, v).s;
            && Faithful(k, s') && s'.m.cells == s.m.cells && s.m.cells[v].page !in s'.dirty
            && (forall p :: Flat(s', p) == Flat(s, p)) && s'.dirty == s.dirty - {s.m.cells[v].page}
            && forall p | p != s.m.cells[v].page :: p in s'.onSwap <==> p in s.onSwap
  {
    hide OffsetOf, Find, OnePerFrame, Distinct;
    var page := s.m.cells[v].page;
    FindUnique(s.m.cells, v);
    if page in s.dirty {
      var s' := Out(All, swapsize, s, v).s;
      SlotsAfter(s, page);
      forall p ensures OnDisk(s', p) == if p == page then s.m.cells[v].version else OnDisk(s, p) { }
    }
  }

  /** Marking the page that comes in makes no difference to the eviction. */
  lemma AskedOut(r: Repairs, swapsize: nat, s: State, p: Page, v: nat)
    requires v < |s.m.cells| && p != s.m.cells[v].page && p !in s.dirty
    ensures var o, o' := Out(r, swapsize, s, v), Out(r, swapsize, Asked(s, p), v);
            && (o.Ready? <==> o'.Ready?) && !o'.Unread?
            && (o.Ready? ==> Recorded(r, o'.s, p) == Recorded(r, o.s, p) && o'.s.m == o.s.m && o'.s.file == o.s.file)
            && (o.Ready? && (r.keepsOnSwap || p !in s.onSwap) ==> Recorded(r, o.s, p) == o.s)
  {
    hide OffsetOf, Written;
    var page := s.m.cells[v].page;
    assert p !in s.onSwap ==> s.onSwap + {page} - {p} == s.onSwap + {page} && s.onSwap - {p} == s.onSwap;
    assert s.dirty + {p} - {page} - {p} == s.dirty - {page} && s.dirty - {p} == s.dirty
           && s.dirty + {p} - {p} == s.dirty;
    assert s.dirty - {page} - {p} == s.dirty - {page};
  }

  /** What is put into the frame: zeros, or what the swap file has. */
  ghost predicate Fetched(s: State, a: Access, c: Content) {
    if PageOf(a) in s.onSwap then OffsetOf(s.m.slots, PageOf(a)) in s.file
        && c == s.file[OffsetOf(s.m.slots, PageOf(a))]
    else c == Content(0, a.vaddr)
  }

  ghost predicate Adds(s: State, s': State, a: Access) {
    forall p :: Flat(s', p) == Flat(s, p) + Count(PageOf(a) == p && IsWrite(a))
  }

  lemma HitFlat(k: nat, s: State, a: Access, p: Page)
    requires Faithful(k, s) && Find(s.m.cells, PageOf(a)) < |s.m.cells|
    ensures var s' := Hit(s, a, Find(s.m.cells, PageOf(a)));
            Flat(s', p) == Flat(s, p) + Count(PageOf(a) == p && IsWrite(a))
            && (Find(s'.m.cells, p) < |s'.m.cells| <==> Find(s.m.cells, p) < |s.m.cells|)
            && OnePerFrame(s'.m.cells)
  {
    hide OffsetOf;
    var cells := s.m.cells;
    var f := Find(cells, PageOf(a));
    FreshPage(cells, f, Touch(cells[f], a));
    HeldUpdate(cells, f, Touch(cells[f], a), p);
    FindUpdate(cells, f, Touch(cells[f], a), p);
  }

  lemma GrowFlat(k: nat, s: State, a: Access, c: Content, p: Page)
    requires Faithful(k, s) && Find(s.m.cells, PageOf(a)) == |s.m.cells| < k && Fetched(s, a, c)
    ensures var s' := Filled(k, s, a, 0, c);
            Flat(s', p) == Flat(s, p) + Count(PageOf(a) == p && IsWrite(a))
            && (Find(s'.m.cells, p) < |s'.m.cells| <==> p == PageOf(a) || Find(s.m.cells, p) < |s.m.cells|)
            && OnePerFrame(s'.m.cells)
  {
    hide OffsetOf;
    var cell := Touch(Cell(PageOf(a), c.checkaddr, c.version), a);
    FreshPage(s.m.cells, |s.m.cells|, cell);
    HeldGrow(s.m.cells, cell, p);
    FindGrow(s.m.cells, cell, p);
  }

  lemma ReplaceFlat(k: nat, s: State, a: Access, v: nat, c: Content, p: Page)
    requires Faithful(k, s) && v < |s.m.cells| == k && s.m.cells[v].page !in s.dirty
    requires Find(s.m.cells, PageOf(a)) == |s.m.cells| && Fetched(s, a, c)
    ensures var s' := Filled(k, s, a, v, c);
            Flat(s', p) == Flat(s, p) + Count(PageOf(a) == p && IsWrite(a))
            && (p in s.dirty || p == PageOf(a) ==> Find(s'.m.cells, p) < |s'.m.cells|)
            && OnePerFrame(s'.m.cells)
  {
    hide OffsetOf;
    var cell := Touch(Cell(PageOf(a), c.checkaddr, c.version), a);
    FreshPage(s.m.cells, v, cell);
    HeldUpdate(s.m.cells, v, cell, p);
    FindUpdate(s.m.cells, v, cell, p);
    FindUnique(s.m.cells, v);
  }

  lemma AccessFaithful(k: nat, s: State, s': State, a: Access)
    requires Faithful(k, s) && s'.file == s.file && s'.onSwap == s.onSwap && s'.m.slots == s.m.slots
    requires s'.dirty == Soil(s.dirty, a) && OnePerFrame(s'.m.cells) && |s'.m.cells| <= k && Adds(s, s', a)
    requires forall p | p in s.dirty || p == PageOf(a) :: Find(s'.m.cells, p) < |s'.m.cells|
    ensures Faithful(k, s')
  {
    hide OnePerFrame, Find, Held, Flat, OffsetOf, Distinct;
    forall p | p !in s'.dirty ensures Flat(s', p) == OnDisk(s', p) {
      assert Flat(s', p) == Flat(s, p);
    }
  }

  lemma FilledFaithful(k: nat, s: State, a: Access, v: nat, c: Content)
    requires Faithful(k, s) && v < k && Find(s.m.cells, PageOf(a)) == |s.m.cells| && Fetched(s, a, c)
    requires |s.m.cells| == k ==> s.m.cells[v].page !in s.dirty
    ensures Faithful(k, Filled(k, s, a, v, c)) && Adds(s, Filled(k, s, a, v, c), a)
  {
    hide OnePerFrame, Find, Held, Flat, OffsetOf, Distinct;
    var s' := Filled(k, s, a, v, c);
    if |s.m.cells| < k {
      assert s' == Filled(k, s, a, 0, c);
      forall p
        ensures Flat(s', p) == Flat(s, p) + Count(PageOf(a) == p && IsWrite(a))
        ensures Find(s'.m.cells, p) < |s'.m.cells| <==> p == PageOf(a) || Find(s.m.cells, p) < |s.m.cells|
      {
        GrowFlat(k, s, a, c, p);
      }
      GrowFlat(k, s, a, c, 0);
    } else {
      forall p
        ensures Flat(s', p) == Flat(s, p) + Count(PageOf(a) == p && IsWrite(a))
        ensures p in s.dirty || p == PageOf(a) ==> Find(s'.m.cells, p) < |s'.m.cells|
      {
        ReplaceFlat(k, s, a, v, c, p);
      }
      ReplaceFlat(k, s, a, v, c, 0);
    }
    AccessFaithful(k, s, s', a);
  }

  lemma HitFaithful(k: nat, s: State, a: Access)
    requires Faithful(k, s) && Find(s.m.cells, PageOf(a)) < |s.m.cells|
    ensures var s' := Hit(s, a, Find(s.m.cells, PageOf(a))); Faithful(k, s') && Adds(s, s', a)
  {
    hide OnePerFrame, Find, Held, Flat, OffsetOf, Distinct;
    var s' := Hit(s, a, Find(s.m.cells, PageOf(a)));
    forall p
      ensures Flat(s', p) == Flat(s, p) + Count(PageOf(a) == p && IsWrite(a))
      ensures Find(s'.m.cells, p) < |s'.m.cells| <==> Find(s.m.cells, p) < |s.m.cells|
    {
      HitFlat(k, s, a, p);
    }
    HitFlat(k, s, a, 0);
    AccessFaithful(k, s, s', a);
  }

  /** One line adds one to the counter of the page it writes and to no other, and swap_pagein
      always finds what it is to read. */
  lemma StepFlat(k: nat, swapsize: nat, s: State, a: Access, v: nat)
    requires v < k && Faithful(k, s)
    ensures match Step(All, k, swapsize, s, a, v)
            case Ready(s') => Faithful(k, s') && Adds(s, s', a)
            case Full => |s.m.cells| == k && swapsize <= |s.m.slots|
            case Unread => false
  {
    hide OnePerFrame, Find, Held, Flat, OffsetOf, Distinct, Filled, Hit, Adds;
    var p := PageOf(a);
    if Find(s.m.cells, p) < |s.m.cells| {
      HitFaithful(k, s, a);
    } else if |s.m.cells| < k {
      assert s.dirty + {p} - {p} == s.dirty - {p} == s.dirty;
      FilledFaithful(k, s, a, v, if p in s.onSwap then s.file[OffsetOf(s.m.slots, p)] else Content(0, a.vaddr));
    } else {
      NotThere(s.m.cells, p, v);
      AskedOut(All, swapsize, s, p, v);
      if Out(All, swapsize, s, v).Ready? {
        var out := Out(All, swapsize, s, v).s;
        OutFaithful(k, swapsize, s, v);
        FilledFaithful(k, out, a, v, if p in out.onSwap
            then out.file[OffsetOf(out.m.slots, p)] else Content(0, a.vaddr));
        AddsToo(s, out, Filled(k, out, a, v, if p in out.onSwap
            then out.file[OffsetOf(out.m.slots, p)] else Content(0, a.vaddr)), a);
      }
    }
  }

  lemma NotThere(cells: seq<Cell>, p: Page, v: nat)
    requires Find(cells, p) == |cells| && v < |cells|
    ensures p != cells[v].page
  {
  }

  lemma AddsToo(s: State, out: State, s': State, a: Access)
    requires (forall p :: Flat(out, p) == Flat(s, p)) && Adds(out, s', a)
    ensures Adds(s, s', a)
  {
  }

  /** After any trace, under any choice of victims, every page's counter is its total number of
      writes, in memory or in the swap file. */
  lemma {:induction false} RunFlat(k: nat, swapsize: nat, t: seq<Access>, vs: seq<nat>)
    requires InRange(k, t, vs)
    ensures match Run(All, k, swapsize, t, vs)
            case Ready(s) => Faithful(k, s) && forall p :: Flat(s, p) == Writes(t, p)
            case Full => true
            case Unread => false
    decreases |t|
  {
    hide Step, Faithful;
    if t == [] {
      BlankFaithful(k);
    } else {
      var n := |t| - 1;
      RunFlat(k, swapsize, t[..n], vs[..n]);
      var before := Run(All, k, swapsize, t[..n], vs[..n]);
      if before.Ready? { StepFlat(k, swapsize, before.s, t[n], vs[n]); }
    }
  }

  lemma BlankFaithful(k: nat)
    ensures Faithful(k, Blank) && forall p :: Flat(Blank, p) == 0
  {
  }

  /** So nothing is lost: the counter in a frame is the page's total, whatever was swapped. */
  lemma NothingLost(k: nat, swapsize: nat, t: seq<Access>, vs: seq<nat>, f: nat)
    requires InRange(k, t, vs) && Run(All, k, swapsize, t, vs).Ready?
    requires f < |Run(All, k, swapsize, t, vs).s.m.cells|
    ensures var c := Run(All, k, swapsize, t, vs).s.m.cells[f]; c.version == Writes(t, c.page)
  {
    var s := Run(All, k, swapsize, t, vs).s;
    RunFlat(k, swapsize, t, vs);
    FindUnique(s.m.cells, f);
    assert Flat(s, s.m.cells[f].page) == Writes(t, s.m.cells[f].page);
  }

  /** Every address that a frame, or the swap file for a page on swap, has stored is its page's own. */
  ghost predicate Stamped(s: State) {
    && (forall f | 0 <= f < |s.m.cells| :: s.m.cells[f].stamp == s.m.cells[f].page * PAGE)
    && forall p | p in s.onSwap && OffsetOf(s.m.slots, p) in s.file ::
         s.file[OffsetOf(s.m.slots, p)].checkaddr == p * PAGE
  }

  lemma OutStamped(k: nat, swapsize: nat, s: State, v: nat)
    requires Faithful(k, s) && Stamped(s) && v < |s.m.cells| && Out(All, swapsize, s, v).Ready?
    ensures Stamped(Out(All, swapsize, s, v).s)
  {
    hide OffsetOf, Find, OnePerFrame, Distinct;
    if s.m.cells[v].page in s.dirty { SlotsAfter(s, s.m.cells[v].page); }
  }

  lemma FilledStamped(k: nat, s: State, a: Access, v: nat, c: Content)
    requires Stamped(s) && v < k && a.vaddr % PAGE == 0 && Fetched(s, a, c)
    ensures Stamped(Filled(k, s, a, v, c))
  {
    hide OffsetOf;
  }

  lemma StepStamped(k: nat, swapsize: nat, s: State, a: Access, v: nat)
    requires v < k && Faithful(k, s) && Stamped(s) && a.vaddr % PAGE == 0
    ensures Step(All, k, swapsize, s, a, v).Ready? ==> Stamped(Step(All, k, swapsize, s, a, v).s)
  {
    hide OnePerFrame, Find, Held, Flat, OffsetOf, Distinct, Filled, Stamped;
    var p := PageOf(a);
    if Find(s.m.cells, p) < |s.m.cells| {
      HitStamped(s, a, Find(s.m.cells, p));
    } else if |s.m.cells| < k {
      assert s.dirty + {p} - {p} == s.dirty - {p} == s.dirty;
      FilledStamped(k, s, a, v, if p in s.onSwap then s.file[OffsetOf(s.m.slots, p)] else Content(0, a.vaddr));
    } else {
      NotThere(s.m.cells, p, v);
      AskedOut(All, swapsize, s, p, v);
      if Out(All, swapsize, s, v).Ready? {
        var out := Out(All, swapsize, s, v).s;
        OutFaithful(k, swapsize, s, v);
        OutStamped(k, swapsize, s, v);
        FilledStamped(k, out, a, v, if p in out.onSwap
            then out.file[OffsetOf(out.m.slots, p)] else Content(0, a.vaddr));
      }
    }
  }

  lemma HitStamped(s: State, a: Access, f: nat)
    requires Stamped(s) && f < |s.m.cells|
    ensures Stamped(Hit(s, a, f))
  {
    hide OffsetOf;
  }

  /** And on page-aligned traces the content check never fails: every frame has its page's address,
      and so has the swap file. */
  lemma {:induction false} CheckHolds(k: nat, swapsize: nat, t: seq<Access>, vs: seq<nat>)
    requires InRange(k, t, vs) && Run(All, k, swapsize, t, vs).Ready?
    requires forall i :: 0 <= i < |t| ==> t[i].vaddr % PAGE == 0
    ensures Stamped(Run(All, k, swapsize, t, vs).s)
    decreases |t|
  {
    hide Step, Faithful, Stamped;
    if t == [] {
      BlankStamped();
    } else {
      var n := |t| - 1;
      RunFlat(k, swapsize, t[..n], vs[..n]);
      CheckHolds(k, swapsize, t[..n], vs[..n]);
      StepStamped(k, swapsize, Run(All, k, swapsize, t[..n], vs[..n]).s, t[n], vs[n]);
    }
  }

  lemma BlankStamped()
    ensures Stamped(Blank)
  {
  }

  // ----- and each of the three is needed

  /** Some run leaves a frame with a counter that is not its page's total. */
  ghost predicate Loses(r: Repairs) {
    exists k: nat, swapsize: nat, t, vs, f: nat :: LosesIn(r, k, swapsize, t, vs, f)
  }

  ghost predicate LosesIn(r: Repairs, k: nat, swapsize: nat, t: seq<Access>, vs: seq<nat>, f: nat) {
    && InRange(k, t, vs) && Run(r, k, swapsize, t, vs).Ready?
    && var cells := Run(r, k, swapsize, t, vs).s.m.cells;
       f < |cells| && cells[f].version != Writes(t, cells[f].page)
  }

  lemma RunSnoc(r: Repairs, k: nat, swapsize: nat, t: seq<Access>, vs: seq<nat>, a: Access, v: nat)
    requires InRange(k, t, vs) && v < k && Run(r, k, swapsize, t, vs).Ready?
    ensures InRange(k, t + [a], vs + [v])
    ensures Run(r, k, swapsize, t + [a], vs + [v]) == Step(r, k, swapsize, Run(r, k, swapsize, t, vs).s, a, v)
  {
    assert (t + [a])[..|t|] == t && (vs + [v])[..|vs|] == vs;
  }

  /** A run of two frames and four slots, line by line. */
  ghost predicate Passes(r: Repairs, t: seq<Access>, vs: seq<nat>, s: State) {
    InRange(2, t, vs) && Run(r, 2, 4, t, vs) == Ready(s)
  }

  lemma Pass(r: Repairs, t: seq<Access>, vs: seq<nat>, s: State, a: Access, v: nat, s': State)
    requires Passes(r, t, vs, s) && v < 2 && Step(r, 2, 4, s, a, v) == Ready(s')
    ensures Passes(r, t + [a], vs + [v], s')
    ensures forall p :: Writes(t + [a], p) == Writes(t, p) + Count(PageOf(a) == p && IsWrite(a))
  {
    RunSnoc(r, 2, 4, t, vs, a, v);
    forall p ensures Writes(t + [a], p) == Writes(t, p) + Count(PageOf(a) == p && IsWrite(a)) { WritesOf(t, a, p); }
  }

  const Held0 := Cell(0, 0, 1)
  const Read1 := Cell(1, 4096, 0)
  const Read2 := Cell(2, 8192, 0)

  /** After page 0 has been written, page 1 read, and page 2 has taken frame 0. */
  function Three0(r: Repairs): State {
    State(Machine([Read2, Read1], [0], 0, 3, 0, 1), {}, if r.setsOnSwap then {0} else {}, map[0 := Content(1, 0)])
  }

  lemma FirstThree(r: Repairs)
    ensures Passes(r, Losing[..3], [0, 0, 0], Three0(r)) && Writes(Losing[..3], 0) == 1
  {
    hide Step, Run, OffsetOf;
    var s, l, l' := Losing[0], Losing[1], Losing[2];
    Begin(r);
    var one := FirstLine(r, s);
    Pass(r, [], [], Blank, s, 0, one);
    assert [] + [s] == [s] && [] + [0] == [0];
    var two := SecondLine(r, Held0, {0}, l);
    Pass(r, [s], [0], one, l, 0, two);
    assert [s] + [l] == [s, l] && [0] + [0] == [0, 0];
    var three := ThirdLine(r, Held0, Read1, 0, l');
    Pass(r, [s, l], [0, 0], two, l', 0, three);
    assert [s, l] + [l'] == Losing[..3] && [0, 0] + [0] == [0, 0, 0];
  }

  lemma Begin(r: Repairs)
    ensures Passes(r, [], [], Blank) && forall p :: Writes([], p) == 0
  {
  }

  lemma OneSlot(p: Page)
    ensures OffsetOf([p], p) == 0
  {
  }

  /** A page that has no frame and is not on swap, while frames are free. */
  lemma GrowStep(r: Repairs, k: nat, s: State, a: Access, v: nat)
    requires v < k && Find(s.m.cells, PageOf(a)) == |s.m.cells| < k && PageOf(a) !in s.onSwap && PageOf(a) !in s.dirty
    ensures Step(r, k, 4, s, a, v) == Ready(Filled(k, s, a, v, Content(0, a.vaddr)))
  {
    var p := PageOf(a);
    assert s.dirty + {p} - {p} == s.dirty && s.onSwap - {p} == s.onSwap;
  }

  /** And when none is. */
  lemma EvictStep(r: Repairs, k: nat, s: State, a: Access, v: nat, out: State, c: Content)
    requires v < k == |s.m.cells| == Find(s.m.cells, PageOf(a)) && PageOf(a) !in s.dirty
             && Out(r, 4, s, v) == Ready(out)
    requires if PageOf(a) in s.onSwap then OffsetOf(out.m.slots, PageOf(a)) in out.file
             && c == out.file[OffsetOf(out.m.slots, PageOf(a))]
             else c == Content(0, a.vaddr)
    ensures Step(r, k, 4, s, a, v) == Ready(Filled(k, Recorded(r, out, PageOf(a)), a, v, c))
  {
    hide OffsetOf, Out, Filled;
    NotThere(s.m.cells, PageOf(a), v);
    AskedOut(r, 4, s, PageOf(a), v);
    assert Asked(s, PageOf(a)).m == s.m;
  }

  /** The first line of a trace. */
  lemma FirstLine(r: Repairs, a: Access) returns (s': State)
    ensures s' == State(Machine([Load(a)], [], 0, 1, 0, 0), if IsWrite(a) then {PageOf(a)} else {}, {}, map[])
    ensures Step(r, 2, 4, Blank, a, 0) == Ready(s')
  {
    hide Step;
    GrowStep(r, 2, Blank, a, 0);
    s' := Filled(2, Blank, a, 0, Content(0, a.vaddr));
    assert {} + {PageOf(a)} == {PageOf(a)};
  }

  /** The second, with another page. */
  lemma SecondLine(r: Repairs, c: Cell, dirty: set<Page>, a: Access) returns (s': State)
    requires c.page != PageOf(a) && PageOf(a) !in dirty
    ensures s' == State(Machine([c, Load(a)], [], 0, 2, 0, 0), Soil(dirty, a), {}, map[])
    ensures Step(r, 2, 4, State(Machine([c], [], 0, 1, 0, 0), dirty, {}, map[]), a, 0) == Ready(s')
  {
    hide Step, Find;
    FindTwo(c, c, PageOf(a));
    var s := State(Machine([c], [], 0, 1, 0, 0), dirty, {}, map[]);
    GrowStep(r, 2, s, a, 0);
    s' := Filled(2, s, a, 0, Content(0, a.vaddr));
    assert [c] + [Load(a)] == [c, Load(a)];
  }

  /** The third, with a third page, for which the only page marked dirty is written out of frame v. */
  lemma ThirdLine(r: Repairs, c: Cell, d: Cell, v: nat, a: Access) returns (s': State)
    requires c.page != PageOf(a) && d.page != PageOf(a) && a.kind == 'L' && v < 2
    ensures var p, from := [c, d][v].page, if r.ownFrame then [c, d][v] else c;
            && s' == State(Machine([c, d][v := Load(a)], [p], 0, 3, 0, 1), {}, if r.setsOnSwap then {p} else {},
                           map[0 := Content(from.version, from.stamp)])
            && Step(r, 2, 4, State(Machine([c, d], [], 0, 2, 0, 0), {p}, {}, map[]), a, v) == Ready(s')
  {
    hide Step, Find, OffsetOf;
    var p := [c, d][v].page;
    var s := State(Machine([c, d], [], 0, 2, 0, 0), {p}, {}, map[]);
    FindTwo(c, d, PageOf(a));
    OneSlot(p);
    var out := Out(r, 4, s, v).s;
    assert {p} - {p} == {} && {} + {p} == {p} && [] + [p] == [p];
    EvictStep(r, 2, s, a, v, out, Content(0, a.vaddr));
    s' := Filled(2, Recorded(r, out, PageOf(a)), a, v, Content(0, a.vaddr));
    assert {} - {PageOf(a)} == {} && out.onSwap - {PageOf(a)} == out.onSwap;
  }

  /** A line that puts page p into frame 1, out of which a page goes that is not marked dirty. */
  lemma SecondFrame(r: Repairs, m: Machine, onSwap: set<Page>, file: map<int, Content>, kept: Cell, goes: Cell,
                    a: Access, c: Content)
      returns (s': State)
    requires m.cells == [kept, goes] && a.kind == 'L' && kept.page != PageOf(a) && goes.page != PageOf(a)
    requires if PageOf(a) in onSwap then OffsetOf(m.slots, PageOf(a)) in file && c == file[OffsetOf(m.slots, PageOf(a))]
             else c == Content(0, a.vaddr)
    ensures s' == State(m.(cells := [kept, Cell(PageOf(a), c.checkaddr, c.version)],
                              clean := m.clean + 1, misses := m.misses + 1), {},
                        if r.keepsOnSwap then onSwap else onSwap - {PageOf(a)}, file)
    ensures Step(r, 2, 4, State(m, {}, onSwap, file), a, 1) == Ready(s')
  {
    hide Step, OffsetOf, Find;
    var s := State(m, {}, onSwap, file);
    FindTwo(kept, goes, PageOf(a));
    var out := s.(m := m.(clean := m.clean + 1));
    EvictStep(r, 2, s, a, 1, out, c);
    s' := Filled(2, Recorded(r, out, PageOf(a)), a, 1, c);
    assert {} - {PageOf(a)} == {};
    assert m.cells[1 := Cell(PageOf(a), c.checkaddr, c.version)] == [kept, Cell(PageOf(a), c.checkaddr, c.version)];
  }

  /** A page that has been written out has to be found on swap. */
  lemma SetsNeeded(r: Repairs)
    requires !r.setsOnSwap
    ensures Loses(r)
  {
    hide Step, Run, OffsetOf;
    var s := Three0(r);
    FirstThree(r);
    var four := SecondFrame(r, s.m, {}, s.file, Read2, Read1, Losing[3], Content(0, 0));
    Pass(r, Losing[..3], [0, 0, 0], s, Losing[3], 1, four);
    assert LosesIn(r, 2, 4, Losing[..3] + [Losing[3]], [0, 0, 0] + [1], 1);
  }

  /** More than once. */
  lemma KeepsNeeded(r: Repairs)
    requires r.setsOnSwap && !r.keepsOnSwap
    ensures Loses(r)
  {
    hide Step, Run, OffsetOf;
    var s, back, other := Three0(r), Losing[3], Losing[1];
    OneSlot(0);
    FirstThree(r);
    var four := SecondFrame(r, s.m, {0}, s.file, Read2, Read1, back, Content(1, 0));
    Pass(r, Losing[..3], [0, 0, 0], s, back, 1, four);
    assert {0} - {0} == {} && {} - {1} == {};
    var five := SecondFrame(r, four.m, {}, s.file, Read2, Held0, other, Content(0, 4096));
    Pass(r, Losing[..3] + [back], [0, 0, 0] + [1], four, other, 1, five);
    var six := SecondFrame(r, five.m, {}, s.file, Read2, Read1, back, Content(0, 0));
    Pass(r, Losing[..3] + [back] + [other], [0, 0, 0] + [1] + [1], five, back, 1, six);
    assert LosesIn(r, 2, 4, Losing[..3] + [back] + [other] + [back], [0, 0, 0] + [1] + [1] + [1], 1);
  }

  const Read0 := Cell(0, 0, 0)
  const Held1 := Cell(1, 4096, 1)

  /** And it has to be that page's own frame that was written out. */
  lemma FrameNeeded(r: Repairs)
    requires r.setsOnSwap && r.keepsOnSwap && !r.ownFrame
    ensures Loses(r)
  {
    hide Step, Run, OffsetOf;
    var l, s, l', back := Access('L', 0), Access('S', 4096), Access('L', 8192), Access('L', 4096);
    Begin(r);
    var one := FirstLine(r, l);
    Pass(r, [], [], Blank, l, 0, one);
    var two := SecondLine(r, Read0, {}, s);
    Pass(r, [] + [l], [] + [0], one, s, 0, two);
    assert {} + {1} == {1};
    var three := ThirdLine(r, Read0, Held1, 1, l');
    Pass(r, [] + [l] + [s], [] + [0] + [0], two, l', 1, three);
    OneSlot(1);
    var four := SecondFrame(r, three.m, {1}, three.file, Read0, Read2, back, Content(0, 0));
    Pass(r, [] + [l] + [s] + [l'], [] + [0] + [0] + [1], three, back, 1, four);
    assert LosesIn(r, 2, 4, [] + [l] + [s] + [l'] + [back], [] + [0] + [0] + [1] + [1], 1);
  }

  /** Nothing is ever lost exactly with all three repairs. */
  lemma RepairsExact(r: Repairs)
    ensures Loses(r) <==> r != All
  {
    hide Step, Run, LosesIn;
    if !r.setsOnSwap {
      SetsNeeded(r);
    } else if !r.keepsOnSwap {
      KeepsNeeded(r);
    } else if !r.ownFrame {
      FrameNeeded(r);
    } else {
      assert r == All;
      forall k: nat, swapsize: nat, t, vs, f: nat ensures !LosesIn(All, k, swapsize, t, vs, f) {
        NeverLoses(k, swapsize, t, vs, f);
      }
    }
  }

  lemma NeverLoses(k: nat, swapsize: nat, t: seq<Access>, vs: seq<nat>, f: nat)
    ensures !LosesIn(All, k, swapsize, t, vs, f)
  {
    if InRange(k, t, vs) && Run(All, k, swapsize, t, vs).Ready? && f < |Run(All, k, swapsize, t, vs).s.m.cells| {
      NothingLost(k, swapsize, t, vs, f);
    }
  }
}
