/** Why bounded-memory policies are compared with the optimum: a policy that never misses
    more often than there are distinct pages in a stretch of at most k of them (a
    conservative policy) misses at most k times as often as any policy whatsoever. */
module Competitive {
  import opened Replay
  import opened Sets

  ghost function Pages(t: seq<Page>): set<Page> { set p | p in t }

  /** misses gives the miss count after a whole reference string from an empty memory. */
  ghost predicate Conservative(k: nat, misses: seq<Page> -> nat) {
    && misses([]) == 0
    && forall a, b :: |Pages(b)| <= k ==> misses(a + b) <= misses(a) + |Pages(b)|
  }

  /** The string cut greedily into phases of at most k distinct pages. */
  datatype Cut = Cut(phases: nat, start: nat)

  ghost function Phases(k: nat, t: seq<Page>): (c: Cut)
    ensures c.start <= |t|
    ensures t != [] ==> 0 < c.phases && c.start < |t|
  {
    if t == [] then Cut(0, 0)
    else
      var c := Phases(k, t[..|t| - 1]);
      if c.phases == 0 || k < |Pages(t[c.start..])| then Cut(c.phases + 1, |t| - 1) else c
  }

  lemma PagesSplit(a: seq<Page>, b: seq<Page>)
    ensures Pages(a + b) == Pages(a) + Pages(b)
  {
  }

  lemma PhaseStep(k: nat, t: seq<Page>)
    requires t != []
    ensures var init := t[..|t| - 1];
            var c, c' := Phases(k, init), Phases(k, t);
            && (init == [] ==> c.phases == 0)
            && (init != [] ==> 0 < c.phases && c.start < |init|)
            && c' == if c.phases == 0 || k < |Pages(t[c.start..])| then Cut(c.phases + 1, |t| - 1) else c
  {
  }

  lemma OnePage(p: Page)
    ensures |Pages([p])| == 1
  {
    JustOne(p);
  }

  /** The current phase holds at most k pages, and cutting it off leaves one phase less. */
  lemma {:induction false} CurrentPhase(k: nat, t: seq<Page>)
    requires 0 < k && t != []
    ensures var c := Phases(k, t);
            && c.start <= |t|
            && |Pages(t[c.start..])| <= k
            && Phases(k, t[..c.start]).phases == c.phases - 1
  {
    hide Phases, Pages;
    var init, c := t[..|t| - 1], Phases(k, t);
    PhaseStep(k, t);
    if c.start == |t| - 1 {
      assert t[c.start..] == [t[c.start]];
      OnePage(t[c.start]);
    } else {
      CurrentPhase(k, init);
      assert t[..c.start] == init[..c.start];
    }
  }

  lemma ConservativeAt(k: nat, misses: seq<Page> -> nat, a: seq<Page>, b: seq<Page>)
    requires Conservative(k, misses) && |Pages(b)| <= k
    ensures misses(a + b) <= misses(a) + k
  {
  }

  lemma Scale(k: nat, a: int, b: int)
    requires a <= b
    ensures k * a <= k * b && k * (a + 1) == k * a + k
  {
  }

  /** A conservative policy pays at most k misses for every phase. */
  lemma {:induction false} AtMostKPerPhase(k: nat, misses: seq<Page> -> nat, t: seq<Page>)
    requires 0 < k && Conservative(k, misses)
    ensures misses(t) <= k * Phases(k, t).phases
    decreases |t|
  {
    if t != [] {
      var c := Phases(k, t);
      CurrentPhase(k, t);
      AtMostKPerPhase(k, misses, t[..c.start]);
      ConservativeAt(k, misses, t[..c.start], t[c.start..]);
      assert t == t[..c.start] + t[c.start..];
      Scale(k, c.phases - 1, c.phases - 1);
    }
  }

  /** What a run knows about the current phase: base is the memory just after the phase's
      first reference, and every page of the phase outside base has been loaded since. */
  ghost predicate Charged(k: nat, base: set<Page>, mem: set<Page>, phase: set<Page>, phases: nat, faults: nat) {
    |base| <= k && mem <= base + phase && phases + |phase - base| <= faults
  }

  lemma SamePhase(k: nat, base: set<Page>, mem: set<Page>, phase: set<Page>, phases: nat, faults: nat, p: Page, v: Page)
    requires Charged(k, base, mem, phase, phases, faults)
    ensures Charged(k, base, Next(k, mem, p, v), phase + {p}, phases, faults + if p in mem then 0 else 1)
  {
    if p in phase || p in base {
      assert phase + {p} - base == phase - base;
    } else {
      assert phase + {p} - base == phase - base + {p};
    }
  }

  lemma NewPhase(k: nat, base: set<Page>, mem: set<Page>, phase: set<Page>, phases: nat, faults: nat, p: Page, v: Page)
    requires Charged(k, base, mem, phase, phases, faults)
    requires |mem| <= k && 0 < k && (NeedsVictim(k, mem, p) ==> v in mem)
    requires if phases == 0 then mem == {} else k < |phase + {p}|
    ensures var mem' := Next(k, mem, p, v);
            p in mem' && Charged(k, mem', mem', {p}, phases + 1, faults + if p in mem then 0 else 1)
  {
    NextSize(k, mem, p, v);
    assert {p} - Next(k, mem, p, v) == {};
    if phases != 0 {
      SamePhase(k, base, mem, phase, phases, faults, p, v);
      NewPhaseMisses(k, base, phase, p);
    }
  }

  lemma OneEach(k: nat, t: seq<Page>, vs: seq<Page>)
    requires Legal(k, {}, t, vs)
    ensures |vs| == |t|
  {
  }

  lemma NoPhase(k: nat)
    ensures var none: seq<Page> := [];
            Phases(k, none) == Cut(0, 0) && Charged(k, {}, {}, Pages(none[0..]), 0, 0)
  {
  }

  lemma JustOne(p: Page)
    ensures Pages([p]) == {p}
  {
  }

  /** One reference more, in the same phase or starting the next. */
  lemma ChargeStep(k: nat, init: seq<Page>, p: Page, c: Cut, c': Cut, base: set<Page>, mem: set<Page>, faults: nat,
                   v: Page)
    returns (base': set<Page>)
    requires 0 < k && c.start <= |init| && |mem| <= k && (NeedsVictim(k, mem, p) ==> v in mem)
    requires Charged(k, base, mem, Pages(init[c.start..]), c.phases, faults)
    requires c.phases == 0 ==> mem == {}
    requires c' == if c.phases == 0 || k < |Pages((init + [p])[c.start..])| then Cut(c.phases + 1, |init|) else c
    ensures Charged(k, base', Next(k, mem, p, v), Pages((init + [p])[c'.start..]), c'.phases,
                    faults + if p in mem then 0 else 1)
  {
    hide Pages, Next, Charged;
    PagesSplit(init[c.start..], [p]);
    JustOne(p);
    assert (init + [p])[c.start..] == init[c.start..] + [p];
    if c' == c {
      SamePhase(k, base, mem, Pages(init[c.start..]), c.phases, faults, p, v);
      base' := base;
    } else {
      NewPhase(k, base, mem, Pages(init[c.start..]), c.phases, faults, p, v);
      base' := Next(k, mem, p, v);
      assert (init + [p])[|init|..] == [p];
    }
  }

  /** The memory and the misses of a run, charged to the phases of its reference string. */
  ghost predicate Paid(k: nat, t: seq<Page>, vs: seq<Page>, base: set<Page>) {
    && Legal(k, {}, t, vs) && |vs| == |t|
    && var c := Phases(k, t);
       Charged(k, base, After(k, {}, t, vs), Pages(t[c.start..]), c.phases, Faults(k, {}, t, vs))
  }

  lemma PaidStep(k: nat, init: seq<Page>, before: seq<Page>, p: Page, v: Page, base: set<Page>)
      returns (base': set<Page>)
    requires 0 < k && Paid(k, init, before, base) && Legal(k, {}, init + [p], before + [v])
    ensures Paid(k, init + [p], before + [v], base')
  {
    hide Legal, After, Faults, Phases, Pages, Next, Charged;
    EmptyRun(k, {});
    Extend(k, init, before, p, v);
    AfterSize(k, {}, init, before);
    PhaseStep(k, init + [p]);
    assert (init + [p])[..|init + [p]| - 1] == init;
    base' := ChargeStep(k, init, p, Phases(k, init), Phases(k, init + [p]), base,
                        After(k, {}, init, before), Faults(k, {}, init, before), v);
  }

  /** Any policy at all pays at least one miss for every phase. */
  lemma {:induction false} AtLeastOnePerPhase(k: nat, t: seq<Page>, vs: seq<Page>)
    returns (base: set<Page>)
    requires 0 < k && Legal(k, {}, t, vs)
    ensures Paid(k, t, vs, base) && Phases(k, t).phases <= Faults(k, {}, t, vs)
    decreases |t|
  {
    hide Legal, After, Faults, Phases, Paid;
    OneEach(k, t, vs);
    if t == [] {
      assert vs == [];
      base := {};
      NothingPaid(k);
    } else {
      var n := |t| - 1;
      assert t == t[..n] + [t[n]] && vs == vs[..n] + [vs[n]];
      Extend(k, t[..n], vs[..n], t[n], vs[n]);
      base := AtLeastOnePerPhase(k, t[..n], vs[..n]);
      base := PaidStep(k, t[..n], vs[..n], t[n], vs[n], base);
    }
    PaidCovers(k, t, vs, base);
  }

  lemma NothingPaid(k: nat)
    ensures Paid(k, [], [], {})
  {
    EmptyRun(k, {});
    NoPhase(k);
  }

  lemma PaidCovers(k: nat, t: seq<Page>, vs: seq<Page>, base: set<Page>)
    requires Paid(k, t, vs, base)
    ensures |vs| == |t| && Phases(k, t).phases <= Faults(k, {}, t, vs)
  {
  }

  lemma NewPhaseMisses(k: nat, base: set<Page>, prev: set<Page>, p: Page)
    requires |base| <= k < |prev + {p}|
    ensures 0 < |(prev + {p}) - base|
  {
    if (prev + {p}) - base == {} {
      SubsetSize(prev + {p}, base);
    }
  }

  /** A conservative policy is k-competitive. */
  lemma ConservativeIsCompetitive(k: nat, misses: seq<Page> -> nat, t: seq<Page>, vs: seq<Page>)
    requires 0 < k && Conservative(k, misses) && Legal(k, {}, t, vs)
    ensures misses(t) <= k * Faults(k, {}, t, vs)
  {
    AtMostKPerPhase(k, misses, t);
    var base := AtLeastOnePerPhase(k, t, vs);
    Scale(k, Phases(k, t).phases, Faults(k, {}, t, vs));
  }
}
