/** The program as a whole: main of sim.c, from the command line values to the counters it
    prints, with what the choice of algorithm guarantees. */
module Simulation {
  import opened Replay
  import opened Policies
  import opened Paging
  import opened PageTable
  import opened Simulator
  import Competitive
  import ConservativePolicies
  import Optimal
  import PagingLaws

  datatype Counters = Counters(hits: nat, misses: nat, clean: nat, dirty: nat, references: nat)

  /** What main requires of its arguments: the list policies need two frames, frame numbers
      and swap offsets must fit their fields, and addresses have 36 bits. */
  predicate Arguments(alg: Algorithm, memsize: nat, swapsize: nat, lines: seq<Access>) {
    && 0 < memsize <= 0x10_0000 && swapsize <= 0x800_0000 && (alg.Listed? ==> 2 <= memsize)
    && forall i :: 0 <= i < |lines| ==> lines[i].vaddr < VADDRS
  }

  method Simulate(alg: Algorithm, memsize: nat, swapsize: nat, lines: seq<Access>)
    returns (ok: bool, c: Counters, mismatches: nat)
    requires Arguments(alg, memsize, swapsize, lines)
    // enough swap for the distinct pages is always enough
    ensures |Competitive.Pages(PagesOf(lines))| <= swapsize ==> ok
    // the counters add up
    ensures ok ==> c.references == |lines| && c.hits + c.misses == c.references
    ensures ok ==> c.clean + c.dirty <= c.misses <= c.clean + c.dirty + memsize
    // the miss count is that of a legal run of the open paging machine
    ensures ok ==> exists ws ::
            Legal(memsize, {}, PagesOf(lines), ws) && c.misses == Faults(memsize, {}, PagesOf(lines), ws)
    // the two kinds of eviction are told apart by whether the page was written since its load, and the
    // content check fails on the lines that give another address than the one that loaded their page
    ensures ok ==> exists vs ::
            InRange(memsize, lines, vs)
            && c.dirty == PagingLaws.Takings(memsize, swapsize, lines, vs, true)
            && c.clean == PagingLaws.Takings(memsize, swapsize, lines, vs, false)
            && mismatches == PagingLaws.Mismatches(memsize, swapsize, lines, vs)
    // a list policy misses as its list says, and within a factor of memsize of any policy
    ensures ok && alg.Listed? ==> c.misses == Misses(alg.pol, memsize, PagesOf(lines))
    ensures ok && alg.Listed? ==>
              forall ws :: Legal(memsize, {}, PagesOf(lines), ws) ==>
                c.misses <= memsize * Faults(memsize, {}, PagesOf(lines), ws)
    // OPT misses no more often than any policy
    ensures ok && alg.Opt? ==>
              forall ws :: Legal(memsize, {}, PagesOf(lines), ws) ==>
                c.misses <= Faults(memsize, {}, PagesOf(lines), ws)
    // page-aligned traces never fail the content check
    ensures (forall i :: 0 <= i < |lines| ==> lines[i].vaddr % 4096 == 0) ==> mismatches == 0
  {
    hide Legal, Faults, Run, Misses, Progress, PagingLaws.Takings, PagingLaws.Mismatches;
    var sim := new Simulator(alg, memsize, swapsize, lines);
    ghost var vs;
    ok, mismatches, vs := sim.ReplayTrace(lines);
    c := Counters(sim.mem.hitCount, sim.mem.missCount, sim.mem.evictCleanCount, sim.mem.evictDirtyCount, sim.refCount);
    if ok {
      Guarantees(alg, memsize, swapsize, lines, vs, sim.m, sim.q);
    }
    if |Competitive.Pages(PagesOf(lines))| <= swapsize {
      PagingLaws.SwapSuffices(memsize, swapsize, lines, vs);
    }
  }

  lemma Guarantees(alg: Algorithm, k: nat, swapsize: nat, lines: seq<Access>, vs: seq<nat>, m: Machine, q: Queue<Page>)
    requires 0 < k && Progress(alg, k, swapsize, lines, vs, m, q) && |vs| == |lines|
    ensures InRange(k, lines, vs)
    ensures m.dirty == PagingLaws.Takings(k, swapsize, lines, vs, true)
    ensures m.clean == PagingLaws.Takings(k, swapsize, lines, vs, false)
    ensures m.hits + m.misses == |lines| && m.clean + m.dirty <= m.misses <= m.clean + m.dirty + k
    ensures exists ws :: Legal(k, {}, PagesOf(lines), ws) && m.misses == Faults(k, {}, PagesOf(lines), ws)
    ensures alg.Listed? ==> m.misses == Misses(alg.pol, k, PagesOf(lines))
    ensures alg.Listed? ==>
              forall ws :: Legal(k, {}, PagesOf(lines), ws) ==> m.misses <= k * Faults(k, {}, PagesOf(lines), ws)
    ensures alg.Opt? ==>
              forall ws :: Legal(k, {}, PagesOf(lines), ws) ==> m.misses <= Faults(k, {}, PagesOf(lines), ws)
  {
    var t := PagesOf(lines);
    ProgressRun(alg, k, swapsize, lines, vs, m, q);
    assert lines[..|vs|] == lines;
    PagingLaws.RunConsistent(k, swapsize, lines, vs);
    PagingLaws.RunIsReplay(k, swapsize, lines, vs);
    PagingLaws.EvictionsExact(k, swapsize, lines, vs);
    var ps := PageVictims(k, swapsize, lines, vs);
    if alg.Listed? {
      forall ws | Legal(k, {}, t, ws) ensures m.misses <= k * Faults(k, {}, t, ws) {
        ConservativePolicies.PolicyIsCompetitive(alg.pol, k, t, ws);
      }
    }
    if alg.Opt? {
      Optimal.FarthestIsMin(k, t, ps, 0);
      assert t[..0] == [] && ps[..0] == [] && t[0..] == t && ps[0..] == ps;
      forall ws | Legal(k, {}, t, ws) ensures m.misses <= Faults(k, {}, t, ws) {
        Optimal.MinIsOptimal(k, {}, t, ps, ws);
      }
    }
  }
}
