/** Demand paging over an unbounded reference string, with the victim choice left open.

    The simulator's paging step (pagetable.c, allocate_frame and find_physpage) sees only
    which pages are resident and which one the replacement algorithm gives up, so a run is
    fixed by the reference string and the victims.  A victim is recorded for every
    reference; it is looked at only when the reference misses in a full memory. */
module Replay {
  type Page = int

  /** The resident pages after one reference to p with k frames. */
  function Next(k: nat, mem: set<Page>, p: Page, victim: Page): set<Page> {
    if p in mem then mem
    else if |mem| < k then mem + {p}
    else mem - {victim} + {p}
  }

  /** A victim is needed exactly when the page is absent and every frame is in use. */
  predicate NeedsVictim(k: nat, mem: set<Page>, p: Page) {
    p !in mem && k <= |mem|
  }

  /** Every victim that is used is resident: any in-range answer of evict_fcn. */
  ghost predicate Legal(k: nat, mem: set<Page>, t: seq<Page>, vs: seq<Page>)
    decreases |t|
  {
    && |vs| == |t|
    && (t != [] ==>
          && (NeedsVictim(k, mem, t[0]) ==> vs[0] in mem)
          && Legal(k, Next(k, mem, t[0], vs[0]), t[1..], vs[1..]))
  }

  /** miss_count of the run. */
  ghost function Faults(k: nat, mem: set<Page>, t: seq<Page>, vs: seq<Page>): nat
    requires |vs| == |t|
    decreases |t|
  {
    if t == [] then 0
    else (if t[0] in mem then 0 else 1) + Faults(k, Next(k, mem, t[0], vs[0]), t[1..], vs[1..])
  }

  ghost function After(k: nat, mem: set<Page>, t: seq<Page>, vs: seq<Page>): set<Page>
    requires |vs| == |t|
    decreases |t|
  {
    if t == [] then mem else After(k, Next(k, mem, t[0], vs[0]), t[1..], vs[1..])
  }

  lemma NextSize(k: nat, mem: set<Page>, p: Page, victim: Page)
    requires |mem| <= k && 0 < k
    requires NeedsVictim(k, mem, p) ==> victim in mem
    ensures |Next(k, mem, p, victim)| <= k && p in Next(k, mem, p, victim)
  {
  }

  /** A run with one more reference in front. */
  lemma Prepend(k: nat, mem: set<Page>, t: seq<Page>, v: Page, rest: seq<Page>)
    requires t != [] && (NeedsVictim(k, mem, t[0]) ==> v in mem)
    requires Legal(k, Next(k, mem, t[0], v), t[1..], rest)
    ensures Legal(k, mem, t, [v] + rest)
    ensures Faults(k, mem, t, [v] + rest) ==
            (if t[0] in mem then 0 else 1) + Faults(k, Next(k, mem, t[0], v), t[1..], rest)
  {
    assert ([v] + rest)[1..] == rest;
  }

  /** A run may be cut anywhere. */
  lemma {:induction false} Concat(k: nat, mem: set<Page>, a: seq<Page>, b: seq<Page>, va: seq<Page>, vb: seq<Page>)
    requires |va| == |a| && |vb| == |b|
    ensures Legal(k, mem, a + b, va + vb) <==>
            Legal(k, mem, a, va) && Legal(k, After(k, mem, a, va), b, vb)
    ensures Faults(k, mem, a + b, va + vb) ==
            Faults(k, mem, a, va) + Faults(k, After(k, mem, a, va), b, vb)
    ensures After(k, mem, a + b, va + vb) == After(k, After(k, mem, a, va), b, vb)
    decreases |a|
  {
    if a == [] {
      assert a + b == b && va + vb == vb;
    } else {
      assert (a + b)[1..] == a[1..] + b && (va + vb)[1..] == va[1..] + vb;
      Concat(k, Next(k, mem, a[0], va[0]), a[1..], b, va[1..], vb);
    }
  }

  /** The run of no references. */
  lemma EmptyRun(k: nat, mem: set<Page>)
    ensures Legal(k, mem, [], []) && Faults(k, mem, [], []) == 0 && After(k, mem, [], []) == mem
  {
  }

  /** One more reference at the end of a run from an empty memory. */
  lemma Extend(k: nat, t: seq<Page>, vs: seq<Page>, p: Page, v: Page)
    requires |vs| == |t|
    ensures var mem := After(k, {}, t, vs);
            && (Legal(k, {}, t + [p], vs + [v]) <==> Legal(k, {}, t, vs) && (NeedsVictim(k, mem, p) ==> v in mem))
            && Faults(k, {}, t + [p], vs + [v]) == Faults(k, {}, t, vs) + (if p in mem then 0 else 1)
            && After(k, {}, t + [p], vs + [v]) == Next(k, mem, p, v)
  {
    Concat(k, {}, t, [p], vs, [v]);
    var mem := After(k, {}, t, vs);
    assert After(k, mem, [p], [v]) == After(k, Next(k, mem, p, v), [], []);
    assert Legal(k, Next(k, mem, p, v), [], []);
    assert Faults(k, mem, [p], [v]) == (if p in mem then 0 else 1) + Faults(k, Next(k, mem, p, v), [], []);
  }

  lemma {:induction false} AfterSize(k: nat, mem: set<Page>, t: seq<Page>, vs: seq<Page>)
    requires |mem| <= k && 0 < k && Legal(k, mem, t, vs)
    ensures |After(k, mem, t, vs)| <= k
    decreases |t|
  {
    if t != [] {
      NextSize(k, mem, t[0], vs[0]);
      AfterSize(k, Next(k, mem, t[0], vs[0]), t[1..], vs[1..]);
    }
  }
}
