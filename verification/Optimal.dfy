/** Belady's theorem for the MIN rule that opt.c implements: giving up the page whose next
    reference is farthest away never costs more misses than any other choice of victims. */
module Optimal {
  import opened Replay

  /** References that pass before p is used, or all of them if it is not: the value
      opt_evict leaves in coremap[j].distance. */
  function NextUse(t: seq<Page>, p: Page): (d: nat)
    ensures d <= |t|
  {
    if t == [] || t[0] == p then 0 else 1 + NextUse(t[1..], p)
  }

  ghost predicate Farthest(mem: set<Page>, future: seq<Page>, v: Page) {
    v in mem && forall u | u in mem :: NextUse(future, u) <= NextUse(future, v)
  }

  /** Every victim of the run is a farthest one; ties may fall either way. */
  ghost predicate MinRun(k: nat, mem: set<Page>, t: seq<Page>, vs: seq<Page>)
    decreases |t|
  {
    && |vs| == |t|
    && (t != [] ==>
          && (NeedsVictim(k, mem, t[0]) ==> Farthest(mem, t[1..], vs[0]))
          && MinRun(k, Next(k, mem, t[0], vs[0]), t[1..], vs[1..]))
  }

  /** A full memory, written as the pages two memories share and one of its own, after a
      miss that takes a shared page. */
  lemma GiveUpShared(k: nat, common: set<Page>, own: Page, p: Page, v: Page)
    requires own !in common && |common| + 1 == k
    requires v in common && p !in common && p != own
    ensures |common - {v} + {p}| + 1 == k
    ensures own !in common - {v} + {p}
    ensures Next(k, common + {own}, p, v) == common - {v} + {p} + {own}
  {
  }

  lemma GiveUpOwn(k: nat, common: set<Page>, own: Page, p: Page)
    requires own !in common && |common| + 1 == k
    requires p !in common && p != own
    ensures Next(k, common + {own}, p, own) == common + {p}
  {
  }

  /** Two full memories that differ in one page: a run from one can be followed from the
      other at the price of at most one more miss. */
  lemma {:induction false} OneApart(k: nat, common: set<Page>, a: Page, b: Page, t: seq<Page>, vs: seq<Page>)
    returns (ws: seq<Page>)
    requires a !in common && b !in common && |common| + 1 == k
    requires Legal(k, common + {b}, t, vs)
    ensures Legal(k, common + {a}, t, ws)
    ensures Faults(k, common + {a}, t, ws) <= 1 + Faults(k, common + {b}, t, vs)
    decreases |t|
  {
    if t == [] || a == b {
      return vs;
    }
    var p, v := t[0], vs[0];
    var w, rest := v, vs[1..];
    if p in common {
      rest := OneApart(k, common, a, b, t[1..], vs[1..]);
    } else if p == b {
      w := a;
      GiveUpOwn(k, common, a, p);
    } else if v == b {
      w := a;
      GiveUpOwn(k, common, b, p);
      if p != a { GiveUpOwn(k, common, a, p); }
    } else {
      GiveUpShared(k, common, b, p, v);
      if p == a {
        assert common + {a} == common - {v} + {a} + {v};
        rest := OneApart(k, common - {v} + {a}, v, b, t[1..], vs[1..]);
      } else {
        GiveUpShared(k, common, a, p, v);
        rest := OneApart(k, common - {v} + {p}, a, b, t[1..], vs[1..]);
      }
    }
    Prepend(k, common + {a}, t, w, rest);
    ws := [w] + rest;
  }

  /** The exchange step: of two full memories that differ in one page, the one holding the
      page needed sooner is at least as good. */
  lemma {:induction false} SoonerIsBetter(k: nat, common: set<Page>, a: Page, b: Page, t: seq<Page>, vs: seq<Page>)
    returns (ws: seq<Page>)
    requires a !in common && b !in common && |common| + 1 == k
    requires NextUse(t, a) <= NextUse(t, b)
    requires Legal(k, common + {b}, t, vs)
    ensures Legal(k, common + {a}, t, ws)
    ensures Faults(k, common + {a}, t, ws) <= Faults(k, common + {b}, t, vs)
    decreases |t|
  {
    if t == [] || a == b {
      return vs;
    }
    var p, v := t[0], vs[0];
    var w, rest := v, vs[1..];
    if p in common {
      rest := SoonerIsBetter(k, common, a, b, t[1..], vs[1..]);
    } else if v == b {
      w := a;
      GiveUpOwn(k, common, b, p);
      if p != a { GiveUpOwn(k, common, a, p); }
    } else {
      GiveUpShared(k, common, b, p, v);
      if p == a {
        assert common + {a} == common - {v} + {a} + {v};
        rest := OneApart(k, common - {v} + {a}, v, b, t[1..], vs[1..]);
      } else {
        GiveUpShared(k, common, a, p, v);
        rest := SoonerIsBetter(k, common - {v} + {p}, a, b, t[1..], vs[1..]);
      }
    }
    Prepend(k, common + {a}, t, w, rest);
    ws := [w] + rest;
  }

  /** Belady: no legal choice of victims beats the farthest-next-use one. */
  lemma {:induction false} MinIsOptimal(k: nat, mem: set<Page>, t: seq<Page>, os: seq<Page>, vs: seq<Page>)
    requires 0 < k && |mem| <= k
    requires MinRun(k, mem, t, os) && Legal(k, mem, t, vs)
    ensures Faults(k, mem, t, os) <= Faults(k, mem, t, vs)
    decreases |t|
  {
    if t == [] { return; }
    var p, o, v := t[0], os[0], vs[0];
    NextSize(k, mem, p, o);
    var better := vs[1..];
    if NeedsVictim(k, mem, p) && o != v {
      var common := mem - {o} - {v} + {p};
      assert Next(k, mem, p, o) == common + {v};
      assert Next(k, mem, p, v) == common + {o};
      better := SoonerIsBetter(k, common, v, o, t[1..], vs[1..]);
    }
    MinIsOptimal(k, Next(k, mem, p, o), t[1..], os[1..], better);
  }

  /** The victims chosen so far in a run over t are all farthest at their time. */
  ghost predicate FarthestSoFar(k: nat, t: seq<Page>, vs: seq<Page>) {
    && |vs| <= |t|
    && forall i :: 0 <= i < |vs| ==>
         var mem := After(k, {}, t[..i], vs[..i]);
         NeedsVictim(k, mem, t[i]) ==> Farthest(mem, t[i + 1..], vs[i])
  }

  lemma FarthestExtend(k: nat, t: seq<Page>, vs: seq<Page>, v: Page)
    requires FarthestSoFar(k, t, vs) && |vs| < |t|
    requires var mem := After(k, {}, t[..|vs|], vs);
             NeedsVictim(k, mem, t[|vs|]) ==> Farthest(mem, t[|vs| + 1..], v)
    ensures FarthestSoFar(k, t, vs + [v])
  {
    hide Farthest, After, NeedsVictim;
    var ws := vs + [v];
    forall i | 0 <= i < |ws|
      ensures var mem := After(k, {}, t[..i], ws[..i]);
              NeedsVictim(k, mem, t[i]) ==> Farthest(mem, t[i + 1..], ws[i])
    {
      assert ws[..i] == vs[..i];
      assert i < |vs| ==> ws[i] == vs[i];
      if i == |vs| { assert vs[..i] == vs; }
    }
  }

  lemma {:induction false} FarthestIsMin(k: nat, t: seq<Page>, vs: seq<Page>, n: nat)
    requires FarthestSoFar(k, t, vs) && |vs| == |t| && n <= |t|
    ensures MinRun(k, After(k, {}, t[..n], vs[..n]), t[n..], vs[n..])
    decreases |t| - n
  {
    if n < |t| {
      FarthestIsMin(k, t, vs, n + 1);
      var mem := After(k, {}, t[..n], vs[..n]);
      Extend(k, t[..n], vs[..n], t[n], vs[n]);
      assert t[..n + 1] == t[..n] + [t[n]] && vs[..n + 1] == vs[..n] + [vs[n]];
      assert t[n..][1..] == t[n + 1..] && vs[n..][1..] == vs[n + 1..];
    }
  }
}
