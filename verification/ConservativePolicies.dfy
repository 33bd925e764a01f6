/** LRU, FIFO and CLOCK are conservative: a stretch of references to at most k distinct
    pages costs at most one miss for each of them, whatever came before.  Hence each is
    k-competitive against every policy, MIN included. */
module ConservativePolicies {
  import opened Replay
  import opened Policies
  import opened Sets
  import Competitive
  import Optimal

  /** What a stretch keeps true.  seen: pages referenced in it; loaded: pages it missed on. */
  ghost predicate Kept(pol: Policy, q: Queue<Page>, loaded: set<Page>, seen: set<Page>) {
    && loaded <= seen && loaded <= Elements(q.list)
    && match pol
       case Lru => |seen| <= |q.list| && Elements(q.list[..|seen|]) == seen
       case Fifo => |loaded| <= |q.list| && Elements(q.list[..|loaded|]) == loaded
       case Clock => SecondTurn(q, loaded, seen)
  }

  /** CLOCK: behind a page loaded in the stretch, a page not referenced in it has been passed
      by the hand since; once the loaded page itself has been passed, every page not
      referenced in the stretch is without its bit, and none is behind it. */
  ghost predicate SecondTurn(q: Queue<Page>, loaded: set<Page>, seen: set<Page>) {
    && (forall i, j :: 0 <= i < j < |q.list| && q.list[i] in loaded && q.list[j] !in seen ==> q.list[j] !in q.marked)
    && (forall i, j | 0 <= i < |q.list| && 0 <= j < |q.list| && q.list[i] in loaded && q.list[i] !in q.marked
                      && q.list[j] !in seen :: q.list[j] !in q.marked && j < i)
  }

  lemma TurnKeeps(q: Queue<Page>, loaded: set<Page>, seen: set<Page>)
    requires Distinct(q.list) && q.list != [] && q.list[0] in q.marked
    requires loaded <= seen && SecondTurn(q, loaded, seen)
    ensures SecondTurn(Queue(q.list[1..] + [q.list[0]], q.marked - {q.list[0]}), loaded, seen)
  {
    var n := |q.list|;
    var r := Queue(q.list[1..] + [q.list[0]], q.marked - {q.list[0]});
    assert forall i :: 0 <= i < n - 1 ==> r.list[i] == q.list[i + 1];
    assert r.list[n - 1] == q.list[0];
  }

  /** The hand never takes a page loaded in a stretch of at most k pages. */
  lemma {:induction false} ClockSpares(q: Queue<Page>, loaded: set<Page>, seen: set<Page>)
    requires Distinct(q.list) && q.list != []
    requires loaded <= seen && SecondTurn(q, loaded, seen)
    requires !(Elements(q.list) <= seen)
    ensures Evict(Clock, q).victim !in loaded
    ensures SecondTurn(Evict(Clock, q).rest, loaded, seen)
    decreases q.marked
  {
    if q.list[0] in q.marked {
      var turned := Queue(q.list[1..] + [q.list[0]], q.marked - {q.list[0]});
      assert Elements(turned.list) == Elements(q.list);
      TurnKeeps(q, loaded, seen);
      ClockSpares(turned, loaded, seen);
    } else {
      var x :| x in Elements(q.list) && x !in seen;
      var j := Index(q.list, x);
      assert q.list[j] !in seen;
    }
  }

  /** A full memory has room for the stretch: some resident page is not part of it. */
  lemma Outsider(k: nat, q: Queue<Page>, seen: set<Page>, p: Page)
    requires Distinct(q.list) && |q.list| == k && p !in q.list && |seen + {p}| <= k
    ensures !(Elements(q.list) <= seen)
  {
    DistinctSize(q.list);
    if Elements(q.list) <= seen {
      SubsetSize(seen, seen + {p});
      SubsetSize(Elements(q.list), seen);
      SubsetEqual(Elements(q.list), seen + {p});
    }
  }

  /** Dropping the last page keeps a shorter prefix, if the prefix is not the whole list. */
  lemma DropsOutsider(l: seq<Page>, s: set<Page>)
    requires Distinct(l) && l != [] && |s| <= |l| && Elements(l[..|s|]) == s && !(Elements(l) <= s)
    ensures |s| < |l| && l[..|l| - 1][..|s|] == l[..|s|] && l[|l| - 1] !in s
    ensures s <= Elements(l[..|l| - 1])
  {
    assert l[..|l|] == l;
    forall i | 0 <= i < |s| ensures l[..|s|][i] != l[|l| - 1] {
      assert l[..|s|][i] == l[i];
    }
    assert l[..|l| - 1][..|s|] == l[..|s|];
  }

  lemma EvictKeeps(pol: Policy, k: nat, q: Queue<Page>, loaded: set<Page>, seen: set<Page>, p: Page)
    requires 0 < k && Sound(k, q) && Kept(pol, q, loaded, seen)
    requires p !in q.list && |q.list| == k && |seen + {p}| <= k
    ensures Kept(pol, Evict(pol, q).rest, loaded, seen)
  {
    hide Distinct, Elements, Kept, Evict;
    Outsider(k, q, seen, p);
    EvictSound(pol, q);
    SubsetSize(seen, seen + {p});
    match pol
    case Lru => LruEvictKeeps(q, loaded, seen);
    case Fifo => FifoEvictKeeps(q, loaded, seen);
    case Clock => ClockEvictKeeps(q, loaded, seen);
  }

  lemma LruEvictKeeps(q: Queue<Page>, loaded: set<Page>, seen: set<Page>)
    requires Distinct(q.list) && q.list != [] && Kept(Lru, q, loaded, seen) && !(Elements(q.list) <= seen)
    ensures Kept(Lru, Evict(Lru, q).rest, loaded, seen)
  {
    hide Distinct, Elements;
    DropsOutsider(q.list, seen);
  }

  lemma FifoEvictKeeps(q: Queue<Page>, loaded: set<Page>, seen: set<Page>)
    requires Distinct(q.list) && q.list != [] && Kept(Fifo, q, loaded, seen) && !(Elements(q.list) <= seen)
    ensures Kept(Fifo, Evict(Fifo, q).rest, loaded, seen)
  {
    hide Distinct, Elements;
    DropsOutsider(q.list, loaded);
  }

  lemma ClockEvictKeeps(q: Queue<Page>, loaded: set<Page>, seen: set<Page>)
    requires Distinct(q.list) && q.list != [] && Kept(Clock, q, loaded, seen) && !(Elements(q.list) <= seen)
    ensures Kept(Clock, Evict(Clock, q).rest, loaded, seen)
  {
    hide Distinct, SecondTurn;
    ClockSpares(q, loaded, seen);
    EvictSound(Clock, q);
  }

  lemma ReferKeeps(pol: Policy, q: Queue<Page>, loaded: set<Page>, seen: set<Page>, p: Page)
    requires Distinct(q.list) && Kept(pol, q, loaded, seen)
    ensures Kept(pol, Refer(pol, q, p), if p in q.list then loaded else loaded + {p}, seen + {p})
  {
    match pol
    case Lru => LruReferKeeps(q, loaded, seen, p);
    case Fifo => FifoReferKeeps(q, loaded, seen, p);
    case Clock => ClockReferKeeps(q, loaded, seen, p);
  }

  lemma OneBigger(s: set<Page>, p: Page)
    requires p !in s
    ensures |s + {p}| == |s| + 1
  {
  }

  lemma FifoReferKeeps(q: Queue<Page>, loaded: set<Page>, seen: set<Page>, p: Page)
    requires Distinct(q.list) && Kept(Fifo, q, loaded, seen)
    ensures Kept(Fifo, Refer(Fifo, q, p), if p in q.list then loaded else loaded + {p}, seen + {p})
  {
    hide Distinct, SecondTurn;
    if p !in q.list {
      FrontNew(q.list, p, |loaded|);
      assert p !in Elements(q.list);
      OneBigger(loaded, p);
      ElementsConcat([p], q.list);
    }
  }

  lemma ClockReferKeeps(q: Queue<Page>, loaded: set<Page>, seen: set<Page>, p: Page)
    requires Distinct(q.list) && Kept(Clock, q, loaded, seen)
    ensures Kept(Clock, Refer(Clock, q, p), if p in q.list then loaded else loaded + {p}, seen + {p})
  {
    ElementsConcat(q.list, [p]);
  }

  lemma TakeAround(l: seq<Page>, i: nat, n: nat)
    requires i < n <= |l|
    ensures l[..n] == l[..i] + [l[i]] + l[i + 1..n]
    ensures ([l[i]] + (l[..i] + l[i + 1..]))[..n] == [l[i]] + (l[..i] + l[i + 1..n])
  {
    var a, b := ([l[i]] + (l[..i] + l[i + 1..]))[..n], [l[i]] + (l[..i] + l[i + 1..n]);
    forall j | 0 <= j < n ensures a[j] == b[j] {
      if i < j { assert a[j] == l[j] && b[j] == l[j]; }
    }
  }

  /** Moving an element to the front only adds it to every prefix that reaches its place. */
  lemma FrontPrefix(l: seq<Page>, p: Page, n: nat)
    requires Distinct(l) && p in l && n <= |l|
    ensures var l' := [p] + Without(l, p);
            if p in l[..n] then Elements(l'[..n]) == Elements(l[..n])
            else n < |l| && Elements(l'[..n + 1]) == Elements(l[..n]) + {p}
  {
    var i, l' := Index(l, p), [p] + Without(l, p);
    if i < n {
      assert l[i] in l[..n];
      TakeAround(l, i, n);
    } else {
      assert p !in l[..n];
      assert l'[..n + 1] == [p] + l[..n];
    }
  }

  lemma LruReferKeeps(q: Queue<Page>, loaded: set<Page>, seen: set<Page>, p: Page)
    requires Distinct(q.list) && Kept(Lru, q, loaded, seen)
    ensures Kept(Lru, Refer(Lru, q, p), if p in q.list then loaded else loaded + {p}, seen + {p})
  {
    hide Distinct, SecondTurn, ToFront, Elements;
    ReferSound(Lru, q, p);
    FrontKeeps(q.list, p, seen);
  }

  lemma FrontKeeps(l: seq<Page>, p: Page, seen: set<Page>)
    requires Distinct(l) && |seen| <= |l| && Elements(l[..|seen|]) == seen
    ensures |seen + {p}| <= |ToFront(l, p)| && Elements(ToFront(l, p)[..|seen + {p}|]) == seen + {p}
  {
    hide Distinct, Without, Index, Elements;
    if p in seen { assert seen + {p} == seen; } else { OneBigger(seen, p); }
    InElements(l[..|seen|], p);
    if p in l {
      FrontLength(l, p);
      FrontPrefix(l, p, |seen|);
    } else {
      FrontNew(l, p, |seen|);
      NotInPrefix(l, p, |seen|);
    }
  }

  lemma FrontLength(l: seq<Page>, p: Page)
    requires p in l
    ensures |Without(l, p)| == |l| - 1
  {
  }

  lemma InElements(l: seq<Page>, p: Page)
    ensures p in l <==> p in Elements(l)
  {
  }

  lemma FrontNew(l: seq<Page>, p: Page, n: nat)
    requires p !in l && n <= |l|
    ensures Elements(([p] + l)[..n + 1]) == Elements(l[..n]) + {p} && p !in Elements(l[..n])
  {
    assert ([p] + l)[..n + 1] == [p] + l[..n];
  }

  lemma {:induction false} StretchKeeps(pol: Policy, k: nat, a: seq<Page>, b: seq<Page>) returns (loaded: set<Page>)
    requires 0 < k && |Competitive.Pages(b)| <= k
    ensures Kept(pol, ListAfter(pol, k, a + b), loaded, Competitive.Pages(b))
    ensures Misses(pol, k, a + b) == Misses(pol, k, a) + |loaded|
    decreases |b|
  {
    if b == [] {
      assert a + b == a;
      return {};
    }
    var init, p := b[..|b| - 1], b[|b| - 1];
    LastPage(a, b);
    SubsetSize(Competitive.Pages(init), Competitive.Pages(b));
    loaded := StretchKeeps(pol, k, a, init);
    loaded := StretchStep(pol, k, a + init, loaded, Competitive.Pages(init), p);
  }

  lemma LastPage(a: seq<Page>, b: seq<Page>)
    requires b != []
    ensures a + b == a + b[..|b| - 1] + [b[|b| - 1]]
    ensures Competitive.Pages(b) == Competitive.Pages(b[..|b| - 1]) + {b[|b| - 1]}
  {
    assert b == b[..|b| - 1] + [b[|b| - 1]];
  }

  lemma StretchStep(pol: Policy, k: nat, t: seq<Page>, loaded: set<Page>, seen: set<Page>, p: Page)
    returns (loaded': set<Page>)
    requires 0 < k && Kept(pol, ListAfter(pol, k, t), loaded, seen) && |seen + {p}| <= k
    ensures Kept(pol, ListAfter(pol, k, t + [p]), loaded', seen + {p})
    ensures Misses(pol, k, t + [p]) + |loaded| == Misses(pol, k, t) + |loaded'|
  {
    AfterSound(pol, k, t);
    loaded' := StepKeeps(pol, k, ListAfter(pol, k, t), loaded, seen, p);
    OneMore(pol, k, t, p);
  }

  lemma StepKeeps(pol: Policy, k: nat, q: Queue<Page>, loaded: set<Page>, seen: set<Page>, p: Page)
    returns (loaded': set<Page>)
    requires 0 < k && Sound(k, q) && Kept(pol, q, loaded, seen) && |seen + {p}| <= k
    ensures Kept(pol, Access(pol, k, q, p), loaded', seen + {p})
    ensures |loaded'| == |loaded| + if p in q.list then 0 else 1
  {
    loaded' := if p in q.list then loaded else loaded + {p};
    if p !in q.list && k <= |q.list| {
      EvictKeeps(pol, k, q, loaded, seen, p);
      EvictSound(pol, q);
      assert p !in Elements(q.list);
      ReferKeeps(pol, Evict(pol, q).rest, loaded, seen, p);
    } else {
      ReferKeeps(pol, q, loaded, seen, p);
    }
  }

  /** Any stretch with at most k distinct pages costs at most that many misses. */
  lemma PolicyIsConservative(pol: Policy, k: nat, a: seq<Page>, b: seq<Page>)
    requires 0 < k && |Competitive.Pages(b)| <= k
    ensures Misses(pol, k, a + b) <= Misses(pol, k, a) + |Competitive.Pages(b)|
  {
    var loaded := StretchKeeps(pol, k, a, b);
    SubsetSize(loaded, Competitive.Pages(b));
  }

  /** Each list policy misses at most k times as often as any policy on the same string. */
  lemma PolicyIsCompetitive(pol: Policy, k: nat, t: seq<Page>, vs: seq<Page>)
    requires 0 < k && Legal(k, {}, t, vs)
    ensures Misses(pol, k, t) <= k * Faults(k, {}, t, vs)
  {
    var misses := (s: seq<Page>) => Misses(pol, k, s);
    forall a: seq<Page>, b: seq<Page> | |Competitive.Pages(b)| <= k
      ensures misses(a + b) <= misses(a) + |Competitive.Pages(b)|
    {
      PolicyIsConservative(pol, k, a, b);
    }
    Competitive.ConservativeIsCompetitive(k, misses, t, vs);
  }

  /** MIN is a lower bound for each list policy, and within a factor of k of it. */
  lemma MinBounds(pol: Policy, k: nat, t: seq<Page>, os: seq<Page>)
    requires 0 < k && Optimal.MinRun(k, {}, t, os) && Legal(k, {}, t, os)
    ensures Faults(k, {}, t, os) <= Misses(pol, k, t) <= k * Faults(k, {}, t, os)
  {
    PolicyRun(pol, k, t);
    Optimal.MinIsOptimal(k, {}, t, os, Victims(pol, k, t));
    PolicyIsCompetitive(pol, k, t, os);
  }
}
