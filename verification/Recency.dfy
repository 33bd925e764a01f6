/** What the LRU and FIFO lists mean: pages by last use, and pages by load time. */
module Recency {
  import opened Replay
  import opened Policies

  /** Every page used so far, most recent first: LRU with no bound on memory. */
  function ByRecency(t: seq<Page>): seq<Page> {
    if t == [] then [] else ToFront(ByRecency(t[..|t| - 1]), t[|t| - 1])
  }

  /** When p was last used, counting references from 1; 0 if never. */
  function LastUse(t: seq<Page>, p: Page): nat {
    if t == [] then 0 else if t[|t| - 1] == p then |t| else LastUse(t[..|t| - 1], p)
  }

  /** When p was last loaded by the policy; 0 if never. */
  function LoadTime(pol: Policy, k: nat, t: seq<Page>, p: Page): nat
    requires 0 < k
  {
    if t == [] then 0
    else
      var init := t[..|t| - 1];
      if t[|t| - 1] == p && p !in ListAfter(pol, k, init).list then |t| else LoadTime(pol, k, init, p)
  }

  ghost predicate LatestUsedFirst(t: seq<Page>, l: seq<Page>) {
    forall i, j :: 0 <= i < j < |l| ==> LastUse(t, l[j]) < LastUse(t, l[i])
  }

  ghost predicate LatestLoadedFirst(pol: Policy, k: nat, t: seq<Page>, l: seq<Page>)
    requires 0 < k
  {
    forall i, j :: 0 <= i < j < |l| ==> LoadTime(pol, k, t, l[j]) < LoadTime(pol, k, t, l[i])
  }

  lemma {:induction false} LastUseBounds(t: seq<Page>, p: Page)
    ensures LastUse(t, p) <= |t| && (p in t <==> 0 < LastUse(t, p))
  {
    if t != [] && t[|t| - 1] != p {
      LastUseBounds(t[..|t| - 1], p);
      assert t == t[..|t| - 1] + [t[|t| - 1]];
    }
  }

  /** ByRecency lists the pages used so far, each once, by last use. */
  lemma {:induction false} RecencyOrder(t: seq<Page>)
    ensures LatestUsedFirst(t, ByRecency(t)) && Distinct(ByRecency(t))
    ensures Elements(ByRecency(t)) == Elements(t)
  {
    if t != [] {
      var init, p := t[..|t| - 1], t[|t| - 1];
      RecencyOrder(init);
      assert t == init + [p];
      ElementsConcat(init, [p]);
      ReferSound(Lru, Queue(ByRecency(init), {}), p);
      UseStep(init, t, ByRecency(init), p);
    }
  }

  lemma UseStep(init: seq<Page>, t: seq<Page>, l: seq<Page>, p: Page)
    requires t != [] && init == t[..|t| - 1] && p == t[|t| - 1]
    requires LatestUsedFirst(init, l) && Distinct(ToFront(l, p))
    ensures LatestUsedFirst(t, ToFront(l, p))
  {
    var l' := ToFront(l, p);
    ToFrontPlaces(l, p);
    forall i, j | 0 <= i < j < |l'| ensures LastUse(t, l'[j]) < LastUse(t, l'[i]) {
      LastUseBounds(init, l'[j]);
      assert l'[0] != l'[j];
    }
  }

  /** The stack property: the list kept in k frames is the first k pages by recency. */
  lemma {:induction false} LruIsPrefix(k: nat, t: seq<Page>)
    requires 0 < k
    ensures var all := ByRecency(t);
            ListAfter(Lru, k, t).list == if k <= |all| then all[..k] else all
  {
    if t != [] {
      var init, p := t[..|t| - 1], t[|t| - 1];
      LruIsPrefix(k, init);
      RecencyOrder(init);
      PrefixStep(k, ByRecency(init), p, ListAfter(Lru, k, init));
    }
  }

  /** Moving an element of the first k to the front. */
  lemma FrontOfPrefix(all: seq<Page>, k: nat, i: nat)
    requires i < k <= |all|
    ensures ([all[i]] + (all[..i] + all[i + 1..]))[..k] == [all[i]] + (all[..k][..i] + all[..k][i + 1..])
  {
    var l, r := ([all[i]] + (all[..i] + all[i + 1..]))[..k], [all[i]] + (all[..k][..i] + all[..k][i + 1..]);
    assert |l| == |r|;
    forall j | 0 <= j < k ensures l[j] == r[j] {
      if i < j {
        assert r[j] == all[..k][j] && l[j] == all[j];
      } else if 0 < j {
        assert r[j] == all[..k][j - 1] && l[j] == all[j - 1];
      }
    }
  }

  /** An element is found at the same place in a prefix that has it. */
  lemma IndexInPrefix(all: seq<Page>, k: nat, p: Page)
    requires k <= |all| && Distinct(all) && p in all
    ensures p in all[..k] <==> Index(all, p) < k
    ensures p in all[..k] ==> Index(all[..k], p) == Index(all, p)
  {
    if Index(all, p) < k { assert all[..k][Index(all, p)] == p; }
  }

  lemma LruAccess(k: nat, q: Queue<Page>, p: Page)
    requires 0 < k
    ensures Access(Lru, k, q, p).list ==
            ToFront(if p !in q.list && k <= |q.list| then q.list[..|q.list| - 1] else q.list, p)
  {
  }

  lemma PrefixStep(k: nat, all: seq<Page>, p: Page, q: Queue<Page>)
    requires 0 < k && Distinct(all)
    requires q.list == if k <= |all| then all[..k] else all
    ensures var all' := ToFront(all, p);
            Access(Lru, k, q, p).list == if k <= |all'| then all'[..k] else all'
  {
    hide Distinct, Access, ToFront;
    LruAccess(k, q, p);
    if k <= |all| {
      PrefixMoves(k, all, p);
    } else {
      ShortMoves(k, all, p);
    }
  }

  lemma ShortMoves(k: nat, all: seq<Page>, p: Page)
    requires |all| < k
    ensures |ToFront(all, p)| <= k && (|ToFront(all, p)| == k ==> ToFront(all, p)[..k] == ToFront(all, p))
  {
    ToFrontPlaces(all, p);
  }

  lemma PrefixMoves(k: nat, all: seq<Page>, p: Page)
    requires 0 < k <= |all| && Distinct(all)
    ensures var l := all[..k];
            k <= |ToFront(all, p)| && ToFront(all, p)[..k] == ToFront(if p in l then l else l[..k - 1], p)
  {
    hide Distinct, Index;
    if p in all {
      IndexInPrefix(all, k, p);
      if p in all[..k] {
        FrontOfPrefix(all, k, Index(all, p));
      } else {
        FrontFromBehind(all, k, Index(all, p));
        NotInPrefix(all[..k], p, k - 1);
      }
    } else {
      NotInPrefix(all, p, k);
      NotInPrefix(all[..k], p, k - 1);
      NewAtFront(all, p, k);
    }
  }

  lemma NewAtFront(all: seq<Page>, p: Page, k: nat)
    requires 0 < k <= |all|
    ensures ([p] + all)[..k] == [p] + all[..k][..k - 1]
  {
  }

  /** Moving an element from behind the first k to the front pushes the k-th one out. */
  lemma FrontFromBehind(all: seq<Page>, k: nat, i: nat)
    requires 0 < k <= i < |all|
    ensures ([all[i]] + (all[..i] + all[i + 1..]))[..k] == [all[i]] + all[..k][..k - 1]
  {
    var l, r := ([all[i]] + (all[..i] + all[i + 1..]))[..k], [all[i]] + all[..k][..k - 1];
    assert |l| == |r|;
    forall j | 0 <= j < k ensures l[j] == r[j] {
      if 0 < j { assert r[j] == all[..k][j - 1] && l[j] == all[j - 1]; }
    }
  }

  /** More frames never hurt LRU: its list, and so its hits, only grow. */
  lemma {:induction false} LruInclusion(m: nat, n: nat, t: seq<Page>)
    requires 0 < m <= n
    ensures ListAfter(Lru, m, t).list <= ListAfter(Lru, n, t).list
    ensures Misses(Lru, n, t) <= Misses(Lru, m, t)
  {
    LruIsPrefix(m, t);
    LruIsPrefix(n, t);
    if t != [] {
      LruInclusion(m, n, t[..|t| - 1]);
    }
  }

  /** The page lru_evict takes was used before every other resident page. */
  lemma LruVictim(k: nat, t: seq<Page>, p: Page)
    requires 0 < k && ListAfter(Lru, k, t).list != []
    requires p in ListAfter(Lru, k, t).list
    ensures var v := Evict(Lru, ListAfter(Lru, k, t)).victim;
            v in ListAfter(Lru, k, t).list && (p != v ==> LastUse(t, v) < LastUse(t, p))
  {
    hide ListAfter, LastUse, ByRecency, Distinct, Elements;
    LruIsPrefix(k, t);
    RecencyOrder(t);
    LastOfPrefix(t, ByRecency(t), ListAfter(Lru, k, t).list, p);
  }

  lemma LastOfPrefix(t: seq<Page>, all: seq<Page>, l: seq<Page>, p: Page)
    requires LatestUsedFirst(t, all) && l <= all && p in l
    ensures var v := l[|l| - 1]; v in l && (p != v ==> LastUse(t, v) < LastUse(t, p))
  {
    hide LastUse;
    var i, n := Index(l, p), |l| - 1;
    assert l[i] == all[i] && l[n] == all[n];
  }

  /** The FIFO list is the resident pages by load time, newest first. */
  lemma {:induction false} FifoOrder(k: nat, t: seq<Page>)
    requires 0 < k
    ensures LatestLoadedFirst(Fifo, k, t, ListAfter(Fifo, k, t).list)
  {
    if t != [] {
      var init, p := t[..|t| - 1], t[|t| - 1];
      FifoOrder(k, init);
      AfterSound(Fifo, k, init);
      var l, l' := ListAfter(Fifo, k, init).list, ListAfter(Fifo, k, t).list;
      if p !in l {
        var kept := if k <= |l| then l[..|l| - 1] else l;
        assert l' == [p] + kept;
        forall i, j | 0 <= i < j < |l'| ensures LoadTime(Fifo, k, t, l'[j]) < LoadTime(Fifo, k, t, l'[i]) {
          LoadTimeBound(Fifo, k, init, l'[j]);
        }
      }
    }
  }

  lemma {:induction false} LoadTimeBound(pol: Policy, k: nat, t: seq<Page>, p: Page)
    requires 0 < k
    ensures LoadTime(pol, k, t, p) <= |t|
  {
    if t != [] { LoadTimeBound(pol, k, t[..|t| - 1], p); }
  }

  /** The page fifo_evict takes was loaded before every other resident page. */
  lemma FifoVictim(k: nat, t: seq<Page>, p: Page)
    requires 0 < k && p in ListAfter(Fifo, k, t).list
    ensures var v := Evict(Fifo, ListAfter(Fifo, k, t)).victim;
            v in ListAfter(Fifo, k, t).list
            && (p != v ==> LoadTime(Fifo, k, t, v) < LoadTime(Fifo, k, t, p))
  {
    hide ListAfter, LoadTime;
    FifoOrder(k, t);
    LastLoaded(k, t, ListAfter(Fifo, k, t).list, p);
  }

  lemma LastLoaded(k: nat, t: seq<Page>, l: seq<Page>, p: Page)
    requires 0 < k && LatestLoadedFirst(Fifo, k, t, l) && p in l
    ensures var v := l[|l| - 1]; v in l && (p != v ==> LoadTime(Fifo, k, t, v) < LoadTime(Fifo, k, t, p))
  {
    hide LoadTime;
    var i, n := Index(l, p), |l| - 1;
    assert l[i] == p && i <= n;
  }
}
