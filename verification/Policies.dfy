/** The list-based replacement algorithms as functions on the reference list.

    A queue is the order of the nodes reached from referlist_head together with the pages
    whose PG_REF bit is set.  Evict is evict_fcn, Refer is ref_fcn as find_physpage calls
    it (the bit of the referenced page is set just before), Access is one reference. */
module Policies {
  import opened Replay

  datatype Policy = Lru | Fifo | Clock
  datatype Queue<T> = Queue(list: seq<T>, marked: set<T>)
  datatype Eviction<T> = Eviction(victim: T, rest: Queue<T>)

  function Index<T(==)>(l: seq<T>, p: T): (i: nat)
    requires p in l
    ensures i < |l| && l[i] == p
    ensures forall j :: 0 <= j < i ==> l[j] != p
  {
    if l[0] == p then 0 else 1 + Index(l[1..], p)
  }

  function Without<T(==)>(l: seq<T>, p: T): seq<T>
    requires p in l
  {
    l[..Index(l, p)] + l[Index(l, p) + 1..]
  }

  function Evict<T(==)>(pol: Policy, q: Queue<T>): Eviction<T>
    requires q.list != []
    decreases q.marked
  {
    match pol
    case Lru => DropLast(q)
    case Fifo => DropLast(q)
    case Clock =>
      var head, rest := q.list[0], q.list[1..];
      if head in q.marked then Evict(pol, Queue(rest + [head], q.marked - {head}))
      else Eviction(head, Queue(rest, q.marked))
  }

  function DropLast<T(==)>(q: Queue<T>): Eviction<T>
    requires q.list != []
  {
    var n := |q.list| - 1;
    Eviction(q.list[n], Queue(q.list[..n], q.marked - {q.list[n]}))
  }

  function ToFront<T(==)>(l: seq<T>, p: T): seq<T> {
    [p] + (if p in l then Without(l, p) else l)
  }

  /** Where the element now at place i of ToFront(l, p) was before. */
  function Before<T(==)>(l: seq<T>, p: T, i: nat): nat
    requires 0 < i
  {
    if p in l && Index(l, p) < i then i else i - 1
  }

  lemma ToFrontPlaces<T>(l: seq<T>, p: T)
    ensures ToFront(l, p)[0] == p
    ensures |ToFront(l, p)| == |l| + if p in l then 0 else 1
    ensures forall i :: 0 < i < |ToFront(l, p)| ==> Before(l, p, i) < |l| && ToFront(l, p)[i] == l[Before(l, p, i)]
  {
  }

  function Refer<T(==)>(pol: Policy, q: Queue<T>, p: T): Queue<T> {
    var marked := q.marked + {p};
    match pol
    case Lru => Queue(ToFront(q.list, p), marked)
    case Fifo => Queue(if p in q.list then q.list else [p] + q.list, marked)
    case Clock => Queue(if p in q.list then q.list else q.list + [p], marked)
  }

  function Access(pol: Policy, k: nat, q: Queue<Page>, p: Page): Queue<Page>
    requires 0 < k
  {
    if p !in q.list && k <= |q.list| then Refer(pol, Evict(pol, q).rest, p) else Refer(pol, q, p)
  }

  /** The page given up by a reference, where one is. */
  function VictimOf(pol: Policy, k: nat, q: Queue<Page>, p: Page): Page
    requires 0 < k
  {
    if p !in q.list && k <= |q.list| then Evict(pol, q).victim else p
  }

  /** The list after a whole reference string. */
  function ListAfter(pol: Policy, k: nat, t: seq<Page>): Queue<Page>
    requires 0 < k
  {
    if t == [] then Queue([], {})
    else Access(pol, k, ListAfter(pol, k, t[..|t| - 1]), t[|t| - 1])
  }

  /** miss_count after a whole reference string. */
  function Misses(pol: Policy, k: nat, t: seq<Page>): nat
    requires 0 < k
  {
    if t == [] then 0
    else
      var init := t[..|t| - 1];
      Misses(pol, k, init) + if t[|t| - 1] in ListAfter(pol, k, init).list then 0 else 1
  }

  function Victims(pol: Policy, k: nat, t: seq<Page>): (vs: seq<Page>)
    requires 0 < k
    ensures |vs| == |t|
  {
    if t == [] then []
    else
      var init := t[..|t| - 1];
      Victims(pol, k, init) + [VictimOf(pol, k, ListAfter(pol, k, init), t[|t| - 1])]
  }

  /** One more reference. */
  lemma OneMore(pol: Policy, k: nat, t: seq<Page>, p: Page)
    requires 0 < k
    ensures ListAfter(pol, k, t + [p]) == Access(pol, k, ListAfter(pol, k, t), p)
    ensures Misses(pol, k, t + [p]) == Misses(pol, k, t) + if p in ListAfter(pol, k, t).list then 0 else 1
    ensures Victims(pol, k, t + [p]) == Victims(pol, k, t) + [VictimOf(pol, k, ListAfter(pol, k, t), p)]
  {
    assert (t + [p])[..|t|] == t;
  }

  ghost predicate Distinct<T>(l: seq<T>) {
    forall i, j :: 0 <= i < j < |l| ==> l[i] != l[j]
  }

  function Elements<T>(l: seq<T>): set<T> { set x | x in l }

  lemma NotInPrefix<T>(l: seq<T>, p: T, n: nat)
    requires p !in l && n <= |l|
    ensures p !in l[..n]
  {
  }

  lemma ElementsConcat<T>(a: seq<T>, b: seq<T>)
    ensures Elements(a + b) == Elements(a) + Elements(b)
  {
  }

  lemma {:induction false} DistinctSize<T>(l: seq<T>)
    requires Distinct(l)
    ensures |Elements(l)| == |l|
  {
    if l != [] {
      var n := |l| - 1;
      DistinctSize(l[..n]);
      assert Elements(l) == Elements(l[..n]) + {l[n]};
    }
  }

  /** clock_evict is second chance: the victim is the first page from the hand whose bit is
      clear, or the page at the hand when all are set; exactly the bits passed over are
      cleared, and the pages passed over go behind the rest in their order. */
  lemma {:induction false} SecondChance<T>(q: Queue<T>, j: nat)
    requires Distinct(q.list) && j < |q.list|
    requires forall i :: 0 <= i < j ==> q.list[i] in q.marked
    requires q.list[j] !in q.marked
    ensures Evict(Clock, q) == Eviction(q.list[j], Queue(q.list[j + 1..] + q.list[..j],
                                                        q.marked - Elements(q.list[..j])))
    decreases j
  {
    if j == 0 {
      assert q.list[1..] + q.list[..0] == q.list[1..];
      assert q.marked - Elements(q.list[..0]) == q.marked;
    } else {
      var head := q.list[0];
      var turned := Queue(q.list[1..] + [head], q.marked - {head});
      SecondChance(turned, j - 1);
      assert turned.list[j..] + turned.list[..j - 1] == q.list[j + 1..] + q.list[..j];
      assert q.list[..j] == [head] + turned.list[..j - 1];
      ElementsConcat([head], turned.list[..j - 1]);
      assert turned.marked - Elements(turned.list[..j - 1]) == q.marked - Elements(q.list[..j]);
    }
  }

  /** With every bit set the hand makes one full turn and takes the page it started at. */
  lemma SecondChanceFullTurn<T>(q: Queue<T>)
    requires Distinct(q.list) && q.list != [] && Elements(q.list) <= q.marked
    ensures Evict(Clock, q) == Eviction(q.list[0], Queue(q.list[1..], q.marked - Elements(q.list)))
  {
    var head, n := q.list[0], |q.list| - 1;
    var turned := Queue(q.list[1..] + [head], q.marked - {head});
    forall i | 0 <= i < n ensures turned.list[i] in turned.marked {
      assert turned.list[i] == q.list[i + 1] && q.list[i + 1] in Elements(q.list);
    }
    SecondChance(turned, n);
    assert turned.list[n + 1..] + turned.list[..n] == q.list[1..];
    assert turned.marked - Elements(turned.list[..n]) == q.marked - Elements(q.list) by {
      assert Elements(q.list) == {head} + Elements(q.list[1..]);
      assert turned.list[..n] == q.list[1..];
    }
  }

  /** The hand, starting at the head, clears j bits and stops at place j: at the first page
      whose bit is clear, or after a full turn back at the head. */
  ghost predicate StopsAt<T>(q: Queue<T>, j: nat) {
    && j <= |q.list|
    && (forall i :: 0 <= i < j ==> q.list[i] in q.marked)
    && (j < |q.list| ==> q.list[j] !in q.marked)
  }

  lemma SecondChanceAt<T>(q: Queue<T>, j: nat)
    requires Distinct(q.list) && q.list != [] && StopsAt(q, j)
    ensures var at := if j == |q.list| then 0 else j;
            Evict(Clock, q) == Eviction(q.list[at], Queue(q.list[at + 1..] + q.list[..at],
                                                         q.marked - Elements(q.list[..j])))
  {
    if j < |q.list| {
      SecondChance(q, j);
    } else {
      SecondChanceFullTurn(q);
      assert q.list[..j] == q.list;
      assert q.list[1..] + q.list[..0] == q.list[1..];
    }
  }

  /** What every policy keeps: no page is listed twice and the list fits in memory. */
  ghost predicate Sound<T>(k: nat, q: Queue<T>) {
    Distinct(q.list) && |q.list| <= k
  }

  lemma {:induction false} EvictSound<T>(pol: Policy, q: Queue<T>)
    requires Distinct(q.list) && q.list != []
    ensures var e := Evict(pol, q);
            && Distinct(e.rest.list) && |e.rest.list| == |q.list| - 1
            && e.victim in q.list && Elements(e.rest.list) == Elements(q.list) - {e.victim}
    decreases q.marked
  {
    if pol == Clock && q.list[0] in q.marked {
      var turned := Queue(q.list[1..] + [q.list[0]], q.marked - {q.list[0]});
      EvictSound(pol, turned);
      assert Elements(turned.list) == Elements(q.list);
    }
  }

  lemma ReferSound<T>(pol: Policy, q: Queue<T>, p: T)
    requires Distinct(q.list)
    ensures var r := Refer(pol, q, p);
            && Distinct(r.list) && Elements(r.list) == Elements(q.list) + {p}
            && |r.list| == |q.list| + if p in q.list then 0 else 1
  {
  }

  lemma AccessSound(pol: Policy, k: nat, q: Queue<Page>, p: Page)
    requires 0 < k && Sound(k, q)
    ensures var r, mem, v := Access(pol, k, q, p), Elements(q.list), VictimOf(pol, k, q, p);
            && Sound(k, r)
            && Elements(r.list) == Next(k, mem, p, v)
            && (NeedsVictim(k, mem, p) ==> v in mem)
            && (p in mem <==> p in q.list)
  {
    DistinctSize(q.list);
    if p !in q.list && k <= |q.list| {
      EvictSound(pol, q);
      ReferSound(pol, Evict(pol, q).rest, p);
    } else {
      ReferSound(pol, q, p);
    }
  }

  lemma {:induction false} AfterSound(pol: Policy, k: nat, t: seq<Page>)
    requires 0 < k
    ensures Sound(k, ListAfter(pol, k, t))
  {
    if t != [] {
      AfterSound(pol, k, t[..|t| - 1]);
      AccessSound(pol, k, ListAfter(pol, k, t[..|t| - 1]), t[|t| - 1]);
    }
  }

  /** Each list policy is one legal way to run the paging machine: its list holds exactly the
      resident pages, and its count is the machine's. */
  lemma {:induction false} PolicyRun(pol: Policy, k: nat, t: seq<Page>)
    requires 0 < k
    ensures var vs := Victims(pol, k, t);
            && Legal(k, {}, t, vs)
            && After(k, {}, t, vs) == Elements(ListAfter(pol, k, t).list)
            && Faults(k, {}, t, vs) == Misses(pol, k, t)
  {
    hide Legal, After, Faults, Next, Access, Evict;
    if t == [] {
      EmptyRun(k, {});
    } else {
      var init, p := t[..|t| - 1], t[|t| - 1];
      PolicyRun(pol, k, init);
      AfterSound(pol, k, init);
      var q, before := ListAfter(pol, k, init), Victims(pol, k, init);
      AccessSound(pol, k, q, p);
      assert t == init + [p];
      Extend(k, init, before, p, VictimOf(pol, k, q, p));
    }
  }
}
