/** The list of resident pages kept by lru.c, fifo.c and clock.c: node_t objects reached from
    referlist_head, null-terminated for LRU and FIFO and closed to a ring for CLOCK. */
module ReferenceList {
  import opened PageEntries
  import opened Policies

  class Node {
    var next: Node?
    var pte: Pte

    constructor (pte: Pte, next: Node?)
      ensures this.pte == pte && this.next == next
    {
      this.pte := pte;
      this.next := next;
    }
  }

  /** Clearing the bits up to place j takes exactly those entries out of the marked set. */
  lemma SweptMarks<T>(l: seq<T>, before: set<T>, after: set<T>, j: nat)
    requires j <= |l| && before <= Elements(l) && after <= Elements(l)
    requires forall i :: 0 <= i < j ==> l[i] in before && l[i] !in after
    requires forall i :: j <= i < |l| ==> (l[i] in after <==> l[i] in before)
    requires j < |l| ==> l[j] !in after
    ensures after == before - Elements(l[..j])
    ensures StopsAt(Queue(l, before), j)
  {
  }

  /** Where the element at place i of l[j + 1..] + l[..j] was in l, which has n elements. */
  function WasAt(n: nat, j: nat, i: nat): nat { if i < n - j - 1 then j + 1 + i else i + j + 1 - n }

  /** The place after place i of n, going round. */
  function Following(n: nat, i: nat): nat { if i + 1 == n then 0 else i + 1 }

  lemma PlaceStart(n: nat, j: nat)
    requires 0 < j < n
    ensures WasAt(n, j, 0) == Following(n, j)
  {
  }

  lemma PlaceAfter(n: nat, j: nat, i: nat)
    requires 0 < j < n && i < n - 1
    ensures WasAt(n, j, Following(n - 1, i)) == Following(n, if WasAt(n, j, i) == j - 1 then j else WasAt(n, j, i))
  {
  }

  lemma Rotated<T>(l: seq<T>, j: nat)
    requires j < |l|
    ensures |l[j + 1..] + l[..j]| == |l| - 1
    ensures forall i | 0 <= i < |l| - 1 ::
              WasAt(|l|, j, i) < |l| && WasAt(|l|, j, i) != j && (l[j + 1..] + l[..j])[i] == l[WasAt(|l|, j, i)]
  {
    hide WasAt;
    forall i: nat | i < |l| - 1
      ensures WasAt(|l|, j, i) < |l| && WasAt(|l|, j, i) != j && (l[j + 1..] + l[..j])[i] == l[WasAt(|l|, j, i)]
    {
      RotatedAt(l, j, i);
    }
  }

  lemma RotatedAt<T>(l: seq<T>, j: nat, i: nat)
    requires j < |l| && i < |l| - 1
    ensures WasAt(|l|, j, i) < |l| && WasAt(|l|, j, i) != j && (l[j + 1..] + l[..j])[i] == l[WasAt(|l|, j, i)]
  {
  }

  lemma RotatedDistinct<T>(l: seq<T>, j: nat)
    requires j < |l| && Distinct(l)
    ensures Distinct(l[j + 1..] + l[..j])
  {
    Rotated(l, j);
  }

  lemma OneOf<T>(l: seq<T>, j: nat)
    requires j < |l| && Distinct(l)
    ensures forall i | 0 <= i < |l| && i != j :: l[i] != l[j]
  {
  }

  function NodeAfter(l: seq<Node>, j: nat): Node? { if j + 1 < |l| then l[j + 1] else null }

  /** Place i first, the places before it one on, and the rest as they were. */
  function MovedFrom(i: nat, j: nat): nat { if j == 0 then i else if j <= i then j - 1 else j }

  lemma MovedAt<T>(l: seq<T>, i: nat, j: nat)
    requires i < |l| && j < |l|
    ensures |[l[i]] + (l[..i] + l[i + 1..])| == |l| && MovedFrom(i, j) < |l|
    ensures ([l[i]] + (l[..i] + l[i + 1..]))[j] == l[MovedFrom(i, j)]
  {
  }

  lemma MovedDistinct<T>(l: seq<T>, i: nat)
    requires i < |l| && Distinct(l)
    ensures Distinct([l[i]] + (l[..i] + l[i + 1..]))
  {
    var l' := [l[i]] + (l[..i] + l[i + 1..]);
    forall j, m | 0 <= j < m < |l'| ensures l'[j] != l'[m] {
      MovedAt(l, i, j);
      MovedAt(l, i, m);
    }
  }

  class RefList {
    var head: Node?
    ghost var nodes: seq<Node>  // in list order from the head
    ghost var ptes: seq<Pte>    // the entries they point to
    ghost var repr: set<Node>   // every node the list has ever had

    ghost predicate Listed()
      reads this, nodes
    {
      && |ptes| == |nodes|
      && Distinct(nodes) && Distinct(ptes)
      && (if nodes == [] then head == null else head == nodes[0])
      && (forall i :: 0 <= i < |nodes| ==> nodes[i].pte == ptes[i] && nodes[i] in repr)
    }

    ghost predicate Chain()
      reads this, nodes
    {
      && Listed()
      && (nodes != [] ==> nodes[|nodes| - 1].next == null)
      && forall i :: 0 <= i < |nodes| - 1 ==> nodes[i].next == nodes[i + 1]
    }

    ghost function Succ(i: nat): nat
      reads this
    {
      Following(|nodes|, i)
    }

    ghost predicate Ring()
      reads this, nodes
    {
      && Listed()
      && forall i :: 0 <= i < |nodes| ==> nodes[i].next == nodes[Succ(i)]
    }

    ghost function Marked(): set<Pte>
      reads this, ptes
    {
      set p | p in ptes && p.frame.ref
    }

    ghost function Contents(): Queue<Pte>
      reads this, ptes
    {
      Queue(ptes, Marked())
    }

    /** The word of p tells it apart from every listed entry. */
    ghost predicate Identified(p: Pte)
      reads this, ptes, p
    {
      forall i :: 0 <= i < |ptes| && ptes[i].frame == p.frame ==> ptes[i] == p
    }

    constructor ()
      ensures nodes == [] && ptes == [] && head == null && repr == {}
    {
      head, nodes, ptes, repr := null, [], [], {};
    }

    /** lru_evict and fifo_evict: cut the last node off.  Both walk prevN behind current, and
        a list of one node has no prevN to cut at. */
    method EvictLast() returns (evictFrame: nat)
      requires Chain() && 2 <= |nodes|
      modifies this, repr`next
      ensures repr == old(repr)
      ensures Chain() && nodes == old(nodes[..|nodes| - 1]) && ptes == old(ptes[..|ptes| - 1])
      ensures evictFrame == old(ptes[|ptes| - 1]).frame.number
    {
      var current: Node := head;
      var prevN: Node? := null;
      ghost var i := 0;
      while current.next != null
        invariant 0 <= i < |nodes| && current == nodes[i]
        invariant current.next == if i == |nodes| - 1 then null else nodes[i + 1]
        invariant if i == 0 then prevN == null else prevN == nodes[i - 1]
        decreases |nodes| - i
      {
        prevN := current;
        current := current.next;
        i := i + 1;
      }
      prevN.next := null;
      evictFrame := current.pte.frame.number;
      nodes, ptes := nodes[..i], ptes[..i];
    }

    /** A new head node for an entry that is not listed. */
    method Push(p: Pte)
      requires Chain() && p !in ptes
      modifies this
      ensures Chain() && ptes == [p] + old(ptes)
      ensures old(repr) <= repr && fresh(repr - old(repr))
    {
      var temp := new Node(p, head);
      head := temp;
      nodes, ptes, repr := [temp] + nodes, [p] + ptes, repr + {temp};
    }

    /** Relink the node behind prevN to the head. */
    method MoveToHead(prevN: Node, current: Node, ghost i: nat)
      requires Chain() && 0 < i < |nodes| && prevN == nodes[i - 1] && current == nodes[i]
      modifies this, repr`next
      ensures Chain() && ptes == old([ptes[i]] + (ptes[..i] + ptes[i + 1..]))
      ensures repr == old(repr)
    {
      hide Distinct;
      ghost var was, wasPtes := nodes, ptes;
      OneOf(nodes, i - 1);
      OneOf(nodes, i);
      var nextN := current.next;
      prevN.next := nextN;
      current.next := head;
      head := current;
      nodes := [current] + (nodes[..i] + nodes[i + 1..]);
      ptes := [ptes[i]] + (ptes[..i] + ptes[i + 1..]);
      Moved(was, wasPtes, i);
    }

    /** The nodes form a chain again. */
    lemma Moved(was: seq<Node>, wasPtes: seq<Pte>, i: nat)
      requires 0 < i < |was| == |wasPtes| && Distinct(was) && Distinct(wasPtes) && head == was[i]
      requires nodes == [was[i]] + (was[..i] + was[i + 1..]) && ptes == [wasPtes[i]] + (wasPtes[..i] + wasPtes[i + 1..])
      requires forall j | 0 <= j < |was| :: was[j].pte == wasPtes[j] && was[j] in repr
      requires was[i].next == was[0] && was[i - 1].next == NodeAfter(was, i)
      requires forall j | 0 <= j < |was| && j != i && j != i - 1 :: was[j].next == NodeAfter(was, j)
      ensures Chain()
    {
      hide Distinct;
      MovedDistinct(was, i);
      MovedDistinct(wasPtes, i);
      MovedAt(was, i, 0);
      forall j: nat | j < |was|
        ensures nodes[j].pte == ptes[j] && nodes[j] in repr
        ensures nodes[j].next == NodeAfter(nodes, j)
      {
        var f := MovedFrom(i, j);
        MovedAt(was, i, j);
        MovedAt(wasPtes, i, j);
        assert was[f].pte == wasPtes[f];
        if j + 1 < |was| { MovedAt(was, i, j + 1); }
      }
    }

    /** lru_ref: the entry becomes, or moves to, the head. */
    method LruRef(p: Pte)
      requires Chain() && Identified(p)
      modifies this, repr`next
      ensures Chain() && ptes == ToFront(old(ptes), p)
      ensures old(repr) <= repr && fresh(repr - old(repr))
    {
      if head == null {
        Push(p);
        return;
      }
      if head.pte.frame == p.frame {
        return;
      }
      var current := head;
      var prevN: Node? := null;
      ghost var i := 0;
      while current != null
        invariant 0 <= i <= |nodes|
        invariant current == if i < |nodes| then nodes[i] else null
        invariant if i == 0 then prevN == null else prevN == nodes[i - 1]
        invariant forall j :: 0 <= j < i ==> ptes[j].frame != p.frame
        decreases |nodes| - i
      {
        if current.pte.frame != p.frame {
          prevN := current;
          current := current.next;
          i := i + 1;
        } else {
          MoveToHead(prevN, current, i);
          return;
        }
      }
      Push(p);
    }

    /** fifo_ref: a listed entry stays where it is, a new one becomes the head. */
    method FifoRef(p: Pte)
      requires Chain() && Identified(p)
      modifies this
      ensures Chain() && ptes == if p in old(ptes) then old(ptes) else [p] + old(ptes)
      ensures old(repr) <= repr && fresh(repr - old(repr))
    {
      if head == null {
        Push(p);
        return;
      }
      var current := head;
      ghost var i := 0;
      while current != null
        invariant 0 <= i <= |nodes|
        invariant current == if i < |nodes| then nodes[i] else null
        invariant forall j :: 0 <= j < i ==> ptes[j].frame != p.frame
        decreases |nodes| - i
      {
        if current.pte.frame != p.frame {
          current := current.next;
          i := i + 1;
        } else {
          return;
        }
      }
      Push(p);
    }

    /** Take the head node out of the ring, given the node before it. */
    method UnlinkHead(last: Node)
      requires Ring() && 2 <= |nodes| && last == nodes[|nodes| - 1]
      modifies this, repr`next
      ensures repr == old(repr)
      ensures Ring() && nodes == old(nodes[1..]) && ptes == old(ptes[1..])
    {
      last.next := head.next;
      head := head.next;
      nodes, ptes := nodes[1..], ptes[1..];
    }

    /** Take a later node out of the ring; the head moves on to the node after it. */
    method UnlinkAfter(prevN: Node, nextN: Node, ghost j: nat)
      requires Ring() && 0 < j < |nodes|
      requires prevN == nodes[j - 1] && nextN == nodes[Succ(j)]
      modifies this, repr`next
      ensures repr == old(repr)
      ensures Ring() && nodes == old(nodes[j + 1..] + nodes[..j]) && ptes == old(ptes[j + 1..] + ptes[..j])
    {
      hide Distinct, Following;
      ghost var was, wasPtes := nodes, ptes;
      Bypass(prevN, nextN, j);
      head := nextN;
      nodes, ptes := nodes[j + 1..] + nodes[..j], ptes[j + 1..] + ptes[..j];
      Closed(was, wasPtes, j);
    }

    /** The remaining nodes form a ring from the new head. */
    lemma Closed(was: seq<Node>, wasPtes: seq<Pte>, j: nat)
      requires 0 < j < |was| == |wasPtes| && nodes == was[j + 1..] + was[..j] && ptes == wasPtes[j + 1..] + wasPtes[..j]
      requires Distinct(was) && Distinct(wasPtes) && head == was[Following(|was|, j)]
      requires forall i | 0 <= i < |was| :: was[i].pte == wasPtes[i] && was[i] in repr
      requires forall i | 0 <= i < |was| && i != j ::
                 was[i].next == was[if i == j - 1 then Following(|was|, j) else Following(|was|, i)]
      ensures Ring()
    {
      hide Distinct, WasAt, Following;
      RotatedDistinct(was, j);
      RotatedDistinct(wasPtes, j);
      RotatedRing(was, j);
      RotatedPtes(was, wasPtes, j);
      RotatedAt(was, j, 0);
      PlaceStart(|was|, j);
    }

    lemma RotatedPtes(was: seq<Node>, wasPtes: seq<Pte>, j: nat)
      requires j < |was| == |wasPtes| && nodes == was[j + 1..] + was[..j] && ptes == wasPtes[j + 1..] + wasPtes[..j]
      requires forall i | 0 <= i < |was| :: was[i].pte == wasPtes[i] && was[i] in repr
      ensures forall i :: 0 <= i < |nodes| ==> nodes[i].pte == ptes[i] && nodes[i] in repr
    {
      hide WasAt;
      forall i: nat | i < |nodes| ensures nodes[i].pte == ptes[i] && nodes[i] in repr {
        RotatedAt(was, j, i);
        RotatedAt(wasPtes, j, i);
      }
    }

    /** The node at place j is passed over; head is still where it was. */
    method Bypass(prevN: Node, nextN: Node, ghost j: nat)
      requires Ring() && 0 < j < |nodes|
      requires prevN == nodes[j - 1] && nextN == nodes[Succ(j)]
      modifies prevN`next
      ensures forall i | 0 <= i < |nodes| && i != j ::
                nodes[i].next == nodes[if i == j - 1 then Following(|nodes|, j) else Following(|nodes|, i)]
    {
      hide Distinct;
      OneOf(nodes, j - 1);
      prevN.next := nextN;
    }

    lemma RotatedRing(was: seq<Node>, j: nat)
      requires 0 < j < |was| && nodes == was[j + 1..] + was[..j]
      requires forall i | 0 <= i < |was| && i != j ::
                 was[i].next == was[if i == j - 1 then Following(|was|, j) else Following(|was|, i)]
      ensures forall i | 0 <= i < |nodes| :: nodes[i].next == nodes[Succ(i)]
    {
      hide WasAt;
      forall i: nat | i < |nodes| ensures nodes[i].next == nodes[Succ(i)] {
        RotatedAt(was, j, i);
        RotatedAt(was, j, Succ(i));
        PlaceAfter(|was|, j, i);
      }
    }

    /** What the hand finds at node j of the ring. */
    lemma AtHand(j: nat)
      requires Ring() && j < |nodes|
      ensures nodes[j].pte == ptes[j] && nodes[j].next == nodes[Succ(j)] && |ptes| == |nodes| && nodes[j].pte in ptes
      ensures head == nodes[0]
    {
    }

    /** The reference bit of node j is cleared, and no other entry is touched. */
    method ClearRef(current: Node, ghost j: nat)
      requires Ring() && j < |nodes| && current == nodes[j]
      modifies current.pte`frame
      ensures Ring() && ptes[j].frame == old(ptes[j].frame).(ref := false)
      ensures forall i :: 0 <= i < |ptes| && i != j ==> ptes[i].frame == old(ptes[i].frame)
    {
      current.pte.frame := current.pte.frame.(ref := false);
    }

    /** The hand of clock_evict: clear reference bits from the head on until one is clear. */
    method Sweep() returns (prevN: Node?, current: Node, nextN: Node?, ghost j: nat)
      requires Ring() && nodes != []
      modifies ptes`frame
      ensures Ring()
      ensures j <= |nodes|
      ensures current == nodes[if j == |nodes| then 0 else j]
      ensures 0 < j < |nodes| ==> prevN == nodes[j - 1] && nextN == nodes[Succ(j)]
      ensures nodes == old(nodes) && ptes == old(ptes)
      ensures forall i :: 0 <= i < j ==> old(ptes[i].frame.ref) && ptes[i].frame == old(ptes[i].frame).(ref := false)
      ensures forall i :: j <= i < |ptes| ==> ptes[i].frame == old(ptes[i].frame)
      ensures j < |ptes| ==> !ptes[j].frame.ref
    {
      hide Ring;
      j := 0;
      AtHand(0);
      current := head;
      prevN, nextN := null, null;
      while current.pte.frame.ref
        invariant Ring() && j <= |nodes| && current == nodes[if j == |nodes| then 0 else j]
        invariant 0 < j < |nodes| ==> prevN == nodes[j - 1] && nextN == nodes[Succ(j)]
        invariant forall i :: 0 <= i < j ==>
                  old(ptes[i].frame.ref) && ptes[i].frame == old(ptes[i].frame).(ref := false)
        invariant forall i :: j <= i < |ptes| ==> ptes[i].frame == old(ptes[i].frame)
        decreases |nodes| - j
      {
        AtHand(if j == |nodes| then 0 else j);
        ClearRef(current, j);
        AtHand(j);
        AtHand(Succ(j));
        prevN := current;
        current := current.next;
        nextN := current.next;
        j := j + 1;
      }
      AtHand(if j == |nodes| then 0 else j);
    }

    method SweepMarked() returns (prevN: Node?, current: Node, nextN: Node?, ghost j: nat)
      requires Ring() && nodes != []
      modifies ptes`frame
      ensures repr == old(repr)
      ensures Ring() && nodes == old(nodes) && ptes == old(ptes)
      ensures StopsAt(old(Contents()), j)
      ensures current == nodes[if j == |nodes| then 0 else j]
      ensures 0 < j < |nodes| ==> prevN == nodes[j - 1] && nextN == nodes[Succ(j)]
      ensures Marked() == old(Marked()) - Elements(ptes[..j])
      ensures !current.pte.frame.ref
      ensures forall p :: p in ptes ==> p.frame == old(p.frame).(ref := p.frame.ref)
    {
      ghost var before := Marked();
      prevN, current, nextN, j := Sweep();
      SweptMarks(ptes, before, Marked(), j);
    }

    /** The second half of clock_evict: take the node the hand stopped at out of the ring. */
    method Detach(prevN: Node?, current: Node, nextN: Node?, ghost j: nat) returns (evictFrame: nat)
      requires Ring() && 2 <= |nodes| && j < |nodes| && current == nodes[j] && !current.pte.frame.ref
      requires 0 < j ==> prevN == nodes[j - 1] && nextN == nodes[Succ(j)]
      modifies this, repr`next
      ensures repr == old(repr)
      ensures Ring() && nodes == old(nodes[j + 1..] + nodes[..j]) && ptes == old(ptes[j + 1..] + ptes[..j])
      ensures Marked() == old(Marked()) && evictFrame == old(ptes[j]).frame.number
    {
      if current == head {
        var last := LastNode();
        evictFrame := head.pte.frame.number;
        UnlinkHead(last);
      } else {
        evictFrame := current.pte.frame.number;
        UnlinkAfter(prevN, nextN, j);
      }
    }

    lemma ListedDistinct()
      requires Ring()
      ensures Distinct(ptes) && |ptes| == |nodes|
    {
    }

    /** clock_evict: second chance from the hand, which is the head of the ring. */
    method ClockEvict() returns (evictFrame: nat)
      requires Ring() && 2 <= |nodes|
      modifies this, repr`next, ptes`frame
      ensures Ring() && Contents() == Evict(Clock, old(Contents())).rest
      ensures evictFrame == Evict(Clock, old(Contents())).victim.frame.number
      ensures repr == old(repr)
      ensures forall p :: p in old(ptes) ==> p.frame == old(p.frame).(ref := p.frame.ref)
    {
      hide Ring, Chain, Evict;
      ghost var before := Contents();
      ListedDistinct();
      var prevN, current, nextN, j := SweepMarked();
      SecondChanceAt(before, j);
      evictFrame := Detach(prevN, current, nextN, if j == |nodes| then 0 else j);
    }

    /** The inner walk of clock_evict round to the node whose successor is the head. */
    method LastNode() returns (current: Node)
      requires Ring() && nodes != []
      ensures current == nodes[|nodes| - 1]
    {
      current := head;
      ghost var i := 0;
      while current.next != head
        invariant 0 <= i < |nodes| && current == nodes[i]
        decreases |nodes| - i
      {
        current := current.next;
        i := i + 1;
      }
    }

    /** clock_ref: set the bit of a listed entry; a new one goes just behind the hand. */
    method ClockRef(p: Pte)
      requires Ring() && Identified(p) && p.frame.ref
      modifies this, repr`next, p`frame
      ensures Ring() && ptes == if p in old(ptes) then old(ptes) else old(ptes) + [p]
      ensures p.frame == old(p.frame)
      ensures old(repr) <= repr && fresh(repr - old(repr))
    {
      if head == null {
        head := new Node(p, null);
        head.next := head;
        nodes, ptes, repr := [head], [p], repr + {head};
        return;
      }
      var current: Node := head;
      var prevN: Node? := null;
      ghost var i := 0;
      while true
        invariant 0 <= i < |nodes| && current == nodes[i]
        invariant forall j :: 0 <= j < i ==> ptes[j].frame != p.frame
        decreases |nodes| - i
      {
        if current.pte.frame != p.frame {
          prevN := current;
          current := current.next;
          i := i + 1;
        } else {
          current.pte.frame := current.pte.frame.(ref := true);
          return;
        }
        if current == head {
          break;
        }
      }
      NotAmong(p);
      PushBehind(p, prevN);
    }

    lemma NotAmong(p: Pte)
      requires Listed() && forall j :: 0 <= j < |ptes| ==> ptes[j].frame != p.frame
      ensures p !in ptes
    {
    }

    /** A new node between the last one and the head. */
    method PushBehind(p: Pte, prevN: Node)
      requires Ring() && nodes != [] && prevN == nodes[|nodes| - 1] && p !in ptes
      modifies this, repr`next
      ensures Ring() && ptes == old(ptes) + [p]
      ensures old(repr) <= repr && fresh(repr - old(repr))
    {
      OneOf(nodes, |nodes| - 1);
      var temp := new Node(p, head);
      prevN.next := temp;
      nodes, ptes, repr := nodes + [temp], ptes + [p], repr + {temp};
    }

    ghost predicate Shaped(pol: Policy)
      reads this, nodes
    {
      if pol == Clock then Ring() else Chain()
    }

    /** evict_fcn for the list policies. */
    method EvictBy(pol: Policy) returns (evictFrame: nat)
      requires Shaped(pol) && 2 <= |nodes|
      modifies this, repr`next, ptes`frame
      ensures Shaped(pol) && Contents() == Evict(pol, old(Contents())).rest
      ensures evictFrame == Evict(pol, old(Contents())).victim.frame.number
      ensures repr == old(repr)
      ensures forall p :: p in old(ptes) ==> p.frame == old(p.frame).(ref := p.frame.ref)
    {
      if pol == Clock {
        evictFrame := ClockEvict();
      } else {
        evictFrame := EvictLast();
      }
    }

    lemma ShapedDistinct(pol: Policy)
      requires Shaped(pol)
      ensures Distinct(ptes)
    {
    }

    /** ref_fcn for the list policies. */
    method ReferBy(pol: Policy, p: Pte)
      requires Shaped(pol) && Identified(p) && p.frame.ref
      modifies this, repr`next, p`frame
      ensures Shaped(pol) && Contents() == Refer(pol, old(Contents()), p)
      ensures p.frame == old(p.frame)
      ensures old(repr) <= repr && fresh(repr - old(repr))
    {
      hide Chain, Ring, Identified, ToFront, Distinct;
      ghost var before := Contents();
      ShapedDistinct(pol);
      ReferSound(pol, before, p);
      match pol {
        case Lru => LruRef(p);
        case Fifo => FifoRef(p);
        case Clock => ClockRef(p);
      }
      assert ptes == Refer(pol, before, p).list;
      assert Elements(ptes) == Elements(before.list) + {p};
      assert forall e :: e in ptes <==> e in Elements(ptes);
      assert Marked() == before.marked + {p};
    }
  }
}
