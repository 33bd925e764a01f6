/** opt.c: the trace kept as a linked list of page numbers, and the victim scan over it. */
module OptPolicy {
  import opened Replay
  import opened Optimal
  import opened Coremap

  class TraceNode {
    var next: TraceNode?
    var vaddr: Page  // already shifted by PAGE_SHIFT

    constructor (vaddr: Page)
      ensures this.vaddr == vaddr && next == null
    {
      this.vaddr := vaddr;
      next := null;
    }
  }

  lemma NextUseEnd(pages: seq<Page>, p: Page)
    ensures NextUse(pages[|pages|..], p) == 0
  {
  }

  lemma NextUseStep(pages: seq<Page>, i: nat, p: Page)
    requires i < |pages|
    ensures NextUse(pages[i..], p) == if pages[i] == p then 0 else 1 + NextUse(pages[i + 1..], p)
  {
    assert pages[i..][1..] == pages[i + 1..];
  }

  class TraceList {
    var curr: TraceNode?
    ghost var nodes: seq<TraceNode>
    ghost var pages: seq<Page>
    ghost var pos: nat

    /** nodes is the whole list, and curr stands at place pos of it. */
    ghost predicate Valid()
      reads this, nodes
    {
      && |nodes| == |pages| && pos <= |nodes|
      && (forall i :: 0 <= i < |nodes| ==> nodes[i].vaddr == pages[i])
      && (forall i :: 0 <= i < |nodes| - 1 ==> nodes[i].next == nodes[i + 1])
      && (nodes != [] ==> nodes[|nodes| - 1].next == null)
      && curr == if pos < |nodes| then nodes[pos] else null
    }

    /** opt_init: read the trace into the list and stand at its head. */
    constructor (trace: seq<nat>)
      ensures Valid() && fresh(nodes) && pos == 0
      ensures |pages| == |trace| && forall i :: 0 <= i < |trace| ==> pages[i] == trace[i] / PAGE
    {
      curr, nodes, pages, pos := null, [], [], 0;
      new;
      var currentTrace: TraceNode? := null;
      for i := 0 to |trace|
        invariant Valid() && fresh(nodes) && pos == 0 && |pages| == i
        invariant forall n, m :: 0 <= n < m < |nodes| ==> nodes[n] != nodes[m]
        invariant currentTrace == if i == 0 then null else nodes[i - 1]
        invariant forall j :: 0 <= j < i ==> pages[j] == trace[j] / PAGE
      {
        var temp := new TraceNode(trace[i] / PAGE);
        if curr == null {
          curr := temp;
        } else {
          currentTrace.next := temp;
        }
        currentTrace := temp;
        nodes, pages := nodes + [temp], pages + [trace[i] / PAGE];
      }
    }

    /** opt_ref: one reference has been replayed. */
    method Advance()
      requires Valid() && pos < |nodes|
      modifies this
      ensures Valid() && pos == old(pos) + 1 && nodes == old(nodes) && pages == old(pages)
    {
      curr := curr.next;
      pos := pos + 1;
    }

    /** The inner loop of opt_evict for one frame: count the nodes after curr that come
        before the frame's page. */
    method Distance(coremap: array<Frame>, j: nat)
      requires Valid() && pos < |nodes| && j < coremap.Length && coremap[j].distance == 0
      modifies coremap
      ensures coremap[j] == old(coremap[j]).(distance := NextUse(pages[pos + 1..], old(coremap[j]).vaddr / PAGE))
      ensures forall i :: 0 <= i < coremap.Length && i != j ==> coremap[i] == old(coremap[i])
    {
      hide NextUse;
      NextUseEnd(pages, coremap[j].vaddr / PAGE);
      var current := curr.next;
      ghost var i, p := pos + 1, coremap[j].vaddr / PAGE;
      while current != null
        invariant pos < i <= |nodes| && current == if i < |nodes| then nodes[i] else null
        invariant coremap[j] == old(coremap[j]).(distance := i - pos - 1)
        invariant forall m :: 0 <= m < coremap.Length && m != j ==> coremap[m] == old(coremap[m])
        invariant NextUse(pages[pos + 1..], p) == i - pos - 1 + NextUse(pages[i..], p)
        decreases |nodes| - i
      {
        if current.vaddr != coremap[j].vaddr / PAGE {
          coremap[j] := coremap[j].(distance := coremap[j].distance + 1);
        } else {
          NextUseStep(pages, i, p);
          break;
        }
        if coremap[j].distance == 0 {
          assert false;  // the return of the frame number: the distance has just been counted up
        }
        NextUseStep(pages, i, p);
        current := current.next;
        i := i + 1;
      }
    }

    /** Every frame's distance is set to zero and then counted. */
    method Measure(coremap: array<Frame>)
      requires Valid() && pos < |nodes|
      modifies coremap
      ensures forall j :: 0 <= j < coremap.Length ==>
                coremap[j] == old(coremap[j]).(distance := NextUse(pages[pos + 1..], old(coremap[j]).vaddr / PAGE))
    {
      for j := 0 to coremap.Length
        invariant forall i :: 0 <= i < coremap.Length ==>
                    coremap[i] == old(coremap[i]).(distance := if i < j then 0 else old(coremap[i]).distance)
      {
        coremap[j] := coremap[j].(distance := 0);
      }
      for j := 0 to coremap.Length
        invariant forall i :: 0 <= i < coremap.Length ==>
                    coremap[i] == old(coremap[i]).(distance :=
                      if i < j then NextUse(pages[pos + 1..], old(coremap[i]).vaddr / PAGE) else 0)
      {
        Distance(coremap, j);
      }
    }

    /** The first of the frames with the largest distance. */
    static method Largest(coremap: array<Frame>) returns (evictFrame: nat)
      requires 0 < coremap.Length && forall j :: 0 <= j < coremap.Length ==> 0 <= coremap[j].distance
      ensures evictFrame < coremap.Length
      ensures forall j :: 0 <= j < coremap.Length ==> coremap[j].distance <= coremap[evictFrame].distance
      ensures forall j :: 0 <= j < evictFrame ==> coremap[j].distance < coremap[evictFrame].distance
    {
      var maxDistance := -1;
      evictFrame := 0;
      for i := 0 to coremap.Length
        invariant evictFrame < coremap.Length
        invariant if i == 0 then maxDistance == -1 && evictFrame == 0
                  else evictFrame < i && maxDistance == coremap[evictFrame].distance
        invariant forall m :: 0 <= m < i ==> coremap[m].distance <= maxDistance
        invariant forall m :: 0 <= m < evictFrame ==> coremap[m].distance < maxDistance
      {
        if coremap[i].distance > maxDistance {
          maxDistance := coremap[i].distance;
          evictFrame := i;
        }
      }
    }

    /** opt_evict: the first frame whose page is used farthest ahead, a page not used again
        counting as farthest. */
    method OptEvict(coremap: array<Frame>) returns (evictFrame: nat)
      requires Valid() && pos < |nodes| && 0 < coremap.Length
      modifies coremap
      ensures evictFrame < coremap.Length
      ensures forall j :: 0 <= j < coremap.Length ==> coremap[j] == old(coremap[j]).(distance := coremap[j].distance)
      ensures forall j :: 0 <= j < coremap.Length ==>
                var future := pages[pos + 1..];
                NextUse(future, coremap[j].vaddr / PAGE) <= NextUse(future, coremap[evictFrame].vaddr / PAGE)
      ensures forall j :: 0 <= j < evictFrame ==>
                var future := pages[pos + 1..];
                NextUse(future, coremap[j].vaddr / PAGE) < NextUse(future, coremap[evictFrame].vaddr / PAGE)
    {
      Measure(coremap);
      evictFrame := Largest(coremap);
    }
  }
}
