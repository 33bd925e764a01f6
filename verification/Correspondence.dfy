/** A reference list of entries stands for a list of pages: evict_fcn and ref_fcn act on both
    alike. */
module Correspondence {
  import opened Replay
  import opened Policies
  import opened PageEntries

  ghost predicate Injective(entry: map<Page, Pte>) {
    forall p, q :: p in entry && q in entry && p != q ==> entry[p] != entry[q]
  }

  /** o lists the entries of q's pages, in the same order and with the same marks. */
  ghost predicate Related(entry: map<Page, Pte>, q: Queue<Page>, o: Queue<Pte>) {
    && |q.list| == |o.list|
    && forall i :: 0 <= i < |q.list| ==>
         && q.list[i] in entry && o.list[i] == entry[q.list[i]]
         && (q.list[i] in q.marked <==> o.list[i] in o.marked)
  }

  lemma RelatedGrow(entry: map<Page, Pte>, entry': map<Page, Pte>, q: Queue<Page>, o: Queue<Pte>)
    requires Related(entry, q, o)
    requires forall p :: p in entry ==> p in entry' && entry'[p] == entry[p]
    ensures Related(entry', q, o)
  {
    forall i | 0 <= i < |q.list| ensures q.list[i] in entry' && o.list[i] == entry'[q.list[i]] {
      var p := q.list[i];
      assert o.list[i] == entry[p];
    }
  }

  lemma RelatedMember(entry: map<Page, Pte>, q: Queue<Page>, o: Queue<Pte>, p: Page)
    requires Injective(entry) && Related(entry, q, o) && p in entry
    ensures p in q.list <==> entry[p] in o.list
    ensures p in q.list ==> Index(q.list, p) == Index(o.list, entry[p])
  {
    if p in q.list {
      assert o.list[Index(q.list, p)] == entry[p];
    }
    if entry[p] in o.list {
      var i := Index(o.list, entry[p]);
      assert q.list[i] in entry && entry[q.list[i]] == entry[p];
      assert q.list[i] == p;
    }
  }

  lemma {:induction false} EvictRelated(pol: Policy, entry: map<Page, Pte>, q: Queue<Page>, o: Queue<Pte>)
    requires Injective(entry) && Related(entry, q, o) && q.list != []
    requires Distinct(q.list) && Distinct(o.list)
    ensures var e, f := Evict(pol, q), Evict(pol, o);
            && Related(entry, e.rest, f.rest)
            && e.victim in entry && f.victim == entry[e.victim]
    decreases q.marked
  {
    if pol == Clock {
      if q.list[0] in q.marked {
        var q' := Queue(q.list[1..] + [q.list[0]], q.marked - {q.list[0]});
        var o' := Queue(o.list[1..] + [o.list[0]], o.marked - {o.list[0]});
        EvictRelated(pol, entry, q', o');
      }
    }
  }

  /** Marking a page and its entry alike. */
  lemma MarkRelated(entry: map<Page, Pte>, q: Queue<Page>, o: Queue<Pte>, marked: set<Pte>, p: Page)
    requires Injective(entry) && Related(entry, q, o) && p in entry
    requires forall x :: x in o.list ==> (x in marked <==> x == entry[p] || x in o.marked)
    ensures Related(entry, Queue(q.list, q.marked + {p}), Queue(o.list, marked))
  {
    forall i | 0 <= i < |q.list|
      ensures q.list[i] in q.marked + {p} <==> o.list[i] in marked
    {
      assert o.list[i] == entry[q.list[i]];
      assert entry[q.list[i]] == entry[p] <==> q.list[i] == p;
    }
  }

  lemma ReferRelated(pol: Policy, entry: map<Page, Pte>, q: Queue<Page>, o: Queue<Pte>, p: Page)
    requires Injective(entry) && Related(entry, q, o) && p in entry
    ensures Related(entry, Refer(pol, q, p), Refer(pol, o, entry[p]))
  {
    RelatedMember(entry, q, o, p);
    var marked, omarked := Queue(q.list, q.marked + {p}), Queue(o.list, o.marked + {entry[p]});
    MarkRelated(entry, q, o, omarked.marked, p);
    if pol == Lru {
      var q', o' := Refer(pol, q, p), Refer(pol, o, entry[p]);
      ToFrontPlaces(q.list, p);
      ToFrontPlaces(o.list, entry[p]);
      forall i | 0 < i < |q'.list|
        ensures q'.list[i] in entry && o'.list[i] == entry[q'.list[i]]
        ensures q'.list[i] in q'.marked <==> o'.list[i] in o'.marked
      {
        assert Before(q.list, p, i) == Before(o.list, entry[p], i);
        assert marked.list[Before(q.list, p, i)] in entry;
      }
    }
  }
}
