/** The free-space counter: what calcFreeSpace adds up, and why it is the memory that is not handed out. */
module SlobAccounting {
  import opened Sums
  import opened SlobBlocks
  import opened SlobHeap

  /** What calcFreeSpace adds up over one list. */
  ghost function UnitsOn<P>(h: Heap<P>, l: seq<P>): nat
    requires forall p | p in l :: p in h.pages
  {
    if l == [] then 0 else Sum(h.pages[l[0]].blocks) + UnitsOn(h, l[1..])
  }

  ghost predicate Listed<P>(h: Heap<P>) {
    && (forall p | p in h.lists.small :: p in h.pages)
    && (forall p | p in h.lists.medium :: p in h.pages)
    && (forall p | p in h.lists.large :: p in h.pages)
  }

  /** calcFreeSpace */
  ghost function CalcFreeSpace<P>(h: Heap<P>): nat
    requires Listed(h)
  {
    UnitsOn(h, h.lists.small) + UnitsOn(h, h.lists.medium) + UnitsOn(h, h.lists.large)
  }

  lemma {:induction false} UnitsOnSnoc<P>(h: Heap<P>, l: seq<P>, p: P)
    requires p in h.pages && forall q | q in l :: q in h.pages
    ensures UnitsOn(h, l + [p]) == UnitsOn(h, l) + Sum(h.pages[p].blocks)
  {
    if l == [] {
      assert UnitsOn(h, [p]) == Sum(h.pages[p].blocks) + UnitsOn(h, [p][1..]);
    } else {
      assert (l + [p])[1..] == l[1..] + [p];
      UnitsOnSnoc(h, l[1..], p);
    }
  }

  ghost function FreeUnits<P>(h: Heap<P>): map<P, nat> {
    map p | p in h.pages :: Sum(h.pages[p].blocks)
  }

  ghost function LiveUnits<P>(h: Heap<P>): map<P, nat> {
    map p | p in h.pages :: Sum(h.pages[p].live)
  }

  lemma {:induction false} UnitsOnIsSum<P>(h: Heap<P>, l: seq<P>)
    requires NoDuplicates(l) && forall p | p in l :: p in h.pages
    ensures UnitsOn(h, l) == SumSet(Elements(l), FreeUnits(h))
  {
    if l != [] {
      UnitsOnIsSum(h, l[1..]);
      assert Elements(l) - {l[0]} == Elements(l[1..]) by {
        assert l == [l[0]] + l[1..];
      }
      SumSetRemove(Elements(l), FreeUnits(h), l[0]);
    }
  }

  lemma ListedPages<P>(h: Heap<P>)
    requires h.lists.Members() == Partial(h)
    ensures Listed(h)
  {
    assert forall p | p in h.lists.small :: p in Elements(h.lists.small) && p in h.lists.Members();
    assert forall p | p in h.lists.medium :: p in Elements(h.lists.medium) && p in h.lists.Members();
    assert forall p | p in h.lists.large :: p in Elements(h.lists.large) && p in h.lists.Members();
  }

  /** Free space as calcFreeSpace counts it plus everything handed out is all the memory of all pages. */
  lemma HeapConserves<P>(h: Heap<P>)
    requires HeapInv(h)
    ensures Listed(h)
    ensures CalcFreeSpace(h) + SumSet(h.pages.Keys, LiveUnits(h)) == PAGE_UNITS * |h.pages|
  {
    hide PageInv;
    var s, m, l := Elements(h.lists.small), Elements(h.lists.medium), Elements(h.lists.large);
    var free, live := FreeUnits(h), LiveUnits(h);
    ListedPages(h);
    UnitsOnIsSum(h, h.lists.small);
    UnitsOnIsSum(h, h.lists.medium);
    UnitsOnIsSum(h, h.lists.large);
    SumSetUnion(s, m, free);
    SumSetUnion(s + m, l, free);
    assert CalcFreeSpace(h) == SumSet(h.lists.Members(), free);
    SumSetZeros(h.pages.Keys, h.lists.Members(), free);
    var all: map<P, nat> := map p | p in h.pages :: PAGE_UNITS;
    forall p | p in h.pages ensures all[p] == free[p] + live[p] {
      PageConserves(h.pages[p]);
    }
    SumSetAdd(h.pages.Keys, free, live, all);
    SumSetConstant(h.pages.Keys, all, PAGE_UNITS);
    assert |h.pages.Keys| == |h.pages|;
  }

  /** What the scans need to know about the lists: their pages exist and have free units. */
  lemma HeapInvLists<P>(h: Heap<P>, c: SizeClass)
    requires HeapInv(h)
    ensures Listed(h) && h.lists.Disjoint() && NoDuplicates(h.lists.Of(c))
    ensures forall p | p in h.lists.Of(c) :: p in h.pages && h.pages[p].blocks != []
  {
    ListedPages(h);
    assert forall p | p in h.lists.Of(c) :: p in Elements(h.lists.Of(c)) && p in h.lists.Members();
  }
}
