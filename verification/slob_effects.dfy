/** What one slob_alloc does to the heap: the choice of the extent, the page lists, and everything that stays as it was. */
module SlobEffects {
  import opened SlobBlocks
  import opened SlobHeap
  import opened SlobRuns

  /** The extent handed out lies in a free block of the list and leaves the fewest units behind it, earlier blocks winning ties. */
  lemma AllocationIsBestFit<P>(h: Heap<P>, r: Request, supply: NewPage<P>, h': Heap<P>, out: Outcome<P>) returns (i: nat, k: nat)
    requires HeapInv(h) && AllocStep(h, r, supply, h', out) && SomeFits(h, h.lists.Of(ClassOf(r.size)), r)
    ensures out.Allocated? && out.page in h.pages && k < |h.pages[out.page].blocks|
    ensures i < |h.lists.Of(ClassOf(r.size))| && h.lists.Of(ClassOf(r.size))[i] == out.page
    ensures var l, b := h.lists.Of(ClassOf(r.size)), h.pages[out.page].blocks[k];
            && b.start <= out.at && out.at + r.Units() <= b.End()
            && forall j: nat, m: nat | Candidates(h, l, r, j, m) ::
                 var c, other := h.pages[l[j]].blocks[m], Extent(h, l[j], m, r);
                 && b.End() - (out.at + r.Units()) <= c.End() - other.End()
                 && (j < i || (j == i && m < k) ==> b.End() - (out.at + r.Units()) < c.End() - other.End())
  {
    hide HeapInv, IsGlobalBest, Delta, Take;
    var l := h.lists.Of(ClassOf(r.size));
    i, k :| ServedFrom(h, r, i, k, h', out);
    GlobalBestIsCandidate(h, l, r, i, k);
    forall j: nat, m: nat | Candidates(h, l, r, j, m)
      ensures var b, c := h.pages[l[i]].blocks[k], h.pages[l[j]].blocks[m];
              var best, other := Extent(h, l[i], k, r), Extent(h, l[j], m, r);
              && b.End() - best.End() <= c.End() - other.End()
              && (j < i || (j == i && m < k) ==> b.End() - best.End() < c.End() - other.End())
    {
      GlobalBestLeavesLeast(h, l, r, i, k, j, m);
    }
  }

  /** The size of a request decides which list serves it. */
  lemma OwnList<P>(l: Lists<P>, size: nat)
    ensures l.Of(ClassOf(size)) == if size < 256 then l.small else if size < 1024 then l.medium else l.large
  {}

  /** An allocation from a listed page comes from the list of its size, and that list only loses the page if it is full now. */
  lemma OldPageKeepsLists<P>(h: Heap<P>, r: Request, supply: NewPage<P>, h': Heap<P>, out: Outcome<P>) returns (i: nat)
    requires HeapInv(h) && AllocStep(h, r, supply, h', out) && SomeFits(h, h.lists.Of(ClassOf(r.size)), r)
    ensures out.Allocated? && out.page in h.pages && out.page in h'.pages
    ensures var l := if r.size < 256 then h.lists.small else if r.size < 1024 then h.lists.medium else h.lists.large;
            && i < |l| && l[i] == out.page
            && h'.lists == if h'.pages[out.page].blocks != [] then h.lists
                           else if r.size < 256 then h.lists.(small := l[..i] + l[i + 1..])
                           else if r.size < 1024 then h.lists.(medium := l[..i] + l[i + 1..])
                           else h.lists.(large := l[..i] + l[i + 1..])
  {
    hide PageInv, IsGlobalBest, Delta, Fits, Carve;
    var c := ClassOf(r.size);
    var l := h.lists.Of(c);
    var k: nat;
    i, k :| ServedFrom(h, r, i, k, h', out);
    GlobalBestIsCandidate(h, l, r, i, k);
    OwnList(h.lists, r.size);
    RemoveKeepsOrder(l, i);
    UnlistOwnClass(h.lists, c, l[i]);
  }

  /** A page that had to be requested goes to the front of the list of its size, unless the request fills it. */
  lemma NewPageIsListedFirst<P>(h: Heap<P>, r: Request, page: P, base: nat, h': Heap<P>, out: Outcome<P>)
    requires HeapInv(h) && Acceptable(h, APage(page, base))
    requires AllocStep(h, r, APage(page, base), h', out) && !SomeFits(h, h.lists.Of(ClassOf(r.size)), r)
    ensures page in h'.pages && h'.pages[page].base == base
    ensures h'.lists == if h'.pages[page].blocks == [] then h.lists
                        else if r.size < 256 then h.lists.(small := [page] + h.lists.small)
                        else if r.size < 1024 then h.lists.(medium := [page] + h.lists.medium)
                        else h.lists.(large := [page] + h.lists.large)
  {
    hide PageInv, Delta, Fits, Carve;
    OwnList(h.lists, r.size);
    NotListed(h, page);
    UnlistEnlisted(h.lists, ClassOf(r.size), page);
  }

  lemma NotListed<P>(h: Heap<P>, page: P)
    requires h.lists.Members() == Partial(h) && page !in h.pages
    ensures page !in h.lists.small && page !in h.lists.medium && page !in h.lists.large
  {
    assert page !in h.lists.Members();
  }

  lemma UnlistEnlisted<P>(l: Lists<P>, c: SizeClass, page: P)
    requires page !in l.small && page !in l.medium && page !in l.large
    ensures Unlist(Enlist(l, c, page), page) == l
  {
    RemoveAbsent(l.small, page);
    RemoveAbsent(l.medium, page);
    RemoveAbsent(l.large, page);
  }

  /** Nothing but the extent handed out changes: other pages stay, and the page's free units lose exactly the extent. */
  lemma OnlyTheExtentIsTaken<P>(h: Heap<P>, r: Request, supply: NewPage<P>, h': Heap<P>, out: Outcome<P>)
    requires HeapInv(h) && Acceptable(h, supply) && r.size >= 1
    requires AllocStep(h, r, supply, h', out) && out.Allocated?
    ensures h'.pages.Keys == h.pages.Keys + {out.page}
    ensures forall q | q in h.pages && q != out.page :: h'.pages[q] == h.pages[q]
    ensures var before := if out.page in h.pages then h.pages[out.page] else PageState(h'.pages[out.page].base, FreshBlocks, []);
            var e := Block(out.at, r.Units());
            && h'.pages[out.page].base == before.base
            && h'.pages[out.page].live == before.live + [e]
            && Range(e) <= UnitSet(before.blocks)
            && UnitSet(h'.pages[out.page].blocks) == UnitSet(before.blocks) - Range(e)
  {
    hide PageInv, IsGlobalBest, Delta, Fits, Carve, UnitSet, Range, WellFormed;
    var l := h.lists.Of(ClassOf(r.size));
    if SomeFits(h, l, r) {
      var i: nat, k: nat :| ServedFrom(h, r, i, k, h', out);
      GlobalBestIsCandidate(h, l, r, i, k);
      TakenFromPage(h.pages[l[i]], k, r);
    } else {
      FreshPageInv(supply.base);
      SupplyIsNew(h, supply);
      TakenFromPage(PageState(supply.base, FreshBlocks, []), 0, r);
    }
  }

  lemma TakenFromPage(ps: PageState, k: nat, r: Request)
    requires PageInv(ps) && r.size >= 1 && k < |ps.blocks| && Fits(ps.base, ps.blocks[k], r)
    ensures var e := Taken(ps.blocks, k, Delta(ps.base, ps.blocks[k].start, r), r.Units());
            && Range(e) <= UnitSet(ps.blocks)
            && UnitSet(TakeFrom(ps, k, r).blocks) == UnitSet(ps.blocks) - Range(e)
  {
    hide Delta, Carve, UnitSet, Range;
    CarveUnitSet(ps.blocks, k, Delta(ps.base, ps.blocks[k].start, r), r.Units());
  }
}
