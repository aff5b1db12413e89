/**
 Runs of the SLOB heap. An allocation is a slob_alloc step; freeing an extent is an abstract step that
 merges it into the page's free list in any way that keeps the list well formed.
 */
module SlobRuns {
  import opened Sums
  import opened SlobBlocks
  import opened SlobHeap
  import opened SlobAccounting

  // --------------------------------------------------------------- freeing

  function WithoutAt(s: seq<Block>, e: nat): seq<Block>
    requires e < |s|
  {
    s[..e] + s[e + 1..]
  }

  /** The free list `blocks` covers exactly the old free units and those of live extent `e`. */
  ghost predicate Merges(ps: PageState, e: nat, blocks: seq<Block>) {
    && e < |ps.live|
    && WellFormed(blocks)
    && forall u: nat | u < PAGE_UNITS :: Covered(blocks, u) <==> Covered(ps.blocks, u) || ps.live[e].Contains(u)
  }

  /** A full page re-enters a list, an empty one is given back, any other page stays where it is. */
  ghost predicate FreeStep<P>(h: Heap<P>, p: P, e: nat, c: SizeClass, blocks: seq<Block>, h': Heap<P>) {
    && p in h.pages
    && Merges(h.pages[p], e, blocks)
    && var ps := h.pages[p];
       var after := PageState(ps.base, blocks, WithoutAt(ps.live, e));
       h' == if after.live == [] then Heap(Unlist(h.lists, p), h.pages - {p})
             else Heap(if ps.blocks == [] then Enlist(h.lists, c, p) else h.lists, h.pages[p := after])
  }

  lemma CoveredWithoutAt(live: seq<Block>, e: nat, u: nat)
    requires LiveApart(live) && e < |live|
    ensures Covered(WithoutAt(live, e), u) <==> Covered(live, u) && !live[e].Contains(u)
  {
    assert live == live[..e] + [live[e]] + live[e + 1..];
    CoveredConcat(live[..e] + [live[e]], live[e + 1..], u);
    CoveredConcat(live[..e], [live[e]], u);
    CoveredConcat(live[..e], live[e + 1..], u);
    assert live[e].Contains(u) ==> [live[e]][0].Contains(u);
    assert forall j | 0 <= j < |live| && j != e && live[e].Contains(u) :: !live[j].Contains(u);
  }

  lemma FreeKeepsPageInv(ps: PageState, e: nat, blocks: seq<Block>)
    requires PageInv(ps) && Merges(ps, e, blocks)
    ensures PageInv(PageState(ps.base, blocks, WithoutAt(ps.live, e)))
    ensures blocks != []
  {
    hide WellFormed;
    var live := WithoutAt(ps.live, e);
    assert forall i | 0 <= i < |live| :: live[i] == if i < e then ps.live[i] else ps.live[i + 1];
    forall u: nat | u < PAGE_UNITS ensures Covered(blocks, u) != Covered(live, u) {
      CoveredWithoutAt(ps.live, e, u);
      assert ps.live[e].Contains(u) ==> Covered(ps.live, u);
    }
    assert ps.live[e].Contains(ps.live[e].start) && Covered(blocks, ps.live[e].start);
  }

  lemma FreeKeepsHeapInv<P>(h: Heap<P>, p: P, e: nat, c: SizeClass, blocks: seq<Block>, h': Heap<P>)
    requires HeapInv(h) && FreeStep(h, p, e, c, blocks, h')
    ensures HeapInv(h')
  {
    hide PageInv, Merges, Unlist, Enlist;
    FreeKeepsPageInv(h.pages[p], e, blocks);
    if p !in h'.pages {
      UnlistElements(h.lists, p);
      assert Partial(h') == Partial(h) - {p};
    } else {
      assert Partial(h') == Partial(h) + {p};
      if h.pages[p].blocks == [] {
        EnlistElements(h.lists, c, p);
      }
    }
  }

  /** Freeing gives back the units of the extent and nothing else; a page without live extents is given back whole. */
  lemma FreeGivesBack<P>(h: Heap<P>, p: P, e: nat, c: SizeClass, blocks: seq<Block>, h': Heap<P>)
    requires HeapInv(h) && FreeStep(h, p, e, c, blocks, h')
    ensures p in h.pages && e < |h.pages[p].live|
    ensures forall q | q in h.pages && q != p :: q in h'.pages && h'.pages[q] == h.pages[q]
    ensures p in h'.pages <==> |h.pages[p].live| > 1
    ensures p in h'.pages ==>
              && UnitSet(h'.pages[p].blocks) == UnitSet(h.pages[p].blocks) + Range(h.pages[p].live[e])
              && UnitSet(h'.pages[p].live) == UnitSet(h.pages[p].live) - Range(h.pages[p].live[e])
  {
    hide Unlist, Enlist, WellFormed, Covered;
    var ps := h.pages[p];
    assert forall u: nat | u < PAGE_UNITS :: Covered(blocks, u) <==> Covered(ps.blocks, u) || ps.live[e].Contains(u);
    forall u: nat ensures Covered(WithoutAt(ps.live, e), u) <==> Covered(ps.live, u) && !ps.live[e].Contains(u) {
      CoveredWithoutAt(ps.live, e, u);
    }
  }

  // ----------------------------------------------------- what callers are given

  /** Unit number `a` of memory lies in live extent `e` of page `p`. */
  ghost predicate LiveAt<P>(h: Heap<P>, p: P, e: nat, a: nat) {
    p in h.pages && e < |h.pages[p].live| && a >= h.pages[p].base && h.pages[p].live[e].Contains(a - h.pages[p].base)
  }

  /** No unit of memory belongs to two live allocations, on one page or on two. */
  lemma LiveAllocationsDisjoint<P>(h: Heap<P>, p: P, e: nat, q: P, f: nat, a: nat)
    requires HeapInv(h) && LiveAt(h, p, e, a) && LiveAt(h, q, f, a)
    ensures p == q && e == f
  {
    var x, y := h.pages[p].base, h.pages[q].base;
    assert x == y by {
      assert x <= a < x + PAGE_UNITS && y <= a < y + PAGE_UNITS;
    }
  }

  /**
   A successful slob_alloc returns an aligned extent of the requested length. It becomes live, every extent that
   was live stays live, and none of them shares a unit with it.
   */
  lemma AllocationIsFresh<P>(h: Heap<P>, r: Request, supply: NewPage<P>, h': Heap<P>, out: Outcome<P>, q: P, e: nat, a: nat)
    requires HeapInv(h) && Acceptable(h, supply) && r.Valid()
    requires AllocStep(h, r, supply, h', out) && out.Allocated?
    ensures out.page in h'.pages && h'.pages[out.page].live != []
    ensures var ps := h'.pages[out.page];
            && ps.live[|ps.live| - 1] == Block(out.at, r.Units())
            && r.size <= SLOB_UNIT * ps.live[|ps.live| - 1].size < r.size + SLOB_UNIT
            && (r.align != 0 ==> (SLOB_UNIT * (ps.base + out.at) + r.alignOffset) % r.align == 0)
    ensures LiveAt(h, q, e, a) ==>
              LiveAt(h', q, e, a) && !(q == out.page && Block(out.at, r.Units()).Contains(a - h'.pages[q].base))
  {
    hide PageInv, WellFormed, Fits, Delta, IsGlobalBest, Aligned, Acceptable, HeapInv;
    AllocKeepsHeapInv(h, r, supply, h', out);
    SupplyIsNew(h, supply);
    var l := h.lists.Of(ClassOf(r.size));
    var g, k;
    if SomeFits(h, l, r) {
      var i: nat, k': nat :| ServedFrom(h, r, i, k', h', out);
      GlobalBestIsCandidate(h, l, r, i, k');
      g, k := h, k';
    } else {
      g, k := AddPage(h, ClassOf(r.size), supply.page, supply.base), 0;
    }
    var ps := g.pages[out.page];
    UnitsHoldBytes(r.size);
    DeltaAligns(ps.base, ps.blocks[k].start, r);
    if r.align != 0 {
      AlignedBytes(ps.base, out.at, r);
    }
    if LiveAt(h, q, e, a) {
      assert LiveAt(h', q, e, a);
      var n := |h'.pages[out.page].live| - 1;
      if q == out.page && Block(out.at, r.Units()).Contains(a - h'.pages[q].base) {
        assert LiveAt(h', out.page, n, a);
        LiveAllocationsDisjoint(h', q, e, out.page, n, a);
      }
    }
  }

  lemma SupplyIsNew<P>(h: Heap<P>, supply: NewPage<P>)
    requires Acceptable(h, supply)
    ensures supply.APage? ==> supply.page !in h.pages
  {}

  /** A request is refused only when no block of its class fits; a fresh page serves it iff head and units fit in a page. */
  lemma NewPageIffNothingFits<P>(h: Heap<P>, r: Request, page: P, base: nat, h': Heap<P>, out: Outcome<P>)
    requires HeapInv(h) && Acceptable(h, APage(page, base)) && r.size >= 1
    requires AllocStep(h, r, APage(page, base), h', out)
    ensures page in h'.pages <==> !SomeFits(h, h.lists.Of(ClassOf(r.size)), r)
    ensures out == Bug <==> page in h'.pages && r.Units() + Delta(base, 0, r) > PAGE_UNITS
    ensures out != Null
  {
    hide PageInv, WellFormed, Delta, IsGlobalBest, HeapInv;
    var l := h.lists.Of(ClassOf(r.size));
    if SomeFits(h, l, r) {
      var i: nat, k: nat :| ServedFrom(h, r, i, k, h', out);
      GlobalBestIsCandidate(h, l, r, i, k);
    }
  }

  // ------------------------------------------------------------------- runs

  datatype Event<+P> =
    | Alloc(r: Request, supply: NewPage<P>, out: Outcome<P>)
    | Free(page: P, e: nat, c: SizeClass, blocks: seq<Block>)

  ghost predicate StepBy<P>(h: Heap<P>, event: Event<P>, h': Heap<P>) {
    match event
    case Alloc(r, supply, out) => r.Valid() && Acceptable(h, supply) && AllocStep(h, r, supply, h', out)
    case Free(p, e, c, blocks) => FreeStep(h, p, e, c, blocks, h')
  }

  /** The heap starts without pages; event `i` leads from state `i` to state `i + 1`. */
  ghost predicate Run<P>(states: seq<Heap<P>>, events: seq<Event<P>>) {
    && |states| == |events| + 1
    && states[0] == EmptyHeap()
    && forall i | 0 <= i < |events| :: StepBy(states[i], events[i], states[i + 1])
  }

  lemma StepKeepsHeapInv<P>(h: Heap<P>, event: Event<P>, h': Heap<P>)
    requires HeapInv(h) && StepBy(h, event, h')
    ensures HeapInv(h')
  {
    hide HeapInv, Acceptable, AllocStep, FreeStep;
    match event
    case Alloc(r, supply, out) => AllocKeepsHeapInv(h, r, supply, h', out);
    case Free(p, e, c, blocks) => FreeKeepsHeapInv(h, p, e, c, blocks, h');
  }

  /** In every state of every run the heap is consistent and no memory is lost or counted twice. */
  lemma {:induction false} RunsKeepHeapInv<P>(states: seq<Heap<P>>, events: seq<Event<P>>, n: nat)
    requires Run(states, events) && n < |states|
    ensures HeapInv(states[n]) && Listed(states[n])
    ensures CalcFreeSpace(states[n]) + SumSet(states[n].pages.Keys, LiveUnits(states[n])) == PAGE_UNITS * |states[n].pages|
  {
    hide HeapInv, StepBy, CalcFreeSpace;
    if n == 0 {
      EmptyHeapInv<P>();
    } else {
      RunsKeepHeapInv(states, events, n - 1);
      StepKeepsHeapInv(states[n - 1], events[n - 1], states[n]);
    }
    HeapConserves(states[n]);
  }
}
