/**
 The whole SLOB heap as a value: the three size-class lists and, for every slab page, its free
 list and the extents handed out from it. Pages are identified by values of type P.
 */
module SlobHeap {
  import opened SlobBlocks

  datatype SizeClass = Small | Medium | Large

  const SLOB_BREAK1: nat := 256
  const SLOB_BREAK2: nat := 1024

  function ClassOf(size: nat): SizeClass {
    if size < SLOB_BREAK1 then Small else if size < SLOB_BREAK2 then Medium else Large
  }

  // ------------------------------------------------------------ page lists

  ghost predicate NoDuplicates<P>(l: seq<P>) {
    forall i, j | 0 <= i < j < |l| :: l[i] != l[j]
  }

  ghost function Elements<P>(l: seq<P>): set<P> {
    set p | p in l
  }

  /** list_del */
  function Remove<P(==)>(l: seq<P>, p: P): seq<P> {
    if l == [] then [] else if l[0] == p then l[1..] else [l[0]] + Remove(l[1..], p)
  }

  lemma {:induction false} RemoveElements<P>(l: seq<P>, p: P)
    requires NoDuplicates(l)
    ensures NoDuplicates(Remove(l, p))
    ensures forall q | q in Remove(l, p) :: q in l && q != p
    ensures forall q | q in l && q != p :: q in Remove(l, p)
  {
    if l != [] {
      RemoveElements(l[1..], p);
      assert l == [l[0]] + l[1..];
      assert l[0] !in l[1..];
    }
  }

  /** The others stay in order. */
  lemma {:induction false} RemoveKeepsOrder<P>(l: seq<P>, i: nat)
    requires NoDuplicates(l) && i < |l|
    ensures Remove(l, l[i]) == l[..i] + l[i + 1..]
  {
    if i > 0 {
      RemoveKeepsOrder(l[1..], i - 1);
      assert l[1..][..i - 1] == l[1..i] && l[1..][i..] == l[i + 1..];
      assert l[..i] == [l[0]] + l[1..i];
    }
  }

  lemma {:induction false} RemoveAbsent<P>(l: seq<P>, p: P)
    requires p !in l
    ensures Remove(l, p) == l
  {
    if l != [] {
      assert l == [l[0]] + l[1..];
      RemoveAbsent(l[1..], p);
    }
  }

  datatype Lists<P> = Lists(small: seq<P>, medium: seq<P>, large: seq<P>) {

    function Of(c: SizeClass): seq<P> {
      match c case Small => small case Medium => medium case Large => large
    }

    function With(c: SizeClass, l: seq<P>): Lists<P> {
      match c
      case Small => this.(small := l)
      case Medium => this.(medium := l)
      case Large => this.(large := l)
    }

    /** Every page is on at most one list, and at most once. */
    ghost predicate Disjoint() {
      && NoDuplicates(small) && NoDuplicates(medium) && NoDuplicates(large)
      && (forall p | p in small :: p !in medium && p !in large)
      && (forall p | p in medium :: p !in large)
    }

    ghost function Members(): set<P> {
      Elements(small) + Elements(medium) + Elements(large)
    }
  }

  /** Taking a page off its list. */
  ghost function Unlist<P>(l: Lists<P>, p: P): Lists<P> {
    Lists(Remove(l.small, p), Remove(l.medium, p), Remove(l.large, p))
  }

  lemma UnlistElements<P>(l: Lists<P>, p: P)
    requires l.Disjoint()
    ensures Unlist(l, p).Disjoint()
    ensures Unlist(l, p).Members() == l.Members() - {p}
  {
    RemoveElements(l.small, p);
    RemoveElements(l.medium, p);
    RemoveElements(l.large, p);
  }

  /** A page that is on the list of class `c` only has to be taken off that one. */
  lemma UnlistOwnClass<P>(l: Lists<P>, c: SizeClass, p: P)
    requires l.Disjoint() && p in l.Of(c)
    ensures Unlist(l, p) == l.With(c, Remove(l.Of(c), p))
  {
    if p !in l.small { RemoveAbsent(l.small, p); }
    if p !in l.medium { RemoveAbsent(l.medium, p); }
    if p !in l.large { RemoveAbsent(l.large, p); }
  }

  /** Putting a page that is on no list at the front of one. */
  ghost function Enlist<P>(l: Lists<P>, c: SizeClass, p: P): Lists<P> {
    l.With(c, [p] + l.Of(c))
  }

  lemma EnlistElements<P>(l: Lists<P>, c: SizeClass, p: P)
    requires l.Disjoint() && p !in l.Members()
    ensures Enlist(l, c, p).Disjoint()
    ensures Enlist(l, c, p).Members() == l.Members() + {p}
  {
    assert Elements([p] + l.Of(c)) == Elements(l.Of(c)) + {p};
  }

  // ---------------------------------------------------------------- pages

  datatype PageState = PageState(base: nat, blocks: seq<Block>, live: seq<Block>)

  /** Extents inside the page, none overlapping another. */
  ghost predicate LiveApart(live: seq<Block>) {
    && (forall i | 0 <= i < |live| :: live[i].size >= 1 && live[i].End() <= PAGE_UNITS)
    && (forall i, j, u: nat | 0 <= i < j < |live| :: !(live[i].Contains(u) && live[j].Contains(u)))
  }

  /** Every unit of the page is either free or part of exactly one live extent. */
  ghost predicate PageInv(ps: PageState) {
    && ps.base % PAGE_UNITS == 0
    && WellFormed(ps.blocks)
    && LiveApart(ps.live)
    && forall u: nat | u < PAGE_UNITS :: Covered(ps.blocks, u) != Covered(ps.live, u)
  }

  /** Free units and live units add up to the page. */
  lemma PageConserves(ps: PageState)
    requires PageInv(ps)
    ensures Sum(ps.blocks) + Sum(ps.live) == PAGE_UNITS
  {
    UnitCount(ps.blocks);
    UnitCount(ps.live);
    var whole := Block(0, PAGE_UNITS);
    RangeCount(whole);
    assert UnitSet(ps.blocks) + UnitSet(ps.live) == Range(whole);
    assert UnitSet(ps.blocks) !! UnitSet(ps.live);
  }

  /** The page after the request has been carved out of block `k`. */
  ghost function TakeFrom(ps: PageState, k: nat, r: Request): PageState
    requires k < |ps.blocks| && Fits(ps.base, ps.blocks[k], r)
  {
    var delta := Delta(ps.base, ps.blocks[k].start, r);
    PageState(ps.base,
              Carve(ps.blocks, k, delta, r.Units()),
              ps.live + [Taken(ps.blocks, k, delta, r.Units())])
  }

  lemma TakeKeepsPageInv(ps: PageState, k: nat, r: Request)
    requires PageInv(ps) && r.size >= 1
    requires k < |ps.blocks| && Fits(ps.base, ps.blocks[k], r)
    ensures PageInv(TakeFrom(ps, k, r))
  {
    hide Delta, WellFormed, Carve;
    var delta := Delta(ps.base, ps.blocks[k].start, r);
    var b := Taken(ps.blocks, k, delta, r.Units());
    CarveWellFormed(ps.blocks, k, delta, r.Units());
    BlockInside(ps.blocks, k);
    forall u: nat ensures b.Contains(u) ==> Covered(ps.blocks, u) {
      assert b.Contains(u) ==> ps.blocks[k].Contains(u);
    }
    forall i, u: nat | 0 <= i < |ps.live| && b.Contains(u) ensures !ps.live[i].Contains(u) {
      assert !Covered(ps.live, u);
    }
    forall u: nat
      ensures Covered(TakeFrom(ps, k, r).blocks, u) <==> Covered(ps.blocks, u) && !b.Contains(u)
      ensures Covered(TakeFrom(ps, k, r).live, u) <==> Covered(ps.live, u) || b.Contains(u)
    {
      CarveCovers(ps.blocks, k, delta, r.Units(), u);
      CoveredConcat(ps.live, [b], u);
      assert b.Contains(u) ==> [b][0].Contains(u);
    }
  }

  lemma BlockInside(blocks: seq<Block>, k: nat)
    requires WellFormed(blocks) && k < |blocks|
    ensures blocks[k].size >= 1 && blocks[k].End() <= PAGE_UNITS
  {}

  // ------------------------------------------------------------- the heap

  datatype Heap<P> = Heap(lists: Lists<P>, pages: map<P, PageState>)

  /** The pages that have free units. */
  ghost function Partial<P>(h: Heap<P>): set<P> {
    set p | p in h.pages && h.pages[p].blocks != []
  }

  /**
   Every page is consistent, pages do not overlap in memory, and a page is on exactly one
   size-class list if it has free units and on none if it has not.
   */
  ghost predicate HeapInv<P>(h: Heap<P>) {
    && h.lists.Disjoint()
    && h.lists.Members() == Partial(h)
    && (forall p | p in h.pages :: PageInv(h.pages[p]))
    && (forall p, q | p in h.pages && q in h.pages && p != q :: h.pages[p].base != h.pages[q].base)
  }

  ghost function EmptyHeap<P>(): Heap<P> {
    Heap(Lists([], [], []), map[])
  }

  lemma EmptyHeapInv<P>()
    ensures HeapInv(EmptyHeap<P>())
  {
    assert EmptyHeap<P>().lists.Members() == {};
  }

  // ------------------------------------------------------- the best-fit choice

  /** Block `k` of page number `i` of list `l` can serve the request. */
  ghost predicate Candidates<P>(h: Heap<P>, l: seq<P>, r: Request, i: nat, k: nat) {
    && i < |l| && l[i] in h.pages
    && k < |h.pages[l[i]].blocks|
    && Fits(h.pages[l[i]].base, h.pages[l[i]].blocks[k], r)
  }

  ghost predicate SomeFits<P>(h: Heap<P>, l: seq<P>, r: Request) {
    exists i: nat, k: nat :: Candidates(h, l, r, i, k)
  }

  ghost function Leaves<P>(h: Heap<P>, l: seq<P>, r: Request, i: nat, k: nat): int
    requires Candidates(h, l, r, i, k)
  {
    Remainder(h.pages[l[i]].base, h.pages[l[i]].blocks[k], r)
  }

  /**
   The least remainder over every block of every page of the list, pages that the scan never looks at
   included; among equals the first page in list order, and on it the lowest address.
   */
  ghost predicate IsGlobalBest<P>(h: Heap<P>, l: seq<P>, r: Request, i: nat, k: nat) {
    && Candidates(h, l, r, i, k)
    && (forall j: nat, m: nat | Candidates(h, l, r, j, m) ::
          Leaves(h, l, r, i, k) <= Leaves(h, l, r, j, m))
    && (forall j: nat, m: nat | Candidates(h, l, r, j, m) && (j < i || (j == i && m < k)) ::
          Leaves(h, l, r, i, k) < Leaves(h, l, r, j, m))
  }

  /** On its own page the global best is the page's best block, so both scans agree. */
  lemma GlobalBestIsPageBest<P>(h: Heap<P>, l: seq<P>, r: Request, i: nat, k: nat)
    requires IsGlobalBest(h, l, r, i, k)
    ensures IsBest(h.pages[l[i]].base, h.pages[l[i]].blocks, r, k)
  {
    hide Fits, Remainder;
    var ps := h.pages[l[i]];
    forall j: nat | j < |ps.blocks| && Fits(ps.base, ps.blocks[j], r)
      ensures Remainder(ps.base, ps.blocks[k], r) <= Remainder(ps.base, ps.blocks[j], r)
      ensures j < k ==> Remainder(ps.base, ps.blocks[k], r) < Remainder(ps.base, ps.blocks[j], r)
    {
      assert Candidates(h, l, r, i, j);
      assert Leaves(h, l, r, i, k) <= Leaves(h, l, r, i, j);
    }
  }

  /** The best block of the list leaves the fewest units behind its extent, strictly fewer than any that comes before it. */
  lemma GlobalBestLeavesLeast<P>(h: Heap<P>, l: seq<P>, r: Request, i: nat, k: nat, j: nat, m: nat)
    requires IsGlobalBest(h, l, r, i, k) && Candidates(h, l, r, j, m)
    ensures var b, c := h.pages[l[i]].blocks[k], h.pages[l[j]].blocks[m];
            var best, other := Extent(h, l[i], k, r), Extent(h, l[j], m, r);
            && best.End() <= b.End()
            && b.End() - best.End() <= c.End() - other.End()
            && (j < i || (j == i && m < k) ==> b.End() - best.End() < c.End() - other.End())
  {
    hide Delta;
    assert Leaves(h, l, r, i, k) <= Leaves(h, l, r, j, m);
  }

  lemma GlobalBestIsUnique<P>(h: Heap<P>, l: seq<P>, r: Request, i: nat, k: nat, j: nat, m: nat)
    requires IsGlobalBest(h, l, r, i, k) && IsGlobalBest(h, l, r, j, m)
    ensures i == j && k == m
  {
    assert Leaves(h, l, r, i, k) == Leaves(h, l, r, j, m);
  }

  /** The running minimum of slob_alloc after the first `n` pages of the list. */
  ghost function RunningPages<P>(h: Heap<P>, l: seq<P>, r: Request, n: nat): Candidate
    requires n <= |l| && forall p | p in l :: p in h.pages
  {
    if n == 0 then Nothing
    else
      var ps := h.pages[l[n - 1]];
      Running(RunningPages(h, l, r, n - 1), n - 1, ps.base, ps.blocks, r, |ps.blocks|)
  }

  /** A page whose free units are fewer than requested holds no candidate: skipping it changes nothing. */
  lemma SkipIsSound(c: Candidate, page: nat, base: nat, blocks: seq<Block>, r: Request, n: nat)
    requires n <= |blocks| && Sum(blocks) < r.Units()
    ensures Running(c, page, base, blocks, r, n) == c
    ensures NoneFits(base, blocks, r, |blocks|)
  {
    forall j | 0 <= j < |blocks| ensures !Fits(base, blocks[j], r) {
      SumBoundsEach(blocks, j);
    }
    RunningIsBest(c, page, base, blocks, r, n);
  }

  /** Once an exact fit is recorded, the pages not looked at could not change the choice. */
  lemma {:induction false} ExactFitEndsScan<P>(h: Heap<P>, l: seq<P>, r: Request, n: nat, m: nat)
    requires n <= m <= |l| && forall p | p in l :: p in h.pages
    requires RunningPages(h, l, r, n).Best? && RunningPages(h, l, r, n).space == 0
    ensures RunningPages(h, l, r, m) == RunningPages(h, l, r, n)
  {
    if n < m {
      ExactFitEndsScan(h, l, r, n, m - 1);
      var ps := h.pages[l[m - 1]];
      ExactFitIsFinal(RunningPages(h, l, r, m - 1), m - 1, ps.base, ps.blocks, r, 0, |ps.blocks|);
    }
  }

  /** The scan's running minimum over all pages is the declared best fit. */
  lemma {:induction false} RunningPagesIsBest<P>(h: Heap<P>, l: seq<P>, r: Request, n: nat)
    requires n <= |l| && forall p | p in l :: p in h.pages
    ensures RunningPages(h, l, r, n) == Nothing <==> !SomeFits(h, l[..n], r)
    ensures var c := RunningPages(h, l, r, n);
            c.Best? ==> && IsGlobalBest(h, l[..n], r, c.page, c.k)
                        && c.space == Leaves(h, l[..n], r, c.page, c.k)
  {
    hide Fits, Remainder;
    if n > 0 {
      RunningPagesIsBest(h, l, r, n - 1);
      var ps, before := h.pages[l[n - 1]], RunningPages(h, l, r, n - 1);
      RunningIsBest(before, n - 1, ps.base, ps.blocks, r, |ps.blocks|);
      assert ps.blocks[..|ps.blocks|] == ps.blocks;
      forall j: nat, m: nat
        ensures j < n - 1 ==> (Candidates(h, l[..n], r, j, m) <==> Candidates(h, l[..n - 1], r, j, m))
        ensures j < n - 1 && Candidates(h, l[..n], r, j, m) ==> Leaves(h, l[..n], r, j, m) == Leaves(h, l[..n - 1], r, j, m)
        ensures Candidates(h, l[..n], r, n - 1, m) <==> m < |ps.blocks| && Fits(ps.base, ps.blocks[m], r)
      {
      }
      var c := RunningPages(h, l, r, n);
      if c.Best? {
        assert Candidates(h, l[..n], r, c.page, c.k);
      }
    }
  }

  // ------------------------------------------------------------------- steps

  /** What slob_alloc returns: null, the kernel's BUG_ON, or unit `at` of a page. */
  datatype Outcome<+P> = Null | Bug | Allocated(page: P, at: nat)

  /** A page that slob_new_pages delivers, if any. */
  datatype NewPage<+P> = NoPage | APage(page: P, base: nat)

  ghost predicate Acceptable<P>(h: Heap<P>, supply: NewPage<P>) {
    supply.APage? ==>
      && supply.page !in h.pages
      && supply.base % PAGE_UNITS == 0
      && forall p | p in h.pages :: h.pages[p].base != supply.base
  }

  const FreshBlocks: seq<Block> := [Block(0, PAGE_UNITS)]

  ghost function AddPage<P>(h: Heap<P>, c: SizeClass, page: P, base: nat): Heap<P> {
    Heap(Enlist(h.lists, c, page), h.pages[page := PageState(base, FreshBlocks, [])])
  }

  /** Carving the request out of block `k` of page `p`; a page left without free units leaves its list. */
  ghost function Take<P>(h: Heap<P>, p: P, k: nat, r: Request): Heap<P>
    requires p in h.pages && k < |h.pages[p].blocks| && Fits(h.pages[p].base, h.pages[p].blocks[k], r)
  {
    var ps := TakeFrom(h.pages[p], k, r);
    Heap(if ps.blocks == [] then Unlist(h.lists, p) else h.lists, h.pages[p := ps])
  }

  /** The extent that Take hands out. */
  ghost function Extent<P>(h: Heap<P>, p: P, k: nat, r: Request): Block
    requires p in h.pages && k < |h.pages[p].blocks|
  {
    var ps := h.pages[p];
    Taken(ps.blocks, k, Delta(ps.base, ps.blocks[k].start, r), r.Units())
  }

  /** slob_alloc serves the request from the global best block `k` of the `i`-th page of its class list. */
  ghost predicate ServedFrom<P>(h: Heap<P>, r: Request, i: nat, k: nat, h': Heap<P>, out: Outcome<P>) {
    var l := h.lists.Of(ClassOf(r.size));
    && IsGlobalBest(h, l, r, i, k)
    && h' == Take(h, l[i], k, r)
    && out == Allocated(l[i], Extent(h, l[i], k, r).start)
  }

  /** No block fits: slob_alloc asks for a page, puts it on the list and allocates from it, or fails. */
  ghost predicate ServedByNewPage<P>(h: Heap<P>, r: Request, supply: NewPage<P>, h': Heap<P>, out: Outcome<P>) {
    match supply
    case NoPage => h' == h && out == Null
    case APage(p, base) =>
      var g := AddPage(h, ClassOf(r.size), p, base);
      if Fits(base, FreshBlocks[0], r)
      then h' == Take(g, p, 0, r) && out == Allocated(p, Extent(g, p, 0, r).start)
      else h' == g && out == Bug
  }

  ghost predicate AllocStep<P>(h: Heap<P>, r: Request, supply: NewPage<P>, h': Heap<P>, out: Outcome<P>) {
    if SomeFits(h, h.lists.Of(ClassOf(r.size)), r)
    then exists i: nat, k: nat :: ServedFrom(h, r, i, k, h', out)
    else ServedByNewPage(h, r, supply, h', out)
  }

  /** What is handed out is the last of the page's live extents, and holds the bytes asked for. */
  lemma AllocatedExtent<P>(h: Heap<P>, r: Request, supply: NewPage<P>, h': Heap<P>, out: Outcome<P>)
    requires AllocStep(h, r, supply, h', out) && out.Allocated?
    ensures out.page in h'.pages && h'.pages[out.page].live != []
    ensures var e := h'.pages[out.page].live[|h'.pages[out.page].live| - 1];
            e.start == out.at && r.size <= SLOB_UNIT * e.size < r.size + SLOB_UNIT
  {
    hide Delta, IsGlobalBest, Fits;
    UnitsHoldBytes(r.size);
    var l := h.lists.Of(ClassOf(r.size));
    if SomeFits(h, l, r) {
      var i: nat, k: nat :| ServedFrom(h, r, i, k, h', out);
      GlobalBestIsCandidate(h, l, r, i, k);
    }
  }

  lemma TakeKeepsHeapInv<P>(h: Heap<P>, p: P, k: nat, r: Request)
    requires HeapInv(h) && r.size >= 1
    requires p in h.pages && k < |h.pages[p].blocks| && Fits(h.pages[p].base, h.pages[p].blocks[k], r)
    ensures HeapInv(Take(h, p, k, r))
  {
    hide PageInv, TakeFrom, Fits, Unlist;
    TakeKeepsPageInv(h.pages[p], k, r);
    TakeKeepsBase(h.pages[p], k, r);
    UnlistElements(h.lists, p);
    var h' := Take(h, p, k, r);
    assert p in Partial(h);
    assert Partial(h') == if h'.pages[p].blocks == [] then Partial(h) - {p} else Partial(h);
  }

  lemma TakeKeepsBase(ps: PageState, k: nat, r: Request)
    requires k < |ps.blocks| && Fits(ps.base, ps.blocks[k], r)
    ensures TakeFrom(ps, k, r).base == ps.base
  {}

  lemma AddPageKeepsHeapInv<P>(h: Heap<P>, c: SizeClass, page: P, base: nat)
    requires HeapInv(h) && Acceptable(h, APage(page, base))
    ensures HeapInv(AddPage(h, c, page, base))
  {
    hide PageInv, Enlist;
    EnlistElements(h.lists, c, page);
    FreshPageInv(base);
    assert Partial(AddPage(h, c, page, base)) == Partial(h) + {page};
  }

  lemma FreshPageInv(base: nat)
    requires base % PAGE_UNITS == 0
    ensures PageInv(PageState(base, FreshBlocks, []))
  {
    assert forall u: nat | u < PAGE_UNITS :: FreshBlocks[0].Contains(u);
  }

  /** Every slob_alloc keeps the heap consistent, however it was served. */
  lemma AllocKeepsHeapInv<P>(h: Heap<P>, r: Request, supply: NewPage<P>, h': Heap<P>, out: Outcome<P>)
    requires HeapInv(h) && Acceptable(h, supply) && r.size >= 1
    requires AllocStep(h, r, supply, h', out)
    ensures HeapInv(h')
  {
    hide HeapInv, Fits, PageInv, IsGlobalBest, Acceptable;
    var l := h.lists.Of(ClassOf(r.size));
    if SomeFits(h, l, r) {
      var i: nat, k: nat :| ServedFrom(h, r, i, k, h', out);
      GlobalBestIsCandidate(h, l, r, i, k);
      TakeKeepsHeapInv(h, l[i], k, r);
    } else if supply.APage? {
      AddPageKeepsHeapInv(h, ClassOf(r.size), supply.page, supply.base);
      if Fits(supply.base, FreshBlocks[0], r) {
        TakeKeepsHeapInv(AddPage(h, ClassOf(r.size), supply.page, supply.base), supply.page, 0, r);
      }
    }
  }

  lemma GlobalBestIsCandidate<P>(h: Heap<P>, l: seq<P>, r: Request, i: nat, k: nat)
    requires IsGlobalBest(h, l, r, i, k)
    ensures Candidates(h, l, r, i, k)
  {}
}
