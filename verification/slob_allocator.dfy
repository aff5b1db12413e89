/**
 Best-fit slob_alloc over the three size-class lists of pages, with the free-space counter. The heap
 that the pages make up is Abs(); slob_alloc performs an AllocStep on it.
 */
module SlobAllocator {
  import opened Wrappers
  import opened Sums
  import opened SlobBlocks
  import opened SlobMemory
  import opened SlobPages
  import opened SlobHeap
  import opened SlobAccounting

  class Allocator {
    var free: Lists<Page>       // free_slob_small, free_slob_medium, free_slob_large
    var totalFreeSpace: int
    ghost var pages: set<Page>  // every slab page

    ghost function Abs(): Heap<Page>
      reads this`free, this`pages, pages
    {
      Heap(free, map p | p in pages :: PageState(p.base, p.blocks, p.live))
    }

    ghost predicate PagesValid()
      reads this`pages, pages, set p | p in pages :: p.mem
    {
      && (forall p | p in pages :: p.Valid() && p.slobFree == (p.blocks != []))
      && (forall p, q | p in pages && q in pages && p != q :: p.mem != q.mem)
    }

    ghost predicate Valid()
      reads this`free, this`pages, pages, set p | p in pages :: p.mem
    {
      PagesValid() && HeapInv(Abs())
    }

    constructor ()
      ensures Valid() && Abs() == EmptyHeap() && totalFreeSpace == 0
    {
      free := Lists([], [], []);
      totalFreeSpace := 0;
      pages := {};
      new;
      EmptyHeapInv<Page>();
    }

    // ------------------------------------------------------ counting free space

    lemma ListedPage(c: SizeClass, n: nat)
      requires Valid() && n < |free.Of(c)|
      ensures var p := free.Of(c)[n];
              && p in pages && p.Valid() && p.blocks != []
              && Abs().pages[p] == PageState(p.base, p.blocks, p.live)
    {
      hide HeapInv;
      HeapInvLists(Abs(), c);
      assert free.Of(c)[n] in free.Of(c);
    }

    /** One list_for_each_entry of calcFreeSpace. */
    method CountList(c: SizeClass, spaceCount: int) returns (total: int)
      requires Valid()
      ensures Listed(Abs()) && total == spaceCount + UnitsOn(Abs(), free.Of(c))
    {
      hide HeapInv, PagesValid;
      var l := free.Of(c);
      ghost var h := Abs();
      HeapInvLists(h, c);
      total := spaceCount;
      for i := 0 to |l|
        invariant total == spaceCount + UnitsOn(h, l[..i])
      {
        ListedPage(c, i);
        total := total + l[i].units;
        UnitsOnSnoc(h, l[..i], l[i]);
        assert l[..i] + [l[i]] == l[..i + 1];
      }
      assert l[..|l|] == l;
    }

    method CalcFree() returns (spaceCount: int)
      requires Valid()
      ensures Listed(Abs()) && spaceCount == CalcFreeSpace(Abs())
    {
      hide HeapInv, PagesValid, UnitsOn;
      spaceCount := CountList(Small, 0);
      spaceCount := CountList(Medium, spaceCount);
      spaceCount := CountList(Large, spaceCount);
    }

    // ------------------------------------------------------------- scanning

    /** The scan's variables say what the running minimum says. */
    ghost predicate Records(c: Candidate, l: seq<Page>, bestPage: Page?, bestBlockSpace: int) {
      match c
      case Nothing => bestPage == null && bestBlockSpace == -1
      case Best(i, k, space) => i < |l| && bestPage == l[i] && bestBlockSpace == space
    }

    /** The inner loop: the blocks of page number `n`, stopping at an exact fit. */
    method ScanPage(r: Request, l: seq<Page>, n: nat, page: Page?, space: int, ghost c: Candidate)
      returns (bestPage: Page?, bestBlockSpace: int)
      requires n < |l| && l[n].Valid() && l[n].blocks != []
      requires Records(c, l, page, space) && space != 0
      ensures Records(Running(c, n, l[n].base, l[n].blocks, r, |l[n].blocks|), l, bestPage, bestBlockSpace)
    {
      hide Delta, WellFormed, Chain;
      var sp := l[n];
      var cur := sp.freelist;
      bestPage, bestBlockSpace := page, space;
      ghost var i := 0;
      while true
        invariant i < |sp.blocks| && cur == sp.blocks[i].start
        invariant Records(Running(c, n, sp.base, sp.blocks, r, i), l, bestPage, bestBlockSpace)
        invariant bestBlockSpace != 0
        decreases |sp.blocks| - i
      {
        sp.BlockAt(i);
        var avail := sp.SlobUnitsAt(cur);
        var delta := Delta(sp.base, cur, r);
        if avail >= r.Units() + delta {
          if bestBlockSpace == -1 || avail - (r.Units() + delta) < bestBlockSpace {
            bestBlockSpace := avail - (r.Units() + delta);
            bestPage := sp;
            if avail - (r.Units() + delta) == 0 {
              break;
            }
          }
        }
        if sp.SlobLast(cur) {
          break;
        }
        cur := sp.SlobNext(cur);
        i := i + 1;
      }
      if bestBlockSpace == 0 {
        ExactFitIsFinal(c, n, sp.base, sp.blocks, r, i + 1, |sp.blocks|);
      }
    }

    /** The outer loop: the page that holds the best-fit block of the whole list, null if no block fits. */
    method ScanPages(r: Request) returns (bestPage: Page?, ghost i: nat, ghost k: nat)
      requires Valid() && r.size >= 1
      ensures bestPage == null <==> !SomeFits(Abs(), free.Of(ClassOf(r.size)), r)
      ensures bestPage != null ==> bestPage in free.Of(ClassOf(r.size)) && bestPage in pages
      ensures bestPage != null ==>
                IsGlobalBest(Abs(), free.Of(ClassOf(r.size)), r, i, k) && bestPage == free.Of(ClassOf(r.size))[i]
    {
      hide HeapInv, PagesValid, Delta, WellFormed, Chain, IsGlobalBest, SomeFits, Running;
      var l := free.Of(ClassOf(r.size));
      ghost var h := Abs();
      HeapInvLists(h, ClassOf(r.size));
      var bestBlockSpace := -1;
      bestPage := null;
      var n := 0;
      while n < |l|
        invariant n <= |l|
        invariant Records(RunningPages(h, l, r, n), l, bestPage, bestBlockSpace)
        invariant bestBlockSpace != 0
      {
        ListedPage(ClassOf(r.size), n);
        var sp := l[n];
        if sp.units < r.Units() {
          SkipIsSound(RunningPages(h, l, r, n), n, sp.base, sp.blocks, r, |sp.blocks|);
        } else {
          bestPage, bestBlockSpace := ScanPage(r, l, n, bestPage, bestBlockSpace, RunningPages(h, l, r, n));
          if bestBlockSpace == 0 {
            ExactFitEndsScan(h, l, r, n + 1, |l|);
            break;
          }
        }
        n := n + 1;
      }
      i, k := RecordedBest(l, r, bestPage, bestBlockSpace);
    }

    /** What the scan has recorded at the end is the best of the list. */
    lemma RecordedBest(l: seq<Page>, r: Request, bestPage: Page?, bestBlockSpace: int) returns (i: nat, k: nat)
      requires Valid() && l == free.Of(ClassOf(r.size)) && forall p | p in l :: p in Abs().pages
      requires Records(RunningPages(Abs(), l, r, |l|), l, bestPage, bestBlockSpace)
      ensures bestPage == null <==> !SomeFits(Abs(), l, r)
      ensures bestPage != null ==> bestPage in l && bestPage in pages
      ensures bestPage != null ==> IsGlobalBest(Abs(), l, r, i, k) && bestPage == l[i]
    {
      hide HeapInv, PagesValid, IsGlobalBest, SomeFits, Running, RunningPages;
      RunningPagesIsBest(Abs(), l, r, |l|);
      assert l[..|l|] == l;
      var c := RunningPages(Abs(), l, r, |l|);
      i, k := if c.Best? then c.page else 0, if c.Best? then c.k else 0;
      if bestPage != null {
        ListedPage(ClassOf(r.size), i);
      }
    }

    // ------------------------------------------------------------ allocating

    /** Every unit that was not free before still holds what it held. */
    twostate predicate LiveMemoryKept(was: set<Page>)
      reads was, set p | p in was :: p.mem
    {
      forall p, u: nat | p in was && u < p.mem.Length && u < PAGE_UNITS && !Covered(old(p.blocks), u) ::
        p.mem[u] == old(p.mem[u])
    }

    lemma PageIsValid(sp: Page)
      requires PagesValid() && sp in pages
      ensures sp.Valid() && sp.slobFree == (sp.blocks != [])
    {}

    twostate lemma OnlyOnePageChanged(sp: Page)
      requires old(PagesValid()) && pages == old(pages) && sp in pages
      requires sp.Valid() && sp.slobFree == (sp.blocks != [])
      requires forall p | p in pages && p != sp :: old(allocated(p)) && unchanged(p) && (p.mem != sp.mem ==> unchanged(p.mem))
      requires forall u: nat | u < PAGE_UNITS && !Covered(old(sp.blocks), u) :: sp.mem[u] == old(sp.mem[u])
      ensures PagesValid() && LiveMemoryKept(pages)
    {
      hide Page.Linked, Covered;
    }

    /** slob_page_alloc on a page of the list of class `c`, with the list and the heap kept in step. */
    method AllocFrom(c: SizeClass, sp: Page, r: Request) returns (b: Option<nat>, ghost k: nat)
      requires Valid() && sp in free.Of(c) && r.size >= 1
      modifies this`free, sp, sp.mem
      ensures Valid() && LiveMemoryKept(pages)
      ensures b == None ==> NoneFits(sp.base, old(sp.blocks), r, |old(sp.blocks)|) && Abs() == old(Abs())
      ensures b.Some? ==>
                && IsBest(sp.base, old(sp.blocks), r, k)
                && old(sp in pages) && Abs() == Take(old(Abs()), sp, k, r)
                && b.value == Extent(old(Abs()), sp, k, r).start
    {
      hide HeapInv, PagesValid, LiveMemoryKept, IsBest, NoneFits, Delta, Carve, Fits, Unlist, Covered;
      hide Page.Linked, Remove, SlobUnits, Sum;
      ghost var h := Abs();
      HeapInvLists(h, c);
      PageIsValid(sp);
      var removed;
      b, removed, k := SlobPageAlloc(sp, r);
      OnlyOnePageChanged(sp);
      if removed {
        UnlistOwnClass(free, c, sp);
        free := free.With(c, Remove(free.Of(c), sp));
      }
      if b.Some? {
        BestFits(sp.base, old(sp.blocks), r, k);
        TakeKeepsHeapInv(h, sp, k, r);
        assert Abs().pages == Take(h, sp, k, r).pages;
      } else {
        assert Abs() == h;
      }
    }

    /** The page that slob_new_pages delivered, initialised and put at the front of its class list. */
    method NewSlabPage(c: SizeClass, base: nat) returns (sp: Page)
      requires Valid() && base % PAGE_UNITS == 0 && forall p | p in pages :: p.base != base
      modifies this`free, this`pages
      ensures fresh(sp) && fresh(sp.mem) && sp.base == base && pages == old(pages) + {sp}
      ensures Valid() && Abs() == AddPage(old(Abs()), c, sp, base)
      ensures sp.blocks == FreshBlocks && sp in free.Of(c)
      ensures Acceptable(old(Abs()), APage(sp, base))
    {
      hide HeapInv, Page.Valid;
      ghost var h := Abs();
      sp := new Page(base);
      sp.slobFree := true;
      free := free.With(c, [sp] + free.Of(c));
      pages := pages + {sp};
      AddPageKeepsHeapInv(h, c, sp, base);
      assert Abs().pages == AddPage(h, c, sp, base).pages;
    }

    /** Not enough space: a new page, and the allocation from it, which must succeed. */
    method AllocFromNewPage(c: SizeClass, base: nat, r: Request) returns (out: Outcome<Page>, ghost supply: NewPage<Page>)
      requires Valid() && r.size >= 1 && c == ClassOf(r.size)
      requires base % PAGE_UNITS == 0 && forall p | p in pages :: p.base != base
      modifies this`free, this`pages
      ensures Valid() && old(pages) <= pages && LiveMemoryKept(old(pages))
      ensures supply.APage? && supply.base == base && fresh(supply.page) && Acceptable(old(Abs()), supply)
      ensures ServedByNewPage(old(Abs()), r, supply, Abs(), out)
    {
      hide HeapInv, PagesValid, Take, AddPage, Delta, AllocStep;
      ghost var h := Abs();
      var sp := NewSlabPage(c, base);
      supply := APage(sp, base);
      ghost var k;
      var b;
      b, k := AllocFrom(c, sp, r);
      out := if b == None then Bug else Allocated(sp, b.value);
    }

    /** slob_alloc up to the counter refresh. `frame` is the memory slob_new_pages can deliver, none when it fails. */
    method Serve(r: Request, frame: Option<nat>) returns (out: Outcome<Page>, ghost supply: NewPage<Page>)
      requires Valid() && r.size >= 1
      requires frame.Some? ==> frame.value % PAGE_UNITS == 0 && forall p | p in pages :: p.base != frame.value
      modifies this`free, this`pages, pages, set p | p in pages :: p.mem
      ensures Valid() && old(pages) <= pages && LiveMemoryKept(old(pages))
      ensures AllocStep(old(Abs()), r, supply, Abs(), out) && Acceptable(old(Abs()), supply)
      ensures supply.APage? ==> frame == Some(supply.base) && fresh(supply.page)
      ensures frame.Some? && !SomeFits(old(Abs()), old(free.Of(ClassOf(r.size))), r) ==> supply.APage?
    {
      hide HeapInv, PagesValid, IsGlobalBest, IsBest, NoneFits, Fits, Take, AllocStep, Candidates, ServedByNewPage, Covered;
      var c := ClassOf(r.size);
      ghost var h := Abs();
      var bestPage, b: Option<nat> := null, None;
      ghost var i, k, m;
      bestPage, i, k := ScanPages(r);
      out, supply := Null, NoPage;
      if bestPage != null {
        var sp: Page := bestPage;
        GlobalBestIsPageBest(h, free.Of(c), r, i, k);
        b, m := AllocFrom(c, sp, r);
        SamePageBest(sp.base, h.pages[sp].blocks, r, k, m);
        out := Allocated(sp, b.value);
        ServedIsStep(h, r, i, k, supply, Abs(), out);
      }
      if b == None {
        if frame == None {
          NoPageIsServed(h, r);
        } else {
          out, supply := AllocFromNewPage(c, frame.value, r);
        }
        NotServedIsStep(h, r, supply, Abs(), out);
      }
    }

    /** slob_alloc. The free-space counter is refreshed whenever memory is handed out. */
    method SlobAlloc(r: Request, frame: Option<nat>) returns (out: Outcome<Page>, ghost supply: NewPage<Page>)
      requires Valid() && r.size >= 1
      requires frame.Some? ==> frame.value % PAGE_UNITS == 0 && forall p | p in pages :: p.base != frame.value
      modifies this, pages, set p | p in pages :: p.mem
      ensures Valid() && old(pages) <= pages && LiveMemoryKept(old(pages))
      ensures AllocStep(old(Abs()), r, supply, Abs(), out) && Acceptable(old(Abs()), supply)
      ensures supply.APage? ==> frame == Some(supply.base) && fresh(supply.page)
      ensures frame.Some? && !SomeFits(old(Abs()), old(free.Of(ClassOf(r.size))), r) ==> supply.APage?
      ensures out.Allocated? ==>
                && Listed(Abs()) && totalFreeSpace == CalcFreeSpace(Abs())
                && totalFreeSpace + SumSet(Abs().pages.Keys, LiveUnits(Abs())) == PAGE_UNITS * |Abs().pages|
      ensures out.Allocated? ==>
                && out.page in pages && out.page.live != []
                && var e := out.page.live[|out.page.live| - 1];
                   e.start == out.at && r.size <= SLOB_UNIT * e.size < r.size + SLOB_UNIT
      ensures !out.Allocated? ==> totalFreeSpace == old(totalFreeSpace)
    {
      hide HeapInv, PagesValid, AllocStep, SomeFits, Acceptable, CalcFreeSpace, SumSet, LiveUnits, Covered;
      out, supply := Serve(r, frame);
      if out.Allocated? {
        AllocatedExtent(old(Abs()), r, supply, Abs(), out);
        totalFreeSpace := CalcFree();
        HeapConserves(Abs());
      }
    }
  }

  lemma BestFits(base: nat, blocks: seq<Block>, r: Request, k: nat)
    requires IsBest(base, blocks, r, k)
    ensures k < |blocks| && Fits(base, blocks[k], r)
  {}

  /** The block that slob_page_alloc finds is the one slob_alloc chose the page for, so it never finds none. */
  lemma SamePageBest(base: nat, blocks: seq<Block>, r: Request, k: nat, m: nat)
    requires IsBest(base, blocks, r, k)
    ensures !NoneFits(base, blocks, r, |blocks|)
    ensures IsBest(base, blocks, r, m) ==> m == k
  {
    hide Fits, Remainder;
    if IsBest(base, blocks, r, m) {
      BestIsUnique(base, blocks, r, k, m);
    }
  }

  lemma ServedIsStep<P>(h: Heap<P>, r: Request, i: nat, k: nat, supply: NewPage<P>, h': Heap<P>, out: Outcome<P>)
    requires ServedFrom(h, r, i, k, h', out)
    ensures AllocStep(h, r, supply, h', out)
    ensures SomeFits(h, h.lists.Of(ClassOf(r.size)), r)
  {
    GlobalBestIsCandidate(h, h.lists.Of(ClassOf(r.size)), r, i, k);
  }

  lemma NoPageIsServed<P>(h: Heap<P>, r: Request)
    ensures ServedByNewPage(h, r, NoPage, h, Null)
  {}

  lemma NotServedIsStep<P>(h: Heap<P>, r: Request, supply: NewPage<P>, h': Heap<P>, out: Outcome<P>)
    requires !SomeFits(h, h.lists.Of(ClassOf(r.size)), r)
    requires ServedByNewPage(h, r, supply, h', out)
    ensures AllocStep(h, r, supply, h', out)
  {}
}
