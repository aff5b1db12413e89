/**
 A SLOB page and best-fit slob_page_alloc. A pointer into the page is an offset in units.
 */
module SlobPages {
  import opened Wrappers
  import opened SlobBlocks
  import opened SlobMemory

  /** slobidx_t: a signed 16-bit integer. */
  type Slobidx = x: int | -0x8000 <= x < 0x8000

  /** The block before position `i`, null for the first. */
  ghost function Predecessor(blocks: seq<Block>, i: nat): Option<nat>
    requires i <= |blocks|
  {
    if i == 0 then None else Some(blocks[i - 1].start)
  }

  class Page {
    const base: nat               // number of the page's first unit in memory
    const mem: array<Slobidx>     // the page's memory, unit by unit
    var freelist: nat
    var units: int
    var slobFree: bool            // PG_slob_free: the page is on a size-class list
    ghost var blocks: seq<Block>  // the free list as a value
    ghost var live: seq<Block>    // the extents handed out and not freed

    /** A page fresh from the page allocator: one block, linking to the page end. */
    constructor (base: nat)
      requires base % PAGE_UNITS == 0
      ensures Valid() && fresh(mem) && this.base == base
      ensures blocks == [Block(0, PAGE_UNITS)] && live == [] && !slobFree
    {
      this.base := base;
      mem := new Slobidx[PAGE_UNITS];
      units := PAGE_UNITS;
      freelist := 0;
      slobFree := false;
      blocks := [Block(0, PAGE_UNITS)];
      live := [];
      new;
      SetSlob(0, PAGE_UNITS, PAGE_UNITS);
      assert blocks[1..] == [];
    }

    /** The free list stored in memory is `blocks`. */
    ghost predicate Linked()
      reads this`freelist, this`blocks, mem
    {
      && mem.Length == PAGE_UNITS && base % PAGE_UNITS == 0
      && WellFormed(blocks)
      && freelist == FirstStart(blocks, PAGE_UNITS)
      && Chain(mem[..], blocks, PAGE_UNITS)
    }

    ghost predicate Valid()
      reads this`freelist, this`units, this`blocks, mem
    {
      Linked() && units == Sum(blocks)
    }

    method SetSlob(s: nat, size: nat, next: nat)
      requires mem.Length == PAGE_UNITS
      requires size >= 1 && s + size <= PAGE_UNITS && 0 < next <= PAGE_UNITS
      modifies mem
      ensures mem[..] == Store(old(mem[..]), Block(s, size), next)
      ensures if size > 1 then mem[s] == size && mem[s + 1] == next else mem[s] == -(next as int)
      ensures forall u: nat | u < PAGE_UNITS && u != s && (size > 1 ==> u != s + 1) :: mem[u] == old(mem[u])
    {
      if size > 1 {
        mem[s], mem[s + 1] := size, next;
      } else {
        mem[s] := -(next as int);
      }
    }

    /** slob_units: a positive first unit is the size, otherwise the block is one unit long. */
    function SlobUnitsAt(s: nat): int
      requires mem.Length == PAGE_UNITS && s < PAGE_UNITS
      reads mem
    {
      if mem[s] > 0 then mem[s] else 1
    }

    /** slob_next: the link is in the first unit, negated, or in the second. */
    function SlobNext(s: nat): int
      requires mem.Length == PAGE_UNITS && s < PAGE_UNITS && (mem[s] >= 0 ==> s + 1 < PAGE_UNITS)
      reads mem
    {
      if mem[s] < 0 then -(mem[s] as int) else mem[s + 1]
    }

    /** slob_last: the link leads to a page boundary (the page itself starts at one). */
    predicate SlobLast(s: nat)
      requires mem.Length == PAGE_UNITS && s < PAGE_UNITS && (mem[s] >= 0 ==> s + 1 < PAGE_UNITS)
      reads mem
    {
      SlobNext(s) % PAGE_UNITS == 0
    }

    /** Reading a block of the list back gives its size, its link, and whether it is the last one. */
    lemma BlockAt(i: nat)
      requires Linked() && i < |blocks|
      ensures var s := blocks[i].start;
              && s < PAGE_UNITS && blocks[i].size >= 1 && blocks[i].End() <= PAGE_UNITS
              && 0 < LinkTo(blocks, i + 1) <= PAGE_UNITS
              && SlobUnitsAt(s) == blocks[i].size
              && (mem[s] >= 0 ==> s + 1 < PAGE_UNITS)
              && SlobNext(s) == LinkTo(blocks, i + 1)
              && (SlobLast(s) <==> i + 1 == |blocks|)
    {
      ChainAt(mem[..], blocks, i);
    }

    /** The scan's variables say what the running minimum over the first `n` blocks says. */
    ghost predicate Records(r: Request, n: nat, best: Option<nat>, prev: Option<nat>, space: int, k: nat)
      reads this
    {
      && n <= |blocks|
      && match Running(Nothing, 0, base, blocks, r, n)
         case Nothing => best == None && space == -1
         case Best(_, j, left) =>
           j == k < |blocks| && space == left && best == Some(blocks[k].start) && prev == Predecessor(blocks, k)
    }

    /** Best fit over all blocks of this page; stops at an exact fit. */
    method FindBest(r: Request) returns (bestBlock: Option<nat>, prevFromBestBlock: Option<nat>, ghost k: nat)
      requires Valid() && blocks != []
      ensures bestBlock == None ==> NoneFits(base, blocks, r, |blocks|)
      ensures bestBlock.Some? ==>
                && IsBest(base, blocks, r, k)
                && bestBlock.value == blocks[k].start
                && prevFromBestBlock == Predecessor(blocks, k)
    {
      hide Delta, WellFormed, Chain, IsBest, NoneFits, NoneBeats;
      var bestBlockSpace := -1;
      var prev, cur := None, freelist;
      bestBlock, prevFromBestBlock, k := None, None, 0;
      ghost var i := 0;
      while true
        invariant i < |blocks| && cur == blocks[i].start && prev == Predecessor(blocks, i)
        invariant Records(r, i, bestBlock, prevFromBestBlock, bestBlockSpace, k)
        invariant bestBlockSpace != 0
        decreases |blocks| - i
      {
        BlockAt(i);
        var avail := SlobUnitsAt(cur);
        var delta := Delta(base, cur, r);
        if avail >= r.Units() + delta {
          if bestBlockSpace == -1 || avail - (r.Units() + delta) < bestBlockSpace {
            bestBlock, prevFromBestBlock, k := Some(cur), prev, i;
            bestBlockSpace := avail - (r.Units() + delta);
            if avail - (r.Units() + delta) == 0 {
              break;
            }
          }
        }
        if SlobLast(cur) {
          break;
        }
        prev, cur := Some(cur), SlobNext(cur);
        i := i + 1;
      }
      if bestBlockSpace == 0 {
        ExactFitIsFinal(Nothing, 0, base, blocks, r, i + 1, |blocks|);
      }
      RunningIsBest(Nothing, 0, base, blocks, r, |blocks|);
      NoneBeatsNothing(base, blocks, r);
      assert blocks[..|blocks|] == blocks;
    }

    /** Fragments the head of block `k` so that the rest starts aligned. */
    method SplitHead(best: nat, delta: nat, ghost k: nat)
      requires Linked() && k < |blocks| && best == blocks[k].start && 0 < delta < blocks[k].size
      modifies mem, this`blocks
      ensures Linked() && blocks == SplitAt(old(blocks), k, delta)
      ensures mem[..] == AfterSplit(old(mem[..]), old(blocks), k, delta)
    {
      hide WellFormed, Chain;
      BlockAt(k);
      SplitChain(mem[..], blocks, k, delta);
      SplitWellFormed(blocks, k, delta);
      var aligned, avail, next := best + delta, SlobUnitsAt(best), SlobNext(best);
      SetSlob(aligned, avail - delta, next);
      SetSlob(best, delta, aligned);
      blocks := SplitAt(blocks, k, delta);
    }

    /** Makes whatever led to block `k` lead to `past`: the predecessor's link, or the list head. */
    method Relink(prev: Option<nat>, past: nat, ghost k: nat)
      requires Linked() && k < |blocks| && prev == Predecessor(blocks, k) && 0 < past <= PAGE_UNITS
      modifies mem, this`freelist
      ensures mem[..] == Relinked(old(mem[..]), blocks, k, past)
      ensures freelist == if k == 0 then past else old(freelist)
    {
      if prev.Some? {
        BlockAt(k - 1);
        SetSlob(prev.value, SlobUnitsAt(prev.value), past);
      } else {
        freelist := past;
      }
    }

    /** Takes the first `size` units out of block `k`: unlinks it on an exact fit, shortens it otherwise. */
    method Unlink(best: nat, size: nat, prev: Option<nat>, ghost k: nat)
      requires Linked() && k < |blocks| && best == blocks[k].start && 0 < size <= blocks[k].size
      requires prev == Predecessor(blocks, k)
      modifies mem, this`freelist, this`blocks
      ensures Linked() && blocks == Carve(old(blocks), k, 0, size)
      ensures mem[..] == AfterUnlink(old(mem[..]), old(blocks), k, size)
    {
      hide WellFormed, Chain, Store, Relinked, Carve;
      BlockAt(k);
      UnlinkChain(mem[..], blocks, k, size);
      CarveWellFormed(blocks, k, 0, size);
      CarveFirstStart(blocks, k, size);
      var avail, next := SlobUnitsAt(best), SlobNext(best);
      if avail == size {
        Relink(prev, next, k);
      } else {
        Relink(prev, best + size, k);
        SetSlob(best + size, avail - size, next);
      }
      blocks := Carve(blocks, k, 0, size);
    }
  }

  /** Carving an extent out of the best block, as slob_page_alloc promises it. */
  lemma AllocationTakesExactly(base: nat, blocks: seq<Block>, r: Request, k: nat)
    requires WellFormed(blocks) && IsBest(base, blocks, r, k) && r.size >= 1
    ensures k < |blocks|
    ensures var delta := Delta(base, blocks[k].start, r);
            var b := Taken(blocks, k, delta, r.Units());
            && r.Units() >= 1 && delta + r.Units() <= blocks[k].size
            && var after := Carve(blocks, k, delta, r.Units());
            && WellFormed(after) && (Separated(blocks) ==> Separated(after))
            && Sum(after) + r.Units() == Sum(blocks)
            && Range(b) <= UnitSet(blocks)
            && UnitSet(after) == UnitSet(blocks) - Range(b)
  {
    hide Delta, WellFormed, Separated;
    var delta := Delta(base, blocks[k].start, r);
    CarveWellFormed(blocks, k, delta, r.Units());
    if Separated(blocks) {
      CarveSeparated(blocks, k, delta, r.Units());
    }
    CarveSum(blocks, k, delta, r.Units());
    CarveUnitSet(blocks, k, delta, r.Units());
  }

  /**
   slob_page_alloc: null if no block of the page fits, otherwise the best-fit block. The list loses exactly
   the extent handed out, memory outside the old free blocks is not written, and a page left without free
   units drops its PG_slob_free flag and reports that it leaves its size-class list.
   */
  method SlobPageAlloc(sp: Page?, r: Request) returns (b: Option<nat>, pageRemovedFromList: bool, ghost k: nat)
    requires sp != null ==> sp.Valid() && sp.blocks != []
    requires r.size >= 1
    modifies sp, if sp == null then {} else {sp.mem}
    ensures sp == null ==> b == None
    ensures sp != null ==> sp.Valid()
    ensures sp != null && b == None ==>
              && NoneFits(sp.base, sp.blocks, r, |sp.blocks|)
              && unchanged(sp) && unchanged(sp.mem) && !pageRemovedFromList
    ensures sp != null && b.Some? ==>
              && IsBest(sp.base, old(sp.blocks), r, k)
              && var delta := Delta(sp.base, old(sp.blocks)[k].start, r);
                 && b.value == old(sp.blocks)[k].start + delta
                 && sp.blocks == Carve(old(sp.blocks), k, delta, r.Units())
                 && sp.live == old(sp.live) + [Taken(old(sp.blocks), k, delta, r.Units())]
                 && r.size <= SLOB_UNIT * sp.live[|old(sp.live)|].size < r.size + SLOB_UNIT
                 && sp.units == old(sp.units) - sp.live[|old(sp.live)|].size
                 && pageRemovedFromList == (sp.blocks == [])
                 && sp.slobFree == (old(sp.slobFree) && sp.blocks != [])
    ensures sp != null ==>
              forall u: nat | u < PAGE_UNITS && !Covered(old(sp.blocks), u) :: sp.mem[u] == old(sp.mem[u])
  {
    hide Delta, WellFormed, Chain, IsBest, NoneFits, Carve, AfterSplit, AfterUnlink, SplitAt;
    if sp == null {
      return None, false, 0;
    }
    pageRemovedFromList := false;
    var bestBlock, prevFromBestBlock;
    bestBlock, prevFromBestBlock, k := sp.FindBest(r);
    if bestBlock == None {
      return None, false, 0;
    }
    var best, prev := bestBlock.value, prevFromBestBlock;
    var delta := Delta(sp.base, best, r);
    ghost var was, at := sp.blocks, k;
    AllocationTakesExactly(sp.base, was, r, k);
    if delta != 0 {
      assert delta < was[k].size;
      SplitThenCarve(was, k, delta, r.Units());
      forall u: nat | u < PAGE_UNITS && !Covered(was, u)
        ensures AfterSplit(sp.mem[..], was, k, delta)[u] == sp.mem[u] && !Covered(SplitAt(was, k, delta), u)
      {
        SplitOutside(sp.mem[..], was, k, delta, u);
      }
      sp.SplitHead(best, delta, k);
      prev, best, at := Some(best), best + delta, k + 1;
    }
    forall u: nat | u < PAGE_UNITS && !Covered(sp.blocks, u)
      ensures AfterUnlink(sp.mem[..], sp.blocks, at, r.Units())[u] == sp.mem[u]
    {
      UnlinkOutside(sp.mem[..], sp.blocks, at, r.Units(), u);
    }
    sp.Unlink(best, r.Units(), prev, at);
    sp.units := sp.units - r.Units();
    if sp.units == 0 {
      sp.slobFree := false;
      pageRemovedFromList := true;
    }
    UnitsHoldBytes(r.size);
    sp.live := sp.live + [Block(best, r.Units())];
    b := Some(best);
    SumZero(sp.blocks);
  }
}
