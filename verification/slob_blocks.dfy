/**
 The free blocks of one SLOB page as a value: an address-ordered sequence of blocks, the
 alignment arithmetic of a request, the best-fit choice and the effect of carving an
 allocation out of a block. Offsets and sizes count SLOB units from the start of the page.
 */
module SlobBlocks {

  const SLOB_UNIT: nat := 2        // sizeof(slob_t), in bytes
  const PAGE_SIZE: nat := 4096     // in bytes
  const PAGE_UNITS: nat := 2048    // SLOB_UNITS(PAGE_SIZE)

  function SlobUnits(size: nat): nat {
    (size + SLOB_UNIT - 1) / SLOB_UNIT
  }

  /** The units of a request hold its bytes, with less than one unit to spare. */
  lemma UnitsHoldBytes(size: nat)
    ensures size <= SLOB_UNIT * SlobUnits(size) < size + SLOB_UNIT
  {}

  lemma PageUnitsHoldPage()
    ensures SLOB_UNIT * PAGE_UNITS == PAGE_SIZE && SlobUnits(PAGE_SIZE) == PAGE_UNITS
  {}

  datatype Block = Block(start: nat, size: nat) {
    function End(): nat { start + size }

    ghost predicate Contains(u: nat) { start <= u < End() }
  }

  // ---------------------------------------------------------------- requests

  ghost predicate PowerOfTwo(n: nat) {
    n == 1 || (n > 1 && n % 2 == 0 && PowerOfTwo(n / 2))
  }

  /** What slob_alloc is asked for. `align` is 0 when the caller does not care. */
  datatype Request = Request(size: nat, align: nat, alignOffset: nat) {

    /** The kernel's own callers: a non-empty size, a power of two or nothing, a whole number of units. */
    ghost predicate Valid() {
      && size >= 1
      && (align == 0 || PowerOfTwo(align))
      && alignOffset % SLOB_UNIT == 0
    }

    function Units(): nat { SlobUnits(size) }
  }

  /** The kernel's ALIGN(x, a): the least multiple of `a` that is at least `x`. */
  function AlignUp(x: nat, a: nat): nat
    requires a > 0
  {
    (x + a - 1) / a * a
  }

  lemma AlignUpIsLeastMultiple(x: nat, a: nat)
    requires a > 0
    ensures AlignUp(x, a) % a == 0
    ensures x <= AlignUp(x, a) < x + a
    ensures forall m: nat | x <= m && m % a == 0 :: AlignUp(x, a) <= m
  {
    var q := (x + a - 1) / a;
    DivBounds(x + a - 1, a);
    ModOfProduct(q, a);
    forall m: nat | x <= m && m % a == 0 ensures q * a <= m {
      DivBounds(m, a);
      if m / a < q {
        ProductMonotone(m / a + 1, q, a);
        ProductSucc(m / a, a);
        assert false;
      } else {
        ProductMonotone(q, m / a, a);
      }
    }
  }

  lemma DivBounds(x: nat, a: nat)
    requires a > 0
    ensures x / a * a + x % a == x
    ensures x / a * a <= x < x / a * a + a
  {}

  lemma {:induction false} ModOfProduct(q: nat, a: nat)
    requires a > 0
    ensures (q * a) % a == 0
  {
    DivBounds(q * a, a);
    var p, m := q * a / a, q * a % a;
    if p < q {
      ProductSucc(p, a);
      ProductMonotone(p + 1, q, a);
    } else if q < p {
      ProductSucc(q, a);
      ProductMonotone(q + 1, p, a);
    }
  }

  lemma ProductSucc(q: int, a: int)
    ensures (q + 1) * a == q * a + a
  {}

  lemma ProductMonotone(p: nat, q: nat, a: nat)
    requires p <= q
    ensures p * a <= q * a
  {}

  /** The byte address of unit `u` of the page whose first unit is unit number `base` of memory. */
  function Address(base: nat, u: nat): nat {
    (base + u) * SLOB_UNIT
  }

  /** The head that must be skipped so that the block handed out, plus alignOffset, is aligned. */
  function Delta(base: nat, u: nat, r: Request): nat {
    if r.align == 0 then 0
    else
      var addr := Address(base, u);
      AlignUpAtLeast(addr + r.alignOffset, r.align);
      (AlignUp(addr + r.alignOffset, r.align) - r.alignOffset - addr) / SLOB_UNIT
  }

  lemma AlignUpAtLeast(x: nat, a: nat)
    requires a > 0
    ensures AlignUp(x, a) >= x
  {
    AlignUpIsLeastMultiple(x, a);
  }

  /** Handing out the extent that starts at unit `u` meets the request's alignment. */
  ghost predicate Aligned(base: nat, u: nat, r: Request)
    requires r.align != 0
  {
    (Address(base, u) + r.alignOffset) % r.align == 0
  }

  /** The aligned address is a whole number of units away, so the head ends exactly there. */
  lemma HeadReachesAlignment(base: nat, u: nat, r: Request)
    requires r.Valid() && r.align != 0
    ensures var x := Address(base, u) + r.alignOffset;
            && x + SLOB_UNIT * Delta(base, u, r) == AlignUp(x, r.align)
            && AlignUp(x, r.align) % r.align == 0
            && x <= AlignUp(x, r.align) < x + r.align
            && forall m: nat | x <= m && m % r.align == 0 :: AlignUp(x, r.align) <= m
  {
    hide AlignUp;
    var x := Address(base, u) + r.alignOffset;
    AlignUpIsLeastMultiple(x, r.align);
    var up := AlignUp(x, r.align);
    assert (up - x) % SLOB_UNIT == 0 by {
      if r.align == 1 {
        assert x % 1 == 0;
      } else {
        EvenMultiple(up, r.align);
      }
    }
  }

  lemma AlignedAfterDelta(base: nat, u: nat, r: Request)
    requires r.Valid() && r.align != 0
    ensures Aligned(base, u + Delta(base, u, r), r)
    ensures forall v: nat | u <= v < u + Delta(base, u, r) :: !Aligned(base, v, r)
    ensures Delta(base, u, r) < r.align
  {
    hide AlignUp, Delta;
    HeadReachesAlignment(base, u, r);
    var x := Address(base, u) + r.alignOffset;
    assert Address(base, u + Delta(base, u, r)) + r.alignOffset == AlignUp(x, r.align);
    forall v: nat | u <= v < u + Delta(base, u, r) ensures !Aligned(base, v, r) {
      var m := Address(base, v) + r.alignOffset;
      assert x <= m < AlignUp(x, r.align);
    }
  }

  /** Skipping Delta units aligns the result, and no shorter skip does; nothing is skipped for a caller who does not care. */
  lemma DeltaAligns(base: nat, u: nat, r: Request)
    requires r.Valid()
    ensures r.align == 0 ==> Delta(base, u, r) == 0
    ensures r.align != 0 ==>
              && Aligned(base, u + Delta(base, u, r), r)
              && (forall v: nat | u <= v < u + Delta(base, u, r) :: !Aligned(base, v, r))
              && Delta(base, u, r) < r.align
  {
    if r.align == 0 {
      assert Delta(base, u, r) == 0;
    } else {
      hide Delta, Aligned;
      AlignedAfterDelta(base, u, r);
    }
  }

  /** Being aligned is a matter of byte addresses. */
  lemma AlignedBytes(base: nat, u: nat, r: Request)
    requires r.align != 0
    ensures Aligned(base, u, r) <==> (SLOB_UNIT * (base + u) + r.alignOffset) % r.align == 0
  {
    assert Address(base, u) == SLOB_UNIT * (base + u);
  }

  lemma EvenMultiple(m: nat, a: nat)
    requires a > 0 && a % 2 == 0 && m % a == 0
    ensures m % 2 == 0
  {
    DivBounds(m, a);
    var q := m / a;
    assert m == q * a == 2 * (q * (a / 2)) by {
      assert a == 2 * (a / 2);
      assert q * (2 * (a / 2)) == 2 * (q * (a / 2));
    }
  }

  // ------------------------------------------------------- well-formed lists

  /** Non-empty blocks inside the page, in strictly increasing address order, not overlapping. */
  ghost predicate WellFormed(blocks: seq<Block>) {
    && (forall i | 0 <= i < |blocks| :: blocks[i].size >= 1 && blocks[i].End() <= PAGE_UNITS)
    && (forall i, j | 0 <= i < j < |blocks| :: blocks[i].End() <= blocks[j].start)
  }

  /** No two neighbours touch: nothing is left to coalesce. */
  ghost predicate Separated(blocks: seq<Block>) {
    forall i, j | 0 <= i < j < |blocks| :: blocks[i].End() < blocks[j].start
  }

  ghost predicate Covered(blocks: seq<Block>, u: nat) {
    exists i | 0 <= i < |blocks| :: blocks[i].Contains(u)
  }

  /** The units of the page that the blocks cover. */
  ghost function UnitSet(blocks: seq<Block>): set<nat> {
    set u: nat | u < PAGE_UNITS && Covered(blocks, u)
  }

  function Sum(blocks: seq<Block>): nat {
    if blocks == [] then 0 else blocks[0].size + Sum(blocks[1..])
  }

  lemma {:induction false} SumConcat(a: seq<Block>, b: seq<Block>)
    ensures Sum(a + b) == Sum(a) + Sum(b)
  {
    if a == [] {
      assert a + b == b;
    } else {
      assert (a + b)[1..] == a[1..] + b;
      SumConcat(a[1..], b);
    }
  }

  /** Every single block is at most as large as the whole free space: the page-skip test is sound. */
  lemma {:induction false} SumBoundsEach(blocks: seq<Block>, k: nat)
    requires k < |blocks|
    ensures blocks[k].size <= Sum(blocks)
  {
    if k > 0 {
      SumBoundsEach(blocks[1..], k - 1);
    }
  }

  lemma SumZero(blocks: seq<Block>)
    requires WellFormed(blocks)
    ensures Sum(blocks) == 0 <==> blocks == []
  {
    if blocks != [] {
      SumBoundsEach(blocks, 0);
    }
  }

  /** Pairwise disjoint blocks inside the page cover exactly as many units as their sizes add up to. */
  lemma {:induction false} UnitCount(blocks: seq<Block>)
    requires forall i | 0 <= i < |blocks| :: blocks[i].End() <= PAGE_UNITS
    requires forall i, j, u: nat | 0 <= i < j < |blocks| :: !(blocks[i].Contains(u) && blocks[j].Contains(u))
    ensures |UnitSet(blocks)| == Sum(blocks)
  {
    if blocks == [] {
      assert UnitSet(blocks) == {};
    } else {
      var head, tail := Range(blocks[0]), blocks[1..];
      UnitCount(tail);
      RangeCount(blocks[0]);
      assert forall u: nat :: Covered(blocks, u) <==> blocks[0].Contains(u) || Covered(tail, u) by {
        forall u: nat ensures Covered(blocks, u) <==> blocks[0].Contains(u) || Covered(tail, u) {
          CoveredCons(blocks, u);
        }
      }
      assert UnitSet(blocks) == head + UnitSet(tail);
      assert head !! UnitSet(tail);
    }
  }

  lemma CoveredCons(blocks: seq<Block>, u: nat)
    requires blocks != []
    ensures Covered(blocks, u) <==> blocks[0].Contains(u) || Covered(blocks[1..], u)
  {
    if Covered(blocks, u) {
      var i :| 0 <= i < |blocks| && blocks[i].Contains(u);
      assert i > 0 ==> blocks[1..][i - 1].Contains(u);
    }
    if Covered(blocks[1..], u) {
      var i :| 0 <= i < |blocks[1..]| && blocks[1..][i].Contains(u);
      assert blocks[i + 1].Contains(u);
    }
  }

  ghost function Range(b: Block): set<nat> {
    set u: nat | u < b.End() && b.Contains(u)
  }

  lemma {:induction false} RangeCount(b: Block)
    ensures |Range(b)| == b.size
    decreases b.size
  {
    if b.size == 0 {
      assert Range(b) == {};
    } else {
      var c := Block(b.start, b.size - 1);
      RangeCount(c);
      RangeLast(b, c);
      hide Range;
      assert |Range(c) + {b.End() - 1}| == |Range(c)| + 1;
    }
  }

  lemma RangeLast(b: Block, c: Block)
    requires b.size > 0 && c == Block(b.start, b.size - 1)
    ensures Range(b) == Range(c) + {b.End() - 1} && b.End() - 1 !in Range(c)
  {
    forall u: nat ensures u in Range(b) <==> u in Range(c) + {b.End() - 1} {
    }
  }

  // ------------------------------------------------------------------ best fit

  ghost predicate Fits(base: nat, b: Block, r: Request) {
    b.size >= r.Units() + Delta(base, b.start, r)
  }

  /** The extent of the requested length at unit `at` lies in the block and is aligned as requested. */
  ghost predicate Holds(base: nat, b: Block, r: Request, at: nat) {
    b.start <= at && at + r.Units() <= b.End() && (r.align != 0 ==> Aligned(base, at, r))
  }

  /** A block fits exactly if some extent in it would do, and then the lowest such extent starts after the head. */
  lemma FitsExactly(base: nat, b: Block, r: Request)
    requires r.Valid()
    ensures Fits(base, b, r) <==> exists at: nat :: Holds(base, b, r, at)
    ensures Fits(base, b, r) ==> Holds(base, b, r, b.start + Delta(base, b.start, r))
    ensures forall at: nat | Holds(base, b, r, at) :: b.start + Delta(base, b.start, r) <= at
  {
    hide Delta, Aligned;
    DeltaAligns(base, b.start, r);
    if Fits(base, b, r) {
      assert Holds(base, b, r, b.start + Delta(base, b.start, r));
    }
  }

  /** What is left of the block once the request and its alignment head are taken out. */
  function Remainder(base: nat, b: Block, r: Request): int {
    b.size - (r.Units() + Delta(base, b.start, r))
  }

  ghost predicate NoneFits(base: nat, blocks: seq<Block>, r: Request, n: nat)
    requires n <= |blocks|
  {
    forall j | 0 <= j < n :: !Fits(base, blocks[j], r)
  }

  /** Among all blocks, `k` fits, leaves the least remainder, and is the lowest in address among equals. */
  ghost predicate IsBest(base: nat, blocks: seq<Block>, r: Request, k: nat) {
    && k < |blocks|
    && Fits(base, blocks[k], r)
    && (forall j | 0 <= j < |blocks| && Fits(base, blocks[j], r) ::
          Remainder(base, blocks[k], r) <= Remainder(base, blocks[j], r))
    && (forall j | 0 <= j < k && Fits(base, blocks[j], r) ::
          Remainder(base, blocks[k], r) < Remainder(base, blocks[j], r))
  }

  /** The running minimum of a scan over pages: nothing yet, or a page, one of its blocks and what it leaves. */
  datatype Candidate = Nothing | Best(page: nat, k: nat, space: nat)

  /** The running minimum after the first `n` blocks of page number `page`, when it was `c` before them. */
  ghost function Running(c: Candidate, page: nat, base: nat, blocks: seq<Block>, r: Request, n: nat): Candidate
    requires n <= |blocks|
  {
    if n == 0 then c
    else Better(Running(c, page, base, blocks, r, n - 1), page, base, blocks, r, n - 1)
  }

  ghost function Better(c: Candidate, page: nat, base: nat, blocks: seq<Block>, r: Request, i: nat): Candidate
    requires i < |blocks|
  {
    if Fits(base, blocks[i], r) && (c == Nothing || Remainder(base, blocks[i], r) < c.space)
    then Best(page, i, Remainder(base, blocks[i], r))
    else c
  }

  /** An exact fit cannot be beaten, so stopping at it changes nothing. */
  lemma {:induction false} ExactFitIsFinal(c: Candidate, page: nat, base: nat, blocks: seq<Block>, r: Request, n: nat, m: nat)
    requires n <= m <= |blocks|
    requires Running(c, page, base, blocks, r, n).Best? && Running(c, page, base, blocks, r, n).space == 0
    ensures Running(c, page, base, blocks, r, m) == Running(c, page, base, blocks, r, n)
  {
    if n < m {
      ExactFitIsFinal(c, page, base, blocks, r, n, m - 1);
    }
  }

  /** Nothing among the first `n` blocks leaves less than `c` does. */
  ghost predicate NoneBeats(c: Candidate, base: nat, blocks: seq<Block>, r: Request, n: nat)
    requires n <= |blocks|
  {
    forall j | 0 <= j < n && Fits(base, blocks[j], r) :: c.Best? && c.space <= Remainder(base, blocks[j], r)
  }

  lemma NoneBeatsNothing(base: nat, blocks: seq<Block>, r: Request)
    ensures NoneBeats(Nothing, base, blocks, r, |blocks|) <==> NoneFits(base, blocks, r, |blocks|)
  {}

  /** The running minimum keeps the earlier candidate, or replaces it by this page's best block if that leaves less. */
  lemma {:induction false} RunningIsBest(c: Candidate, page: nat, base: nat, blocks: seq<Block>, r: Request, n: nat)
    requires n <= |blocks|
    ensures var d := Running(c, page, base, blocks, r, n);
            || (d == c && NoneBeats(c, base, blocks, r, n))
            || (&& d.Best? && d.page == page && d.k < n && IsBest(base, blocks[..n], r, d.k)
                && d.space == Remainder(base, blocks[d.k], r)
                && (c.Best? ==> d.space < c.space))
  {
    if n > 0 {
      RunningIsBest(c, page, base, blocks, r, n - 1);
      assert forall j | 0 <= j < n - 1 :: blocks[..n - 1][j] == blocks[..n][j] == blocks[j];
    }
  }

  /** The best block leaves the fewest units behind the extent that is taken from it, strictly fewer than any lower block. */
  lemma BestLeavesLeast(base: nat, blocks: seq<Block>, r: Request, k: nat, m: nat)
    requires IsBest(base, blocks, r, k) && m < |blocks| && Fits(base, blocks[m], r)
    ensures var best := Taken(blocks, k, Delta(base, blocks[k].start, r), r.Units());
            var other := Taken(blocks, m, Delta(base, blocks[m].start, r), r.Units());
            && best.End() <= blocks[k].End()
            && blocks[k].End() - best.End() <= blocks[m].End() - other.End()
            && (m < k ==> blocks[k].End() - best.End() < blocks[m].End() - other.End())
  {
    hide Delta;
  }

  lemma BestIsUnique(base: nat, blocks: seq<Block>, r: Request, k: nat, l: nat)
    requires IsBest(base, blocks, r, k) && IsBest(base, blocks, r, l)
    ensures k == l
  {
    if k < l {
      assert false;
    } else if l < k {
      assert false;
    }
  }

  // ------------------------------------------------------------------- carving

  function HeadOf(b: Block, delta: nat): seq<Block> {
    if delta == 0 then [] else [Block(b.start, delta)]
  }

  function RestOf(b: Block, used: nat): seq<Block>
    requires used <= b.size
  {
    if used == b.size then [] else [Block(b.start + used, b.size - used)]
  }

  /** What Carve puts in the place of the block. */
  function Pieces(b: Block, delta: nat, units: nat): seq<Block>
    requires delta + units <= b.size
  {
    HeadOf(b, delta) + RestOf(b, delta + units)
  }

  /** The free list once `units` units, `delta` units into block `k`, have been taken out. */
  function Carve(blocks: seq<Block>, k: nat, delta: nat, units: nat): seq<Block>
    requires k < |blocks| && delta + units <= blocks[k].size
  {
    blocks[..k] + Pieces(blocks[k], delta, units) + blocks[k + 1..]
  }

  /** The extent that Carve takes out. */
  function Taken(blocks: seq<Block>, k: nat, delta: nat, units: nat): Block
    requires k < |blocks|
  {
    Block(blocks[k].start + delta, units)
  }

  /** All blocks of `a` end at least `gap` units before any block of `b` starts. */
  ghost predicate Before(a: seq<Block>, b: seq<Block>, gap: nat) {
    forall i, j | 0 <= i < |a| && 0 <= j < |b| :: a[i].End() + gap <= b[j].start
  }

  lemma WellFormedConcat(a: seq<Block>, b: seq<Block>)
    requires WellFormed(a) && WellFormed(b) && Before(a, b, 0)
    ensures WellFormed(a + b)
  {}

  lemma SeparatedConcat(a: seq<Block>, b: seq<Block>)
    requires Separated(a) && Separated(b) && Before(a, b, 1)
    ensures Separated(a + b)
  {}

  lemma BeforeConcat(a: seq<Block>, b: seq<Block>, c: seq<Block>, gap: nat)
    requires Before(a, c, gap) && Before(b, c, gap)
    ensures Before(a + b, c, gap)
  {}

  lemma PiecesInside(b: Block, delta: nat, units: nat)
    requires units >= 1 && delta + units <= b.size && b.End() <= PAGE_UNITS
    ensures WellFormed(Pieces(b, delta, units)) && Separated(Pieces(b, delta, units))
    ensures forall p | p in Pieces(b, delta, units) :: b.start <= p.start && p.End() <= b.End()
  {}

  lemma CarveWellFormed(blocks: seq<Block>, k: nat, delta: nat, units: nat)
    requires WellFormed(blocks)
    requires k < |blocks| && units >= 1 && delta + units <= blocks[k].size
    ensures WellFormed(Carve(blocks, k, delta, units))
  {
    var pre, mid, post := blocks[..k], Pieces(blocks[k], delta, units), blocks[k + 1..];
    PiecesInside(blocks[k], delta, units);
    WellFormedConcat(pre, mid);
    BeforeConcat(pre, mid, post, 0);
    WellFormedConcat(pre + mid, post);
  }

  /** Blocks that did not touch still do not: the extent taken out lies between the pieces. */
  lemma CarveSeparated(blocks: seq<Block>, k: nat, delta: nat, units: nat)
    requires WellFormed(blocks) && Separated(blocks)
    requires k < |blocks| && units >= 1 && delta + units <= blocks[k].size
    ensures Separated(Carve(blocks, k, delta, units))
  {
    var pre, mid, post := blocks[..k], Pieces(blocks[k], delta, units), blocks[k + 1..];
    PiecesInside(blocks[k], delta, units);
    SeparatedConcat(pre, mid);
    BeforeConcat(pre, mid, post, 1);
    SeparatedConcat(pre + mid, post);
  }

  lemma CoveredConcat(a: seq<Block>, b: seq<Block>, u: nat)
    ensures Covered(a + b, u) <==> Covered(a, u) || Covered(b, u)
  {
    if Covered(a, u) {
      var i :| 0 <= i < |a| && a[i].Contains(u);
      assert (a + b)[i].Contains(u);
    }
    if Covered(b, u) {
      var i :| 0 <= i < |b| && b[i].Contains(u);
      assert (a + b)[|a| + i].Contains(u);
    }
  }

  /** Carving removes exactly the units of the extent handed out from the free units. */
  lemma CarveCovers(blocks: seq<Block>, k: nat, delta: nat, units: nat, u: nat)
    requires WellFormed(blocks)
    requires k < |blocks| && units >= 1 && delta + units <= blocks[k].size
    ensures Covered(Carve(blocks, k, delta, units), u)
       <==> Covered(blocks, u) && !Taken(blocks, k, delta, units).Contains(u)
  {
    var b := blocks[k];
    var pre, head, rest, post := blocks[..k], HeadOf(b, delta), RestOf(b, delta + units), blocks[k + 1..];
    assert blocks == pre + [b] + post;
    CoveredConcat(pre + [b], post, u);
    CoveredConcat(pre, [b], u);
    CoveredConcat(pre + (head + rest), post, u);
    CoveredConcat(pre, head + rest, u);
    CoveredConcat(head, rest, u);
    assert Covered([b], u) <==> b.Contains(u) by {
      assert b.Contains(u) ==> [b][0].Contains(u);
    }
    assert Covered(head, u) <==> b.start <= u < b.start + delta by {
      assert delta > 0 && b.start <= u < b.start + delta ==> head[0].Contains(u);
    }
    assert Covered(rest, u) <==> b.start + delta + units <= u < b.End() by {
      assert b.start + delta + units <= u < b.End() ==> rest[0].Contains(u);
    }
    assert Covered(pre, u) ==> u < b.start;
    assert Covered(post, u) ==> u >= b.End();
  }

  lemma CarveUnitSet(blocks: seq<Block>, k: nat, delta: nat, units: nat)
    requires WellFormed(blocks)
    requires k < |blocks| && units >= 1 && delta + units <= blocks[k].size
    ensures UnitSet(Carve(blocks, k, delta, units)) == UnitSet(blocks) - Range(Taken(blocks, k, delta, units))
    ensures Range(Taken(blocks, k, delta, units)) <= UnitSet(blocks)
  {
    forall u: nat
      ensures Covered(Carve(blocks, k, delta, units), u)
         <==> Covered(blocks, u) && !Taken(blocks, k, delta, units).Contains(u)
    {
      CarveCovers(blocks, k, delta, units, u);
    }
    forall u | u in Range(Taken(blocks, k, delta, units)) ensures Covered(blocks, u) {
      assert Taken(blocks, k, delta, units).Contains(u);
      assert blocks[k].Contains(u);
    }
  }

  lemma CarveSum(blocks: seq<Block>, k: nat, delta: nat, units: nat)
    requires k < |blocks| && delta + units <= blocks[k].size
    ensures Sum(Carve(blocks, k, delta, units)) + units == Sum(blocks)
  {
    var b := blocks[k];
    var pre, head, rest, post := blocks[..k], HeadOf(b, delta), RestOf(b, delta + units), blocks[k + 1..];
    assert blocks == pre + [b] + post;
    SumConcat(pre + [b], post);
    SumConcat(pre, [b]);
    SumConcat(pre + (head + rest), post);
    SumConcat(pre, head + rest);
    SumConcat(head, rest);
  }
}
