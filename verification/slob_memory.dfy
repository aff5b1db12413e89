/**
 The free list inside the page. A free block keeps its size and its link in its own first units:
 a block of several units holds its size and then the link, a block of a single unit holds the
 negated link. Memory is a value here, one integer per unit; the last block links to PAGE_UNITS.
 */
module SlobMemory {
  import opened SlobBlocks

  ghost predicate Stored(m: seq<int>, b: Block, next: nat) {
    && |m| == PAGE_UNITS && b.size >= 1 && b.End() <= PAGE_UNITS && 0 < next <= PAGE_UNITS
    && if b.size > 1 then m[b.start] == b.size && m[b.start + 1] == next else m[b.start] == 0 - next
  }

  /** set_slob */
  ghost function Store(m: seq<int>, b: Block, next: nat): (r: seq<int>)
    requires |m| == PAGE_UNITS && b.size >= 1 && b.End() <= PAGE_UNITS
    ensures |r| == PAGE_UNITS
  {
    if b.size > 1 then m[b.start := b.size][b.start + 1 := next] else m[b.start := 0 - next]
  }

  /** The start of the first block, or `end` if there is none. */
  ghost function FirstStart(blocks: seq<Block>, end: nat): nat {
    if blocks == [] then end else blocks[0].start
  }

  /** Where the block before position `i` of the list points. */
  ghost function LinkTo(blocks: seq<Block>, i: nat): nat {
    if i < |blocks| then blocks[i].start else PAGE_UNITS
  }

  /** A stretch of the list: every block links to the next one and the last one links to `end`. */
  ghost predicate Chain(m: seq<int>, blocks: seq<Block>, end: nat) {
    if blocks == [] then true
    else Stored(m, blocks[0], FirstStart(blocks[1..], end)) && Chain(m, blocks[1..], end)
  }

  lemma {:induction false} ChainAt(m: seq<int>, blocks: seq<Block>, i: nat)
    requires Chain(m, blocks, PAGE_UNITS) && i < |blocks|
    ensures Stored(m, blocks[i], LinkTo(blocks, i + 1))
  {
    if i > 0 {
      ChainAt(m, blocks[1..], i - 1);
    }
  }

  lemma {:induction false} ChainConcat(m: seq<int>, a: seq<Block>, b: seq<Block>, end: nat)
    ensures Chain(m, a + b, end) <==> Chain(m, a, FirstStart(b, end)) && Chain(m, b, end)
  {
    if a == [] {
      assert a + b == b;
    } else {
      assert (a + b)[1..] == a[1..] + b;
      ChainConcat(m, a[1..], b, end);
    }
  }

  /** Storing a block elsewhere does not disturb a stretch of the list. */
  lemma {:induction false} ChainKept(m: seq<int>, b: Block, next: nat, blocks: seq<Block>, end: nat)
    requires |m| == PAGE_UNITS && b.size >= 1 && b.End() <= PAGE_UNITS
    requires Chain(m, blocks, end) && forall c | c in blocks :: Apart(b, c)
    ensures Chain(Store(m, b, next), blocks, end)
  {
    if blocks != [] {
      assert blocks[0] in blocks;
      StoreElsewhere(m, b, next, blocks[0], FirstStart(blocks[1..], end));
      ChainKept(m, b, next, blocks[1..], end);
    }
  }

  ghost predicate Apart(b: Block, c: Block) {
    b.End() <= c.start || c.End() <= b.start
  }

  lemma StoreElsewhere(m: seq<int>, b: Block, next: nat, c: Block, link: nat)
    requires |m| == PAGE_UNITS && b.size >= 1 && b.End() <= PAGE_UNITS
    requires Stored(m, c, link) && Apart(b, c)
    ensures Stored(Store(m, b, next), c, link)
  {}

  lemma StoreStored(m: seq<int>, b: Block, next: nat)
    requires |m| == PAGE_UNITS && b.size >= 1 && b.End() <= PAGE_UNITS && 0 < next <= PAGE_UNITS
    ensures Stored(Store(m, b, next), b, next)
  {}

  /** The three parts of a well-formed list around block `k` do not overlap. */
  lemma PartsApart(blocks: seq<Block>, k: nat)
    requires WellFormed(blocks) && k < |blocks|
    ensures blocks == blocks[..k] + [blocks[k]] + blocks[k + 1..]
    ensures forall c | c in blocks[..k] :: c.End() <= blocks[k].start
    ensures forall c | c in blocks[k + 1..] :: blocks[k].End() <= c.start
  {}

  lemma WellFormedSlice(blocks: seq<Block>, i: nat, j: nat)
    requires WellFormed(blocks) && i <= j <= |blocks|
    ensures WellFormed(blocks[i..j])
  {}

  // ----------------------------------------------------- splitting off a head

  /** Cutting block `k` in two after `delta` units. */
  ghost function SplitAt(blocks: seq<Block>, k: nat, delta: nat): seq<Block>
    requires k < |blocks| && delta <= blocks[k].size
  {
    var b := blocks[k];
    blocks[..k] + [Block(b.start, delta), Block(b.start + delta, b.size - delta)] + blocks[k + 1..]
  }

  lemma SplitThenCarve(blocks: seq<Block>, k: nat, delta: nat, units: nat)
    requires k < |blocks| && 0 < delta && delta + units <= blocks[k].size
    ensures var s, b := SplitAt(blocks, k, delta), blocks[k];
            && |s| == |blocks| + 1 && s[k].start == b.start
            && s[k + 1] == Block(b.start + delta, b.size - delta)
            && Carve(s, k + 1, 0, units) == Carve(blocks, k, delta, units)
  {
    var s := SplitAt(blocks, k, delta);
    assert s[..k + 1] == blocks[..k] + [Block(blocks[k].start, delta)];
    assert s[k + 2..] == blocks[k + 1..];
  }

  lemma SplitWellFormed(blocks: seq<Block>, k: nat, delta: nat)
    requires WellFormed(blocks) && k < |blocks| && 0 < delta < blocks[k].size
    ensures WellFormed(SplitAt(blocks, k, delta))
  {}

  /** The memory after the two set_slob calls that split block `k`. */
  ghost function AfterSplit(m: seq<int>, blocks: seq<Block>, k: nat, delta: nat): (r: seq<int>)
    requires |m| == PAGE_UNITS && WellFormed(blocks) && k < |blocks| && 0 < delta < blocks[k].size
    ensures |r| == PAGE_UNITS
  {
    var b := blocks[k];
    Store(Store(m, Block(b.start + delta, b.size - delta), LinkTo(blocks, k + 1)), Block(b.start, delta), b.start + delta)
  }

  lemma SplitPieces(m: seq<int>, b: Block, next: nat, delta: nat)
    requires Stored(m, b, next) && 0 < delta < b.size
    ensures var head, tail := Block(b.start, delta), Block(b.start + delta, b.size - delta);
            Chain(Store(Store(m, tail, next), head, tail.start), [head, tail], next)
  {
    var head, tail := Block(b.start, delta), Block(b.start + delta, b.size - delta);
    var m1 := Store(m, tail, next);
    StoreElsewhere(m1, head, tail.start, tail, next);
    assert [head, tail][1..] == [tail];
    assert Chain(Store(m1, head, tail.start), [tail], next);
  }

  /** Both pieces of a block keep off the blocks around it. */
  lemma PiecesApart(blocks: seq<Block>, k: nat, delta: nat, c: Block)
    requires WellFormed(blocks) && k < |blocks| && 0 < delta < blocks[k].size
    requires c in blocks[..k] || c in blocks[k + 1..]
    ensures var b := blocks[k]; Apart(Block(b.start, delta), c) && Apart(Block(b.start + delta, b.size - delta), c)
  {
    PartsApart(blocks, k);
  }

  lemma ChainKeptTwice(m: seq<int>, b: Block, next: nat, c: Block, link: nat, blocks: seq<Block>, end: nat)
    requires |m| == PAGE_UNITS && b.size >= 1 && b.End() <= PAGE_UNITS && c.size >= 1 && c.End() <= PAGE_UNITS
    requires Chain(m, blocks, end) && forall d | d in blocks :: Apart(b, d) && Apart(c, d)
    ensures Chain(Store(Store(m, b, next), c, link), blocks, end)
  {
    hide Store, Chain, Apart;
    ChainKept(m, b, next, blocks, end);
    ChainKept(Store(m, b, next), c, link, blocks, end);
  }

  /** The list before block `k`, the block, and the list after it. */
  lemma CutChain(m: seq<int>, blocks: seq<Block>, k: nat)
    requires Chain(m, blocks, PAGE_UNITS) && k < |blocks|
    ensures Chain(m, blocks[..k], blocks[k].start) && Stored(m, blocks[k], LinkTo(blocks, k + 1))
    ensures Chain(m, blocks[k + 1..], PAGE_UNITS)
  {
    ChainAt(m, blocks, k);
    hide Chain, Stored;
    assert blocks == blocks[..k] + blocks[k..];
    ChainConcat(m, blocks[..k], blocks[k..], PAGE_UNITS);
    assert blocks[k..] == [blocks[k]] + blocks[k + 1..];
    ChainConcat(m, [blocks[k]], blocks[k + 1..], PAGE_UNITS);
  }

  lemma JoinSplit(m: seq<int>, blocks: seq<Block>, k: nat, delta: nat)
    requires k < |blocks| && delta <= blocks[k].size
    requires Chain(m, blocks[..k], blocks[k].start) && Chain(m, blocks[k + 1..], PAGE_UNITS)
    requires var b := blocks[k];
             Chain(m, [Block(b.start, delta), Block(b.start + delta, b.size - delta)], LinkTo(blocks, k + 1))
    ensures Chain(m, SplitAt(blocks, k, delta), PAGE_UNITS)
  {
    hide Chain;
    var b := blocks[k];
    var two, post := [Block(b.start, delta), Block(b.start + delta, b.size - delta)], blocks[k + 1..];
    ChainConcat(m, two, post, PAGE_UNITS);
    ChainConcat(m, blocks[..k], two + post, PAGE_UNITS);
    assert SplitAt(blocks, k, delta) == blocks[..k] + (two + post);
  }

  lemma SplitChain(m: seq<int>, blocks: seq<Block>, k: nat, delta: nat)
    requires WellFormed(blocks) && Chain(m, blocks, PAGE_UNITS) && |m| == PAGE_UNITS
    requires k < |blocks| && 0 < delta < blocks[k].size
    ensures Chain(AfterSplit(m, blocks, k, delta), SplitAt(blocks, k, delta), PAGE_UNITS)
  {
    hide WellFormed, Store, Stored, Chain, Apart, SplitAt;
    StoredInside(m, blocks, k);
    CutChain(m, blocks, k);
    var b, pre, post := blocks[k], blocks[..k], blocks[k + 1..];
    var head, tail := Block(b.start, delta), Block(b.start + delta, b.size - delta);
    var next := LinkTo(blocks, k + 1);
    SplitPieces(m, b, next, delta);
    forall c | c in pre ensures Apart(tail, c) && Apart(head, c) {
      PiecesApart(blocks, k, delta, c);
    }
    forall c | c in post ensures Apart(tail, c) && Apart(head, c) {
      PiecesApart(blocks, k, delta, c);
    }
    ChainKeptTwice(m, tail, next, head, tail.start, pre, b.start);
    ChainKeptTwice(m, tail, next, head, tail.start, post, PAGE_UNITS);
    JoinSplit(AfterSplit(m, blocks, k, delta), blocks, k, delta);
  }

  lemma StoredInside(m: seq<int>, blocks: seq<Block>, k: nat)
    requires WellFormed(blocks) && k < |blocks|
    ensures blocks[k].size >= 1 && blocks[k].End() <= PAGE_UNITS
  {}

  /** Splitting writes only units of block `k`, and does not change which units are free. */
  lemma SplitOutside(m: seq<int>, blocks: seq<Block>, k: nat, delta: nat, u: nat)
    requires |m| == PAGE_UNITS && WellFormed(blocks) && k < |blocks| && 0 < delta < blocks[k].size
    requires u < PAGE_UNITS && !Covered(blocks, u)
    ensures AfterSplit(m, blocks, k, delta)[u] == m[u]
    ensures !Covered(SplitAt(blocks, k, delta), u)
  {
    assert !blocks[k].Contains(u);
    var b := blocks[k];
    var two := [Block(b.start, delta), Block(b.start + delta, b.size - delta)];
    CoveredConcat(blocks[..k] + two, blocks[k + 1..], u);
    CoveredConcat(blocks[..k], two, u);
  }

  // ------------------------------------------------------------ taking a block

  /** What the block before position `k` points to once `size` units are gone from block `k`. */
  ghost function LinkPast(blocks: seq<Block>, k: nat, size: nat): nat
    requires k < |blocks| && size <= blocks[k].size
  {
    if size == blocks[k].size then LinkTo(blocks, k + 1) else blocks[k].start + size
  }

  lemma CarveFirstStart(blocks: seq<Block>, k: nat, size: nat)
    requires k < |blocks| && size <= blocks[k].size
    ensures FirstStart(Carve(blocks, k, 0, size), PAGE_UNITS)
         == if k == 0 then LinkPast(blocks, k, size) else FirstStart(blocks, PAGE_UNITS)
  {}

  /** The memory once the predecessor of block `k` links to `past`. */
  ghost function Relinked(m: seq<int>, blocks: seq<Block>, k: nat, past: nat): (r: seq<int>)
    requires |m| == PAGE_UNITS && WellFormed(blocks) && k < |blocks|
    ensures |r| == PAGE_UNITS
  {
    if k == 0 then m else Store(m, blocks[k - 1], past)
  }

  /** The memory after block `k` gave up its first `size` units: relink the predecessor, store the rest. */
  ghost function AfterUnlink(m: seq<int>, blocks: seq<Block>, k: nat, size: nat): (r: seq<int>)
    requires |m| == PAGE_UNITS && WellFormed(blocks) && k < |blocks| && 0 < size <= blocks[k].size
    ensures |r| == PAGE_UNITS
  {
    var b := blocks[k];
    var relinked := Relinked(m, blocks, k, LinkPast(blocks, k, size));
    if size == b.size then relinked
    else Store(relinked, Block(b.start + size, b.size - size), LinkTo(blocks, k + 1))
  }

  lemma RelinkedChain(m: seq<int>, blocks: seq<Block>, k: nat, past: nat)
    requires WellFormed(blocks) && Chain(m, blocks, PAGE_UNITS) && |m| == PAGE_UNITS
    requires k < |blocks| && 0 < past <= PAGE_UNITS
    ensures Chain(Relinked(m, blocks, k, past), blocks[..k], past)
    ensures Chain(Relinked(m, blocks, k, past), blocks[k + 1..], PAGE_UNITS)
  {
    hide WellFormed, Store, Stored;
    var b, pre, post := blocks[k], blocks[..k], blocks[k + 1..];
    PartsApart(blocks, k);
    ChainConcat(m, pre + [b], post, PAGE_UNITS);
    ChainConcat(m, pre, [b], FirstStart(post, PAGE_UNITS));
    if k > 0 {
      PartsApart(blocks, k - 1);
      WellFormedSlice(blocks, 0, k);
      RelinkLast(m, pre, b.start, past);
      ChainKept(m, blocks[k - 1], past, post, PAGE_UNITS);
    }
  }

  lemma UnlinkChain(m: seq<int>, blocks: seq<Block>, k: nat, size: nat)
    requires WellFormed(blocks) && Chain(m, blocks, PAGE_UNITS) && |m| == PAGE_UNITS
    requires k < |blocks| && 0 < size <= blocks[k].size
    ensures Chain(AfterUnlink(m, blocks, k, size), Carve(blocks, k, 0, size), PAGE_UNITS)
  {
    hide WellFormed, Store, Relinked;
    PartsApart(blocks, k);
    ChainAt(m, blocks, k);
    var b, pre, post := blocks[k], blocks[..k], blocks[k + 1..];
    var rest, next, past := RestOf(b, size), LinkTo(blocks, k + 1), LinkPast(blocks, k, size);
    RelinkedChain(m, blocks, k, past);
    var m1, m2 := Relinked(m, blocks, k, past), AfterUnlink(m, blocks, k, size);
    if rest != [] {
      ChainKept(m1, rest[0], next, pre, past);
      ChainKept(m1, rest[0], next, post, PAGE_UNITS);
      StoreStored(m1, rest[0], next);
    }
    ChainConcat(m2, pre, rest, next);
    ChainConcat(m2, pre + rest, post, PAGE_UNITS);
    assert Pieces(b, 0, size) == rest;
  }

  /** Storing the last block of a stretch again with another link redirects the stretch. */
  lemma RelinkLast(m: seq<int>, pre: seq<Block>, end: nat, past: nat)
    requires WellFormed(pre) && pre != [] && Chain(m, pre, end) && |m| == PAGE_UNITS && 0 < past <= PAGE_UNITS
    ensures Chain(Store(m, pre[|pre| - 1], past), pre, past)
  {
    hide WellFormed;
    var n := |pre| - 1;
    var p := pre[n];
    PartsApart(pre, n);
    assert pre == pre[..n] + [p];
    ChainConcat(m, pre[..n], [p], end);
    ChainKept(m, p, past, pre[..n], p.start);
    ChainConcat(Store(m, p, past), pre[..n], [p], past);
  }

  /** Only units that were free are written. */
  lemma UnlinkOutside(m: seq<int>, blocks: seq<Block>, k: nat, size: nat, u: nat)
    requires |m| == PAGE_UNITS && WellFormed(blocks) && k < |blocks| && 0 < size <= blocks[k].size
    requires u < PAGE_UNITS && !Covered(blocks, u)
    ensures AfterUnlink(m, blocks, k, size)[u] == m[u]
  {
    assert !blocks[k].Contains(u) && (k > 0 ==> !blocks[k - 1].Contains(u));
  }
}
