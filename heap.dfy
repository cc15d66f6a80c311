/** The whole-heap invariant of the allocator and how each kind of step
    keeps it: unlinking a block from the free list, pushing a block on it,
    merging a run of blocks into one, splitting a block in two, and
    appending a new block at the break. The class in module Mm performs the
    word writes; the lemmas here say what those writes mean. */
module Heap {
  import opened Codec
  import opened Layout
  import opened FreeList

  /** Bookkeeping: every free-list member is a block, and a block is on the
      list exactly when its allocated bit is clear, except for the blocks of
      `pending`, which are tagged free but not linked (yet, or any more). */
  ghost predicate Tracked(m: seq<Word>, blocks: seq<nat>, free: seq<nat>, pending: set<nat>)
  {
    && (forall x :: x in blocks ==> 1 <= x <= |m| && (x in free <==> Alloc(m, x) == 0 && x !in pending))
    && (forall x :: x in free ==> x in blocks)
    && (forall x :: x in pending ==> x in blocks && Alloc(m, x) == 0)
  }

  /** The heap invariant with a set of free but unlinked blocks. Between the
      public operations `pending` is empty. */
  ghost predicate State(m: seq<Word>, brk: nat, blocks: seq<nat>, free: seq<nat>, head: nat, pending: set<nat>)
  {
    Tiled(m, brk, blocks) && Linked(m, free, head) && Tracked(m, blocks, free, pending)
  }

  /** A pending block can go in front of the list without its link words
      overlapping a member's. */
  lemma PendingSpread(m: seq<Word>, brk: nat, blocks: seq<nat>, free: seq<nat>, head: nat, pending: set<nat>, bp: nat)
    requires State(m, brk, blocks, free, head, pending) && bp in pending
    ensures Spread([bp] + free)
  {
    BlockFacts(m, brk, blocks);
    var f := [bp] + free;
    forall i, j | 0 <= i < |f| && 0 <= j < |f| && i != j
      ensures f[i] + 2 <= f[j] || f[j] + 2 <= f[i]
    {
      assert f[i] in blocks && f[j] in blocks;
      if i > 0 && j > 0 {
        assert f[i] == free[i - 1] && f[j] == free[j - 1];
      } else {
        assert f[i] != f[j];
      }
    }
  }

  /** remove_from_free on the k-th member: the heap keeps its layout and
      every tag, the member leaves the list (the head moving on when it was
      the first) and becomes pending. */
  lemma HeapUnlink(m: seq<Word>, m': seq<Word>, brk: nat, blocks: seq<nat>, free: seq<nat>, head: nat,
                   pending: set<nat>, k: nat)
    requires State(m, brk, blocks, free, head, pending) && k < |free| && Unlinked(m, m', free, k)
    ensures State(m', brk, blocks, Without(free, free[k]), if k == 0 then Succ(free, k) else head, pending + {free[k]})
    ensures forall x :: x in blocks ==> SameTags(m, m', x)
  {
    var f := free[..k] + free[k + 1..];
    Unlink(m, m', free, head, k);
    WithoutAt(free, k);
    forall p | 0 <= p < |m| && m'[p] != m[p]
      ensures p == DUMMY + 1 || p in blocks || (p >= 1 && p - 1 in blocks)
    {
      if p == Pred(free, k) {
        assert free[k - 1] in free;
      } else if k + 1 < |free| {
        assert free[k + 1] in free;
      }
    }
    LinkWrites(m, m', brk, blocks);
    TrackUnlinked(m, m', blocks, free, pending, k);
  }

  /** The bookkeeping half of HeapUnlink. */
  lemma TrackUnlinked(m: seq<Word>, m': seq<Word>, blocks: seq<nat>, free: seq<nat>, pending: set<nat>, k: nat)
    requires Tracked(m, blocks, free, pending) && k < |free| && Spread(free)
    requires forall x :: x in blocks ==> SameTags(m, m', x)
    ensures Tracked(m', blocks, free[..k] + free[k + 1..], pending + {free[k]})
  {
    SpreadSlices(free, k);
    var f := free[..k] + free[k + 1..];
    assert forall x :: x in f <==> x in free && x != free[k];
    assert forall x :: x in blocks ==> Alloc(m', x) == Alloc(m, x);
  }

  /** add_free on a pending block: it becomes the first member and is no
      longer pending; layout and tags stay. */
  lemma HeapPush(m: seq<Word>, m': seq<Word>, brk: nat, blocks: seq<nat>, free: seq<nat>, head: nat,
                 pending: set<nat>, bp: nat)
    requires State(m, brk, blocks, free, head, pending) && bp in pending && Pushed(m, m', head, bp)
    ensures State(m', brk, blocks, [bp] + free, bp, pending - {bp})
    ensures forall x :: x in blocks ==> SameTags(m, m', x)
  {
    PendingSpread(m, brk, blocks, free, head, pending, bp);
    BlockFacts(m, brk, blocks);
    Push(m, m', free, head, bp);
    assert head != DUMMY ==> head in blocks;
    LinkWrites(m, m', brk, blocks);
  }

  /** Re-tagging the run `blocks[k..j]` as one block with tag `w`: the run is
      off the list, so the list stays, and the merged block is pending exactly
      when `w` marks it free. The blocks outside the run keep their tags. */
  lemma HeapMerge(m: seq<Word>, m': seq<Word>, brk: nat, blocks: seq<nat>, free: seq<nat>, head: nat,
                  pending: set<nat>, k: nat, j: nat, w: Word)
    requires State(m, brk, blocks, free, head, pending) && k < j <= |blocks| && |m'| == |m|
    requires GetSize(w) as int == (After(blocks, brk, j - 1) - blocks[k]) * WSIZE
    requires m' == m[blocks[k] - 1 := w][After(blocks, brk, j - 1) - 2 := w]
    requires forall x :: x in free ==> x < blocks[k] || After(blocks, brk, j - 1) <= x
    requires forall x :: x in pending ==> blocks[k] <= x < After(blocks, brk, j - 1)
    ensures State(m', brk, blocks[..k] + [blocks[k]] + blocks[j..], free, head,
                  if GetAlloc(w) == 0 then {blocks[k]} else {})
    ensures Size(m', blocks[k]) == GetSize(w) as nat && Alloc(m', blocks[k]) == GetAlloc(w) as nat
    ensures forall x :: x in blocks[..k] + [blocks[k]] + blocks[j..] <==>
              x == blocks[k] || (x in blocks && (x < blocks[k] || After(blocks, brk, j - 1) <= x))
    ensures forall x :: x in blocks && (x < blocks[k] || After(blocks, brk, j - 1) <= x) ==> SameTags(m, m', x)
  {
    var b, e := blocks[k], After(blocks, brk, j - 1);
    RunBounds(m, brk, blocks, k, j);
    assert forall p :: 0 <= p < |m| ==> m'[p] == if p == b - 1 || p == e - 2 then w else m[p];
    MergeRun(m, m', brk, blocks, k, j, w);
    BlockFacts(m, brk, blocks);
    RunBounds(m, brk, blocks, k, j);
    assert forall x :: x in free ==> x + 2 <= b - 1 || e - 1 <= x;
    LinkedFrame(m, m', free, head, b - 1, e - 1);
    TrackMerged(m, m', blocks, free, pending, b, e, blocks[..k] + [b] + blocks[j..]);
  }

  /** The bookkeeping half of HeapMerge. */
  lemma TrackMerged(m: seq<Word>, m': seq<Word>, blocks: seq<nat>, free: seq<nat>, pending: set<nat>,
                    b: nat, e: nat, blocks': seq<nat>)
    requires Tracked(m, blocks, free, pending) && b in blocks && b < e && |m'| == |m|
    requires forall x :: x in free ==> x < b || e <= x
    requires forall x :: x in pending ==> b <= x < e
    requires forall x :: x in blocks' <==> x == b || (x in blocks && (x < b || e <= x))
    requires forall x :: x in blocks && (x < b || e <= x) ==> SameTags(m, m', x)
    ensures Tracked(m', blocks', free, if Alloc(m', b) == 0 then {b} else {})
  {
    var pending' := if Alloc(m', b) == 0 then {b} else {};
    forall x | x in blocks'
      ensures 1 <= x <= |m'| && (x in free <==> Alloc(m', x) == 0 && x !in pending')
    {
      if x != b {
        assert SameTags(m, m', x) && x !in pending;
      }
    }
  }

  /** place and the shrinking path of mm_realloc: `blocks[k]`, off the list,
      becomes an allocated block of `a` bytes and a pending free remainder. */
  lemma HeapSplit(m: seq<Word>, m': seq<Word>, brk: nat, blocks: seq<nat>, free: seq<nat>, head: nat,
                  pending: set<nat>, k: nat, a: nat, w1: Word, w2: Word)
    requires State(m, brk, blocks, free, head, pending) && k < |blocks| && |m'| == |m|
    requires blocks[k] !in free && forall x :: x in pending ==> x == blocks[k]
    requires a % ALIGNMENT == 0 && a >= MINBLOCKSIZE && Size(m, blocks[k]) >= a + MINBLOCKSIZE
    requires GetSize(w1) as int == a && GetAlloc(w1) == 1
    requires GetSize(w2) as int == Size(m, blocks[k]) - a && GetAlloc(w2) == 0
    requires blocks[k] + a / WSIZE - 2 >= 0
    requires NextBlkp(m, blocks[k]) - 2 < |m|
    requires m' == m[blocks[k] - 1 := w1][blocks[k] + a / WSIZE - 2 := w1]
                    [blocks[k] + a / WSIZE - 1 := w2][NextBlkp(m, blocks[k]) - 2 := w2]
    ensures blocks[k] + a / WSIZE < brk
    ensures State(m', brk, blocks[..k] + [blocks[k], blocks[k] + a / WSIZE] + blocks[k + 1..], free, head,
                  {blocks[k] + a / WSIZE})
    ensures NextBlkp(m', blocks[k]) == blocks[k] + a / WSIZE
    ensures Size(m', blocks[k]) == a && Alloc(m', blocks[k]) == 1
    ensures Size(m', blocks[k] + a / WSIZE) == Size(m, blocks[k]) - a
    ensures forall x :: x in blocks[..k] + [blocks[k], blocks[k] + a / WSIZE] + blocks[k + 1..] <==>
              x == blocks[k] + a / WSIZE || x in blocks
    ensures forall x :: x in blocks && x != blocks[k] ==> SameTags(m, m', x)
  {
    var b, e := blocks[k], NextBlkp(m, blocks[k]);
    RunBounds(m, brk, blocks, k, k + 1);
    WordsOfBytes(a);
    WordsOfBytes(Size(m, b));
    assert forall p :: 0 <= p < |m| ==>
      m'[p] == if p == b - 1 || p == b + a / WSIZE - 2 then w1
               else if p == b + a / WSIZE - 1 || p == e - 2 then w2
               else m[p];
    SplitBlock(m, m', brk, blocks, k, a, w1, w2);
    BlockFacts(m, brk, blocks);
    assert b in blocks;
    assert forall x :: x in free ==> x + 2 <= b - 1 || e - 1 <= x;
    LinkedFrame(m, m', free, head, b - 1, e - 1);
    assert b + a / WSIZE !in blocks;
    TrackSplit(m, m', blocks, free, pending, b, b + a / WSIZE,
               blocks[..k] + [b, b + a / WSIZE] + blocks[k + 1..]);
  }

  /** The bookkeeping half of HeapSplit. */
  lemma TrackSplit(m: seq<Word>, m': seq<Word>, blocks: seq<nat>, free: seq<nat>, pending: set<nat>,
                   b: nat, c: nat, blocks': seq<nat>)
    requires Tracked(m, blocks, free, pending) && b in blocks && b !in free && c !in blocks
    requires |m'| == |m| && 1 <= c <= |m|
    requires forall x :: x in pending ==> x == b
    requires forall x :: x in blocks' <==> x == c || x in blocks
    requires forall x :: x in blocks && x != b ==> SameTags(m, m', x)
    requires Alloc(m', b) == 1 && Alloc(m', c) == 0
    ensures Tracked(m', blocks', free, {c})
  {
    assert forall x :: x in blocks && x != b ==> Alloc(m', x) == Alloc(m, x);
  }

  /** extend_heap: the new block at the old break is appended to the layout
      and is pending. */
  lemma HeapExtend(m: seq<Word>, m': seq<Word>, brk: nat, blocks: seq<nat>, free: seq<nat>, head: nat,
                   size: nat, w: Word)
    requires State(m, brk, blocks, free, head, {}) && brk + size / WSIZE <= |m| && |m'| == |m|
    requires size >= MINBLOCKSIZE && size % ALIGNMENT == 0 && GetSize(w) as int == size && GetAlloc(w) == 0
    requires m' == m[brk - 1 := w][brk + size / WSIZE - 2 := w][brk + size / WSIZE - 1 := Pack(0, 1)]
    ensures State(m', brk + size / WSIZE, blocks + [brk], free, head, {brk})
    ensures Size(m', brk) == size && Alloc(m', brk) == 0
    ensures forall x :: x in blocks ==> SameTags(m, m', x)
  {
    WordsOfBytes(size);
    assert forall p :: 0 <= p < |m| ==>
      m'[p] == if p == brk - 1 || p == brk + size / WSIZE - 2 then w
               else if p == brk + size / WSIZE - 1 then Pack(0, 1)
               else m[p];
    ExtendTiled(m, m', brk, blocks, size, w);
    BlockFacts(m, brk, blocks);
    assert forall x :: x in free ==> x + 2 <= brk - 1;
    LinkedFrame(m, m', free, head, brk - 1, brk + size / WSIZE);
  }

  /** The index of the first list member of at least `asize` bytes, or
      `|free|` when there is none: the block find_fit is after. */
  ghost function FirstFit(m: seq<Word>, free: seq<nat>, asize: nat): (k: nat)
    requires forall i :: 0 <= i < |free| ==> 1 <= free[i] <= |m|
    ensures k <= |free|
    ensures k < |free| ==> Size(m, free[k]) >= asize
    ensures forall i :: 0 <= i < k ==> Size(m, free[i]) < asize
    decreases |free|
  {
    if |free| == 0 then 0
    else if Size(m, free[0]) >= asize then 0
    else 1 + FirstFit(m, free[1..], asize)
  }

  /** The position of `x` in `s`. */
  ghost function Position(s: seq<nat>, x: nat): (k: nat)
    requires x in s
    ensures k < |s| && s[k] == x
  {
    if s[0] == x then 0 else 1 + Position(s[1..], x)
  }

  /** PREV_BLKP of a block: the sentinel for the first block, otherwise the
      block before it. Either way it ends where `bp` starts, and its footer
      carries the same allocated bit as its header. */
  ghost function PrevNbr(m: seq<Word>, brk: nat, blocks: seq<nat>, bp: nat): (p: nat)
    requires Tiled(m, brk, blocks) && bp in blocks
    ensures p == PrevBlkp(m, bp)
    ensures p == DUMMY || p in blocks
    ensures 1 <= p <= |m| && NextBlkp(m, p) == bp
    ensures 0 <= Ftrp(m, p) < |m| && GetAlloc(m[Ftrp(m, p)]) as nat == Alloc(m, p)
    ensures p == DUMMY ==> Alloc(m, p) == 1
  {
    var k := Position(blocks, bp);
    PrevOf(m, brk, blocks, k);
    DummyTags(m);
    PrevBlkp(m, bp)
  }

  /** NEXT_BLKP of a block: the block after it, or the break when it is the
      last block; the epilogue header there reads as an allocated block of
      size 0. */
  ghost function NextNbr(m: seq<Word>, brk: nat, blocks: seq<nat>, bp: nat): (n: nat)
    requires Tiled(m, brk, blocks) && bp in blocks
    ensures n == NextBlkp(m, bp)
    ensures n == brk || n in blocks
    ensures bp + MINBLOCKSIZE / WSIZE <= n <= brk <= |m|
    ensures n == brk ==> Alloc(m, n) == 1 && Size(m, n) == 0
  {
    var k := Position(blocks, bp);
    NextOf(m, brk, blocks, k);
    BlockFacts(m, brk, blocks);
    assert k + 1 < |blocks| ==> blocks[k + 1] in blocks;
    NextBlkp(m, bp)
  }

  /** bp with the neighbours coalesce absorbs, in address order. */
  ghost function Neighbours(m: seq<Word>, brk: nat, blocks: seq<nat>, bp: nat, withPrev: bool, withNext: bool): seq<nat>
    requires Tiled(m, brk, blocks) && bp in blocks
  {
    (if withPrev then [PrevNbr(m, brk, blocks, bp)] else []) + [bp] +
    (if withNext then [NextNbr(m, brk, blocks, bp)] else [])
  }

  /** The run coalesce merges around bp, as indices `k..j` of the layout: it
      starts at the predecessor when `withPrev` and ends after the successor
      when `withNext`. Its blocks are exactly those in its address range, and
      its byte size is the sum of their sizes. */
  lemma NeighbourRun(m: seq<Word>, brk: nat, blocks: seq<nat>, bp: nat, withPrev: bool, withNext: bool)
    returns (k: nat, j: nat)
    requires Tiled(m, brk, blocks) && bp in blocks
    requires withPrev ==> PrevNbr(m, brk, blocks, bp) != DUMMY
    requires withNext ==> NextNbr(m, brk, blocks, bp) != brk
    ensures k < j <= |blocks|
    ensures blocks[k] == if withPrev then PrevNbr(m, brk, blocks, bp) else bp
    ensures withNext ==> 1 <= NextNbr(m, brk, blocks, bp) <= |m|
    ensures After(blocks, brk, j - 1) ==
              if withNext then NextBlkp(m, NextNbr(m, brk, blocks, bp)) else NextNbr(m, brk, blocks, bp)
    ensures blocks[k..j] == Neighbours(m, brk, blocks, bp, withPrev, withNext)
    ensures forall x :: x in blocks && blocks[k] <= x < After(blocks, brk, j - 1) <==>
              x in Neighbours(m, brk, blocks, bp, withPrev, withNext)
    ensures (After(blocks, brk, j - 1) - blocks[k]) * WSIZE ==
              (if withPrev then Size(m, PrevNbr(m, brk, blocks, bp)) else 0) + Size(m, bp) +
              (if withNext then Size(m, NextNbr(m, brk, blocks, bp)) else 0)
  {
    var i := NbrIndex(m, brk, blocks, bp);
    var p, n := PrevNbr(m, brk, blocks, bp), NextNbr(m, brk, blocks, bp);
    k := if withPrev then i - 1 else i;
    j := if withNext then i + 2 else i + 1;
    var run := blocks[k..j];
    assert |run| == j - k;
    assert run[i - k] == bp;
    assert withPrev ==> run[0] == p;
    assert withNext ==> run[i - k + 1] == n;
    assert run == Neighbours(m, brk, blocks, bp, withPrev, withNext);
    RunRange(m, brk, blocks, k, j);
  }

  /** Where bp and its two neighbours sit in the layout, and the sizes of
      the three in terms of their positions. */
  lemma NbrIndex(m: seq<Word>, brk: nat, blocks: seq<nat>, bp: nat) returns (i: nat)
    requires Tiled(m, brk, blocks) && bp in blocks
    ensures i < |blocks| && blocks[i] == bp
    ensures PrevNbr(m, brk, blocks, bp) != DUMMY ==> i > 0 && blocks[i - 1] == PrevNbr(m, brk, blocks, bp)
    ensures NextNbr(m, brk, blocks, bp) != brk ==> i + 1 < |blocks| && blocks[i + 1] == NextNbr(m, brk, blocks, bp)
    ensures After(blocks, brk, i) == NextNbr(m, brk, blocks, bp)
    ensures Size(m, bp) == (NextNbr(m, brk, blocks, bp) - bp) * WSIZE
    ensures PrevNbr(m, brk, blocks, bp) != DUMMY ==> Size(m, PrevNbr(m, brk, blocks, bp)) == (bp - PrevNbr(m, brk, blocks, bp)) * WSIZE
    ensures NextNbr(m, brk, blocks, bp) != brk ==>
      var n := NextNbr(m, brk, blocks, bp);
      1 <= n <= |m| && After(blocks, brk, i + 1) == NextBlkp(m, n) && Size(m, n) == (NextBlkp(m, n) - n) * WSIZE
  {
    i := Position(blocks, bp);
    var p, n := PrevNbr(m, brk, blocks, bp), NextNbr(m, brk, blocks, bp);
    PrevOf(m, brk, blocks, i);
    NextOf(m, brk, blocks, i);
    SizeSpan(m, brk, blocks, i);
    if p != DUMMY {
      assert i > 0 && blocks[i - 1] == p;
      SizeSpan(m, brk, blocks, i - 1);
    }
    if n != brk {
      assert i + 1 < |blocks| && blocks[i + 1] == n;
      NextOf(m, brk, blocks, i + 1);
      SizeSpan(m, brk, blocks, i + 1);
    }
  }

  /** coalesce's `!prev_alloc`: the allocated bit of the previous block's
      footer is clear. */
  ghost predicate PrevIsFree(m: seq<Word>, brk: nat, blocks: seq<nat>, bp: nat)
    requires Tiled(m, brk, blocks) && bp in blocks
  {
    Alloc(m, PrevNbr(m, brk, blocks, bp)) == 0
  }

  /** coalesce's `!next_alloc`: the allocated bit of the next block's header
      is clear (never so for the epilogue). */
  ghost predicate NextIsFree(m: seq<Word>, brk: nat, blocks: seq<nat>, bp: nat)
    requires Tiled(m, brk, blocks) && bp in blocks
  {
    Alloc(m, NextNbr(m, brk, blocks, bp)) == 0
  }

  /** Where the block coalesce returns starts: at the previous block when
      that one is free, otherwise at bp. */
  ghost function MergedStart(m: seq<Word>, brk: nat, blocks: seq<nat>, bp: nat): nat
    requires Tiled(m, brk, blocks) && bp in blocks
  {
    if PrevIsFree(m, brk, blocks, bp) then PrevNbr(m, brk, blocks, bp) else bp
  }

  /** The byte size of the block coalesce returns: bp's size plus those of
      its free neighbours. */
  ghost function MergedSize(m: seq<Word>, brk: nat, blocks: seq<nat>, bp: nat): nat
    requires Tiled(m, brk, blocks) && bp in blocks
  {
    (if PrevIsFree(m, brk, blocks, bp) then Size(m, PrevNbr(m, brk, blocks, bp)) else 0) + Size(m, bp) +
    (if NextIsFree(m, brk, blocks, bp) then Size(m, NextNbr(m, brk, blocks, bp)) else 0)
  }

  /** The free neighbours coalesce takes off the list. */
  ghost function Absorbed(m: seq<Word>, brk: nat, blocks: seq<nat>, bp: nat): set<nat>
    requires Tiled(m, brk, blocks) && bp in blocks
  {
    (if PrevIsFree(m, brk, blocks, bp) then {PrevNbr(m, brk, blocks, bp)} else {}) +
    (if NextIsFree(m, brk, blocks, bp) then {NextNbr(m, brk, blocks, bp)} else {})
  }

  /** The run coalesce merges, as indices `k..j` of the layout: it starts
      where the merged block starts, spans the merged size, and holds bp and
      the absorbed neighbours and no other block. */
  lemma MergedRun(m: seq<Word>, brk: nat, blocks: seq<nat>, bp: nat) returns (k: nat, j: nat)
    requires Tiled(m, brk, blocks) && bp in blocks
    ensures k < j <= |blocks| && blocks[k] == MergedStart(m, brk, blocks, bp)
    ensures (After(blocks, brk, j - 1) - blocks[k]) * WSIZE == MergedSize(m, brk, blocks, bp)
    ensures forall x :: x in blocks && blocks[k] <= x < After(blocks, brk, j - 1) <==>
              x == bp || x in Absorbed(m, brk, blocks, bp)
  {
    var withPrev, withNext := PrevIsFree(m, brk, blocks, bp), NextIsFree(m, brk, blocks, bp);
    k, j := NeighbourRun(m, brk, blocks, bp, withPrev, withNext);
    forall x ensures x in Neighbours(m, brk, blocks, bp, withPrev, withNext) <==>
                     x == bp || x in Absorbed(m, brk, blocks, bp)
    {
    }
  }

  /** The merged block lies inside the heap, its size fits a tag, and the
      absorbed neighbours are blocks other than bp. */
  lemma MergedFacts(m: seq<Word>, brk: nat, blocks: seq<nat>, bp: nat)
    requires Tiled(m, brk, blocks) && bp in blocks && |m| < 0x2000_0000
    ensures var r, size := MergedStart(m, brk, blocks, bp), MergedSize(m, brk, blocks, bp);
      && r in blocks && r <= bp && size % ALIGNMENT == 0 && size >= MINBLOCKSIZE
      && r + size / WSIZE <= brk && size < 0x8000_0000
    ensures forall x :: x in Absorbed(m, brk, blocks, bp) ==> x in blocks && x != bp
  {
    var k, j := MergedRun(m, brk, blocks, bp);
    var r, e := blocks[k], After(blocks, brk, j - 1);
    RunBounds(m, brk, blocks, k, j);
    assert r <= bp;
    assert Size(m, bp) >= MINBLOCKSIZE by {
      var i := Position(blocks, bp);
      NextOf(m, brk, blocks, i);
    }
    var p, n := PrevNbr(m, brk, blocks, bp), NextNbr(m, brk, blocks, bp);
    assert p < bp < n;
    var sp := if PrevIsFree(m, brk, blocks, bp) then Size(m, p) else 0;
    var sn := if NextIsFree(m, brk, blocks, bp) then Size(m, n) else 0;
    AlignedSum(sp, Size(m, bp));
    AlignedSum(sp + Size(m, bp), sn);
  }

  /** coalesce after taking the free neighbours off the list (`m1`) and
      re-tagging the merged block (`m2`): the merged block replaces its run
      in the layout and is the one pending block; the list is the old one
      without the absorbed neighbours; the blocks outside the merged one keep
      their tags. */
  lemma CoalesceMerge(m0: seq<Word>, m1: seq<Word>, m2: seq<Word>, brk: nat, blocks: seq<nat>,
                      free0: seq<nat>, free1: seq<nat>, head1: nat, bp: nat, size: nat)
    returns (blocks': seq<nat>)
    requires Tiled(m0, brk, blocks) && bp in blocks && bp !in free0
    requires State(m1, brk, blocks, free1, head1, {bp} + Absorbed(m0, brk, blocks, bp))
    requires forall x :: x in free1 ==> x in free0 && x !in Absorbed(m0, brk, blocks, bp)
    requires forall x :: x in blocks ==> SameTags(m0, m1, x)
    requires size == MergedSize(m0, brk, blocks, bp)
    requires var r := MergedStart(m0, brk, blocks, bp);
      Taggable(m1, r, size) && m2 == TagWords(m1, r, size, 0)
    ensures var r := MergedStart(m0, brk, blocks, bp);
      && State(m2, brk, blocks', free1, head1, {r})
      && r in blocks' && Size(m2, r) == size && Alloc(m2, r) == 0
      && (forall x :: x in blocks' <==> x == r || (x in blocks && (x < r || NextBlkp(m2, r) <= x)))
      && (forall x :: x in blocks && (x < r || NextBlkp(m2, r) <= x) ==> SameTags(m0, m2, x))
  {
    var k, j := MergedRun(m0, brk, blocks, bp);
    var r, e := blocks[k], After(blocks, brk, j - 1);
    var absorbed := Absorbed(m0, brk, blocks, bp);
    assert e == r + size / WSIZE;
    assert forall x :: x in free1 ==> x < r || e <= x by {
      forall x | x in free1 ensures x < r || e <= x {
        assert x in free0 && x !in absorbed && x != bp;
      }
    }
    HeapMerge(m1, m2, brk, blocks, free1, head1, {bp} + absorbed, k, j, Pack(size as Word, 0));
    blocks' := blocks[..k] + [r] + blocks[j..];
    forall x | x in blocks && (x < r || e <= x) ensures SameTags(m0, m2, x) {
      SameTagsTrans(m0, m1, m2, x);
    }
  }

  /** coalesce with both neighbours allocated: bp is the only block in its
      own address range. */
  lemma CoalesceAlone(m: seq<Word>, brk: nat, blocks: seq<nat>, bp: nat)
    requires Tiled(m, brk, blocks) && bp in blocks
    ensures forall x :: x in blocks <==> x == bp || (x in blocks && (x < bp || NextBlkp(m, bp) <= x))
  {
    var k, j := NeighbourRun(m, brk, blocks, bp, false, false);
  }

  /** remove_from_free on a member x, in terms of the heap invariant: its
      words are in range, and the words it leaves are the heap with x off the
      list and pending. */
  lemma Unlinking(m: seq<Word>, brk: nat, blocks: seq<nat>, free: seq<nat>, head: nat, pending: set<nat>, x: nat)
    requires State(m, brk, blocks, free, head, pending) && x in free
    ensures Unlinkable(m, x)
    ensures State(UnlinkWords(m, x), brk, blocks, Without(free, x), UnlinkHead(m, head, x), pending + {x})
    ensures forall y :: y in blocks ==> SameTags(m, UnlinkWords(m, x), y)
  {
    var k := Position(free, x);
    UnlinkWordsAt(m, free, head, k);
    HeapUnlink(m, UnlinkWords(m, x), brk, blocks, free, head, pending, k);
  }

  /** add_free on a pending block x, in terms of the heap invariant: its
      words are in range, and the words it leaves are the heap with x first
      on the list. */
  lemma Pushing(m: seq<Word>, brk: nat, blocks: seq<nat>, free: seq<nat>, head: nat, pending: set<nat>, x: nat)
    requires State(m, brk, blocks, free, head, pending) && x in pending
    ensures Pushable(m, head, x)
    ensures State(PushWords(m, head, x), brk, blocks, [x] + free, x, pending - {x})
    ensures forall y :: y in blocks ==> SameTags(m, PushWords(m, head, x), y)
  {
    BlockFacts(m, brk, blocks);
    assert head != DUMMY ==> head in blocks;
    PushWordsAt(m, head, x);
    HeapPush(m, PushWords(m, head, x), brk, blocks, free, head, pending, x);
  }

  /** The words coalesce reads before it writes anything: bp's own header,
      the previous block's footer (which locates that block, whose footer
      then gives its allocated bit) and the next block's header. */
  lemma CoalesceReads(m: seq<Word>, brk: nat, blocks: seq<nat>, bp: nat)
    requires Tiled(m, brk, blocks) && bp in blocks
    ensures 2 <= bp <= |m| && bp - GetSize(m[bp - 2]) as int / WSIZE == PrevNbr(m, brk, blocks, bp)
    ensures var p := PrevNbr(m, brk, blocks, bp);
      1 <= p && 0 <= p + GetSize(m[p - 1]) as int / WSIZE - 2 < |m| &&
      (GetAlloc(m[p + GetSize(m[p - 1]) as int / WSIZE - 2]) == 0 <==> PrevIsFree(m, brk, blocks, bp))
    ensures var n := NextNbr(m, brk, blocks, bp);
      bp + GetSize(m[bp - 1]) as int / WSIZE == n && 1 <= n <= |m| &&
      (GetAlloc(m[n - 1]) == 0 <==> NextIsFree(m, brk, blocks, bp))
    ensures var p, n := PrevNbr(m, brk, blocks, bp), NextNbr(m, brk, blocks, bp);
      GetSize(m[bp - 1]) as nat == Size(m, bp) && GetSize(m[p - 1]) as nat == Size(m, p) &&
      GetSize(m[n - 1]) as nat == Size(m, n)
  {
    BlockFacts(m, brk, blocks);
  }

  /** What coalesce leaves, from the words `m0` and layout `blocks` it
      started with: the merged block heads the list, which otherwise is the
      old list without the absorbed neighbours; the merged block replaces bp
      and those neighbours in the layout; every block outside it keeps its
      tags; and the heap invariant holds with nothing pending. */
  ghost predicate CoalesceOutcome(m0: seq<Word>, brk: nat, blocks: seq<nat>, free0: seq<nat>, bp: nat,
                                  m3: seq<Word>, blocks': seq<nat>)
    requires Tiled(m0, brk, blocks) && bp in blocks
  {
    var r := MergedStart(m0, brk, blocks, bp);
    && State(m3, brk, blocks', [r] + Filter(free0, Absorbed(m0, brk, blocks, bp)), r, {})
    && r in blocks' && Alloc(m3, r) == 0 && Size(m3, r) == MergedSize(m0, brk, blocks, bp)
    && (forall x :: x in blocks' <==> x == r || (x in blocks && (x < r || NextBlkp(m3, r) <= x)))
    && (forall x :: x in blocks && (x < r || NextBlkp(m3, r) <= x) ==> SameTags(m0, m3, x))
  }

  /** The common end of the three merging cases of coalesce: re-tag the
      merged block, then push it on the list. */
  lemma CoalesceFinish(m0: seq<Word>, m1: seq<Word>, brk: nat, blocks: seq<nat>,
                       free0: seq<nat>, free1: seq<nat>, head1: nat, bp: nat, size: nat)
    returns (blocks': seq<nat>)
    requires Tiled(m0, brk, blocks) && bp in blocks && bp !in free0 && |m0| < 0x2000_0000
    requires State(m1, brk, blocks, free1, head1, {bp} + Absorbed(m0, brk, blocks, bp))
    requires free1 == Filter(free0, Absorbed(m0, brk, blocks, bp))
    requires forall x :: x in blocks ==> SameTags(m0, m1, x)
    requires size == MergedSize(m0, brk, blocks, bp)
    ensures var r := MergedStart(m0, brk, blocks, bp);
      && Taggable(m1, r, size) && Pushable(TagWords(m1, r, size, 0), head1, r)
    ensures var r := MergedStart(m0, brk, blocks, bp);
      CoalesceOutcome(m0, brk, blocks, free0, bp, PushWords(TagWords(m1, r, size, 0), head1, r), blocks')
  {
    MergedFacts(m0, brk, blocks, bp);
    var r := MergedStart(m0, brk, blocks, bp);
    var m2 := TagWords(m1, r, size, 0);
    blocks' := CoalesceMerge(m0, m1, m2, brk, blocks, free0, free1, head1, bp, size);
    Pushing(m2, brk, blocks', free1, head1, {r}, r);
    var m3 := PushWords(m2, head1, r);
    assert {r} - {r} == {};
    assert SameTags(m2, m3, r);
    forall x | x in blocks && (x < r || NextBlkp(m3, r) <= x) ensures SameTags(m0, m3, x) {
      SameTagsTrans(m0, m2, m3, x);
    }
  }

  /** coalesce when only the next block is free: unlink it, re-tag bp over
      both, push bp. */
  lemma CoalesceNextCase(m0: seq<Word>, brk: nat, blocks: seq<nat>, free0: seq<nat>, head0: nat, bp: nat)
    returns (blocks': seq<nat>)
    requires State(m0, brk, blocks, free0, head0, {bp}) && |m0| < 0x2000_0000
    requires !PrevIsFree(m0, brk, blocks, bp) && NextIsFree(m0, brk, blocks, bp)
    ensures Unlinkable(m0, NextNbr(m0, brk, blocks, bp))
    ensures MergedStart(m0, brk, blocks, bp) == bp
    ensures 1 <= NextNbr(m0, brk, blocks, bp) <= |m0|
    ensures MergedSize(m0, brk, blocks, bp) == Size(m0, bp) + Size(m0, NextNbr(m0, brk, blocks, bp))
    ensures var n, r, size := NextNbr(m0, brk, blocks, bp), MergedStart(m0, brk, blocks, bp), MergedSize(m0, brk, blocks, bp);
      var m1, head1 := UnlinkWords(m0, n), UnlinkHead(m0, head0, n);
      && Taggable(m1, r, size) && Pushable(TagWords(m1, r, size, 0), head1, r)
      && CoalesceOutcome(m0, brk, blocks, free0, bp, PushWords(TagWords(m1, r, size, 0), head1, r), blocks')
  {
    var n := NextNbr(m0, brk, blocks, bp);
    assert MergedSize(m0, brk, blocks, bp) == Size(m0, bp) + Size(m0, n);
    assert Absorbed(m0, brk, blocks, bp) == {n};
    MergedFacts(m0, brk, blocks, bp);
    Unlinking(m0, brk, blocks, free0, head0, {bp}, n);
    blocks' := CoalesceFinish(m0, UnlinkWords(m0, n), brk, blocks, free0, Without(free0, n),
                              UnlinkHead(m0, head0, n), bp, MergedSize(m0, brk, blocks, bp));
  }

  /** coalesce when only the previous block is free: unlink it, re-tag it
      over both, push it. */
  lemma CoalescePrevCase(m0: seq<Word>, brk: nat, blocks: seq<nat>, free0: seq<nat>, head0: nat, bp: nat)
    returns (blocks': seq<nat>)
    requires State(m0, brk, blocks, free0, head0, {bp}) && |m0| < 0x2000_0000
    requires PrevIsFree(m0, brk, blocks, bp) && !NextIsFree(m0, brk, blocks, bp)
    ensures Unlinkable(m0, PrevNbr(m0, brk, blocks, bp))
    ensures MergedStart(m0, brk, blocks, bp) == PrevNbr(m0, brk, blocks, bp)
    ensures MergedSize(m0, brk, blocks, bp) == Size(m0, bp) + Size(m0, PrevNbr(m0, brk, blocks, bp))
    ensures var p, r, size := PrevNbr(m0, brk, blocks, bp), MergedStart(m0, brk, blocks, bp), MergedSize(m0, brk, blocks, bp);
      var m1, head1 := UnlinkWords(m0, p), UnlinkHead(m0, head0, p);
      && Taggable(m1, r, size) && Pushable(TagWords(m1, r, size, 0), head1, r)
      && CoalesceOutcome(m0, brk, blocks, free0, bp, PushWords(TagWords(m1, r, size, 0), head1, r), blocks')
  {
    var p := PrevNbr(m0, brk, blocks, bp);
    assert MergedSize(m0, brk, blocks, bp) == Size(m0, bp) + Size(m0, p);
    assert Absorbed(m0, brk, blocks, bp) == {p};
    MergedFacts(m0, brk, blocks, bp);
    Unlinking(m0, brk, blocks, free0, head0, {bp}, p);
    blocks' := CoalesceFinish(m0, UnlinkWords(m0, p), brk, blocks, free0, Without(free0, p),
                              UnlinkHead(m0, head0, p), bp, MergedSize(m0, brk, blocks, bp));
  }

  /** The two remove_from_free calls of coalesce when both neighbours are
      free: first the previous block, then the next one. Their words are in
      range, the merged block starts at the previous block and spans all
      three, and every tag survives, among them the previous block's footer,
      through which coalesce finds that block again. */
  lemma UnlinkBoth(m0: seq<Word>, brk: nat, blocks: seq<nat>, free0: seq<nat>, head0: nat, bp: nat)
    requires State(m0, brk, blocks, free0, head0, {bp}) && |m0| < 0x2000_0000
    requires PrevIsFree(m0, brk, blocks, bp) && NextIsFree(m0, brk, blocks, bp)
    ensures Unlinkable(m0, PrevNbr(m0, brk, blocks, bp))
    ensures Unlinkable(UnlinkWords(m0, PrevNbr(m0, brk, blocks, bp)), NextNbr(m0, brk, blocks, bp))
    ensures MergedStart(m0, brk, blocks, bp) == PrevNbr(m0, brk, blocks, bp)
    ensures 1 <= NextNbr(m0, brk, blocks, bp) <= |m0|
    ensures MergedSize(m0, brk, blocks, bp) ==
              Size(m0, bp) + Size(m0, PrevNbr(m0, brk, blocks, bp)) + Size(m0, NextNbr(m0, brk, blocks, bp))
    ensures var p, n := PrevNbr(m0, brk, blocks, bp), NextNbr(m0, brk, blocks, bp);
      var ma, heada := UnlinkWords(m0, p), UnlinkHead(m0, head0, p);
      var m1, head1 := UnlinkWords(ma, n), UnlinkHead(ma, heada, n);
      State(m1, brk, blocks, Filter(free0, Absorbed(m0, brk, blocks, bp)), head1, {bp} + Absorbed(m0, brk, blocks, bp))
    ensures var p, n := PrevNbr(m0, brk, blocks, bp), NextNbr(m0, brk, blocks, bp);
      var m1 := UnlinkWords(UnlinkWords(m0, p), n);
      forall x :: x in blocks ==> SameTags(m0, m1, x)
  {
    var p, n := PrevNbr(m0, brk, blocks, bp), NextNbr(m0, brk, blocks, bp);
    assert MergedStart(m0, brk, blocks, bp) == p;
    assert MergedSize(m0, brk, blocks, bp) == Size(m0, bp) + Size(m0, p) + Size(m0, n);
    assert Ftrp(m0, p) == bp - 2;
    MergedFacts(m0, brk, blocks, bp);
    assert Absorbed(m0, brk, blocks, bp) == {p} + {n};
    assert p in free0 && n in free0 && p != n;
    FilterFilter(free0, {p}, {n});
    assert Without(Without(free0, p), n) == Filter(free0, Absorbed(m0, brk, blocks, bp));
    assert {bp} + {p} + {n} == {bp} + Absorbed(m0, brk, blocks, bp);
    Unlinking(m0, brk, blocks, free0, head0, {bp}, p);
    var ma, heada, freea := UnlinkWords(m0, p), UnlinkHead(m0, head0, p), Without(free0, p);
    assert n in freea;
    Unlinking(ma, brk, blocks, freea, heada, {bp} + {p}, n);
    var m1 := UnlinkWords(ma, n);
    assert SameTags(m0, m1, p) by {
      SameTagsTrans(m0, ma, m1, p);
    }
    SameFooter(m0, m1, p, bp - 2);
    forall x | x in blocks ensures SameTags(m0, m1, x) {
      SameTagsTrans(m0, ma, m1, x);
    }
  }

  /** coalesce when both neighbours are free: unlink both (`UnlinkBoth`),
      re-tag the previous block over all three, push it. */
  lemma CoalesceBothCase(m0: seq<Word>, brk: nat, blocks: seq<nat>, free0: seq<nat>, head0: nat, bp: nat)
    returns (blocks': seq<nat>)
    requires State(m0, brk, blocks, free0, head0, {bp}) && |m0| < 0x2000_0000
    requires PrevIsFree(m0, brk, blocks, bp) && NextIsFree(m0, brk, blocks, bp)
    requires Unlinkable(m0, PrevNbr(m0, brk, blocks, bp))
    requires Unlinkable(UnlinkWords(m0, PrevNbr(m0, brk, blocks, bp)), NextNbr(m0, brk, blocks, bp))
    ensures var p, n, r, size := PrevNbr(m0, brk, blocks, bp), NextNbr(m0, brk, blocks, bp), MergedStart(m0, brk, blocks, bp), MergedSize(m0, brk, blocks, bp);
      var ma, heada := UnlinkWords(m0, p), UnlinkHead(m0, head0, p);
      var m1, head1 := UnlinkWords(ma, n), UnlinkHead(ma, heada, n);
      && Taggable(m1, r, size) && Pushable(TagWords(m1, r, size, 0), head1, r)
      && CoalesceOutcome(m0, brk, blocks, free0, bp, PushWords(TagWords(m1, r, size, 0), head1, r), blocks')
  {
    var p, n := PrevNbr(m0, brk, blocks, bp), NextNbr(m0, brk, blocks, bp);
    assert bp !in free0;
    UnlinkBoth(m0, brk, blocks, free0, head0, bp);
    var ma, heada := UnlinkWords(m0, p), UnlinkHead(m0, head0, p);
    blocks' := CoalesceFinish(m0, UnlinkWords(ma, n), brk, blocks, free0,
                              Filter(free0, Absorbed(m0, brk, blocks, bp)),
                              UnlinkHead(ma, heada, n), bp, MergedSize(m0, brk, blocks, bp));
  }

  /** coalesce when both neighbours are allocated: bp is pushed as it is. */
  lemma CoalesceAloneCase(m0: seq<Word>, brk: nat, blocks: seq<nat>, free0: seq<nat>, head0: nat, bp: nat)
    requires State(m0, brk, blocks, free0, head0, {bp})
    requires !PrevIsFree(m0, brk, blocks, bp) && !NextIsFree(m0, brk, blocks, bp)
    ensures Pushable(m0, head0, bp)
    ensures CoalesceOutcome(m0, brk, blocks, free0, bp, PushWords(m0, head0, bp), blocks)
  {
    assert MergedStart(m0, brk, blocks, bp) == bp;
    assert MergedSize(m0, brk, blocks, bp) == Size(m0, bp);
    assert Absorbed(m0, brk, blocks, bp) == {} && {bp} - {bp} == {};
    NotInFilter(free0, {});
    CoalesceAlone(m0, brk, blocks, bp);
    Pushing(m0, brk, blocks, free0, head0, {bp}, bp);
    SameSize(m0, PushWords(m0, head0, bp), bp);
  }
  /** Serves coalesce's next-free case (mm.c:314-319): the bounds its
      writes need, so that the next block can be unlinked and bp then
      tagged over both. */
  lemma NextSteps(m0: seq<Word>, brk: nat, blocks: seq<nat>, free0: seq<nat>, head0: nat, bp: nat)
    requires State(m0, brk, blocks, free0, head0, {bp}) && |m0| < 0x2000_0000
    requires !PrevIsFree(m0, brk, blocks, bp) && NextIsFree(m0, brk, blocks, bp)
    ensures var n, size := NextNbr(m0, brk, blocks, bp), MergedSize(m0, brk, blocks, bp);
      Unlinkable(m0, n) && Taggable(UnlinkWords(m0, n), bp, size) && size == Size(m0, bp) + Size(m0, n)
  {
    var _ := CoalesceNextCase(m0, brk, blocks, free0, head0, bp);
  }

  /** Serves coalesce's previous-free case (mm.c:321-327): the bounds its
      writes need, so that the previous block can be unlinked and then
      tagged over both. */
  lemma PrevSteps(m0: seq<Word>, brk: nat, blocks: seq<nat>, free0: seq<nat>, head0: nat, bp: nat)
    requires State(m0, brk, blocks, free0, head0, {bp}) && |m0| < 0x2000_0000
    requires PrevIsFree(m0, brk, blocks, bp) && !NextIsFree(m0, brk, blocks, bp)
    ensures var p, size := PrevNbr(m0, brk, blocks, bp), MergedSize(m0, brk, blocks, bp);
      Unlinkable(m0, p) && Taggable(UnlinkWords(m0, p), p, size) && size == Size(m0, bp) + Size(m0, p)
  {
    var _ := CoalescePrevCase(m0, brk, blocks, free0, head0, bp);
  }

  /** Serves coalesce's both-free case (mm.c:329-336): the bounds its
      writes need, so that the previous block and then the next one can be
      unlinked, and the previous block then tagged over all three. */
  lemma BothSteps(m0: seq<Word>, brk: nat, blocks: seq<nat>, free0: seq<nat>, head0: nat, bp: nat)
    requires State(m0, brk, blocks, free0, head0, {bp}) && |m0| < 0x2000_0000
    requires PrevIsFree(m0, brk, blocks, bp) && NextIsFree(m0, brk, blocks, bp)
    ensures var p, n, size := PrevNbr(m0, brk, blocks, bp), NextNbr(m0, brk, blocks, bp), MergedSize(m0, brk, blocks, bp);
      Unlinkable(m0, p) && Unlinkable(UnlinkWords(m0, p), n) &&
      Taggable(UnlinkWords(UnlinkWords(m0, p), n), p, size) && size == Size(m0, bp) + Size(m0, p) + Size(m0, n)
  {
    UnlinkBoth(m0, brk, blocks, free0, head0, bp);
    var _ := CoalesceBothCase(m0, brk, blocks, free0, head0, bp);
  }

  /** Serves all three merging cases of coalesce (mm.c:314-336): the step
      lemmas together, for whichever case applies. */
  lemma MergeSteps(m0: seq<Word>, brk: nat, blocks: seq<nat>, free0: seq<nat>, head0: nat, bp: nat)
    requires State(m0, brk, blocks, free0, head0, {bp}) && |m0| < 0x2000_0000
    ensures var n, size := NextNbr(m0, brk, blocks, bp), MergedSize(m0, brk, blocks, bp);
      !PrevIsFree(m0, brk, blocks, bp) && NextIsFree(m0, brk, blocks, bp) ==>
        Unlinkable(m0, n) && Taggable(UnlinkWords(m0, n), bp, size)
    ensures var p, size := PrevNbr(m0, brk, blocks, bp), MergedSize(m0, brk, blocks, bp);
      PrevIsFree(m0, brk, blocks, bp) && !NextIsFree(m0, brk, blocks, bp) ==>
        Unlinkable(m0, p) && Taggable(UnlinkWords(m0, p), p, size)
    ensures var p, n, size := PrevNbr(m0, brk, blocks, bp), NextNbr(m0, brk, blocks, bp), MergedSize(m0, brk, blocks, bp);
      PrevIsFree(m0, brk, blocks, bp) && NextIsFree(m0, brk, blocks, bp) ==>
        Unlinkable(m0, p) && Unlinkable(UnlinkWords(m0, p), n) && Taggable(UnlinkWords(UnlinkWords(m0, p), n), p, size)
  {
    if !PrevIsFree(m0, brk, blocks, bp) && NextIsFree(m0, brk, blocks, bp) {
      NextSteps(m0, brk, blocks, free0, head0, bp);
    } else if PrevIsFree(m0, brk, blocks, bp) && !NextIsFree(m0, brk, blocks, bp) {
      PrevSteps(m0, brk, blocks, free0, head0, bp);
    } else if PrevIsFree(m0, brk, blocks, bp) && NextIsFree(m0, brk, blocks, bp) {
      BothSteps(m0, brk, blocks, free0, head0, bp);
    }
  }

  /** Serves the both-free case (mm.c:331-333): its two unlinks keep the
      previous block's footer, through which PREV_BLKP locates that block
      afterwards. */
  lemma BothKeepFooter(m0: seq<Word>, brk: nat, blocks: seq<nat>, free0: seq<nat>, head0: nat, bp: nat)
    requires State(m0, brk, blocks, free0, head0, {bp}) && |m0| < 0x2000_0000
    requires PrevIsFree(m0, brk, blocks, bp) && NextIsFree(m0, brk, blocks, bp)
    ensures var p, n := PrevNbr(m0, brk, blocks, bp), NextNbr(m0, brk, blocks, bp);
      Unlinkable(m0, p) && Unlinkable(UnlinkWords(m0, p), n) && 1 <= p <= |m0| && Ftrp(m0, p) == bp - 2 &&
      SameTags(m0, UnlinkWords(UnlinkWords(m0, p), n), p)
  {
    var p, n := PrevNbr(m0, brk, blocks, bp), NextNbr(m0, brk, blocks, bp);
    assert Ftrp(m0, p) == bp - 2 && p != n;
    Unlinking(m0, brk, blocks, free0, head0, {bp}, p);
    var ma := UnlinkWords(m0, p);
    assert n in Without(free0, p);
    Unlinking(ma, brk, blocks, Without(free0, p), UnlinkHead(m0, head0, p), {bp} + {p}, n);
    SameTagsTrans(m0, ma, UnlinkWords(ma, n), p);
  }

  /** The words and the list head coalesce leaves just before its closing
      add_free, in any of its three merging cases (mm.c:314-336): the free
      neighbours unlinked and the merged block tagged free. */
  ghost function Premerged(m0: seq<Word>, brk: nat, blocks: seq<nat>, free0: seq<nat>, head0: nat, bp: nat): (seq<Word>, nat)
    requires State(m0, brk, blocks, free0, head0, {bp}) && |m0| < 0x2000_0000
  {
    MergeSteps(m0, brk, blocks, free0, head0, bp);
    var p, n := PrevNbr(m0, brk, blocks, bp), NextNbr(m0, brk, blocks, bp);
    var r, size := MergedStart(m0, brk, blocks, bp), MergedSize(m0, brk, blocks, bp);
    if PrevIsFree(m0, brk, blocks, bp) && NextIsFree(m0, brk, blocks, bp) then
      var ma, heada := UnlinkWords(m0, p), UnlinkHead(m0, head0, p);
      (TagWords(UnlinkWords(ma, n), r, size, 0), UnlinkHead(ma, heada, n))
    else if PrevIsFree(m0, brk, blocks, bp) then
      (TagWords(UnlinkWords(m0, p), r, size, 0), UnlinkHead(m0, head0, p))
    else if NextIsFree(m0, brk, blocks, bp) then
      (TagWords(UnlinkWords(m0, n), r, size, 0), UnlinkHead(m0, head0, n))
    else
      (m0, head0)
  }

  /** Serves the both-free case (mm.c:329-336): Premerged written out. */
  lemma PremergedBoth(m0: seq<Word>, brk: nat, blocks: seq<nat>, free0: seq<nat>, head0: nat, bp: nat)
    requires State(m0, brk, blocks, free0, head0, {bp}) && |m0| < 0x2000_0000
    requires PrevIsFree(m0, brk, blocks, bp) && NextIsFree(m0, brk, blocks, bp)
    ensures var p, n, size := PrevNbr(m0, brk, blocks, bp), NextNbr(m0, brk, blocks, bp), MergedSize(m0, brk, blocks, bp);
      Unlinkable(m0, p) && Unlinkable(UnlinkWords(m0, p), n) && Taggable(UnlinkWords(UnlinkWords(m0, p), n), p, size) &&
      Premerged(m0, brk, blocks, free0, head0, bp) ==
        (TagWords(UnlinkWords(UnlinkWords(m0, p), n), p, size, 0), UnlinkHead(UnlinkWords(m0, p), UnlinkHead(m0, head0, p), n))
  {
    BothSteps(m0, brk, blocks, free0, head0, bp);
  }

  /** Serves the previous-free case (mm.c:321-327): Premerged written out. */
  lemma PremergedPrev(m0: seq<Word>, brk: nat, blocks: seq<nat>, free0: seq<nat>, head0: nat, bp: nat)
    requires State(m0, brk, blocks, free0, head0, {bp}) && |m0| < 0x2000_0000
    requires PrevIsFree(m0, brk, blocks, bp) && !NextIsFree(m0, brk, blocks, bp)
    ensures var p, size := PrevNbr(m0, brk, blocks, bp), MergedSize(m0, brk, blocks, bp);
      Unlinkable(m0, p) && Taggable(UnlinkWords(m0, p), p, size) &&
      Premerged(m0, brk, blocks, free0, head0, bp) == (TagWords(UnlinkWords(m0, p), p, size, 0), UnlinkHead(m0, head0, p))
  {
    PrevSteps(m0, brk, blocks, free0, head0, bp);
  }

  /** Serves the next-free case (mm.c:314-319): Premerged written out. */
  lemma PremergedNext(m0: seq<Word>, brk: nat, blocks: seq<nat>, free0: seq<nat>, head0: nat, bp: nat)
    requires State(m0, brk, blocks, free0, head0, {bp}) && |m0| < 0x2000_0000
    requires !PrevIsFree(m0, brk, blocks, bp) && NextIsFree(m0, brk, blocks, bp)
    ensures var n, size := NextNbr(m0, brk, blocks, bp), MergedSize(m0, brk, blocks, bp);
      Unlinkable(m0, n) && Taggable(UnlinkWords(m0, n), bp, size) &&
      Premerged(m0, brk, blocks, free0, head0, bp) == (TagWords(UnlinkWords(m0, n), bp, size, 0), UnlinkHead(m0, head0, n))
  {
    NextSteps(m0, brk, blocks, free0, head0, bp);
  }

  /** Serves the closing add_free of every case (mm.c:337): the merged
      block can be pushed on the list that the merging steps leave. */
  lemma CoalescePushable(m0: seq<Word>, brk: nat, blocks: seq<nat>, free0: seq<nat>, head0: nat, bp: nat)
    requires State(m0, brk, blocks, free0, head0, {bp}) && |m0| < 0x2000_0000
    ensures var mh := Premerged(m0, brk, blocks, free0, head0, bp);
      Pushable(mh.0, mh.1, MergedStart(m0, brk, blocks, bp))
  {
    var _ := CoalesceCases(m0, brk, blocks, free0, head0, bp);
  }

  /** Whichever case coalesce takes, pushing the merged block on the list
      completes it (`CoalesceOutcome`). */
  lemma CoalesceCases(m0: seq<Word>, brk: nat, blocks: seq<nat>, free0: seq<nat>, head0: nat, bp: nat)
    returns (blocks': seq<nat>)
    requires State(m0, brk, blocks, free0, head0, {bp}) && |m0| < 0x2000_0000
    ensures var mh, r := Premerged(m0, brk, blocks, free0, head0, bp), MergedStart(m0, brk, blocks, bp);
      Pushable(mh.0, mh.1, r) && CoalesceOutcome(m0, brk, blocks, free0, bp, PushWords(mh.0, mh.1, r), blocks')
  {
    MergeSteps(m0, brk, blocks, free0, head0, bp);
    if !PrevIsFree(m0, brk, blocks, bp) && NextIsFree(m0, brk, blocks, bp) {
      blocks' := CoalesceNextCase(m0, brk, blocks, free0, head0, bp);
    } else if PrevIsFree(m0, brk, blocks, bp) && !NextIsFree(m0, brk, blocks, bp) {
      blocks' := CoalescePrevCase(m0, brk, blocks, free0, head0, bp);
    } else if PrevIsFree(m0, brk, blocks, bp) && NextIsFree(m0, brk, blocks, bp) {
      UnlinkBoth(m0, brk, blocks, free0, head0, bp);
      blocks' := CoalesceBothCase(m0, brk, blocks, free0, head0, bp);
    } else {
      CoalesceAloneCase(m0, brk, blocks, free0, head0, bp);
      blocks' := blocks;
    }
  }

  /** Serves every case through to the return (mm.c:337-338): the
      outcome of CoalesceCases, stated for the words `m3` the final add_free
      left. */
  lemma CoalesceDone(m0: seq<Word>, brk: nat, blocks: seq<nat>, free0: seq<nat>, head0: nat, bp: nat, m3: seq<Word>)
    returns (blocks': seq<nat>)
    requires State(m0, brk, blocks, free0, head0, {bp}) && |m0| < 0x2000_0000
    requires var mh, r := Premerged(m0, brk, blocks, free0, head0, bp), MergedStart(m0, brk, blocks, bp);
      Pushable(mh.0, mh.1, r) && m3 == PushWords(mh.0, mh.1, r)
    ensures CoalesceOutcome(m0, brk, blocks, free0, bp, m3, blocks')
  {
    blocks' := CoalesceCases(m0, brk, blocks, free0, head0, bp);
  }
}
