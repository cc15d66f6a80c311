/** The heap invariant across the remaining steps of the allocator: mm_free's
    re-tagging, place's split, extend_heap's new block, mm_init's first
    block and the in-place paths of mm_realloc; and the guarantee that
    allocated blocks other than the one an operation works on keep their
    header and footer. */
module Operations {
  import opened Codec
  import opened Layout
  import opened FreeList
  import opened Heap

  /** `x` is an allocated block of the layout. */
  ghost predicate IsAllocated(m: seq<Word>, blocks: seq<nat>, x: nat)
  {
    x in blocks && 1 <= x <= |m| && Alloc(m, x) == 1
  }

  /** Every block allocated in `m0` other than `except` is still a block of
      `blocks'` and has the same header and footer in `m'`. */
  ghost predicate KeepsAllocated(m0: seq<Word>, blocks0: seq<nat>, m': seq<Word>, blocks': seq<nat>, except: set<nat>)
  {
    forall x :: IsAllocated(m0, blocks0, x) && x !in except ==> x in blocks' && SameTags(m0, m', x)
  }

  /** Block bp's header and footer re-packed with its own size and the
      allocated bit alloc (mm_free clears it, place sets it). */
  ghost function Retagged(m: seq<Word>, brk: nat, blocks: seq<nat>, bp: nat, alloc: Word): (m': seq<Word>)
    requires Tiled(m, brk, blocks) && bp in blocks && alloc <= 1
    ensures Taggable(m, bp, Size(m, bp)) && m' == TagWords(m, bp, Size(m, bp), alloc)
  {
    BlockFacts(m, brk, blocks);
    TagWords(m, bp, Size(m, bp), alloc)
  }

  /** Rewriting the tags of block bp with the allocated bit alloc, keeping
      its size: the heap invariant holds again, with bp left pending when
      it is now free and off the list. */
  lemma Retagging(m: seq<Word>, brk: nat, blocks: seq<nat>, free: seq<nat>, head: nat, pending: set<nat>,
                  bp: nat, alloc: Word)
    requires State(m, brk, blocks, free, head, pending) && bp in blocks && bp !in free
    requires pending <= {bp} && alloc <= 1
    ensures var m' := Retagged(m, brk, blocks, bp, alloc);
      && State(m', brk, blocks, free, head, if alloc == 0 then {bp} else {})
      && Size(m', bp) == Size(m, bp) && Alloc(m', bp) == alloc as nat
      && (forall x :: x in blocks && x != bp ==> SameTags(m, m', x))
  {
    var m' := Retagged(m, brk, blocks, bp, alloc);
    var k := Position(blocks, bp);
    SizeSpan(m, brk, blocks, k);
    BlockFacts(m, brk, blocks);
    var e := After(blocks, brk, k);
    assert forall x :: x in free ==> x < bp || e <= x by {
      forall x | x in free ensures x < bp || e <= x {
        assert x in blocks && x != bp;
      }
    }
    assert blocks[..k] + [blocks[k]] + blocks[k + 1..] == blocks;
    HeapMerge(m, m', brk, blocks, free, head, pending, k, k + 1, Pack(Size(m, bp) as Word, alloc));
  }

  /** mm_free's retagging of an allocated block: it becomes free, same size,
      pending until coalesce links it. */
  lemma Freeing(m: seq<Word>, brk: nat, blocks: seq<nat>, free: seq<nat>, head: nat, bp: nat)
    requires State(m, brk, blocks, free, head, {}) && IsAllocated(m, blocks, bp)
    ensures var m' := Retagged(m, brk, blocks, bp, 0);
      && State(m', brk, blocks, free, head, {bp})
      && Size(m', bp) == Size(m, bp) && Alloc(m', bp) == 0
      && (forall x :: x in blocks && x != bp ==> SameTags(m, m', x))
  {
    assert bp !in free;
    Retagging(m, brk, blocks, free, head, {}, bp, 0);
  }

  /** place without a split: the block is unlinked and retagged allocated
      with its whole size; every other block keeps its tags. */
  lemma PlaceWhole(m0: seq<Word>, brk: nat, blocks: seq<nat>, free0: seq<nat>, head0: nat, bp: nat)
    requires State(m0, brk, blocks, free0, head0, {}) && bp in free0
    ensures Unlinkable(m0, bp) && bp in blocks && Tiled(UnlinkWords(m0, bp), brk, blocks)
    ensures var m2 := Retagged(UnlinkWords(m0, bp), brk, blocks, bp, 1);
      && State(m2, brk, blocks, Without(free0, bp), UnlinkHead(m0, head0, bp), {})
      && IsAllocated(m2, blocks, bp) && Size(m2, bp) == Size(m0, bp)
      && KeepsAllocated(m0, blocks, m2, blocks, {bp})
  {
    var m1 := UnlinkWords(m0, bp);
    Unlinking(m0, brk, blocks, free0, head0, {}, bp);
    Retagging(m1, brk, blocks, Without(free0, bp), UnlinkHead(m0, head0, bp), {bp}, bp, 1);
    var m2 := Retagged(m1, brk, blocks, bp, 1);
    SameSize(m0, m1, bp);
    BlockFacts(m2, brk, blocks);
    forall x | IsAllocated(m0, blocks, x) && x !in {bp} ensures x in blocks && SameTags(m0, m2, x) {
      SameTagsTrans(m0, m1, m2, x);
    }
  }


  /** coalesce never touches an allocated block other than the one it is
      given: the merged block holds only bp and free neighbours. */
  lemma CoalesceKeeps(m0: seq<Word>, brk: nat, blocks: seq<nat>, free0: seq<nat>, bp: nat,
                      m3: seq<Word>, blocks': seq<nat>)
    requires Tiled(m0, brk, blocks) && bp in blocks
    requires CoalesceOutcome(m0, brk, blocks, free0, bp, m3, blocks')
    ensures KeepsAllocated(m0, blocks, m3, blocks', {bp})
  {
    var k, j := MergedRun(m0, brk, blocks, bp);
    var r := MergedStart(m0, brk, blocks, bp);
    assert NextBlkp(m3, r) == After(blocks, brk, j - 1);
    forall x | IsAllocated(m0, blocks, x) && x !in {bp}
      ensures x in blocks' && SameTags(m0, m3, x)
    {
      assert x !in Absorbed(m0, brk, blocks, bp);
    }
  }

  /** After coalesce, bp is no allocated block: it is the merged free block
      or lies inside it. */
  lemma CoalesceReleases(m0: seq<Word>, brk: nat, blocks: seq<nat>, free0: seq<nat>, bp: nat,
                         m3: seq<Word>, blocks': seq<nat>)
    requires Tiled(m0, brk, blocks) && bp in blocks
    requires CoalesceOutcome(m0, brk, blocks, free0, bp, m3, blocks')
    ensures !IsAllocated(m3, blocks', bp)
  {
    var k, j := MergedRun(m0, brk, blocks, bp);
    var r := MergedStart(m0, brk, blocks, bp);
    assert NextBlkp(m3, r) == After(blocks, brk, j - 1);
    assert r <= bp < NextBlkp(m3, r);
  }

  /** A block kept by a step is still allocated afterwards, with its size. */
  lemma StillAllocated(m0: seq<Word>, blocks0: seq<nat>, m1: seq<Word>, blocks1: seq<nat>, except: set<nat>, x: nat)
    requires KeepsAllocated(m0, blocks0, m1, blocks1, except) && IsAllocated(m0, blocks0, x) && x !in except
    ensures IsAllocated(m1, blocks1, x) && Size(m1, x) == Size(m0, x)
  {
    SameSize(m0, m1, x);
  }

  /** mm_free never touches an allocated block other than the one it
      frees. */
  lemma FreeKeeps(m0: seq<Word>, brk: nat, blocks: seq<nat>, free0: seq<nat>, head0: nat, bp: nat,
                  m3: seq<Word>, blocks': seq<nat>)
    requires State(m0, brk, blocks, free0, head0, {}) && IsAllocated(m0, blocks, bp)
    requires Tiled(Retagged(m0, brk, blocks, bp, 0), brk, blocks)
    requires CoalesceOutcome(Retagged(m0, brk, blocks, bp, 0), brk, blocks, free0, bp, m3, blocks')
    ensures KeepsAllocated(m0, blocks, m3, blocks', {bp})
  {
    var m1 := Retagged(m0, brk, blocks, bp, 0);
    Freeing(m0, brk, blocks, free0, head0, bp);
    CoalesceKeeps(m1, brk, blocks, free0, bp, m3, blocks');
    forall x | IsAllocated(m0, blocks, x) && x !in {bp}
      ensures x in blocks' && SameTags(m0, m3, x)
    {
      SameSize(m0, m1, x);
      assert IsAllocated(m1, blocks, x);
      SameTagsTrans(m0, m1, m3, x);
    }
  }

  /** What place is given: a member of the free list at least `a` bytes
      long, `a` being an adjusted size. */
  ghost predicate PlaceArgs(m: seq<Word>, brk: nat, blocks: seq<nat>, free: seq<nat>, head: nat, bp: nat, a: nat)
  {
    && State(m, brk, blocks, free, head, {}) && bp in free && 1 <= bp <= |m|
    && a % ALIGNMENT == 0 && a >= MINBLOCKSIZE && Size(m, bp) >= a
  }

  /** The bounds of a split of a `csize`-byte block at bp after `a` bytes:
      both parts are at least the minimum block size and both tags fit. */
  ghost predicate Splittable(m: seq<Word>, bp: nat, a: nat, csize: nat)
  {
    && 1 <= bp && a >= MINBLOCKSIZE && a % ALIGNMENT == 0 && csize % ALIGNMENT == 0
    && csize >= a + MINBLOCKSIZE && csize < 0x1_0000_0000 && bp + csize / WSIZE - 2 < |m|
  }

  /** The tag writes of place's split and of mm_realloc's shrinking split:
      bp tagged allocated at `a` bytes, then the block just after it tagged
      free with the remaining `csize - a` bytes. */
  function SplitWords(m: seq<Word>, bp: nat, a: nat, csize: nat): (m': seq<Word>)
    requires Splittable(m, bp, a, csize)
    ensures |m'| == |m|
  {
    SplitArith(a, csize);
    TagWords(TagWords(m, bp, a, 1), bp + a / WSIZE, csize - a, 0)
  }

  /** The remainder of a split is aligned, and the two parts add up. */
  lemma SplitArith(a: nat, csize: nat)
    requires a % ALIGNMENT == 0 && csize % ALIGNMENT == 0 && csize >= a + MINBLOCKSIZE
    ensures (csize - a) % ALIGNMENT == 0 && csize - a >= MINBLOCKSIZE
    ensures a / WSIZE + (csize - a) / WSIZE == csize / WSIZE && a / WSIZE < csize / WSIZE
  {
  }

  /** The layout with block `c` inserted just after bp. */
  ghost function SplitLayout(blocks: seq<nat>, bp: nat, c: nat): seq<nat>
    requires bp in blocks
  {
    var k := Position(blocks, bp);
    blocks[..k] + [bp, c] + blocks[k + 1..]
  }

  /** The words place's split writes are in range once bp is unlinked. */
  lemma PlaceSplitSteps(m0: seq<Word>, brk: nat, blocks: seq<nat>, free0: seq<nat>, head0: nat, bp: nat, a: nat)
    requires PlaceArgs(m0, brk, blocks, free0, head0, bp, a) && Size(m0, bp) >= a + MINBLOCKSIZE
    ensures Unlinkable(m0, bp) && Splittable(UnlinkWords(m0, bp), bp, a, Size(m0, bp))
    ensures GetSize(m0[bp - 1]) as nat == Size(m0, bp)
  {
    Unlinking(m0, brk, blocks, free0, head0, {}, bp);
    BlockFacts(m0, brk, blocks);
  }

  /** Splitting a block that is off the list after `a` bytes: the first
      part keeps the block pointer, the remainder is a new block, free and
      the one pending block. */
  lemma Splitting(m: seq<Word>, brk: nat, blocks: seq<nat>, free: seq<nat>, head: nat, pending: set<nat>, bp: nat, a: nat)
    requires State(m, brk, blocks, free, head, pending) && bp in blocks && bp !in free
    requires forall x :: x in pending ==> x == bp
    requires a % ALIGNMENT == 0 && a >= MINBLOCKSIZE && 1 <= bp <= |m| && Size(m, bp) >= a + MINBLOCKSIZE
    ensures Splittable(m, bp, a, Size(m, bp))
    ensures var m', c := SplitWords(m, bp, a, Size(m, bp)), bp + a / WSIZE;
      && c in SplitLayout(blocks, bp, c)
      && State(m', brk, SplitLayout(blocks, bp, c), free, head, {c})
  {
    var k := Position(blocks, bp);
    NextOf(m, brk, blocks, k);
    var csize := Size(m, bp);
    var c := bp + a / WSIZE;
    SplitArith(a, csize);
    var w1, w2 := Pack(a as Word, 1), Pack((csize - a) as Word, 0);
    SplitWordsAt(m, bp, a, csize);
    assert SplitLayout(blocks, bp, c) == blocks[..k] + [blocks[k], blocks[k] + a / WSIZE] + blocks[k + 1..];
    assert {blocks[k] + a / WSIZE} == {c};
    HeapSplit(m, SplitWords(m, bp, a, csize), brk, blocks, free, head, pending, k, a, w1, w2);
  }

  /** The tags a split leaves: bp allocated at `a` bytes, the free remainder
      just after it (found from it through bp's footer) the one new block,
      and every other block's tags kept. */
  lemma SplittingTags(m: seq<Word>, brk: nat, blocks: seq<nat>, bp: nat, a: nat)
    requires Tiled(m, brk, blocks) && bp in blocks
    requires a % ALIGNMENT == 0 && a >= MINBLOCKSIZE && 1 <= bp <= |m| && Size(m, bp) >= a + MINBLOCKSIZE
    ensures Splittable(m, bp, a, Size(m, bp))
    ensures var m', c := SplitWords(m, bp, a, Size(m, bp)), bp + a / WSIZE;
      && IsAllocated(m', SplitLayout(blocks, bp, c), bp) && Size(m', bp) == a && PrevBlkp(m', c) == bp
      && c in SplitLayout(blocks, bp, c) && c !in blocks && 1 <= c <= |m'|
      && Size(m', c) == Size(m, bp) - a && Alloc(m', c) == 0
      && (forall x :: x in blocks && x != bp ==> x in SplitLayout(blocks, bp, c) && SameTags(m, m', x))
  {
    var k := Position(blocks, bp);
    NextOf(m, brk, blocks, k);
    var csize := Size(m, bp);
    var c := bp + a / WSIZE;
    SplitArith(a, csize);
    var w1, w2 := Pack(a as Word, 1), Pack((csize - a) as Word, 0);
    SplitWordsAt(m, bp, a, csize);
    var m' := SplitWords(m, bp, a, csize);
    assert SplitLayout(blocks, bp, c) == blocks[..k] + [blocks[k], blocks[k] + a / WSIZE] + blocks[k + 1..];
    assert forall p :: 0 <= p < |m| ==>
      m'[p] == if p == bp - 1 || p == c - 2 then w1
               else if p == c - 1 || p == NextBlkp(m, bp) - 2 then w2
               else m[p];
    SplitBlock(m, m', brk, blocks, k, a, w1, w2);
    BlockFacts(m, brk, blocks);
  }

  /** place's split, in terms of the heap invariant: bp unlinked and tagged
      allocated at `a` bytes, the remainder just after it a new block, free
      and pending. */
  lemma PlaceSplit(m0: seq<Word>, brk: nat, blocks: seq<nat>, free0: seq<nat>, head0: nat, bp: nat, a: nat)
    requires PlaceArgs(m0, brk, blocks, free0, head0, bp, a) && Size(m0, bp) >= a + MINBLOCKSIZE
    ensures Unlinkable(m0, bp) && Splittable(UnlinkWords(m0, bp), bp, a, Size(m0, bp))
    ensures var m2, c := SplitWords(UnlinkWords(m0, bp), bp, a, Size(m0, bp)), bp + a / WSIZE;
      && bp in blocks && c in SplitLayout(blocks, bp, c)
      && State(m2, brk, SplitLayout(blocks, bp, c), Without(free0, bp), UnlinkHead(m0, head0, bp), {c})
  {
    var m1 := UnlinkWords(m0, bp);
    assert {} + {bp} == {bp};
    Unlinking(m0, brk, blocks, free0, head0, {}, bp);
    SameSize(m0, m1, bp);
    Splitting(m1, brk, blocks, Without(free0, bp), UnlinkHead(m0, head0, bp), {bp}, bp, a);
  }

  /** The tags place's split leaves, from the words it started with: bp
      allocated at `a` bytes, and every block allocated before kept. */
  lemma PlaceSplitTags(m0: seq<Word>, brk: nat, blocks: seq<nat>, free0: seq<nat>, head0: nat, bp: nat, a: nat)
    requires PlaceArgs(m0, brk, blocks, free0, head0, bp, a) && Size(m0, bp) >= a + MINBLOCKSIZE
    ensures Unlinkable(m0, bp) && Splittable(UnlinkWords(m0, bp), bp, a, Size(m0, bp)) && bp in blocks
    ensures var m2, c := SplitWords(UnlinkWords(m0, bp), bp, a, Size(m0, bp)), bp + a / WSIZE;
      && IsAllocated(m2, SplitLayout(blocks, bp, c), bp) && Size(m2, bp) == a && c !in blocks
      && KeepsAllocated(m0, blocks, m2, SplitLayout(blocks, bp, c), {bp})
  {
    var m1 := UnlinkWords(m0, bp);
    UnlinkTags(m0, brk, blocks, free0, head0, bp);
    SameSize(m0, m1, bp);
    var m2, c := SplitWords(m1, bp, a, Size(m0, bp)), bp + a / WSIZE;
    SplittingTags(m1, brk, blocks, bp, a);
    forall x | IsAllocated(m0, blocks, x) && x !in {bp}
      ensures x in SplitLayout(blocks, bp, c) && SameTags(m0, m2, x)
    {
      SameTagsTrans(m0, m1, m2, x);
    }
  }

  /** remove_from_free on a member, for the tags only: the layout stays
      and every block keeps its tags. */
  lemma UnlinkTags(m0: seq<Word>, brk: nat, blocks: seq<nat>, free0: seq<nat>, head0: nat, bp: nat)
    requires State(m0, brk, blocks, free0, head0, {}) && bp in free0
    ensures Unlinkable(m0, bp) && bp in blocks
    ensures Tiled(UnlinkWords(m0, bp), brk, blocks)
    ensures forall x :: x in blocks ==> SameTags(m0, UnlinkWords(m0, bp), x)
  {
    Unlinking(m0, brk, blocks, free0, head0, {}, bp);
  }

  /** A step that writes nothing keeps every allocated block. */
  lemma KeepsSame(m: seq<Word>, brk: nat, blocks: seq<nat>)
    requires Tiled(m, brk, blocks)
    ensures KeepsAllocated(m, blocks, m, blocks, {})
  {
    BlockFacts(m, brk, blocks);
    forall x | IsAllocated(m, blocks, x) ensures x in blocks && SameTags(m, m, x) {
    }
  }

  /** Keeping the allocated blocks composes, when what the second step may
      change was not allocated at the start or is excepted already. */
  lemma KeepsTrans(m0: seq<Word>, b0: seq<nat>, m1: seq<Word>, b1: seq<nat>, m2: seq<Word>, b2: seq<nat>,
                   e1: set<nat>, e2: set<nat>)
    requires KeepsAllocated(m0, b0, m1, b1, e1) && KeepsAllocated(m1, b1, m2, b2, e2)
    requires forall x :: x in e2 && IsAllocated(m0, b0, x) ==> x in e1
    ensures KeepsAllocated(m0, b0, m2, b2, e1)
  {
    forall x | IsAllocated(m0, b0, x) && x !in e1
      ensures x in b2 && SameTags(m0, m2, x)
    {
      SameSize(m0, m1, x);
      assert IsAllocated(m1, b1, x);
      SameTagsTrans(m0, m1, m2, x);
    }
  }

  /** The split's four tag writes, one by one. */
  lemma SplitWordsAt(m: seq<Word>, bp: nat, a: nat, csize: nat)
    requires Splittable(m, bp, a, csize)
    ensures SplitWords(m, bp, a, csize) ==
      m[bp - 1 := Pack(a as Word, 1)][bp + a / WSIZE - 2 := Pack(a as Word, 1)]
       [bp + a / WSIZE - 1 := Pack((csize - a) as Word, 0)][bp + csize / WSIZE - 2 := Pack((csize - a) as Word, 0)]
  {
    SplitArith(a, csize);
  }

  /** The bounds of extend_heap's writes for a `size`-byte block at the old
      break `brk`: the block and the new epilogue header fit in the area. */
  ghost predicate Extendable(m: seq<Word>, brk: nat, size: nat)
  {
    1 <= brk && size >= MINBLOCKSIZE && size % ALIGNMENT == 0 && size < 0x1_0000_0000 && brk + size / WSIZE <= |m|
  }

  /** extend_heap's three writes: the new free block's header (over the old
      epilogue header) and footer, then the new epilogue header. */
  function ExtendWords(m: seq<Word>, brk: nat, size: nat): (m': seq<Word>)
    requires Extendable(m, brk, size)
    ensures |m'| == |m|
  {
    TagWords(m, brk, size, 0)[brk + size / WSIZE - 1 := Pack(0, 1)]
  }

  /** Growing the heap by a `size`-byte block at the break: the heap
      invariant holds for the longer layout with the new block pending, and
      every earlier block keeps its tags. */
  lemma Extending(m0: seq<Word>, brk: nat, blocks: seq<nat>, free: seq<nat>, head: nat, size: nat)
    requires State(m0, brk, blocks, free, head, {}) && Extendable(m0, brk, size)
    ensures brk !in blocks
    ensures var m1 := ExtendWords(m0, brk, size);
      && State(m1, brk + size / WSIZE, blocks + [brk], free, head, {brk})
      && Size(m1, brk) == size && Alloc(m1, brk) == 0
      && KeepsAllocated(m0, blocks, m1, blocks + [brk], {})
  {
    var m1 := ExtendWords(m0, brk, size);
    var w := Pack(size as Word, 0);
    assert m1 == m0[brk - 1 := w][brk + size / WSIZE - 2 := w][brk + size / WSIZE - 1 := Pack(0, 1)];
    HeapExtend(m0, m1, brk, blocks, free, head, size, w);
    assert brk !in blocks;
  }

  /** mm_init's writes over the first eight words: the alignment pad, the
      prologue header and footer, the first epilogue header, the sentinel's
      header and footer, then its PREV_FREE and NEXT_FREE words. */
  function InitWords(m: seq<Word>): (m': seq<Word>)
    requires |m| >= FIRST
    ensures |m'| == |m|
  {
    m[0 := 0][1 := Pack(8, 1)][2 := Pack(8, 1)][7 := Pack(0, 1)]
     [3 := Pack(16, 1)][6 := Pack(16, 1)][5 := NULL as Word][4 := STALE_LINK as Word]
  }

  /** After mm_init's writes the heap invariant holds with no block yet and
      an empty free list whose head is the sentinel. */
  lemma InitState(m: seq<Word>)
    requires FIRST <= |m| < 0x1_0000_0000
    ensures State(InitWords(m), FIRST, [], [], DUMMY, {})
  {
    var m' := InitWords(m);
    assert Prefix(m') && m'[FIRST - 1] == Pack(0, 1);
    assert PrevFree(m', DUMMY) == NULL;
  }

  /** With one block between the sentinel and the epilogue, coalesce has
      nothing to merge: it returns that block, at its own size. */
  lemma LoneBlock(m: seq<Word>, brk: nat)
    requires Tiled(m, brk, [FIRST])
    ensures !PrevIsFree(m, brk, [FIRST], FIRST) && !NextIsFree(m, brk, [FIRST], FIRST)
    ensures MergedStart(m, brk, [FIRST], FIRST) == FIRST && Absorbed(m, brk, [FIRST], FIRST) == {}
    ensures MergedSize(m, brk, [FIRST], FIRST) == Size(m, FIRST)
  {
    var p := PrevNbr(m, brk, [FIRST], FIRST);
    var n := NextNbr(m, brk, [FIRST], FIRST);
    BlockFacts(m, brk, [FIRST]);
    assert p == DUMMY;
    assert n == brk;
  }

  /** A block on the free list after a step that kept every allocated block
      was not allocated before it. */
  lemma FreeWasNotAllocated(m0: seq<Word>, blocks0: seq<nat>, m1: seq<Word>, brk: nat, blocks1: seq<nat>,
                            free1: seq<nat>, head1: nat, bp: nat)
    requires KeepsAllocated(m0, blocks0, m1, blocks1, {}) && State(m1, brk, blocks1, free1, head1, {})
    requires bp in free1
    ensures !IsAllocated(m0, blocks0, bp)
  {
    if IsAllocated(m0, blocks0, bp) {
      SameSize(m0, m1, bp);
      assert false;
    }
  }
}

