/** The heap invariant across the in-place paths of mm_realloc: the shrink
    that splits off a minimum-size block and pushes it with add_free, and
    the growth that takes over a free neighbour. */
module Resize {
  import opened Codec
  import opened Layout
  import opened FreeList
  import opened Heap
  import opened Operations

  /** mm_realloc's shrink by exactly the minimum block size: bp keeps `a`
      bytes, and the block of MINBLOCKSIZE bytes behind them goes on the
      front of the list. */
  lemma Shrinking(m0: seq<Word>, brk: nat, blocks: seq<nat>, free0: seq<nat>, head0: nat, bp: nat, a: nat)
    requires State(m0, brk, blocks, free0, head0, {}) && IsAllocated(m0, blocks, bp)
    requires a % ALIGNMENT == 0 && a >= MINBLOCKSIZE && Size(m0, bp) == a + MINBLOCKSIZE
    ensures Splittable(m0, bp, a, Size(m0, bp))
    ensures var m2, c := SplitWords(m0, bp, a, Size(m0, bp)), bp + a / WSIZE;
      && Pushable(m2, head0, c)
      && State(PushWords(m2, head0, c), brk, SplitLayout(blocks, bp, c), [c] + free0, c, {})
  {
    assert bp !in free0;
    Splitting(m0, brk, blocks, free0, head0, {}, bp, a);
    var m2, c := SplitWords(m0, bp, a, Size(m0, bp)), bp + a / WSIZE;
    Pushing(m2, brk, SplitLayout(blocks, bp, c), free0, head0, {c}, c);
  }

  /** The same shrink keeps bp allocated at `a` bytes and every other
      allocated block's tags. */
  lemma ShrinkingTags(m0: seq<Word>, brk: nat, blocks: seq<nat>, free0: seq<nat>, head0: nat, bp: nat, a: nat)
    requires State(m0, brk, blocks, free0, head0, {}) && IsAllocated(m0, blocks, bp)
    requires a % ALIGNMENT == 0 && a >= MINBLOCKSIZE && Size(m0, bp) == a + MINBLOCKSIZE
    ensures Splittable(m0, bp, a, Size(m0, bp))
    ensures var m2, c := SplitWords(m0, bp, a, Size(m0, bp)), bp + a / WSIZE;
      && Pushable(m2, head0, c)
      && var m3 := PushWords(m2, head0, c);
         && IsAllocated(m3, SplitLayout(blocks, bp, c), bp) && Size(m3, bp) == a
         && KeepsAllocated(m0, blocks, m3, SplitLayout(blocks, bp, c), {bp})
  {
    Shrinking(m0, brk, blocks, free0, head0, bp, a);
    var m2, c := SplitWords(m0, bp, a, Size(m0, bp)), bp + a / WSIZE;
    var layout := SplitLayout(blocks, bp, c);
    var m3 := PushWords(m2, head0, c);
    SplittingTags(m0, brk, blocks, bp, a);
    Splitting(m0, brk, blocks, free0, head0, {}, bp, a);
    Pushing(m2, brk, layout, free0, head0, {c}, c);
    SameSize(m2, m3, bp);
    forall x | IsAllocated(m0, blocks, x) && x !in {bp}
      ensures x in layout && SameTags(m0, m3, x)
    {
      SameTagsTrans(m0, m2, m3, x);
    }
  }

  /** The free neighbour mm_realloc grows into: the previous block when
      `withPrev`, the next one otherwise. */
  ghost function Partner(m: seq<Word>, brk: nat, blocks: seq<nat>, bp: nat, withPrev: bool): nat
    requires Tiled(m, brk, blocks) && bp in blocks
  {
    if withPrev then PrevNbr(m, brk, blocks, bp) else NextNbr(m, brk, blocks, bp)
  }

  /** mm_realloc's two tests for growing in place read the true
      neighbours: the predecessor through bp's footer-before and its
      header, the successor through bp's header and its own header; each
      test holds exactly when that neighbour is free and makes room for
      `newsize` bytes together with bp. */
  lemma GrowReads(m: seq<Word>, brk: nat, blocks: seq<nat>, bp: nat, newsize: nat)
    requires Tiled(m, brk, blocks) && bp in blocks
    ensures 2 <= bp <= |m|
    ensures var p := bp - GetSize(m[bp - 2]) as int / WSIZE;
      && p == PrevNbr(m, brk, blocks, bp) && 1 <= p <= |m|
      && ((GetAlloc(m[p - 1]) == 0 && Size(m, bp) + GetSize(m[p - 1]) as nat >= newsize) <==>
          (PrevIsFree(m, brk, blocks, bp) && Size(m, p) + Size(m, bp) >= newsize))
      && GetSize(m[p - 1]) as nat == Size(m, p)
    ensures var n := bp + Size(m, bp) / WSIZE;
      && n == NextNbr(m, brk, blocks, bp) && 1 <= n <= |m|
      && ((GetAlloc(m[n - 1]) == 0 && Size(m, bp) + GetSize(m[n - 1]) as nat >= newsize) <==>
          (NextIsFree(m, brk, blocks, bp) && Size(m, bp) + Size(m, n) >= newsize))
      && GetSize(m[n - 1]) as nat == Size(m, n)
  {
    CoalesceReads(m, brk, blocks, bp);
  }

  /** The run of the layout covering bp and its neighbour x, as indices
      `k..j`: it starts at the lower of the two, its byte size is the sum of
      theirs, and dropping all of it but its first block loses exactly the
      higher of the two. */
  lemma AbsorbRun(m: seq<Word>, brk: nat, blocks: seq<nat>, bp: nat, withPrev: bool) returns (k: nat, j: nat)
    requires Tiled(m, brk, blocks) && bp in blocks && |m| < 0x2000_0000
    requires if withPrev then PrevIsFree(m, brk, blocks, bp) else NextIsFree(m, brk, blocks, bp)
    ensures var x := Partner(m, brk, blocks, bp, withPrev);
      var r, size := if withPrev then x else bp, Size(m, x) + Size(m, bp);
      && x in blocks && x != bp && k < j <= |blocks| && blocks[k] == r
      && (After(blocks, brk, j - 1) - r) * WSIZE == size && r + size / WSIZE == After(blocks, brk, j - 1)
      && Taggable(m, r, size)
      && (forall y :: y in blocks && (y < r || After(blocks, brk, j - 1) <= y) <==> y in blocks && y != bp && y != x)
  {
    var x := Partner(m, brk, blocks, bp, withPrev);
    var r, size := if withPrev then x else bp, Size(m, x) + Size(m, bp);
    k, j := NeighbourRun(m, brk, blocks, bp, withPrev, !withPrev);
    var e := After(blocks, brk, j - 1);
    RunBounds(m, brk, blocks, k, j);
    AlignedSum(Size(m, x), Size(m, bp));
    BlockFacts(m, brk, blocks);
    assert Neighbours(m, brk, blocks, bp, withPrev, !withPrev) == if withPrev then [x, bp] else [bp, x];
  }

  /** Tagging the run `k..j` as one allocated block once its free member x
      is off the list. */
  lemma GrowMerge(m1: seq<Word>, m2: seq<Word>, brk: nat, blocks: seq<nat>, free1: seq<nat>, head1: nat,
                  x: nat, k: nat, j: nat, size: nat)
    requires State(m1, brk, blocks, free1, head1, {x}) && k < j <= |blocks|
    requires blocks[k] <= x < After(blocks, brk, j - 1)
    requires (After(blocks, brk, j - 1) - blocks[k]) * WSIZE == size
    requires Taggable(m1, blocks[k], size) && m2 == TagWords(m1, blocks[k], size, 1)
    requires forall y :: y in free1 ==> y < blocks[k] || After(blocks, brk, j - 1) <= y
    ensures State(m2, brk, blocks[..k] + [blocks[k]] + blocks[j..], free1, head1, {})
    ensures Size(m2, blocks[k]) == size && Alloc(m2, blocks[k]) == 1
    ensures forall y :: y in blocks[..k] + [blocks[k]] + blocks[j..] <==>
              y == blocks[k] || (y in blocks && (y < blocks[k] || After(blocks, brk, j - 1) <= y))
    ensures forall y :: y in blocks && (y < blocks[k] || After(blocks, brk, j - 1) <= y) ==> SameTags(m1, m2, y)
  {
    var w := Pack(size as Word, 1);
    WordsOfBytes(size);
    assert m2 == m1[blocks[k] - 1 := w][After(blocks, brk, j - 1) - 2 := w];
    HeapMerge(m1, m2, brk, blocks, free1, head1, {x}, k, j, w);
  }

  /** The words mm_realloc's growth of bp into x leaves: x unlinked, then
      r tagged allocated over the bytes of both. */
  ghost predicate GrowWords(m0: seq<Word>, bp: nat, x: nat, r: nat, m2: seq<Word>)
  {
    && 1 <= bp <= |m0| && 1 <= x <= |m0| && Unlinkable(m0, x)
    && Taggable(UnlinkWords(m0, x), r, Size(m0, x) + Size(m0, bp))
    && m2 == TagWords(UnlinkWords(m0, x), r, Size(m0, x) + Size(m0, bp), 1)
  }

  /** mm_realloc's growth into a free neighbour x: x leaves the list and
      one allocated block covering bp and x is tagged at the lower of the
      two addresses; the layout loses the higher one. */
  lemma Absorbing(m0: seq<Word>, brk: nat, blocks: seq<nat>, free0: seq<nat>, head0: nat, bp: nat, withPrev: bool,
                  x: nat, r: nat, m2: seq<Word>)
    returns (blocks': seq<nat>)
    requires State(m0, brk, blocks, free0, head0, {}) && IsAllocated(m0, blocks, bp) && |m0| < 0x2000_0000
    requires if withPrev then PrevIsFree(m0, brk, blocks, bp) else NextIsFree(m0, brk, blocks, bp)
    requires x == Partner(m0, brk, blocks, bp, withPrev) && r == (if withPrev then x else bp)
    requires GrowWords(m0, bp, x, r, m2)
    ensures x in free0
    ensures State(m2, brk, blocks', Without(free0, x), UnlinkHead(m0, head0, x), {})
    ensures forall y :: y in blocks' <==> y in blocks && (y == r || (y != bp && y != x))
    ensures IsAllocated(m2, blocks', r) && Size(m2, r) == Size(m0, x) + Size(m0, bp)
    ensures KeepsAllocated(m0, blocks, m2, blocks', {bp})
  {
    var size := Size(m0, x) + Size(m0, bp);
    var k, j := AbsorbRun(m0, brk, blocks, bp, withPrev);
    var e := After(blocks, brk, j - 1);
    assert x in free0;
    var m1, free1, head1 := UnlinkWords(m0, x), Without(free0, x), UnlinkHead(m0, head0, x);
    assert m2 == TagWords(m1, r, size, 1);
    Unlinking(m0, brk, blocks, free0, head0, {}, x);
    assert forall y :: y in free1 ==> y < r || e <= y by {
      forall y | y in free1 ensures y < r || e <= y {
        assert y in free0 && y != x && y != bp;
      }
    }
    GrowMerge(m1, m2, brk, blocks, free1, head1, x, k, j, size);
    blocks' := blocks[..k] + [r] + blocks[j..];
    forall z | IsAllocated(m0, blocks, z) && z !in {bp}
      ensures z in blocks' && SameTags(m0, m2, z)
    {
      SameTagsTrans(m0, m1, m2, z);
    }
  }

  /** The bounds of the writes of that growth: x can be unlinked, and the
      merged tags fit. */
  lemma AbsorbSteps(m0: seq<Word>, brk: nat, blocks: seq<nat>, free0: seq<nat>, head0: nat, bp: nat, withPrev: bool)
    requires State(m0, brk, blocks, free0, head0, {}) && IsAllocated(m0, blocks, bp) && |m0| < 0x2000_0000
    requires if withPrev then PrevIsFree(m0, brk, blocks, bp) else NextIsFree(m0, brk, blocks, bp)
    ensures var x := Partner(m0, brk, blocks, bp, withPrev);
      && 1 <= x <= |m0| && Unlinkable(m0, x)
      && Taggable(UnlinkWords(m0, x), if withPrev then x else bp, Size(m0, x) + Size(m0, bp))
  {
    var x := Partner(m0, brk, blocks, bp, withPrev);
    var k, j := AbsorbRun(m0, brk, blocks, bp, withPrev);
    assert x in free0;
    Unlinking(m0, brk, blocks, free0, head0, {}, x);
  }

  /** The words the extra place(newptr, newsize) at the end of mm_realloc's
      fallback leaves when it does not split: remove_from_free on newptr,
      which mm_malloc has already taken off the list, then newptr's tags
      rewritten allocated with their own size. */
  ghost function ExtraPlace(m: seq<Word>, brk: nat, blocks: seq<nat>, bp: nat): seq<Word>
    requires Unlinkable(m, bp) && Tiled(UnlinkWords(m, bp), brk, blocks) && bp in blocks
  {
    Retagged(UnlinkWords(m, bp), brk, blocks, bp, 1)
  }

  /** When mm_malloc took newptr from the front of the list and split it, the
      remainder went to the front with newptr's old successor as its own,
      and newptr's payload still holds a NULL PREV_FREE and that successor.
      The extra place then unlinks the remainder instead: free_listp moves to
      its successor, and the remainder, still tagged free, is on no list.
      SplitHeadLeavesStaleLinks shows that such a split leaves these
      premises. */
  lemma ExtraPlaceLosesFree(m: seq<Word>, brk: nat, blocks: seq<nat>, free: seq<nat>, head: nat, bp: nat)
    requires State(m, brk, blocks, free, head, {}) && IsAllocated(m, blocks, bp) && free != []
    requires bp + 1 < |m| && PrevFree(m, bp) == NULL && NextFree(m, bp) == NextFree(m, head)
    ensures Unlinkable(m, bp) && Tiled(UnlinkWords(m, bp), brk, blocks)
    ensures var m', head' := ExtraPlace(m, brk, blocks, bp), UnlinkHead(m, head, bp);
      && Linked(m', Without(free, head), head')
      && head in blocks && head !in Without(free, head) && Alloc(m', head) == 0
  {
    assert head in free;
    Unlinking(m, brk, blocks, free, head, {}, head);
    var m1 := UnlinkWords(m, bp);
    assert m1 == UnlinkWords(m, head);
    assert UnlinkHead(m, head, bp) == UnlinkHead(m, head, head);
    var m' := ExtraPlace(m, brk, blocks, bp);
    BlockFacts(m1, brk, blocks);
    var lo, hi := bp - 1, NextBlkp(m1, bp) - 1;
    assert forall p :: 0 <= p < |m1| && !(lo <= p < hi) ==> m'[p] == m1[p];
    forall x | x in Without(free, head) ensures x + 2 <= lo || hi <= x {
      assert x in blocks && x != bp;
    }
    LinkedFrame(m1, m', Without(free, head), UnlinkHead(m, head, head), lo, hi);
    assert head != bp && m'[head - 1] == m1[head - 1];
  }

  /** The words of place's split of the list head bp after `a` bytes: bp's
      two link words still hold NULL and bp's old successor h, which lies
      outside bp's block. */
  lemma SplitHeadWords(m0: seq<Word>, brk: nat, blocks: seq<nat>, free0: seq<nat>, head0: nat, bp: nat, a: nat)
    returns (m2: seq<Word>, c: nat, h: nat)
    requires PlaceArgs(m0, brk, blocks, free0, head0, bp, a) && Size(m0, bp) >= a + MINBLOCKSIZE
    requires bp == head0 && Unlinkable(m0, bp) && Splittable(UnlinkWords(m0, bp), bp, a, Size(m0, bp))
    ensures m2 == SplitWords(UnlinkWords(m0, bp), bp, a, Size(m0, bp)) && c == bp + a / WSIZE
    ensures h == UnlinkHead(m0, head0, bp)
    ensures bp + 1 < |m2| && NextFree(m2, bp) == h && PrevFree(m2, bp) == NULL
    ensures h != bp && h + 1 != bp && h != c && h + 1 != c && h + 1 < |m2|
  {
    var csize := Size(m0, bp);
    m2, c := SplitWords(UnlinkWords(m0, bp), bp, a, csize), bp + a / WSIZE;
    h := UnlinkHead(m0, head0, bp);
    BlockFacts(m0, brk, blocks);
    assert free0[0] == bp && PrevFree(m0, bp) == NULL && h == NextFree(m0, bp);
    assert h == DUMMY || (h in blocks && h != bp);
    SplitArith(a, csize);
  }

  /** The tags of that split: bp is allocated with `a` bytes, and the
      remainder c ends where bp ended, before the untouched header of the
      block n that followed bp. */
  lemma SplitHeadTags(m0: seq<Word>, brk: nat, blocks: seq<nat>, free0: seq<nat>, head0: nat, bp: nat, a: nat)
    returns (m2: seq<Word>, c: nat, n: nat)
    requires PlaceArgs(m0, brk, blocks, free0, head0, bp, a) && Size(m0, bp) >= a + MINBLOCKSIZE
    requires bp == head0 && Unlinkable(m0, bp) && Splittable(UnlinkWords(m0, bp), bp, a, Size(m0, bp))
    ensures m2 == SplitWords(UnlinkWords(m0, bp), bp, a, Size(m0, bp)) && c == bp + a / WSIZE
    ensures n == NextBlkp(m0, bp)
    ensures 1 <= bp && c - 2 >= bp + 1 && GetSize(m2[c - 2]) as nat == a && Alloc(m2, bp) == 1
    ensures bp == c - GetSize(m2[c - 2]) as int / WSIZE
    ensures c < n <= |m2| && c + GetSize(m2[c - 1]) as nat / WSIZE == n
    ensures NextIsFree(m0, brk, blocks, bp) <==> GetAlloc(m2[n - 1]) == 0
  {
    var csize := Size(m0, bp);
    var m1, h := UnlinkWords(m0, bp), NextFree(m0, bp);
    m2, c, n := SplitWords(m1, bp, a, csize), bp + a / WSIZE, NextBlkp(m0, bp);
    BlockFacts(m0, brk, blocks);
    assert free0[0] == bp && PrevFree(m0, bp) == NULL;
    assert h == DUMMY || (h in blocks && h != bp);
    assert m1[NextBlkp(m0, bp) - 1] == m0[NextBlkp(m0, bp) - 1];
    assert NextNbr(m0, brk, blocks, bp) == NextBlkp(m0, bp);
    SplitArith(a, csize);
    UnpackTag(a as Word, 1);
    UnpackTag((csize - a) as Word, 0);
  }

  /** add_free of c leaves another block's link words alone when they lie
      clear of the three words it writes. */
  lemma PushKeeps(m: seq<Word>, head: nat, c: nat, bp: nat)
    requires Pushable(m, head, c) && bp + 1 < |m|
    requires bp != c && bp + 1 != c && bp != c + 1 && bp != head && bp + 1 != head + 1 && bp != head + 1
    requires head + 1 != c
    ensures PrevFree(PushWords(m, head, c), bp) == PrevFree(m, bp)
    ensures NextFree(PushWords(m, head, c), bp) == NextFree(m, bp)
    ensures NextFree(PushWords(m, head, c), c) == head
  {
  }

  /** The remainder c of that split has no free neighbour: its
      predecessor is bp, tagged allocated, and its successor n keeps the
      allocated header it had. */
  lemma RemainderAlone(m2: seq<Word>, brk: nat, blocks': seq<nat>, free': seq<nat>, h: nat, bp: nat, c: nat, n: nat)
    requires State(m2, brk, blocks', free', h, {c}) && c in blocks' && 1 <= bp && c - 2 >= bp + 1
    requires bp == c - GetSize(m2[c - 2]) as int / WSIZE && Alloc(m2, bp) == 1
    requires c < n <= |m2| && n == c + GetSize(m2[c - 1]) as nat / WSIZE && GetAlloc(m2[n - 1]) != 0
    ensures !PrevIsFree(m2, brk, blocks', c) && !NextIsFree(m2, brk, blocks', c)
  {
  }

  /** PlaceSplit's outcome for the split of bp after `a` bytes, under
      names: c pending in the layout with bp before it. */
  lemma SplitState(m0: seq<Word>, brk: nat, blocks: seq<nat>, free0: seq<nat>, head0: nat, bp: nat, a: nat)
    returns (m2: seq<Word>, blocks': seq<nat>, c: nat, h: nat)
    requires PlaceArgs(m0, brk, blocks, free0, head0, bp, a) && Size(m0, bp) >= a + MINBLOCKSIZE
    ensures Unlinkable(m0, bp) && Splittable(UnlinkWords(m0, bp), bp, a, Size(m0, bp)) && bp in blocks
    ensures m2 == SplitWords(UnlinkWords(m0, bp), bp, a, Size(m0, bp)) && c == bp + a / WSIZE
    ensures blocks' == SplitLayout(blocks, bp, c) && h == UnlinkHead(m0, head0, bp)
    ensures State(m2, brk, blocks', Without(free0, bp), h, {c}) && c in blocks' && bp in blocks'
  {
    PlaceSplit(m0, brk, blocks, free0, head0, bp, a);
    m2, c := SplitWords(UnlinkWords(m0, bp), bp, a, Size(m0, bp)), bp + a / WSIZE;
    blocks', h := SplitLayout(blocks, bp, c), UnlinkHead(m0, head0, bp);
    assert blocks'[Position(blocks, bp)] == bp;
  }

  /** The heap place's split of the list head bp leaves just before its
      coalesce, when the block after bp is not free: the remainder c is
      pending with no free neighbour, bp is allocated, and bp's link words
      still hold NULL and bp's old successor h, the head of the list now. */
  lemma SplitHeadRemainder(m0: seq<Word>, brk: nat, blocks: seq<nat>, free0: seq<nat>, head0: nat, bp: nat, a: nat)
    returns (m2: seq<Word>, blocks': seq<nat>, c: nat, h: nat)
    requires PlaceArgs(m0, brk, blocks, free0, head0, bp, a) && Size(m0, bp) >= a + MINBLOCKSIZE
    requires bp == head0 && !NextIsFree(m0, brk, blocks, bp)
    ensures Unlinkable(m0, bp) && Splittable(UnlinkWords(m0, bp), bp, a, Size(m0, bp)) && bp in blocks
    ensures m2 == SplitWords(UnlinkWords(m0, bp), bp, a, Size(m0, bp)) && c == bp + a / WSIZE
    ensures blocks' == SplitLayout(blocks, bp, c) && h == UnlinkHead(m0, head0, bp)
    ensures State(m2, brk, blocks', Without(free0, bp), h, {c}) && c in blocks'
    ensures !PrevIsFree(m2, brk, blocks', c) && !NextIsFree(m2, brk, blocks', c)
    ensures bp in blocks' && bp < c && Alloc(m2, bp) == 1
    ensures bp + 1 < |m2| && NextFree(m2, bp) == h && PrevFree(m2, bp) == NULL
    ensures h != bp && h + 1 != bp && h != c && h + 1 != c && h + 1 < |m2|
  {
    m2, blocks', c, h := SplitState(m0, brk, blocks, free0, head0, bp, a);
    var _, _, n := SplitHeadTags(m0, brk, blocks, free0, head0, bp, a);
    var _, _, _ := SplitHeadWords(m0, brk, blocks, free0, head0, bp, a);
    RemainderAlone(m2, brk, blocks', Without(free0, bp), h, bp, c, n);
  }

  /** mm_malloc's place of the list head bp with a split, when the block
      after bp is not free: coalesce pushes the remainder c alone, and bp,
      now allocated, still holds the NULL PREV_FREE and the successor it
      had as head, which is c's successor. These are exactly the premises
      of ExtraPlaceLosesFree, for the heap `m3`, the layout `blocks'` and
      the list `free3` headed by c. */
  lemma SplitHeadLeavesStaleLinks(m0: seq<Word>, brk: nat, blocks: seq<nat>, free0: seq<nat>, head0: nat, bp: nat, a: nat)
    returns (m2: seq<Word>, blocks': seq<nat>, c: nat, m3: seq<Word>, free3: seq<nat>)
    requires PlaceArgs(m0, brk, blocks, free0, head0, bp, a) && Size(m0, bp) >= a + MINBLOCKSIZE
    requires bp == head0 && |m0| < 0x2000_0000 && !NextIsFree(m0, brk, blocks, bp)
    ensures Unlinkable(m0, bp) && Splittable(UnlinkWords(m0, bp), bp, a, Size(m0, bp)) && bp in blocks
    ensures m2 == SplitWords(UnlinkWords(m0, bp), bp, a, Size(m0, bp)) && c == bp + a / WSIZE
    ensures blocks' == SplitLayout(blocks, bp, c) && Tiled(m2, brk, blocks') && c in blocks'
    ensures CoalesceOutcome(m2, brk, blocks', Without(free0, bp), c, m3, blocks')
    ensures free3 == [c] + Without(free0, bp)
    ensures State(m3, brk, blocks', free3, c, {}) && IsAllocated(m3, blocks', bp)
    ensures bp + 1 < |m3| && PrevFree(m3, bp) == NULL && NextFree(m3, bp) == NextFree(m3, c)
  {
    var h;
    m2, blocks', c, h := SplitHeadRemainder(m0, brk, blocks, free0, head0, bp, a);
    CoalesceAloneCase(m2, brk, blocks', Without(free0, bp), h, c);
    m3 := PushWords(m2, h, c);
    assert PrevFree(m3, bp) == NULL && NextFree(m3, bp) == NextFree(m3, c) by {
      PushKeeps(m2, h, c, bp);
    }
    assert MergedStart(m2, brk, blocks', c) == c && Absorbed(m2, brk, blocks', c) == {};
    NotInFilter(Without(free0, bp), {});
    free3 := [c] + Without(free0, bp);
    assert IsAllocated(m3, blocks', bp) by {
      assert SameTags(m2, m3, bp);
    }
  }

  /** The two together: when the fallback's mm_malloc placed the list head
      bp with a split, the extra place unlinks the remainder c that the
      split pushed, which stays tagged free but is on no list. */
  lemma SplitHeadThenExtraPlace(m0: seq<Word>, brk: nat, blocks: seq<nat>, free0: seq<nat>, head0: nat, bp: nat, a: nat)
    returns (m3: seq<Word>, blocks': seq<nat>, c: nat, free3: seq<nat>)
    requires PlaceArgs(m0, brk, blocks, free0, head0, bp, a) && Size(m0, bp) >= a + MINBLOCKSIZE
    requires bp == head0 && |m0| < 0x2000_0000 && !NextIsFree(m0, brk, blocks, bp)
    ensures c == bp + a / WSIZE && State(m3, brk, blocks', free3, c, {}) && free3 == [c] + Without(free0, bp)
    ensures IsAllocated(m3, blocks', bp) && Unlinkable(m3, bp) && Tiled(UnlinkWords(m3, bp), brk, blocks')
    ensures var m4 := ExtraPlace(m3, brk, blocks', bp);
      && Linked(m4, Without(free3, c), UnlinkHead(m3, c, bp))
      && c in blocks' && c !in Without(free3, c) && Alloc(m4, c) == 0
  {
    var m2;
    m2, blocks', c, m3, free3 := SplitHeadLeavesStaleLinks(m0, brk, blocks, free0, head0, bp, a);
    ExtraPlaceLosesFree(m3, brk, blocks', free3, c, bp);
  }
}
