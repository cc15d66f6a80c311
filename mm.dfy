/** The allocator itself: mm_init, mm_malloc, mm_free and mm_realloc with
    their static helpers find_fit, place, extend_heap, coalesce, add_free and
    remove_from_free, as methods of one object that owns the heap words and
    the two globals heap_listp and free_listp. memlib's mem_sbrk is the method
    Sbrk over the same word array. */
module Mm {
  import opened Codec
  import opened Layout
  import opened FreeList
  import opened Heap
  import opened Operations
  import opened Resize

  /** Heaps stay below 2^31 bytes, so every byte size fits the `(int)` casts
      of place and mm_realloc. */
  const MAX_WORDS: nat := 0x2000_0000

  class Allocator {
    /** memlib's heap area, one entry per 4-byte word. */
    const mem: array<Word>
    /** mem_brk: how many words mem_sbrk has handed out. */
    var brk: nat
    /** heap_listp: the prologue's block pointer once mm_init has run. */
    var heapList: nat
    /** free_listp: the first free block, or the sentinel when none is free. */
    var freeList: nat
    /** The block pointers in address order, and the free list in list order. */
    ghost var blocks: seq<nat>
    ghost var free: seq<nat>

    /** The heap invariant, with the blocks of `pending` tagged free but not
        linked. */
    ghost predicate Inv(pending: set<nat>)
      reads this, mem
    {
      && mem.Length < MAX_WORDS
      && heapList == PROLOGUE
      && State(mem[..], brk, blocks, free, freeList, pending)
    }

    /** The invariant between calls: every free block is on the list. */
    ghost predicate Valid()
      reads this, mem
    {
      Inv({})
    }

    /** mem_init: a heap area of `capacity` words, none handed out yet. */
    constructor (capacity: nat)
      requires capacity < MAX_WORDS
      ensures mem.Length == capacity && brk == 0 && fresh(mem)
    {
      mem := new Word[capacity];
      brk := 0;
      heapList := NULL;
      freeList := NULL;
      blocks := [];
      free := [];
    }

    /** mm_init: takes eight words from mem_sbrk for the alignment pad, the
        prologue, the allocated sentinel that ends the free list and the
        first epilogue header, then extends the heap by one chunk. It
        returns -1 when either request to mem_sbrk fails. */
    method Init() returns (r: int)
      requires brk == 0 && mem.Length < MAX_WORDS
      modifies this, mem
      ensures r == 0 || r == -1
      ensures r == 0 <==> mem.Length >= FIRST + CHUNKSIZE / WSIZE
      ensures mem.Length < FIRST ==> brk == 0 && mem[..] == old(mem[..])
      ensures FIRST <= mem.Length ==> Valid()
      ensures FIRST <= mem.Length < FIRST + CHUNKSIZE / WSIZE ==>
        brk == FIRST && blocks == [] && free == [] && mem[..] == InitWords(old(mem[..]))
      ensures r == 0 ==>
        && brk == FIRST + CHUNKSIZE / WSIZE && freeList == FIRST && free == [FIRST]
        && (forall x :: x in blocks <==> x == FIRST)
        && Size(mem[..], FIRST) == CHUNKSIZE && Alloc(mem[..], FIRST) == 0
    {
      ghost var m0 := mem[..];
      var p := Sbrk(8 * WSIZE);
      if p == -1 {
        return -1;
      }
      heapList := p;
      ghost var m := mem[..];
      mem[heapList] := 0;
      assert mem[..] == m[0 := 0];
      m := mem[..];
      mem[heapList + 1] := Pack(ALIGNMENT as Word, 1);
      assert mem[..] == m[1 := Pack(8, 1)];
      m := mem[..];
      mem[heapList + 2] := Pack(ALIGNMENT as Word, 1);
      assert mem[..] == m[2 := Pack(8, 1)];
      m := mem[..];
      mem[heapList + 7] := Pack(0, 1);
      assert mem[..] == m[7 := Pack(0, 1)];
      heapList := heapList + ALIGNMENT / WSIZE;
      freeList := heapList + ALIGNMENT / WSIZE;
      PutTags(freeList, MINBLOCKSIZE, 1);
      m := mem[..];
      mem[freeList + 1] := NULL as Word;
      assert mem[..] == m[5 := NULL as Word];
      m := mem[..];
      mem[freeList] := (heapList + 5) as Word;
      assert mem[..] == m[4 := STALE_LINK as Word];
      blocks := [];
      free := [];
      assert mem[..] == InitWords(m0);
      InitState(m0);
      ghost var m1 := mem[..];
      assert ExtendBytes(CHUNKSIZE / WSIZE) == CHUNKSIZE;
      var bp := ExtendHeap(CHUNKSIZE / WSIZE);
      if bp == NULL {
        return -1;
      }
      ghost var m2 := ExtendWords(m1, FIRST, CHUNKSIZE);
      assert [] + [FIRST] == [FIRST];
      LoneBlock(m2, brk);
      return 0;
    }

    /** mem_sbrk: hands out `incr` more bytes at the break and returns the
        old break, or fails with -1 when the heap area would overflow. */
    method Sbrk(incr: nat) returns (p: int)
      requires incr % WSIZE == 0
      modifies this`brk
      ensures old(brk) + incr / WSIZE <= mem.Length ==> p == old(brk) && brk == old(brk) + incr / WSIZE
      ensures old(brk) + incr / WSIZE > mem.Length ==> p == -1 && brk == old(brk)
    {
      if brk + incr / WSIZE > mem.Length {
        return -1;
      }
      p := brk;
      brk := brk + incr / WSIZE;
    }

    /** remove_from_free: bp's predecessor (or free_listp, when bp has
        none) gets bp's successor, and the successor's PREV_FREE word gets
        bp's predecessor. What this means for the list is `Unlinking`: bp
        leaves it, the other members keep their order, and no tag changes. */
    method RemoveFromFree(bp: nat)
      requires Unlinkable(mem[..], bp)
      modifies this`freeList, mem
      ensures mem[..] == UnlinkWords(old(mem[..]), bp)
      ensures freeList == UnlinkHead(old(mem[..]), old(freeList), bp)
    {
      ghost var m0 := mem[..];
      if mem[bp + 1] != NULL as Word {
        mem[mem[bp + 1]] := mem[bp];
      } else {
        freeList := mem[bp] as nat;
      }
      ghost var m1 := mem[..];
      mem[mem[bp] as int + 1] := mem[bp + 1];
      assert mem[..] == UnlinkWords(m0, bp);
    }

    /** add_free: bp's NEXT_FREE gets the old head, the old head's PREV_FREE
        gets bp, bp's PREV_FREE gets NULL, and bp becomes the head. What this
        means for the list is `Pushing`: bp goes in front of it. */
    method AddFree(bp: nat)
      requires Pushable(mem[..], freeList, bp)
      modifies this`freeList, mem
      ensures mem[..] == PushWords(old(mem[..]), old(freeList), bp)
      ensures freeList == bp
    {
      mem[bp] := freeList as Word;
      mem[freeList + 1] := bp as Word;
      mem[bp + 1] := NULL as Word;
      freeList := bp;
    }

    /** find_fit: walks the list from the head until the first block whose
        allocated bit is set (the sentinel) and returns the first member of
        at least `asize` bytes, or NULL. */
    method FindFit(asize: nat) returns (bp: nat)
      requires Valid()
      ensures var k := FirstFit(mem[..], free, asize);
        bp == if k < |free| then free[k] else NULL
    {
      DummyTags(mem[..]);
      assert forall j :: 0 <= j < |free| ==> free[j] in free;
      bp := freeList;
      ghost var i := 0;
      while GetAlloc(mem[bp - 1]) == 0
        invariant i <= |free| && bp == if i < |free| then free[i] else DUMMY
        invariant forall j :: 0 <= j < i ==> Size(mem[..], free[j]) < asize
        decreases |free| - i
      {
        if asize <= GetSize(mem[bp - 1]) as nat {
          return;
        }
        assert NextFree(mem[..], free[i]) == Succ(free, i);
        bp := mem[bp] as nat;
        i := i + 1;
      }
      bp := NULL;
    }

    /** PUT(HDRP(bp), PACK(size, alloc)) and then PUT(FTRP(bp), ...), the
        footer being found through the header just written. */
    method PutTags(bp: nat, size: nat, alloc: Word)
      requires Taggable(mem[..], bp, size) && alloc <= 1
      modifies mem
      ensures mem[..] == TagWords(old(mem[..]), bp, size, alloc)
    {
      mem[bp - 1] := Pack(size as Word, alloc);
      mem[bp + GetSize(mem[bp - 1]) as int / WSIZE - 2] := Pack(size as Word, alloc);
    }

    /** extend_heap: asks mem_sbrk for the word count rounded up to even,
        and on success turns the new area into one free block ending in a
        new epilogue header, then coalesces it with a free block before it.
        It returns NULL, with nothing changed, when mem_sbrk fails. */
    method ExtendHeap(words: nat) returns (bp: nat)
      requires Valid() && ExtendBytes(words) >= MINBLOCKSIZE
      modifies this`brk, this`freeList, this`free, this`blocks, mem
      ensures Valid()
      ensures KeepsAllocated(old(mem[..]), old(blocks), mem[..], blocks, {})
      ensures bp == NULL <==> old(brk) + ExtendBytes(words) / WSIZE > mem.Length
      ensures bp == NULL ==>
        mem[..] == old(mem[..]) && brk == old(brk) && blocks == old(blocks) && free == old(free) &&
        freeList == old(freeList)
      ensures bp != NULL ==>
        && brk == old(brk) + ExtendBytes(words) / WSIZE
        && Extendable(old(mem[..]), old(brk), ExtendBytes(words))
        && Coalesced(ExtendWords(old(mem[..]), old(brk), ExtendBytes(words)), old(blocks) + [old(brk)],
                     old(free), old(brk), bp)
      ensures bp != NULL ==> bp in free && 1 <= bp <= mem.Length && Size(mem[..], bp) >= ExtendBytes(words)
    {
      ghost var m0, brk0, blocks0, free0, head0 := mem[..], brk, blocks, free, freeList;
      var size := ExtendBytes(words);
      var p := Sbrk(size);
      if p == -1 {
        KeepsSame(m0, brk0, blocks0);
        return NULL;
      }
      bp := p;
      assert Extendable(m0, bp, size);
      PutExtendTags(bp, size);
      blocks := blocks0 + [bp];
      ghost var m1, blocks1 := mem[..], blocks;
      Extending(m0, brk0, blocks0, free0, head0, size);
      bp := Coalesce(bp);
      CoalesceKeeps(m1, brk, blocks1, free0, brk0, mem[..], blocks);
      KeepsTrans(m0, blocks0, m1, blocks1, mem[..], blocks, {}, {brk0});
    }

    /** The writes of extend_heap: the new block's tags, then the epilogue
        header found through the size just written. */
    method PutExtendTags(bp: nat, size: nat)
      requires Extendable(mem[..], bp, size)
      modifies mem
      ensures mem[..] == ExtendWords(old(mem[..]), bp, size)
    {
      PutTags(bp, size, 0);
      mem[bp + GetSize(mem[bp - 1]) as int / WSIZE - 1] := Pack(0, 1);
    }

    /** What coalesce leaves, from the words `m0`, layout `blocks0` and list
        `free0` it started with: the heap invariant again, and the merged
        block `r` (`MergedStart`) first on the list (`CoalesceOutcome`). */
    ghost predicate Coalesced(m0: seq<Word>, blocks0: seq<nat>, free0: seq<nat>, bp: nat, r: nat)
      reads this, mem
    {
      && Valid() && Tiled(m0, brk, blocks0) && bp in blocks0
      && r == MergedStart(m0, brk, blocks0, bp) && freeList == r
      && free == [r] + Filter(free0, Absorbed(m0, brk, blocks0, bp))
      && CoalesceOutcome(m0, brk, blocks0, free0, bp, mem[..], blocks)
    }

    /** What place leaves, from the words `m0`, layout `blocks0`, list
        `free0` and head `head0` it started with: bp unlinked, then either
        split after `asize` bytes with the remainder coalesced, or retagged
        allocated whole. */
    ghost predicate Placed(m0: seq<Word>, blocks0: seq<nat>, free0: seq<nat>, head0: nat, bp: nat, asize: nat)
      reads this, mem
    {
      && Unlinkable(m0, bp) && 1 <= bp <= |m0|
      && (Size(m0, bp) >= asize + MINBLOCKSIZE ==>
            && Splittable(UnlinkWords(m0, bp), bp, asize, Size(m0, bp)) && bp in blocks0
            && var m2, c := SplitWords(UnlinkWords(m0, bp), bp, asize, Size(m0, bp)), bp + asize / WSIZE;
               Coalesced(m2, SplitLayout(blocks0, bp, c), Without(free0, bp), c, freeList))
      && (Size(m0, bp) < asize + MINBLOCKSIZE ==>
            && Tiled(UnlinkWords(m0, bp), brk, blocks0) && bp in blocks0
            && mem[..] == Retagged(UnlinkWords(m0, bp), brk, blocks0, bp, 1)
            && blocks == blocks0 && free == Without(free0, bp) && freeList == UnlinkHead(m0, head0, bp))
    }

    /** place: takes the free block bp off the list and allocates its first
        `asize` bytes, splitting off the rest as a new free block when that
        is at least the minimum block size. */
    method Place(bp: nat, asize: nat)
      requires Valid() && PlaceArgs(mem[..], brk, blocks, free, freeList, bp, asize)
      modifies this`freeList, this`free, this`blocks, mem
      ensures Valid() && IsAllocated(mem[..], blocks, bp)
      ensures asize <= Size(mem[..], bp) < asize + MINBLOCKSIZE
      ensures KeepsAllocated(old(mem[..]), old(blocks), mem[..], blocks, {bp})
      ensures Placed(old(mem[..]), old(blocks), old(free), old(freeList), bp, asize)
    {
      BlockFacts(mem[..], brk, blocks);
      var csize := GetSize(mem[bp - 1]) as int;
      var diff := csize - asize as int;
      if diff >= MINBLOCKSIZE as int {
        PlaceSplitting(bp, asize, csize);
      } else {
        PlaceAll(bp, csize);
      }
    }

    /** place's first branch: bp keeps `asize` bytes and the `csize - asize`
        behind them become a free block that coalesce links. */
    method PlaceSplitting(bp: nat, asize: nat, csize: nat)
      requires Valid() && PlaceArgs(mem[..], brk, blocks, free, freeList, bp, asize)
      requires csize == Size(mem[..], bp) && csize >= asize + MINBLOCKSIZE
      modifies this`freeList, this`free, this`blocks, mem
      ensures IsAllocated(mem[..], blocks, bp) && Size(mem[..], bp) == asize
      ensures KeepsAllocated(old(mem[..]), old(blocks), mem[..], blocks, {bp})
      ensures Unlinkable(old(mem[..]), bp) && Splittable(UnlinkWords(old(mem[..]), bp), bp, asize, csize)
      ensures bp in old(blocks)
      ensures Coalesced(SplitWords(UnlinkWords(old(mem[..]), bp), bp, asize, csize),
                        SplitLayout(old(blocks), bp, bp + asize / WSIZE), Without(old(free), bp),
                        bp + asize / WSIZE, freeList)
    {
      ghost var m0, blocks0, free0, head0 := mem[..], blocks, free, freeList;
      PlaceSplitTags(m0, brk, blocks0, free0, head0, bp, asize);
      var next := SplitOff(bp, asize, csize);
      ghost var m2, layout := mem[..], blocks;
      var _ := Coalesce(next);
      CoalesceKeeps(m2, brk, layout, Without(free0, bp), next, mem[..], blocks);
      KeepsTrans(m0, blocks0, m2, layout, mem[..], blocks, {bp}, {next});
      SameSize(m2, mem[..], bp);
    }

    /** The writes of place's first branch: bp is unlinked, tagged allocated
        with `asize` bytes, and the rest tagged as a free block `next`, which
        is left pending for coalesce. */
    method SplitOff(bp: nat, asize: nat, csize: nat) returns (next: nat)
      requires Valid() && PlaceArgs(mem[..], brk, blocks, free, freeList, bp, asize)
      requires csize == Size(mem[..], bp) && csize >= asize + MINBLOCKSIZE
      modifies this`freeList, this`free, this`blocks, mem
      ensures next == bp + asize / WSIZE && bp in old(blocks)
      ensures Unlinkable(old(mem[..]), bp) && Splittable(UnlinkWords(old(mem[..]), bp), bp, asize, csize)
      ensures mem[..] == SplitWords(UnlinkWords(old(mem[..]), bp), bp, asize, csize)
      ensures blocks == SplitLayout(old(blocks), bp, next) && free == Without(old(free), bp)
      ensures freeList == UnlinkHead(old(mem[..]), old(freeList), bp)
      ensures Inv({next})
    {
      ghost var m0, blocks0, free0, head0 := mem[..], blocks, free, freeList;
      PlaceSplitSteps(m0, brk, blocks0, free0, head0, bp, asize);
      RemoveFromFree(bp);
      next := PutSplitTags(bp, asize, csize);
      blocks := SplitLayout(blocks0, bp, next);
      free := Without(free0, bp);
      assert mem[..] == SplitWords(UnlinkWords(m0, bp), bp, asize, Size(m0, bp));
      assert freeList == UnlinkHead(m0, head0, bp);
      PlaceSplit(m0, brk, blocks0, free0, head0, bp, asize);
    }

    /** The four tag writes of a split: bp's header and footer with `asize`
        bytes allocated, then those of the block behind it with the rest. */
    method PutSplitTags(bp: nat, asize: nat, csize: nat) returns (next: nat)
      requires Splittable(mem[..], bp, asize, csize)
      modifies mem
      ensures next == bp + asize / WSIZE
      ensures mem[..] == SplitWords(old(mem[..]), bp, asize, csize)
    {
      SplitArith(asize, csize);
      PutTags(bp, asize, 1);
      assert mem[bp - 1] == Pack(asize as Word, 1);
      next := bp + GetSize(mem[bp - 1]) as int / WSIZE;
      PutTags(next, csize - asize, 0);
    }

    /** place's second branch: the whole block is allocated. */
    method PlaceAll(bp: nat, csize: nat)
      requires Valid() && bp in free && 1 <= bp <= mem.Length && csize == Size(mem[..], bp)
      modifies this`freeList, this`free, mem
      ensures Valid() && IsAllocated(mem[..], blocks, bp) && Size(mem[..], bp) == csize
      ensures KeepsAllocated(old(mem[..]), blocks, mem[..], blocks, {bp})
      ensures Unlinkable(old(mem[..]), bp) && Tiled(UnlinkWords(old(mem[..]), bp), brk, blocks) && bp in blocks
      ensures mem[..] == Retagged(UnlinkWords(old(mem[..]), bp), brk, blocks, bp, 1)
      ensures free == Without(old(free), bp) && freeList == UnlinkHead(old(mem[..]), old(freeList), bp)
    {
      ghost var m0, free0, head0 := mem[..], free, freeList;
      PlaceWhole(m0, brk, blocks, free0, head0, bp);
      RemoveFromFree(bp);
      PutTags(bp, csize, 1);
      free := Without(free0, bp);
    }

    /** coalesce: reads the allocated bits of bp's neighbours in address
        order (the previous block found through its footer), merges bp with
        whichever of them are free, and pushes the merged block. */
    method Coalesce(bp: nat) returns (r: nat)
      requires Inv({bp})
      modifies this`freeList, this`free, this`blocks, mem
      ensures Coalesced(old(mem[..]), old(blocks), old(free), bp, r)
    {
      ghost var m0, brk0, blocks0, free0, head0 := mem[..], brk, blocks, free, freeList;
      r := MergeNeighbours(bp);
      CoalescePushable(m0, brk0, blocks0, free0, head0, bp);
      AddFree(r);
      ghost var blocks' := CoalesceDone(m0, brk0, blocks0, free0, head0, bp, mem[..]);
      blocks := blocks';
      free := [r] + Filter(free0, Absorbed(m0, brk0, blocks0, bp));
    }

    /** The four cases of coalesce up to the final add_free: the free
        neighbours are unlinked and the merged block is tagged free. */
    method MergeNeighbours(bp: nat) returns (r: nat)
      requires Inv({bp})
      modifies this`freeList, mem
      ensures r == MergedStart(old(mem[..]), brk, blocks, bp)
      ensures var mh := Premerged(old(mem[..]), brk, blocks, free, old(freeList), bp);
        mem[..] == mh.0 && freeList == mh.1
    {
      ghost var m0, head0 := mem[..], freeList;
      CoalesceReads(m0, brk, blocks, bp);
      var prev := bp - GetSize(mem[bp - 2]) as int / WSIZE;
      var prevAlloc := GetAlloc(mem[prev + GetSize(mem[prev - 1]) as int / WSIZE - 2]);
      var next := bp + GetSize(mem[bp - 1]) as int / WSIZE;
      var nextAlloc := GetAlloc(mem[next - 1]);
      var size := GetSize(mem[bp - 1]) as nat;
      r := bp;
      if prevAlloc == 1 && nextAlloc == 0 {
        MergeNext(bp, next, size);
      } else if prevAlloc == 0 && nextAlloc == 1 {
        r := MergePrev(bp, prev, size);
      } else if prevAlloc == 0 && nextAlloc == 0 {
        r := MergeBoth(bp, prev, next, size);
      } else {
        assert (mem[..], freeList) == Premerged(m0, brk, blocks, free, head0, bp);
      }
    }

    /** coalesce's `prev_alloc && !next_alloc` branch: the size grows by the
        next block's, which leaves the list, and bp is tagged over both. */
    method MergeNext(bp: nat, next: nat, size: nat)
      requires Inv({bp}) && !PrevIsFree(mem[..], brk, blocks, bp) && NextIsFree(mem[..], brk, blocks, bp)
      requires next == NextNbr(mem[..], brk, blocks, bp) && size == Size(mem[..], bp)
      modifies this`freeList, mem
      ensures (mem[..], freeList) == Premerged(old(mem[..]), brk, blocks, free, old(freeList), bp)
    {
      ghost var m0, brk0, blocks0, free0, head0 := mem[..], brk, blocks, free, freeList;
      PremergedNext(m0, brk0, blocks0, free0, head0, bp);
      CoalesceReads(m0, brk0, blocks0, bp);
      var size := size + GetSize(mem[next - 1]) as nat;
      assert size == MergedSize(m0, brk0, blocks0, bp);
      assert bp == MergedStart(m0, brk0, blocks0, bp);
      RemoveFromFree(next);
      PutTags(bp, size, 0);
    }

    /** coalesce's `!prev_alloc && next_alloc` branch: the size grows by the
        previous block's, which leaves the list and is tagged over both. */
    method MergePrev(bp: nat, prev: nat, size: nat) returns (r: nat)
      requires Inv({bp}) && PrevIsFree(mem[..], brk, blocks, bp) && !NextIsFree(mem[..], brk, blocks, bp)
      requires prev == PrevNbr(mem[..], brk, blocks, bp) && size == Size(mem[..], bp)
      modifies this`freeList, mem
      ensures r == prev
      ensures (mem[..], freeList) == Premerged(old(mem[..]), brk, blocks, free, old(freeList), bp)
    {
      ghost var m0, brk0, blocks0, free0, head0 := mem[..], brk, blocks, free, freeList;
      PremergedPrev(m0, brk0, blocks0, free0, head0, bp);
      CoalesceReads(m0, brk0, blocks0, bp);
      var size := size + GetSize(mem[prev - 1]) as nat;
      assert size == MergedSize(m0, brk0, blocks0, bp);
      assert prev == MergedStart(m0, brk0, blocks0, bp);
      r := prev;
      RemoveFromFree(r);
      PutTags(r, size, 0);
    }

    /** coalesce's `!prev_alloc && !next_alloc` branch: the size grows by
        both neighbours', both leave the list, the previous block is found
        again through its footer and tagged over all three. */
    method MergeBoth(bp: nat, prev: nat, next: nat, size: nat) returns (r: nat)
      requires Inv({bp}) && PrevIsFree(mem[..], brk, blocks, bp) && NextIsFree(mem[..], brk, blocks, bp)
      requires prev == PrevNbr(mem[..], brk, blocks, bp) && next == NextNbr(mem[..], brk, blocks, bp)
      requires size == Size(mem[..], bp)
      modifies this`freeList, mem
      ensures r == prev
      ensures (mem[..], freeList) == Premerged(old(mem[..]), brk, blocks, free, old(freeList), bp)
    {
      ghost var m0, brk0, blocks0, free0, head0 := mem[..], brk, blocks, free, freeList;
      PremergedBoth(m0, brk0, blocks0, free0, head0, bp);
      BothKeepFooter(m0, brk0, blocks0, free0, head0, bp);
      CoalesceReads(m0, brk0, blocks0, bp);
      SameFooter(m0, UnlinkWords(UnlinkWords(m0, prev), next), prev, bp - 2);
      var size := size + GetSize(mem[prev - 1]) as nat + GetSize(mem[next - 1]) as nat;
      assert size == MergedSize(m0, brk0, blocks0, bp);
      r := UnlinkBothAndTag(bp, prev, next, size);
    }

    /** The writes of that branch: both neighbours unlinked, then the
        predecessor, found again through the footer in front of bp, tagged
        free over all three. */
    method UnlinkBothAndTag(bp: nat, prev: nat, next: nat, size: nat) returns (r: nat)
      requires Unlinkable(mem[..], prev) && Unlinkable(UnlinkWords(mem[..], prev), next)
      requires 2 <= bp <= mem.Length && bp - GetSize(mem[bp - 2]) as int / WSIZE == prev
      requires UnlinkWords(UnlinkWords(mem[..], prev), next)[bp - 2] == mem[bp - 2]
      requires Taggable(UnlinkWords(UnlinkWords(mem[..], prev), next), prev, size)
      modifies this`freeList, mem
      ensures r == prev
      ensures mem[..] == TagWords(UnlinkWords(UnlinkWords(old(mem[..]), prev), next), prev, size, 0)
      ensures freeList == UnlinkHead(UnlinkWords(old(mem[..]), prev), UnlinkHead(old(mem[..]), old(freeList), prev), next)
    {
      RemoveFromFree(prev);
      RemoveFromFree(next);
      r := bp - GetSize(mem[bp - 2]) as int / WSIZE;
      PutTags(r, size, 0);
    }

    /** mm_malloc: ignores a zero request; otherwise rounds the request up
        to a block size and allocates a block of that size. */
    method Malloc(size: Word) returns (bp: nat)
      requires Valid()
      modifies this`brk, this`freeList, this`free, this`blocks, mem
      ensures Valid() && KeepsAllocated(old(mem[..]), old(blocks), mem[..], blocks, {})
      ensures size == 0 ==>
        bp == NULL && mem[..] == old(mem[..]) && brk == old(brk) && blocks == old(blocks) && free == old(free) &&
        freeList == old(freeList)
      ensures size > 0 ==> Allocated(old(mem[..]), old(brk), old(blocks), old(free), old(freeList), AdjustSize(size as nat), bp)
    {
      if size == 0 {
        KeepsSame(mem[..], brk, blocks);
        return NULL;
      }
      bp := Allocate(AdjustSize(size as nat));
    }

    /** What allocating an `asize`-byte block leaves, from the words `m0`,
        break `brk0`, layout `blocks0`, list `free0` and head `head0` it
        started with. The first free block that fits is placed; with none,
        the heap grows by exactly the larger of `asize` and CHUNKSIZE bytes
        and the block extend_heap returns (the new block coalesced with a
        free block before it) is placed. NULL means the heap could not grow,
        and then nothing changed. */
    ghost predicate Allocated(m0: seq<Word>, brk0: nat, blocks0: seq<nat>, free0: seq<nat>, head0: nat,
                              asize: nat, bp: nat)
      reads this, mem
      requires forall i :: 0 <= i < |free0| ==> 1 <= free0[i] <= |m0|
    {
      var k := FirstFit(m0, free0, asize);
      && (bp != NULL ==>
            && IsAllocated(mem[..], blocks, bp) && !IsAllocated(m0, blocks0, bp)
            && asize <= Size(mem[..], bp) < asize + MINBLOCKSIZE)
      && (k < |free0| ==> bp == free0[k] && brk == brk0 && Placed(m0, blocks0, free0, head0, bp, asize))
      && (k == |free0| && bp != NULL ==>
            var e := Max(asize, CHUNKSIZE);
            && brk == brk0 + e / WSIZE && Extendable(m0, brk0, e)
            && Tiled(ExtendWords(m0, brk0, e), brk, blocks0 + [brk0])
            && bp == MergedStart(ExtendWords(m0, brk0, e), brk, blocks0 + [brk0], brk0))
      && (bp == NULL <==>
            k == |free0| && brk0 + ExtendBytes(Max(asize, CHUNKSIZE) / WSIZE) / WSIZE > mem.Length)
      && (bp == NULL ==>
            mem[..] == m0 && brk == brk0 && blocks == blocks0 && free == free0 && freeList == head0)
    }

    /** mm_malloc after the zero check and the rounding: find_fit, and on a
        miss extend_heap by the larger of `asize` and CHUNKSIZE; then place. */
    method Allocate(asize: nat) returns (bp: nat)
      requires Valid() && asize % ALIGNMENT == 0 && asize >= MINBLOCKSIZE
      modifies this`brk, this`freeList, this`free, this`blocks, mem
      ensures Valid() && KeepsAllocated(old(mem[..]), old(blocks), mem[..], blocks, {})
      ensures Allocated(old(mem[..]), old(brk), old(blocks), old(free), old(freeList), asize, bp)
    {
      bp := FindFit(asize);
      if bp != NULL {
        ghost var m0, blocks0 := mem[..], blocks;
        KeepsSame(m0, brk, blocks0);
        FreeWasNotAllocated(m0, blocks0, m0, brk, blocks0, free, freeList, bp);
        Place(bp, asize);
        KeepsTrans(m0, blocks0, m0, blocks0, mem[..], blocks, {}, {bp});
      } else {
        bp := AllocateExtending(asize);
      }
    }

    /** mm_malloc's miss path: extend_heap by the larger of `asize` and
        CHUNKSIZE, then place in the block it returns. */
    method AllocateExtending(asize: nat) returns (bp: nat)
      requires Valid() && asize % ALIGNMENT == 0 && asize >= MINBLOCKSIZE
      requires FirstFit(mem[..], free, asize) == |free|
      modifies this`brk, this`freeList, this`free, this`blocks, mem
      ensures Valid() && KeepsAllocated(old(mem[..]), old(blocks), mem[..], blocks, {})
      ensures Allocated(old(mem[..]), old(brk), old(blocks), old(free), old(freeList), asize, bp)
    {
      ghost var m0, blocks0 := mem[..], blocks;
      var extendSize := Max(asize, CHUNKSIZE);
      WordsOfBytes(extendSize);
      assert ExtendBytes(extendSize / WSIZE) == extendSize >= asize;
      bp := ExtendHeap(extendSize / WSIZE);
      if bp == NULL {
        return;
      }
      assert PlaceArgs(mem[..], brk, blocks, free, freeList, bp, asize);
      PlaceFresh(bp, asize, m0, blocks0);
    }

    /** Place on a block that was free, after steps that kept every block
        allocated at `m0`, `blocks0`: the placed block is a new allocation,
        and every block allocated at `m0` still is. */
    method PlaceFresh(bp: nat, asize: nat, ghost m0: seq<Word>, ghost blocks0: seq<nat>)
      requires Valid() && PlaceArgs(mem[..], brk, blocks, free, freeList, bp, asize)
      requires KeepsAllocated(m0, blocks0, mem[..], blocks, {})
      modifies this`freeList, this`free, this`blocks, mem
      ensures Valid() && IsAllocated(mem[..], blocks, bp) && !IsAllocated(m0, blocks0, bp)
      ensures asize <= Size(mem[..], bp) < asize + MINBLOCKSIZE
      ensures KeepsAllocated(m0, blocks0, mem[..], blocks, {})
    {
      ghost var m1, blocks1 := mem[..], blocks;
      FreeWasNotAllocated(m0, blocks0, m1, brk, blocks1, free, freeList, bp);
      Place(bp, asize);
      KeepsTrans(m0, blocks0, m1, blocks1, mem[..], blocks, {}, {bp});
    }

    /** mm_free: re-tags bp free with its size kept and coalesces it; the
        merged block heads the list, bp is no longer an allocated block, and
        no other allocated block changes. */
    method Free(bp: nat)
      requires Valid() && IsAllocated(mem[..], blocks, bp)
      modifies this`freeList, this`free, this`blocks, mem
      ensures Coalesced(Retagged(old(mem[..]), brk, old(blocks), bp, 0), old(blocks), old(free), bp, freeList)
      ensures KeepsAllocated(old(mem[..]), old(blocks), mem[..], blocks, {bp})
      ensures !IsAllocated(mem[..], blocks, bp)
    {
      ghost var m0, blocks0, free0, head0 := mem[..], blocks, free, freeList;
      Freeing(m0, brk, blocks0, free0, head0, bp);
      var size := GetSize(mem[bp - 1]);
      PutTags(bp, size as nat, 0);
      ghost var m1 := mem[..];
      var _ := Coalesce(bp);
      FreeKeeps(m0, brk, blocks0, free0, head0, bp, mem[..], blocks);
      CoalesceReleases(m1, brk, blocks0, free0, bp, mem[..], blocks);
    }

    /** The heap exactly as it was: words, break, layout, list and head. */
    ghost predicate Unchanged(m0: seq<Word>, brk0: nat, blocks0: seq<nat>, free0: seq<nat>, head0: nat)
      reads this, mem
    {
      mem[..] == m0 && brk == brk0 && blocks == blocks0 && free == free0 && freeList == head0
    }

    /** What mm_realloc leaves for the allocated block bp asked to become a
        `newsize`-byte block, from the heap `m0`, `brk0`, `blocks0`,
        `free0`, `head0` it started with: a result that is not NULL is an
        allocated block of at least `newsize` bytes, reached by the case
        that applies (same size, shrink by exactly the minimum block, other
        shrink, growth into a free predecessor, then into a free successor,
        else moving). */
    ghost predicate Reallocated(m0: seq<Word>, brk0: nat, blocks0: seq<nat>, free0: seq<nat>, head0: nat,
                                bp: nat, newsize: nat, r: nat)
      reads this, mem
      requires Tiled(m0, brk0, blocks0) && bp in blocks0 && 1 <= bp <= |m0|
      requires forall i :: 0 <= i < |free0| ==> 1 <= free0[i] <= |m0|
    {
      var oldsize, p, n := Size(m0, bp), PrevNbr(m0, brk0, blocks0, bp), NextNbr(m0, brk0, blocks0, bp);
      var intoPrev := PrevIsFree(m0, brk0, blocks0, bp) && Size(m0, p) + oldsize >= newsize;
      var intoNext := NextIsFree(m0, brk0, blocks0, bp) && oldsize + Size(m0, n) >= newsize;
      && (r != NULL ==> IsAllocated(mem[..], blocks, r) && newsize <= Size(mem[..], r))
      && (newsize <= oldsize && oldsize != newsize + MINBLOCKSIZE ==>
            r == bp && Unchanged(m0, brk0, blocks0, free0, head0))
      && (oldsize == newsize + MINBLOCKSIZE ==> r == bp && Shrunk(m0, brk0, blocks0, free0, head0, bp, newsize))
      && (oldsize < newsize && intoPrev ==> r == p && Grown(m0, brk0, blocks0, free0, head0, bp, p, p))
      && (oldsize < newsize && !intoPrev && intoNext ==> r == bp && Grown(m0, brk0, blocks0, free0, head0, bp, n, bp))
      && (oldsize < newsize && !intoPrev && !intoNext ==>
            Moved(m0, brk0, blocks0, free0, head0, bp, AdjustSize(newsize), r))
    }

    /** After the shrinking split of bp at `a` bytes: the remainder block c
        is tagged free, is a block of the layout and heads the list. */
    ghost predicate Shrunk(m0: seq<Word>, brk0: nat, blocks0: seq<nat>, free0: seq<nat>, head0: nat, bp: nat, a: nat)
      reads this, mem
      requires bp in blocks0 && 1 <= bp <= |m0|
    {
      && Splittable(m0, bp, a, Size(m0, bp))
      && var m2, c := SplitWords(m0, bp, a, Size(m0, bp)), bp + a / WSIZE;
         && Pushable(m2, head0, c) && mem[..] == PushWords(m2, head0, c) && brk == brk0
         && blocks == SplitLayout(blocks0, bp, c) && free == [c] + free0 && freeList == c
    }

    /** After bp grew into its free neighbour x: x is off the list and r,
        the lower of the two, is one allocated block over both; the layout
        keeps r and drops the other. */
    ghost predicate Grown(m0: seq<Word>, brk0: nat, blocks0: seq<nat>, free0: seq<nat>, head0: nat,
                          bp: nat, x: nat, r: nat)
      reads this, mem
    {
      && GrowWords(m0, bp, x, r, mem[..]) && brk == brk0
      && free == Without(free0, x) && freeList == UnlinkHead(m0, head0, x)
      && (forall y :: y in blocks <==> y in blocks0 && (y == r || (y != bp && y != x)))
    }

    /** After the fallback of mm_realloc with an `asize`-byte request: NULL
        exactly when allocating failed, and then nothing changed; otherwise
        r is a new allocated block and bp is freed. */
    ghost predicate Moved(m0: seq<Word>, brk0: nat, blocks0: seq<nat>, free0: seq<nat>, head0: nat,
                          bp: nat, asize: nat, r: nat)
      reads this, mem
      requires forall i :: 0 <= i < |free0| ==> 1 <= free0[i] <= |m0|
    {
      && (r == NULL <==>
            FirstFit(m0, free0, asize) == |free0| && brk0 + ExtendBytes(Max(asize, CHUNKSIZE) / WSIZE) / WSIZE > mem.Length)
      && (r == NULL ==> Unchanged(m0, brk0, blocks0, free0, head0))
      && (r != NULL ==>
            && IsAllocated(mem[..], blocks, r) && !IsAllocated(m0, blocks0, r)
            && asize <= Size(mem[..], r) < asize + MINBLOCKSIZE && !IsAllocated(mem[..], blocks, bp))
    }

    /** mm_realloc: a size that is negative as a 32-bit `int` gets NULL; a
        zero size frees bp; a NULL bp is mm_malloc; otherwise the request is
        rounded as mm_malloc rounds it and bp is resized. */
    method Realloc(bp: nat, size: Word) returns (r: nat)
      requires Valid() && (bp == NULL || IsAllocated(mem[..], blocks, bp)) && (size == 0 ==> bp != NULL)
      modifies this`brk, this`freeList, this`free, this`blocks, mem
      ensures Valid() && KeepsAllocated(old(mem[..]), old(blocks), mem[..], blocks, {bp})
      ensures size >= 0x8000_0000 ==>
        r == NULL && Unchanged(old(mem[..]), old(brk), old(blocks), old(free), old(freeList))
      ensures size == 0 ==>
        && r == NULL && brk == old(brk) && !IsAllocated(mem[..], blocks, bp)
        && Coalesced(Retagged(old(mem[..]), old(brk), old(blocks), bp, 0), old(blocks), old(free), bp, freeList)
      ensures 0 < size < 0x8000_0000 && bp == NULL ==>
        Allocated(old(mem[..]), old(brk), old(blocks), old(free), old(freeList), AdjustSize(size as nat), r)
      ensures 0 < size < 0x8000_0000 && bp != NULL ==>
        Reallocated(old(mem[..]), old(brk), old(blocks), old(free), old(freeList), bp, AdjustSize(size as nat), r)
    {
      if size >= 0x8000_0000 {
        KeepsSame(mem[..], brk, blocks);
        return NULL;
      }
      if size == 0 {
        Free(bp);
        return NULL;
      }
      if bp == NULL {
        r := Malloc(size);
        return;
      }
      r := ResizeBlock(bp, AdjustSize(size as nat));
    }

    /** mm_realloc on the allocated block bp once the request is rounded to
        `newsize` bytes: keep it, shrink it, grow it into a free neighbour,
        or move it. */
    method ResizeBlock(bp: nat, newsize: nat) returns (r: nat)
      requires Valid() && IsAllocated(mem[..], blocks, bp)
      requires newsize % ALIGNMENT == 0 && MINBLOCKSIZE <= newsize < 0x8000_0000 + MINBLOCKSIZE
      modifies this`brk, this`freeList, this`free, this`blocks, mem
      ensures Valid() && KeepsAllocated(old(mem[..]), old(blocks), mem[..], blocks, {bp})
      ensures Reallocated(old(mem[..]), old(brk), old(blocks), old(free), old(freeList), bp, newsize, r)
    {
      ghost var m0 := mem[..];
      CoalesceReads(m0, brk, blocks, bp);
      var oldsize := GetSize(mem[bp - 1]) as nat;
      if newsize == oldsize {
        KeepsSame(m0, brk, blocks);
        return bp;
      }
      CastDiffExact(oldsize as Word, newsize as Word);
      var diff := CastDiff(oldsize as Word, newsize as Word);
      if diff > 0 {
        if diff == MINBLOCKSIZE {
          ShrinkSplit(bp, newsize, oldsize);
        } else {
          KeepsSame(m0, brk, blocks);
        }
        return bp;
      }
      r := Grow(bp, newsize, oldsize);
    }

    /** mm_realloc when the rounded request exceeds bp's `oldsize` bytes:
        into a free predecessor that makes room, else into a free successor
        that does, else move. */
    method Grow(bp: nat, newsize: nat, oldsize: nat) returns (r: nat)
      requires Valid() && IsAllocated(mem[..], blocks, bp)
      requires newsize % ALIGNMENT == 0 && MINBLOCKSIZE <= newsize < 0x1_0000_0000
      requires oldsize == Size(mem[..], bp) < newsize
      modifies this`brk, this`freeList, this`free, this`blocks, mem
      ensures Valid() && KeepsAllocated(old(mem[..]), old(blocks), mem[..], blocks, {bp})
      ensures Reallocated(old(mem[..]), old(brk), old(blocks), old(free), old(freeList), bp, newsize, r)
    {
      ghost var m0, brk0, blocks0, free0, head0 := mem[..], brk, blocks, free, freeList;
      GrowReads(m0, brk, blocks, bp, newsize);
      var prev := bp - GetSize(mem[bp - 2]) as int / WSIZE;
      if GetAlloc(mem[prev - 1]) == 0 && oldsize + GetSize(mem[prev - 1]) as nat >= newsize {
        r := GrowInto(bp, prev, true, oldsize + GetSize(mem[prev - 1]) as nat);
        GrownReallocated(m0, brk0, blocks0, free0, head0, bp, newsize, true, r);
        return;
      }
      r := GrowNext(bp, newsize, oldsize);
    }

    /** The rest of mm_realloc's growth once the predecessor did not make
        room: into a free successor that does, else move. */
    method GrowNext(bp: nat, newsize: nat, oldsize: nat) returns (r: nat)
      requires Valid() && IsAllocated(mem[..], blocks, bp)
      requires newsize % ALIGNMENT == 0 && MINBLOCKSIZE <= newsize < 0x1_0000_0000
      requires oldsize == Size(mem[..], bp) < newsize
      requires !(PrevIsFree(mem[..], brk, blocks, bp) &&
                 Size(mem[..], PrevNbr(mem[..], brk, blocks, bp)) + oldsize >= newsize)
      modifies this`brk, this`freeList, this`free, this`blocks, mem
      ensures Valid() && KeepsAllocated(old(mem[..]), old(blocks), mem[..], blocks, {bp})
      ensures Reallocated(old(mem[..]), old(brk), old(blocks), old(free), old(freeList), bp, newsize, r)
    {
      ghost var m0, brk0, blocks0, free0, head0 := mem[..], brk, blocks, free, freeList;
      GrowReads(m0, brk, blocks, bp, newsize);
      var next := bp + oldsize / WSIZE;
      if GetAlloc(mem[next - 1]) == 0 && oldsize + GetSize(mem[next - 1]) as nat >= newsize {
        r := GrowInto(bp, next, false, oldsize + GetSize(mem[next - 1]) as nat);
        GrownReallocated(m0, brk0, blocks0, free0, head0, bp, newsize, false, r);
        return;
      }
      r := Move(bp, newsize);
    }

    /** Growth into the free neighbour x that mm_realloc's tests pick (the
        predecessor when `withPrev`, else the successor while the
        predecessor did not make room) is the case of Reallocated that
        applies. */
    lemma GrownReallocated(m0: seq<Word>, brk0: nat, blocks0: seq<nat>, free0: seq<nat>, head0: nat,
                           bp: nat, newsize: nat, withPrev: bool, r: nat)
      requires Tiled(m0, brk0, blocks0) && bp in blocks0 && 1 <= bp <= |m0|
      requires forall i :: 0 <= i < |free0| ==> 1 <= free0[i] <= |m0|
      requires Size(m0, bp) < newsize
      requires var p, n := PrevNbr(m0, brk0, blocks0, bp), NextNbr(m0, brk0, blocks0, bp);
        && (withPrev <==> PrevIsFree(m0, brk0, blocks0, bp) && Size(m0, p) + Size(m0, bp) >= newsize)
        && (!withPrev ==> NextIsFree(m0, brk0, blocks0, bp) && Size(m0, bp) + Size(m0, n) >= newsize)
      requires var x := Partner(m0, brk0, blocks0, bp, withPrev);
        && r == (if withPrev then x else bp) && Grown(m0, brk0, blocks0, free0, head0, bp, x, r)
        && IsAllocated(mem[..], blocks, r) && Size(mem[..], r) == Size(m0, bp) + Size(m0, x)
      ensures Reallocated(m0, brk0, blocks0, free0, head0, bp, newsize, r)
    {
    }

    /** mm_realloc's shrink by exactly MINBLOCKSIZE bytes: bp is tagged
        allocated at `newsize` bytes and the block behind it, tagged free,
        goes on the front of the list through add_free. */
    method ShrinkSplit(bp: nat, newsize: nat, oldsize: nat)
      requires Valid() && IsAllocated(mem[..], blocks, bp)
      requires newsize % ALIGNMENT == 0 && newsize >= MINBLOCKSIZE
      requires oldsize == Size(mem[..], bp) == newsize + MINBLOCKSIZE
      modifies this`freeList, this`free, this`blocks, mem
      ensures Valid() && Shrunk(old(mem[..]), brk, old(blocks), old(free), old(freeList), bp, newsize)
      ensures IsAllocated(mem[..], blocks, bp) && Size(mem[..], bp) == newsize
      ensures KeepsAllocated(old(mem[..]), old(blocks), mem[..], blocks, {bp})
    {
      ghost var m0, blocks0, free0, head0 := mem[..], blocks, free, freeList;
      Shrinking(m0, brk, blocks0, free0, head0, bp, newsize);
      var next := PutSplitTags(bp, newsize, oldsize);
      AddFree(next);
      blocks := SplitLayout(blocks0, bp, next);
      free := [next] + free0;
      ShrinkingTags(m0, brk, blocks0, free0, head0, bp, newsize);
    }

    /** mm_realloc's growth of bp into its free neighbour x (the previous
        block when `withPrev`): remove_from_free(x), then the lower of the
        two is tagged allocated with the `csize` bytes of both. */
    method GrowInto(bp: nat, x: nat, withPrev: bool, csize: nat) returns (r: nat)
      requires Valid() && IsAllocated(mem[..], blocks, bp)
      requires if withPrev then PrevIsFree(mem[..], brk, blocks, bp) else NextIsFree(mem[..], brk, blocks, bp)
      requires x == Partner(mem[..], brk, blocks, bp, withPrev) && csize == Size(mem[..], bp) + Size(mem[..], x)
      modifies this`freeList, this`free, this`blocks, mem
      ensures r == (if withPrev then x else bp)
      ensures Valid() && Grown(old(mem[..]), brk, old(blocks), old(free), old(freeList), bp, x, r)
      ensures IsAllocated(mem[..], blocks, r) && Size(mem[..], r) == csize
      ensures KeepsAllocated(old(mem[..]), old(blocks), mem[..], blocks, {bp})
    {
      ghost var m0, blocks0, free0, head0 := mem[..], blocks, free, freeList;
      AbsorbSteps(m0, brk, blocks0, free0, head0, bp, withPrev);
      assert csize == Size(m0, x) + Size(m0, bp);
      r := if withPrev then x else bp;
      UnlinkAndTag(x, r, csize);
      assert GrowWords(m0, bp, x, r, mem[..]);
      ghost var blocks' := Absorbing(m0, brk, blocks0, free0, head0, bp, withPrev, x, r, mem[..]);
      blocks := blocks';
      free := Without(free0, x);
    }

    /** mm_realloc's fallback, reached when neither neighbour of bp makes
        room for `newsize` bytes: mm_malloc(newsize) and, when that
        succeeds, mm_free(bp); when it fails, NULL with nothing changed. */
    method Move(bp: nat, newsize: nat) returns (r: nat)
      requires Valid() && IsAllocated(mem[..], blocks, bp) && MINBLOCKSIZE <= newsize < 0x1_0000_0000
      requires var m := mem[..];
        && Size(m, bp) < newsize
        && !(PrevIsFree(m, brk, blocks, bp) && Size(m, PrevNbr(m, brk, blocks, bp)) + Size(m, bp) >= newsize)
        && !(NextIsFree(m, brk, blocks, bp) && Size(m, bp) + Size(m, NextNbr(m, brk, blocks, bp)) >= newsize)
      modifies this`brk, this`freeList, this`free, this`blocks, mem
      ensures Valid() && KeepsAllocated(old(mem[..]), old(blocks), mem[..], blocks, {bp})
      ensures Moved(old(mem[..]), old(brk), old(blocks), old(free), old(freeList), bp, AdjustSize(newsize), r)
      ensures Reallocated(old(mem[..]), old(brk), old(blocks), old(free), old(freeList), bp, newsize, r)
    {
      ghost var m0, brk0, blocks0, free0, head0 := mem[..], brk, blocks, free, freeList;
      r := Malloc(newsize as Word);
      if r == NULL {
        return;
      }
      ghost var m1, blocks1 := mem[..], blocks;
      StillAllocated(m0, blocks0, m1, blocks1, {}, bp);
      Free(bp);
      StillAllocated(m1, blocks1, mem[..], blocks, {bp}, r);
      KeepsTrans(m0, blocks0, m1, blocks1, mem[..], blocks, {bp}, {bp});
    }

    /** The writes of that growth: remove_from_free(x), then the tags of r
        with `csize` bytes allocated. */
    method UnlinkAndTag(x: nat, r: nat, csize: nat)
      requires Unlinkable(mem[..], x) && Taggable(UnlinkWords(mem[..], x), r, csize)
      modifies this`freeList, mem
      ensures mem[..] == TagWords(UnlinkWords(old(mem[..]), x), r, csize, 1)
      ensures freeList == UnlinkHead(old(mem[..]), old(freeList), x)
    {
      RemoveFromFree(x);
      PutTags(r, csize, 1);
    }
  }
}
