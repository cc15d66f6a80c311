/** Boundary-tag geometry of the heap (the HDRP, FTRP, NEXT_BLKP and
    PREV_BLKP macros) over a snapshot of the heap's words, and the layout
    invariant: from the first block on, blocks with matching header and footer
    tile the heap up to the epilogue header. Addresses are word offsets from the
    start of the heap; a block pointer `bp` is the offset of its first payload
    word, and sizes are in bytes, as the tags store them. */
module Layout {
  import opened Codec

  const NULL: nat := 0       // word 0 is the alignment pad, never a block
  const PROLOGUE: nat := 2   // heap_listp once mm_init has set it up
  const DUMMY: nat := 4      // the allocated 16-byte block that ends the free list
  const FIRST: nat := 8      // the first block extend_heap creates
  const STALE_LINK: nat := 7 // NEXT_FREE(DUMMY): the first epilogue header

  /** HDRP(bp): the header word. */
  function Hdrp(bp: nat): (h: nat)
    requires bp >= 1
    ensures h + 1 == bp
  {
    bp - 1
  }

  /** GET_SIZE(HDRP(bp)): the block size in bytes. */
  function Size(m: seq<Word>, bp: nat): (s: nat)
    requires 1 <= bp <= |m|
    ensures s % ALIGNMENT == 0
  {
    GetSize(m[Hdrp(bp)]) as nat
  }

  /** GET_ALLOC(HDRP(bp)): the allocated bit. */
  function Alloc(m: seq<Word>, bp: nat): (a: nat)
    requires 1 <= bp <= |m|
    ensures a <= 1
  {
    GetAlloc(m[Hdrp(bp)]) as nat
  }

  /** FTRP(bp): the footer word, two words before the next block. */
  function Ftrp(m: seq<Word>, bp: nat): int
    requires 1 <= bp <= |m|
  {
    bp + Size(m, bp) / WSIZE - 2
  }

  /** NEXT_BLKP(bp): the block pointer just past this block. */
  function NextBlkp(m: seq<Word>, bp: nat): nat
    requires 1 <= bp <= |m|
  {
    bp + Size(m, bp) / WSIZE
  }

  /** PREV_BLKP(bp): found through the previous block's footer. */
  function PrevBlkp(m: seq<Word>, bp: nat): int
    requires 2 <= bp <= |m| + 1
  {
    bp - GetSize(m[bp - 2]) as int / WSIZE
  }

  /** A block of `size` bytes at bp has its header and footer inside the
      heap, and the size can be packed into a tag. */
  ghost predicate Taggable(m: seq<Word>, bp: nat, size: nat)
  {
    1 <= bp && size >= MINBLOCKSIZE && size % ALIGNMENT == 0 && size < 0x1_0000_0000 &&
    bp + size / WSIZE - 2 < |m|
  }

  /** PUT(HDRP(bp), PACK(size, alloc)) followed by PUT(FTRP(bp), ...): the
      footer slot is found through the size just written. */
  function TagWords(m: seq<Word>, bp: nat, size: nat, alloc: Word): (m': seq<Word>)
    requires Taggable(m, bp, size) && alloc <= 1
    ensures |m'| == |m|
  {
    m[bp - 1 := Pack(size as Word, alloc)][bp + size / WSIZE - 2 := Pack(size as Word, alloc)]
  }

  /** The words mm_init lays down before the first block: the alignment pad,
      the 8-byte prologue and the tags of the 16-byte allocated sentinel whose
      block pointer is DUMMY. */
  ghost predicate Prefix(m: seq<Word>)
  {
    && |m| >= FIRST
    && m[0] == 0
    && m[1] == Pack(8, 1) && m[2] == Pack(8, 1)
    && m[3] == Pack(16, 1) && m[6] == Pack(16, 1)
  }

  /** One block: aligned, at least the minimum size, inside the heap, and with
      a footer equal to its header. */
  ghost predicate WellFormed(m: seq<Word>, brk: nat, bp: nat)
  {
    && FIRST <= bp < brk <= |m|
    && bp % 2 == 0
    && Size(m, bp) >= MINBLOCKSIZE
    && NextBlkp(m, bp) <= brk
    && m[Ftrp(m, bp)] == m[Hdrp(bp)]
  }

  /** `s` is a run of well-formed blocks that starts at `from`, each block
      ending where the next one starts, the last one ending at `to`. */
  ghost predicate Chain(m: seq<Word>, brk: nat, s: seq<nat>, from: nat, to: nat)
    decreases |s|
  {
    if |s| == 0 then from == to
    else s[0] == from && WellFormed(m, brk, from) && Chain(m, brk, s[1..], NextBlkp(m, from), to)
  }

  /** The layout invariant. `blocks` lists the block pointers in address
      order from the first block to the epilogue header at `brk - 1`;
      `brk` is the number of heap words in use. */
  ghost predicate Tiled(m: seq<Word>, brk: nat, blocks: seq<nat>)
  {
    && FIRST <= brk <= |m| && brk % 2 == 0
    && Prefix(m)
    && m[brk - 1] == Pack(0, 1)
    && (forall i :: 0 <= i < |blocks| ==> FIRST <= blocks[i] < brk)
    && Chain(m, brk, blocks, FIRST, brk)
  }

  /** What follows `s[i]`: the next block of the run, or its end `to`. */
  function After(s: seq<nat>, to: nat, i: nat): nat
    requires i < |s|
  {
    if i + 1 < |s| then s[i + 1] else to
  }

  /** Read block by block, a run is well formed and linked by NEXT_BLKP. */
  lemma {:induction false} ChainAt(m: seq<Word>, brk: nat, s: seq<nat>, from: nat, to: nat)
    requires Chain(m, brk, s, from, to)
    ensures from <= to
    ensures |s| > 0 ==> s[0] == from
    ensures forall i :: 0 <= i < |s| ==> WellFormed(m, brk, s[i]) && NextBlkp(m, s[i]) == After(s, to, i)
    decreases |s|
  {
    if |s| > 0 {
      var rest := s[1..];
      ChainAt(m, brk, rest, NextBlkp(m, from), to);
      forall i | 0 < i < |s|
        ensures WellFormed(m, brk, s[i]) && NextBlkp(m, s[i]) == After(s, to, i)
      {
        assert s[i] == rest[i - 1];
        if i + 1 < |s| {
          assert s[i + 1] == rest[i];
        }
      }
    }
  }

  /** Blocks of a run lie inside it, and each block ends before any later
      block of the run begins. */
  lemma {:induction false} ChainOrder(m: seq<Word>, brk: nat, s: seq<nat>, from: nat, to: nat)
    requires Chain(m, brk, s, from, to)
    ensures from <= to
    ensures forall i :: 0 <= i < |s| ==> 1 <= s[i] <= |m| && from <= s[i] && NextBlkp(m, s[i]) <= to
    ensures forall i :: 0 <= i < |s| ==> s[i] + MINBLOCKSIZE / WSIZE <= NextBlkp(m, s[i])
    ensures forall i, j :: 0 <= i < j < |s| ==> NextBlkp(m, s[i]) <= s[j]
    decreases |s|
  {
    if |s| > 0 {
      var rest, from' := s[1..], NextBlkp(m, from);
      ChainOrder(m, brk, rest, from', to);
      forall i | 0 < i < |s|
        ensures 1 <= s[i] <= |m| && from' <= s[i] && NextBlkp(m, s[i]) <= to
        ensures s[i] + MINBLOCKSIZE / WSIZE <= NextBlkp(m, s[i])
      {
        assert s[i] == rest[i - 1];
      }
      forall i, j | 0 <= i < j < |s|
        ensures NextBlkp(m, s[i]) <= s[j]
      {
        assert s[j] == rest[j - 1];
        if i > 0 {
          assert s[i] == rest[i - 1];
        }
      }
    }
  }

  /** Two runs that meet make one run. */
  lemma {:induction false} ChainConcat(m: seq<Word>, brk: nat, s1: seq<nat>, s2: seq<nat>, a: nat, b: nat, c: nat)
    requires Chain(m, brk, s1, a, b) && Chain(m, brk, s2, b, c)
    ensures Chain(m, brk, s1 + s2, a, c)
    decreases |s1|
  {
    if |s1| > 0 {
      ChainConcat(m, brk, s1[1..], s2, NextBlkp(m, a), b, c);
      assert (s1 + s2)[1..] == s1[1..] + s2;
    } else {
      assert s1 + s2 == s2;
    }
  }

  /** A run cut at index `k` is two runs that meet at `s[k]`. */
  lemma {:induction false} ChainSplit(m: seq<Word>, brk: nat, s: seq<nat>, a: nat, c: nat, k: nat)
    requires Chain(m, brk, s, a, c) && k <= |s|
    ensures Chain(m, brk, s[..k], a, if k < |s| then s[k] else c)
    ensures Chain(m, brk, s[k..], if k < |s| then s[k] else c, c)
    decreases k
  {
    if k > 0 {
      var rest := s[1..];
      ChainSplit(m, brk, rest, NextBlkp(m, a), c, k - 1);
      assert s[..k][1..] == rest[..k - 1];
      assert s[k..] == rest[k - 1..];
    } else {
      assert s[k..] == s;
    }
  }

  /** One well-formed block is a run by itself. */
  lemma ChainOne(m: seq<Word>, brk: nat, b: nat)
    requires WellFormed(m, brk, b)
    ensures Chain(m, brk, [b], b, NextBlkp(m, b))
  {
    assert [b][1..] == [];
  }

  /** Equal tags of `(e - b) * WSIZE` bytes at `b - 1` and `e - 2` make the
      block `b` a run from `b` to `e`. */
  lemma OneBlock(m: seq<Word>, brk: nat, b: nat, e: nat, w: Word)
    requires FIRST <= b && b % 2 == 0 && b + MINBLOCKSIZE / WSIZE <= e <= brk <= |m|
    requires GetSize(w) as int == (e - b) * WSIZE && m[b - 1] == w && m[e - 2] == w
    ensures Chain(m, brk, [b], b, e)
    ensures Size(m, b) == GetSize(w) as nat && Alloc(m, b) == GetAlloc(w) as nat
  {
    assert WellFormed(m, brk, b) && NextBlkp(m, b) == e;
    ChainOne(m, brk, b);
  }

  /** Block `x` has the same header and footer words in `m` and `m'`. */
  ghost predicate SameTags(m: seq<Word>, m': seq<Word>, x: nat)
  {
    && 1 <= x <= |m| == |m'|
    && 0 <= Ftrp(m, x) < |m|
    && m'[x - 1] == m[x - 1]
    && m'[Ftrp(m, x)] == m[Ftrp(m, x)]
  }

  /** The footer word of a block whose tags are kept. */
  lemma SameFooter(m: seq<Word>, m': seq<Word>, x: nat, a: int)
    requires SameTags(m, m', x) && Ftrp(m, x) == a
    ensures 0 <= a < |m'| && m'[a] == m[a]
  {
  }

  /** A block whose tags are kept keeps its size, allocated bit and end. */
  lemma SameSize(m: seq<Word>, m': seq<Word>, x: nat)
    requires SameTags(m, m', x)
    ensures Size(m', x) == Size(m, x) && Alloc(m', x) == Alloc(m, x) && NextBlkp(m', x) == NextBlkp(m, x)
  {
  }

  /** Keeping the tags is transitive. */
  lemma SameTagsTrans(m0: seq<Word>, m1: seq<Word>, m2: seq<Word>, x: nat)
    requires SameTags(m0, m1, x) && SameTags(m1, m2, x)
    ensures SameTags(m0, m2, x)
  {
  }

  /** A run whose headers and footers are unchanged is still a run, also
      under a larger break. */
  lemma {:induction false} ChainFrame(m: seq<Word>, m': seq<Word>, brk: nat, brk': nat, s: seq<nat>, from: nat, to: nat)
    requires Chain(m, brk, s, from, to) && brk <= brk' <= |m'|
    requires forall x :: x in s ==> SameTags(m, m', x)
    ensures Chain(m', brk', s, from, to)
    decreases |s|
  {
    if |s| > 0 {
      assert SameTags(m, m', s[0]);
      assert forall x :: x in s[1..] ==> x in s;
      ChainFrame(m, m', brk, brk', s[1..], NextBlkp(m, from), to);
    }
  }

  /** A run is unchanged by writes outside the words it spans. */
  lemma SpanFrame(m: seq<Word>, m': seq<Word>, brk: nat, brk': nat, s: seq<nat>, from: nat, to: nat)
    requires Chain(m, brk, s, from, to) && brk <= brk' <= |m'| == |m|
    requires forall p :: from - 1 <= p < to - 1 && 0 <= p < |m| ==> m'[p] == m[p]
    ensures Chain(m', brk', s, from, to)
    ensures forall x :: x in s ==> SameTags(m, m', x)
  {
    ChainAt(m, brk, s, from, to);
    ChainOrder(m, brk, s, from, to);
    forall x | x in s
      ensures SameTags(m, m', x)
    {
      var i :| 0 <= i < |s| && s[i] == x;
      assert WellFormed(m, brk, x);
    }
    ChainFrame(m, m', brk, brk', s, from, to);
  }

  /** The first two payload words of a block of a run (where the free-list
      links live) are no block's header or footer. */
  lemma LinkNotTag(m: seq<Word>, brk: nat, s: seq<nat>, from: nat, to: nat, x: nat, p: nat)
    requires Chain(m, brk, s, from, to) && x in s && x <= p <= x + 1
    ensures forall y :: y in s ==> 1 <= y <= |m| && y - 1 != p && Ftrp(m, y) != p
  {
    ChainAt(m, brk, s, from, to);
    ChainOrder(m, brk, s, from, to);
    var i :| 0 <= i < |s| && s[i] == x;
    forall y | y in s
      ensures 1 <= y <= |m| && y - 1 != p && Ftrp(m, y) != p
    {
      var j :| 0 <= j < |s| && s[j] == y;
      assert WellFormed(m, brk, y);
      if j < i {
        assert NextBlkp(m, y) <= x;
      } else if i < j {
        assert WellFormed(m, brk, x);
        assert NextBlkp(m, x) <= y;
      }
    }
  }

  /** Writing one link word of a block keeps the run. */
  lemma LinkWriteFrame(m: seq<Word>, brk: nat, s: seq<nat>, from: nat, to: nat, x: nat, p: nat, v: Word)
    requires Chain(m, brk, s, from, to) && x in s && x <= p <= x + 1
    ensures p < |m|
    ensures Chain(m[p := v], brk, s, from, to)
    ensures forall y :: y in s ==> SameTags(m, m[p := v], y)
  {
    ChainAt(m, brk, s, from, to);
    var i :| 0 <= i < |s| && s[i] == x;
    assert WellFormed(m, brk, x);
    LinkNotTag(m, brk, s, from, to, x, p);
    forall y | y in s
      ensures SameTags(m, m[p := v], y)
    {
      var j :| 0 <= j < |s| && s[j] == y;
      assert WellFormed(m, brk, y);
    }
    ChainFrame(m, m[p := v], brk, brk, s, from, to);
  }

  /** The blocks before a run and the blocks after it are runs themselves,
      from the first block to the run and from the run to the epilogue. */
  lemma RunParts(m: seq<Word>, brk: nat, blocks: seq<nat>, k: nat, j: nat)
    requires Tiled(m, brk, blocks) && k < j <= |blocks|
    ensures Chain(m, brk, blocks[..k], FIRST, blocks[k])
    ensures Chain(m, brk, blocks[j..], After(blocks, brk, j - 1), brk)
    ensures Chain(m, brk, blocks[k..j], blocks[k], After(blocks, brk, j - 1))
  {
    ChainSplit(m, brk, blocks, FIRST, brk, k);
    var rest := blocks[k..];
    ChainSplit(m, brk, rest, blocks[k], brk, j - k);
    assert rest[j - k..] == blocks[j..];
    assert rest[..j - k] == blocks[k..j];
    assert j - k < |rest| ==> rest[j - k] == blocks[j];
  }

  /** Replacing the run `blocks[k..j]` by another run `mid` over the same
      words, with every word outside them unchanged, keeps the layout, and
      every block outside the run keeps its tags. */
  lemma ReplaceRun(m: seq<Word>, m': seq<Word>, brk: nat, blocks: seq<nat>, k: nat, j: nat, mid: seq<nat>)
    requires Tiled(m, brk, blocks) && k < j <= |blocks| && |m'| == |m|
    requires Chain(m', brk, mid, blocks[k], After(blocks, brk, j - 1))
    requires forall p :: 0 <= p < |m| && !(blocks[k] - 1 <= p < After(blocks, brk, j - 1) - 1) ==> m'[p] == m[p]
    ensures Tiled(m', brk, blocks[..k] + mid + blocks[j..])
    ensures forall i :: 0 <= i < |blocks| && (i < k || j <= i) ==> SameTags(m, m', blocks[i])
    ensures forall x :: x in blocks[..k] + mid + blocks[j..] <==>
              x in mid || (x in blocks && (x < blocks[k] || After(blocks, brk, j - 1) <= x))
  {
    var b, e := blocks[k], After(blocks, brk, j - 1);
    var pre, post := blocks[..k], blocks[j..];
    RunMembers(m, brk, blocks, k, j);
    RunParts(m, brk, blocks, k, j);
    RunBounds(m, brk, blocks, k, j);
    SpanFrame(m, m', brk, brk, pre, FIRST, b);
    SpanFrame(m, m', brk, brk, post, e, brk);
    ChainConcat(m', brk, pre, mid, FIRST, b, e);
    ChainConcat(m', brk, pre + mid, post, FIRST, e, brk);
    ChainOrder(m', brk, pre + mid + post, FIRST, brk);
    assert m'[brk - 1] == m[brk - 1];
    assert Prefix(m') by {
      assert forall p :: 0 <= p < FIRST - 1 ==> m'[p] == m[p];
    }
    forall i | 0 <= i < |blocks| && (i < k || j <= i)
      ensures SameTags(m, m', blocks[i])
    {
      if i < k {
        assert blocks[i] in pre;
      } else {
        assert blocks[i] == post[i - j];
      }
    }
  }

  /** Blocks are at least a minimum block apart, and a block lies before a
      run, inside it or after it according to its address. */
  lemma RunMembers(m: seq<Word>, brk: nat, blocks: seq<nat>, k: nat, j: nat)
    requires Tiled(m, brk, blocks) && k < j <= |blocks|
    ensures forall x :: x in blocks[..k] <==> x in blocks && x < blocks[k]
    ensures forall x :: x in blocks[j..] <==> x in blocks && After(blocks, brk, j - 1) <= x
  {
    ChainOrder(m, brk, blocks, FIRST, brk);
    RunBounds(m, brk, blocks, k, j);
    forall x | x in blocks
      ensures x in blocks[..k] <==> x < blocks[k]
      ensures x in blocks[j..] <==> After(blocks, brk, j - 1) <= x
    {
      var i :| 0 <= i < |blocks| && blocks[i] == x;
      if i < k {
        assert x in blocks[..k];
      } else if i >= j {
        assert x == blocks[j..][i - j];
      } else if i > k {
        assert blocks[k] < x;
      }
      if j < |blocks| && i < j {
        assert NextBlkp(m, blocks[i]) <= blocks[j];
      }
      if i < j - 1 {
        assert NextBlkp(m, blocks[i]) <= blocks[j - 1];
      }
    }
  }

  /** The blocks of a run are exactly the blocks in its address range. */
  lemma RunRange(m: seq<Word>, brk: nat, blocks: seq<nat>, k: nat, j: nat)
    requires Tiled(m, brk, blocks) && k < j <= |blocks|
    ensures forall x :: x in blocks && blocks[k] <= x < After(blocks, brk, j - 1) <==> x in blocks[k..j]
  {
    RunMembers(m, brk, blocks, k, j);
    RunParts(m, brk, blocks, k, j);
    ChainOrder(m, brk, blocks[k..j], blocks[k], After(blocks, brk, j - 1));
    assert blocks[..j] == blocks[..k] + blocks[k..j];
    assert blocks == blocks[..j] + blocks[j..];
    forall x | x in blocks[k..j]
      ensures blocks[k] <= x < After(blocks, brk, j - 1)
    {
      var i :| 0 <= i < j - k && blocks[k..j][i] == x;
      assert x + MINBLOCKSIZE / WSIZE <= NextBlkp(m, blocks[k..j][i]);
    }
  }

  /** A block's size is the number of bytes up to the next block. */
  lemma SizeSpan(m: seq<Word>, brk: nat, blocks: seq<nat>, i: nat)
    requires Tiled(m, brk, blocks) && i < |blocks|
    ensures Size(m, blocks[i]) == (After(blocks, brk, i) - blocks[i]) * WSIZE
  {
    NextOf(m, brk, blocks, i);
    WordsOfBytes(Size(m, blocks[i]));
  }

  /** Every block is well formed, and of two blocks the lower one ends at
      or before the start of the higher one. */
  lemma BlockFacts(m: seq<Word>, brk: nat, blocks: seq<nat>)
    requires Tiled(m, brk, blocks)
    ensures forall x :: x in blocks ==> WellFormed(m, brk, x) && x + MINBLOCKSIZE / WSIZE <= NextBlkp(m, x)
    ensures forall x, y :: x in blocks && y in blocks && x < y ==> NextBlkp(m, x) <= y
  {
    ChainAt(m, brk, blocks, FIRST, brk);
    ChainOrder(m, brk, blocks, FIRST, brk);
    forall x, y | x in blocks && y in blocks && x < y
      ensures NextBlkp(m, x) <= y
    {
      var i :| 0 <= i < |blocks| && blocks[i] == x;
      var j :| 0 <= j < |blocks| && blocks[j] == y;
      if i < j {
        assert NextBlkp(m, x) <= y;
      }
    }
  }

  /** Writes confined to link words (the first two payload words of blocks
      and the sentinel's PREV link) keep the layout and every block's tags. */
  lemma LinkWrites(m: seq<Word>, m': seq<Word>, brk: nat, blocks: seq<nat>)
    requires Tiled(m, brk, blocks) && |m'| == |m|
    requires forall p :: 0 <= p < |m| && m'[p] != m[p] ==> p == DUMMY + 1 || p in blocks || (p >= 1 && p - 1 in blocks)
    ensures Tiled(m', brk, blocks)
    ensures forall x :: x in blocks ==> SameTags(m, m', x)
  {
    BlockFacts(m, brk, blocks);
    forall x | x in blocks
      ensures SameTags(m, m', x)
    {
      assert WellFormed(m, brk, x);
      assert forall y :: y in blocks && y < x ==> y + 2 < x - 1;
      assert forall y :: y in blocks && x < y ==> Ftrp(m, x) + 2 <= y;
      assert x - 1 !in blocks && x - 2 !in blocks;
      assert Ftrp(m, x) !in blocks && Ftrp(m, x) - 1 !in blocks;
    }
    assert forall y :: y in blocks ==> y + 2 < brk - 1;
    assert brk - 1 !in blocks && brk - 2 !in blocks;
    assert forall y :: y in blocks ==> FIRST <= y;
    forall p | 0 <= p < FIRST - 1 && p != DUMMY && p != DUMMY + 1
      ensures m'[p] == m[p]
    {
      assert p !in blocks && (p >= 1 ==> p - 1 !in blocks);
      assert !(p == DUMMY + 1 || p in blocks || (p >= 1 && p - 1 in blocks));
    }
    TagsKept(m, m', brk, blocks);
  }

  /** Snapshots that agree on the prefix, the epilogue header and every
      block's tags have the same layout. */
  lemma TagsKept(m: seq<Word>, m': seq<Word>, brk: nat, blocks: seq<nat>)
    requires Tiled(m, brk, blocks) && |m'| == |m|
    requires forall x :: x in blocks ==> SameTags(m, m', x)
    requires forall p :: 0 <= p < FIRST - 1 && p != DUMMY && p != DUMMY + 1 ==> m'[p] == m[p]
    requires m'[brk - 1] == m[brk - 1]
    ensures Tiled(m', brk, blocks)
  {
    ChainFrame(m, m', brk, brk, blocks, FIRST, brk);
  }

  /** The run `blocks[k..j]` lies inside the heap, past the prefix and before
      the epilogue header, and spans at least one minimum block. */
  lemma RunBounds(m: seq<Word>, brk: nat, blocks: seq<nat>, k: nat, j: nat)
    requires Tiled(m, brk, blocks) && k < j <= |blocks|
    ensures FIRST <= blocks[k] && blocks[k] % 2 == 0
    ensures blocks[k] + MINBLOCKSIZE / WSIZE <= NextBlkp(m, blocks[k]) <= After(blocks, brk, j - 1) <= brk
    ensures NextBlkp(m, blocks[j - 1]) == After(blocks, brk, j - 1)
  {
    ChainNth(m, brk, blocks, FIRST, brk, k);
    ChainNth(m, brk, blocks, FIRST, brk, j - 1);
    if j - 1 > k {
      ChainOrder(m, brk, blocks, FIRST, brk);
      assert NextBlkp(m, blocks[k]) <= blocks[j - 1];
    }
  }

  /** mm_free, coalesce and the in-place paths of mm_realloc: writing one tag
      `w` into the header of `blocks[k]` and into the footer slot that the new
      size puts just before `After(blocks, brk, j - 1)` merges the run
      `blocks[k..j]` into one block (with `j == k + 1`, it re-tags the block). */
  lemma MergeRun(m: seq<Word>, m': seq<Word>, brk: nat, blocks: seq<nat>, k: nat, j: nat, w: Word)
    requires Tiled(m, brk, blocks) && k < j <= |blocks| && |m'| == |m|
    requires GetSize(w) as int == (After(blocks, brk, j - 1) - blocks[k]) * WSIZE
    requires forall p :: 0 <= p < |m| ==>
               m'[p] == if p == blocks[k] - 1 || p == After(blocks, brk, j - 1) - 2 then w else m[p]
    ensures Tiled(m', brk, blocks[..k] + [blocks[k]] + blocks[j..])
    ensures Size(m', blocks[k]) == GetSize(w) as nat && Alloc(m', blocks[k]) == GetAlloc(w) as nat
    ensures forall x :: x in blocks[..k] + [blocks[k]] + blocks[j..] <==>
              x == blocks[k] || (x in blocks && (x < blocks[k] || After(blocks, brk, j - 1) <= x))
    ensures forall x :: x in blocks && (x < blocks[k] || After(blocks, brk, j - 1) <= x) ==> SameTags(m, m', x)
  {
    var b, e := blocks[k], After(blocks, brk, j - 1);
    RunBounds(m, brk, blocks, k, j);
    OneBlock(m', brk, b, e, w);
    ReplaceRun(m, m', brk, blocks, k, j, [b]);
    RunMembers(m, brk, blocks, k, j);
  }

  /** The two halves of a split block are a run of two blocks. */
  lemma SplitHalves(m': seq<Word>, brk: nat, b: nat, c: nat, e: nat, w1: Word, w2: Word)
    requires FIRST <= b && b % 2 == 0 && b + MINBLOCKSIZE / WSIZE <= c && c + MINBLOCKSIZE / WSIZE <= e <= brk <= |m'|
    requires GetSize(w1) as int == (c - b) * WSIZE && GetSize(w2) as int == (e - c) * WSIZE
    requires m'[b - 1] == w1 && m'[c - 2] == w1 && m'[c - 1] == w2 && m'[e - 2] == w2
    ensures Chain(m', brk, [b, c], b, e)
  {
    OneBlock(m', brk, b, c, w1);
    OneBlock(m', brk, c, e, w2);
    ChainConcat(m', brk, [b], [c], b, c, e);
  }

  /** place and the shrinking path of mm_realloc: cutting `blocks[k]` after
      `a` bytes into a block tagged `w1` and a remainder tagged `w2`. */
  lemma SplitBlock(m: seq<Word>, m': seq<Word>, brk: nat, blocks: seq<nat>, k: nat, a: nat, w1: Word, w2: Word)
    requires Tiled(m, brk, blocks) && k < |blocks| && |m'| == |m|
    requires a % ALIGNMENT == 0 && a >= MINBLOCKSIZE && Size(m, blocks[k]) >= a + MINBLOCKSIZE
    requires GetSize(w1) as int == a && GetSize(w2) as int == Size(m, blocks[k]) - a
    requires forall p :: 0 <= p < |m| ==>
               m'[p] == if p == blocks[k] - 1 || p == blocks[k] + a / WSIZE - 2 then w1
                        else if p == blocks[k] + a / WSIZE - 1 || p == NextBlkp(m, blocks[k]) - 2 then w2
                        else m[p]
    ensures blocks[k] + a / WSIZE < brk
    ensures Tiled(m', brk, blocks[..k] + [blocks[k], blocks[k] + a / WSIZE] + blocks[k + 1..])
    ensures NextBlkp(m', blocks[k]) == blocks[k] + a / WSIZE
    ensures Size(m', blocks[k]) == a && Alloc(m', blocks[k]) == GetAlloc(w1) as nat
    ensures Size(m', blocks[k] + a / WSIZE) == Size(m, blocks[k]) - a
    ensures Alloc(m', blocks[k] + a / WSIZE) == GetAlloc(w2) as nat
    ensures forall x :: x in blocks[..k] + [blocks[k], blocks[k] + a / WSIZE] + blocks[k + 1..] <==>
              x == blocks[k] + a / WSIZE || x in blocks
    ensures forall x :: x in blocks && x != blocks[k] ==> SameTags(m, m', x)
  {
    var b, c, e := blocks[k], blocks[k] + a / WSIZE, NextBlkp(m, blocks[k]);
    RunBounds(m, brk, blocks, k, k + 1);
    WordsOfBytes(a);
    WordsOfBytes(Size(m, b));
    SplitHalves(m', brk, b, c, e, w1, w2);
    ReplaceRun(m, m', brk, blocks, k, k + 1, [b, c]);
    RunMembers(m, brk, blocks, k, k + 1);
  }

  /** extend_heap: the old epilogue header becomes the header of a new block
      of `size` bytes, its footer follows, and a new epilogue header ends the
      heap `size / WSIZE` words further on. The new block is appended to the
      layout. */
  lemma ExtendTiled(m: seq<Word>, m': seq<Word>, brk: nat, blocks: seq<nat>, size: nat, w: Word)
    requires Tiled(m, brk, blocks) && brk + size / WSIZE <= |m| && |m'| == |m|
    requires size >= MINBLOCKSIZE && size % ALIGNMENT == 0 && GetSize(w) as int == size
    requires forall p :: 0 <= p < |m| ==>
               m'[p] == if p == brk - 1 || p == brk + size / WSIZE - 2 then w
                        else if p == brk + size / WSIZE - 1 then Pack(0, 1)
                        else m[p]
    ensures Tiled(m', brk + size / WSIZE, blocks + [brk])
    ensures Size(m', brk) == size && Alloc(m', brk) == GetAlloc(w) as nat
    ensures forall x :: x in blocks ==> SameTags(m, m', x)
  {
    var n := size / WSIZE;
    WordsOfBytes(size);
    assert forall p :: 0 <= p < brk - 1 ==> m'[p] == m[p];
    SpanFrame(m, m', brk, brk + n, blocks, FIRST, brk);
    OneBlock(m', brk + n, brk, brk + n, w);
    ChainConcat(m', brk + n, blocks, [brk], FIRST, brk, brk + n);
    ChainOrder(m', brk + n, blocks + [brk], FIRST, brk + n);
  }

  /** The facts about the block at index `i` of a run. */
  lemma {:induction false} ChainNth(m: seq<Word>, brk: nat, s: seq<nat>, from: nat, to: nat, i: nat)
    requires Chain(m, brk, s, from, to) && i < |s|
    ensures WellFormed(m, brk, s[i]) && NextBlkp(m, s[i]) == After(s, to, i)
    decreases i
  {
    if i > 0 {
      ChainNth(m, brk, s[1..], NextBlkp(m, from), to, i - 1);
      assert s[i] == s[1..][i - 1];
      assert After(s, to, i) == After(s[1..], to, i - 1);
    }
  }

  /** The sentinel DUMMY below the first block reads as an allocated block
      of 16 bytes whose footer sits just below the first block. */
  lemma DummyTags(m: seq<Word>)
    requires Prefix(m)
    ensures Size(m, DUMMY) == MINBLOCKSIZE && Alloc(m, DUMMY) == 1
    ensures Ftrp(m, DUMMY) == FIRST - 2 && GetAlloc(m[FIRST - 2]) == 1
    ensures PrevBlkp(m, FIRST) == DUMMY
  {
  }

  /** PREV_BLKP of a block finds the block before it, or the sentinel DUMMY
      below the first block; the footer it reads carries that block's
      allocated bit. */
  lemma PrevOf(m: seq<Word>, brk: nat, blocks: seq<nat>, k: nat)
    requires Tiled(m, brk, blocks) && k < |blocks|
    ensures PrevBlkp(m, blocks[k]) == if k == 0 then DUMMY else blocks[k - 1]
    ensures k > 0 ==> NextBlkp(m, blocks[k - 1]) == blocks[k]
    ensures var p := PrevBlkp(m, blocks[k]);
      1 <= p && 0 <= Ftrp(m, p) < |m| && GetAlloc(m[Ftrp(m, p)]) as nat == Alloc(m, p)
    ensures k == 0 ==> Alloc(m, DUMMY) == 1
  {
    if k == 0 {
      ChainNth(m, brk, blocks, FIRST, brk, 0);
      DummyTags(m);
    } else {
      var b := blocks[k - 1];
      ChainNth(m, brk, blocks, FIRST, brk, k - 1);
      assert NextBlkp(m, b) == blocks[k];
      assert m[blocks[k] - 2] == m[Ftrp(m, b)] == m[b - 1];
    }
  }

  /** NEXT_BLKP of a block finds the block after it, or the epilogue, whose
      header reads as an allocated block of size 0. */
  lemma NextOf(m: seq<Word>, brk: nat, blocks: seq<nat>, k: nat)
    requires Tiled(m, brk, blocks) && k < |blocks|
    ensures NextBlkp(m, blocks[k]) == After(blocks, brk, k) <= brk
    ensures WellFormed(m, brk, blocks[k])
    ensures k + 1 == |blocks| ==> Alloc(m, brk) == 1 && Size(m, brk) == 0
  {
    ChainNth(m, brk, blocks, FIRST, brk, k);
  }
}
