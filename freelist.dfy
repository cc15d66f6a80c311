/** The explicit free list: the NEXT_FREE and PREV_FREE link words that
    live in the first two payload words of every free block, read against a
    ghost sequence `free` that lists the free blocks in list order. The list
    ends at the allocated sentinel DUMMY; the sentinel's own PREV link is kept
    pointing at the last free block, because remove_from_free and add_free
    write through it like through any other member. */
module FreeList {
  import opened Codec
  import opened Layout

  /** `s` without the elements of `r`, in the order of `s`. */
  ghost function Filter(s: seq<nat>, r: set<nat>): (t: seq<nat>)
    ensures forall x :: x in t <==> x in s && x !in r
    ensures |t| <= |s|
  {
    if |s| == 0 then []
    else (if s[0] in r then [] else [s[0]]) + Filter(s[1..], r)
  }

  /** `s` without `x`: what remove_from_free leaves of the list. */
  ghost function Without(s: seq<nat>, x: nat): seq<nat>
  {
    Filter(s, {x})
  }

  /** Two different list members are at least two words apart, so their
      link words never overlap. */
  ghost predicate Spread(s: seq<nat>)
  {
    forall i, j :: 0 <= i < |s| && 0 <= j < |s| && i != j ==> s[i] + 2 <= s[j] || s[j] + 2 <= s[i]
  }

  /** The member after `free[i]`, or the sentinel after the last one. */
  function Succ(free: seq<nat>, i: nat): nat
    requires i < |free|
  {
    if i + 1 < |free| then free[i + 1] else DUMMY
  }

  /** The member before `free[i]`, or NULL before the first one. */
  function Pred(free: seq<nat>, i: nat): nat
    requires i < |free|
  {
    if i > 0 then free[i - 1] else NULL
  }

  /** NEXT_FREE(bp): the first payload word, read as a word offset. */
  function NextFree(m: seq<Word>, bp: nat): nat
    requires bp < |m|
  {
    m[bp] as nat
  }

  /** PREV_FREE(bp): the second payload word, read as a word offset. */
  function PrevFree(m: seq<Word>, bp: nat): nat
    requires bp + 1 < |m|
  {
    m[bp + 1] as nat
  }

  /** The list invariant: `head` (free_listp) is the first member or the
      sentinel when the list is empty, every member's NEXT_FREE and
      PREV_FREE words name its neighbours, and the sentinel's PREV_FREE word
      names the last member. */
  ghost predicate Linked(m: seq<Word>, free: seq<nat>, head: nat)
  {
    && FIRST <= |m| < 0x1_0000_0000
    && head == (if |free| == 0 then DUMMY else free[0])
    && (forall i :: 0 <= i < |free| ==> FIRST <= free[i] && free[i] + 1 < |m|)
    && (forall i {:trigger NextFree(m, free[i])} :: 0 <= i < |free| ==> NextFree(m, free[i]) == Succ(free, i))
    && (forall i {:trigger PrevFree(m, free[i])} :: 0 <= i < |free| ==> PrevFree(m, free[i]) == Pred(free, i))
    && PrevFree(m, DUMMY) == (if |free| == 0 then NULL else free[|free| - 1])
    && Spread(free)
  }

  /** Cutting `s[k]` out of a spread list shifts the later members down by
      one and leaves a spread list without `s[k]`. */
  lemma SpreadSlices(s: seq<nat>, k: nat)
    requires Spread(s) && k < |s|
    ensures |s[..k] + s[k + 1..]| == |s| - 1
    ensures forall i :: 0 <= i < |s| - 1 ==> (s[..k] + s[k + 1..])[i] == if i < k then s[i] else s[i + 1]
    ensures Spread(s[..k] + s[k + 1..])
    ensures s[k] !in s[..k] + s[k + 1..]
  {
    var t := s[..k] + s[k + 1..];
    forall i | 0 <= i < |t|
      ensures t[i] == if i < k then s[i] else s[i + 1]
    {
    }
  }

  /** The tail of a spread list is spread. */
  lemma SpreadTail(s: seq<nat>)
    requires Spread(s) && |s| > 0
    ensures Spread(s[1..])
  {
    forall i, j | 0 <= i < |s| - 1 && 0 <= j < |s| - 1 && i != j
      ensures s[1..][i] + 2 <= s[1..][j] || s[1..][j] + 2 <= s[1..][i]
    {
      assert s[1..][i] == s[i + 1] && s[1..][j] == s[j + 1];
    }
  }

  /** For a list without repeats, removing one member by value is removing
      it by position. */
  lemma {:induction false} WithoutAt(s: seq<nat>, k: nat)
    requires Spread(s) && k < |s|
    ensures Without(s, s[k]) == s[..k] + s[k + 1..]
    decreases k
  {
    if k == 0 {
      assert s[..0] + s[1..] == s[1..];
      NotInFilter(s[1..], {s[0]});
    } else {
      SpreadTail(s);
      WithoutAt(s[1..], k - 1);
      assert s[1..][k - 1] == s[k];
      assert s[0] != s[k];
      assert Without(s, s[k]) == [s[0]] + Without(s[1..], s[k]);
      CutAfterHead(s, k);
    }
  }

  /** Cutting out a member after the first keeps the first in front. */
  lemma CutAfterHead(s: seq<nat>, k: nat)
    requires 0 < k < |s|
    ensures s[..k] + s[k + 1..] == [s[0]] + (s[1..][..k - 1] + s[1..][k..])
  {
    assert s[1..][..k - 1] == s[1..k] && s[1..][k..] == s[k + 1..];
    assert s[..k] == [s[0]] + s[1..k];
  }

  /** Filtering out values a sequence does not hold changes nothing. */
  lemma {:induction false} NotInFilter(s: seq<nat>, r: set<nat>)
    requires forall x :: x in s ==> x !in r
    ensures Filter(s, r) == s
    decreases |s|
  {
    if |s| > 0 {
      NotInFilter(s[1..], r);
      assert [s[0]] + s[1..] == s;
    }
  }

  /** Filtering twice is filtering once by both sets. */
  lemma {:induction false} FilterFilter(s: seq<nat>, a: set<nat>, b: set<nat>)
    ensures Filter(Filter(s, a), b) == Filter(s, a + b)
    decreases |s|
  {
    if |s| > 0 {
      FilterFilter(s[1..], a, b);
      if s[0] in a {
        assert Filter(s, a) == Filter(s[1..], a);
        assert Filter(s, a + b) == Filter(s[1..], a + b);
      } else {
        var u := Filter(s, a);
        assert u == [s[0]] + Filter(s[1..], a);
        assert u[0] == s[0] && u[1..] == Filter(s[1..], a);
      }
    }
  }

  /** A filtered spread list is spread. */
  lemma {:induction false} FilterSpread(s: seq<nat>, r: set<nat>)
    requires Spread(s)
    ensures Spread(Filter(s, r))
    decreases |s|
  {
    if |s| > 0 {
      var rest := s[1..];
      SpreadTail(s);
      FilterSpread(rest, r);
      var t := Filter(rest, r);
      if s[0] !in r {
        forall j | 0 <= j < |t|
          ensures s[0] + 2 <= t[j] || t[j] + 2 <= s[0]
        {
          assert t[j] in rest;
          var i :| 0 <= i < |rest| && rest[i] == t[j];
          assert rest[i] == s[i + 1];
        }
        var u := [s[0]] + t;
        forall i, j | 0 <= i < |u| && 0 <= j < |u| && i != j
          ensures u[i] + 2 <= u[j] || u[j] + 2 <= u[i]
        {
          if i > 0 && j > 0 {
            assert u[i] == t[i - 1] && u[j] == t[j - 1];
          } else if i == 0 {
            assert u[j] == t[j - 1];
          } else {
            assert u[i] == t[i - 1];
          }
        }
      }
    }
  }

  /** The link words remove_from_free reads and writes for bp are inside
      the heap. */
  ghost predicate Unlinkable(m: seq<Word>, bp: nat)
  {
    bp + 1 < |m| && PrevFree(m, bp) < |m| && NextFree(m, bp) + 1 < |m|
  }

  /** The link words add_free writes for bp and the old head are inside the
      heap, and bp fits in a word. */
  ghost predicate Pushable(m: seq<Word>, head: nat, bp: nat)
  {
    bp + 1 < |m| && head + 1 < |m| < 0x1_0000_0000
  }

  /** The words remove_from_free leaves: when bp has a predecessor, that
      block's NEXT_FREE gets bp's NEXT_FREE; then the PREV_FREE of bp's
      successor gets bp's PREV_FREE. */
  function UnlinkWords(m: seq<Word>, bp: nat): (m': seq<Word>)
    requires Unlinkable(m, bp)
    ensures |m'| == |m|
  {
    var m1 := if PrevFree(m, bp) != NULL then m[PrevFree(m, bp) := m[bp]] else m;
    m1[NextFree(m1, bp) + 1 := m1[bp + 1]]
  }

  /** free_listp after remove_from_free: bp's successor when bp has no
      predecessor, otherwise unchanged. */
  function UnlinkHead(m: seq<Word>, head: nat, bp: nat): nat
    requires bp + 1 < |m|
  {
    if PrevFree(m, bp) != NULL then head else NextFree(m, bp)
  }

  /** The words add_free leaves: bp's NEXT_FREE gets the old head, the old
      head's PREV_FREE gets bp, and bp's PREV_FREE gets NULL. */
  function PushWords(m: seq<Word>, head: nat, bp: nat): (m': seq<Word>)
    requires Pushable(m, head, bp)
    ensures |m'| == |m|
  {
    m[bp := head as Word][head + 1 := bp as Word][bp + 1 := NULL as Word]
  }

  /** The writes of remove_from_free on `bp = free[k]`, in terms of the
      list: bp's predecessor, if any, gets bp's successor as NEXT_FREE, the
      successor (the sentinel, when bp is last) gets bp's predecessor as
      PREV_FREE, and no other word changes. */
  ghost predicate Unlinked(m: seq<Word>, m': seq<Word>, free: seq<nat>, k: nat)
    requires k < |free|
  {
    var pred, succ := Pred(free, k), Succ(free, k);
    && |m'| == |m|
    && (forall p :: 0 <= p < |m| && (p != pred || pred == NULL) && p != succ + 1 ==> m'[p] == m[p])
    && (pred != NULL ==> pred < |m| && m'[pred] as nat == succ)
    && succ + 1 < |m| && m'[succ + 1] as nat == pred
  }

  /** The NEXT_FREE words of the shortened list. */
  lemma UnlinkNext(m: seq<Word>, m': seq<Word>, free: seq<nat>, head: nat, k: nat)
    requires Linked(m, free, head) && k < |free| && Unlinked(m, m', free, k)
    ensures var f := free[..k] + free[k + 1..];
      forall i {:trigger NextFree(m', f[i])} :: 0 <= i < |f| ==> NextFree(m', f[i]) == Succ(f, i)
  {
    var f := free[..k] + free[k + 1..];
    SpreadSlices(free, k);
    forall i | 0 <= i < |f|
      ensures NextFree(m', f[i]) == Succ(f, i)
    {
      var j := if i < k then i else i + 1;
      assert f[i] == free[j];
      assert NextFree(m, free[j]) == Succ(free, j);
      if i + 1 == k {
        assert f[i] == Pred(free, k);
      } else {
        assert f[i] != Pred(free, k) && f[i] != Succ(free, k) + 1;
      }
    }
  }

  /** The PREV_FREE words of the shortened list. */
  lemma UnlinkPrev(m: seq<Word>, m': seq<Word>, free: seq<nat>, head: nat, k: nat)
    requires Linked(m, free, head) && k < |free| && Unlinked(m, m', free, k)
    ensures var f := free[..k] + free[k + 1..];
      forall i {:trigger PrevFree(m', f[i])} :: 0 <= i < |f| ==> PrevFree(m', f[i]) == Pred(f, i)
  {
    var f := free[..k] + free[k + 1..];
    SpreadSlices(free, k);
    forall i | 0 <= i < |f|
      ensures PrevFree(m', f[i]) == Pred(f, i)
    {
      var j := if i < k then i else i + 1;
      assert f[i] == free[j];
      assert PrevFree(m, free[j]) == Pred(free, j);
      if i == k {
        assert f[i] == Succ(free, k);
      } else {
        assert f[i] + 1 != Pred(free, k) && f[i] != Succ(free, k);
      }
    }
  }

  /** remove_from_free keeps the list invariant, for the list without bp and
      the head moved to bp's successor when bp was the head. */
  lemma Unlink(m: seq<Word>, m': seq<Word>, free: seq<nat>, head: nat, k: nat)
    requires Linked(m, free, head) && k < |free| && Unlinked(m, m', free, k)
    ensures Linked(m', free[..k] + free[k + 1..], if k == 0 then Succ(free, k) else head)
  {
    var f := free[..k] + free[k + 1..];
    SpreadSlices(free, k);
    UnlinkNext(m, m', free, head, k);
    UnlinkPrev(m, m', free, head, k);
    if |f| > 0 {
      assert f[|f| - 1] == if k + 1 < |free| then free[|free| - 1] else free[k - 1];
    }
    assert k > 0 ==> f[0] == free[0];
    assert forall i :: 0 <= i < |f| ==> FIRST <= f[i] && f[i] + 1 < |m'|;
    assert PrevFree(m', DUMMY) == (if |f| == 0 then NULL else f[|f| - 1]);
    assert Spread(f);
    assert (if k == 0 then Succ(free, k) else head) == (if |f| == 0 then DUMMY else f[0]);
  }

  /** The writes of add_free: bp's NEXT_FREE gets the old head, the old
      head's PREV_FREE (the sentinel's, when the list is empty) gets bp, bp's
      PREV_FREE gets NULL, and no other word changes. */
  ghost predicate Pushed(m: seq<Word>, m': seq<Word>, head: nat, bp: nat)
  {
    && |m'| == |m| && bp + 1 < |m| && head + 1 < |m|
    && (forall p :: 0 <= p < |m| && p != bp && p != bp + 1 && p != head + 1 ==> m'[p] == m[p])
    && NextFree(m', bp) == head && PrevFree(m', bp) == NULL && PrevFree(m', head) == bp
  }

  /** add_free keeps the list invariant, with bp as the new first member. */
  lemma Push(m: seq<Word>, m': seq<Word>, free: seq<nat>, head: nat, bp: nat)
    requires Linked(m, free, head) && Pushed(m, m', head, bp)
    requires FIRST <= bp && Spread([bp] + free)
    ensures Linked(m', [bp] + free, bp)
  {
    var f := [bp] + free;
    PushLinks(m, m', free, head, bp);
    assert forall i :: 0 <= i < |f| ==> FIRST <= f[i] && f[i] + 1 < |m'|;
    if |free| > 0 {
      assert f[|f| - 1] == free[|free| - 1];
    }
  }

  /** The link words of the longer list. */
  lemma PushLinks(m: seq<Word>, m': seq<Word>, free: seq<nat>, head: nat, bp: nat)
    requires Linked(m, free, head) && Pushed(m, m', head, bp)
    requires FIRST <= bp && Spread([bp] + free)
    ensures var f := [bp] + free;
      && (forall i {:trigger NextFree(m', f[i])} :: 0 <= i < |f| ==> NextFree(m', f[i]) == Succ(f, i))
      && (forall i {:trigger PrevFree(m', f[i])} :: 0 <= i < |f| ==> PrevFree(m', f[i]) == Pred(f, i))
  {
    var f := [bp] + free;
    forall i {:trigger NextFree(m', f[i])} {:trigger PrevFree(m', f[i])} | 0 <= i < |f|
      ensures NextFree(m', f[i]) == Succ(f, i) && PrevFree(m', f[i]) == Pred(f, i)
    {
      if i > 0 {
        assert f[i] == free[i - 1];
        assert NextFree(m, free[i - 1]) == Succ(free, i - 1);
        assert PrevFree(m, free[i - 1]) == Pred(free, i - 1);
        assert f[0] == bp && f[i] != bp && f[i] + 1 != bp && f[i] != bp + 1;
        if i > 1 {
          assert f[i] + 1 != head + 1 && f[i] != head + 1;
        } else {
          assert f[i] == head;
        }
      }
    }
  }

  /** Writes to the words `[lo, hi)`, which hold no link word of any member
      and not the sentinel's PREV link, keep the list. */
  lemma LinkedFrame(m: seq<Word>, m': seq<Word>, free: seq<nat>, head: nat, lo: nat, hi: nat)
    requires Linked(m, free, head) && |m'| == |m| && DUMMY + 2 <= lo
    requires forall p :: 0 <= p < |m| && !(lo <= p < hi) ==> m'[p] == m[p]
    requires forall x :: x in free ==> x + 2 <= lo || hi <= x
    ensures Linked(m', free, head)
  {
    forall i {:trigger NextFree(m', free[i])} {:trigger PrevFree(m', free[i])} | 0 <= i < |free|
      ensures NextFree(m', free[i]) == NextFree(m, free[i]) && PrevFree(m', free[i]) == PrevFree(m, free[i])
    {
      assert free[i] in free;
    }
  }

  /** On a linked list, remove_from_free's words are the unlinking of the
      member, and its new head is the successor exactly when the member was
      first. */
  lemma UnlinkWordsAt(m: seq<Word>, free: seq<nat>, head: nat, k: nat)
    requires Linked(m, free, head) && k < |free|
    ensures Unlinkable(m, free[k])
    ensures Unlinked(m, UnlinkWords(m, free[k]), free, k)
    ensures UnlinkHead(m, head, free[k]) == if k == 0 then Succ(free, k) else head
  {
    assert NextFree(m, free[k]) == Succ(free, k) && PrevFree(m, free[k]) == Pred(free, k);
    if k > 0 {
      assert free[k - 1] + 2 <= free[k] || free[k] + 2 <= free[k - 1];
    }
    if k + 1 < |free| {
      assert free[k + 1] + 2 <= free[k] || free[k] + 2 <= free[k + 1];
    }
  }

  /** add_free's words are a push, when bp's link words are clear of the
      head's. */
  lemma PushWordsAt(m: seq<Word>, head: nat, bp: nat)
    requires Pushable(m, head, bp)
    requires head + 2 <= bp || bp + 2 <= head
    ensures Pushed(m, PushWords(m, head, bp), head, bp)
  {
  }
}
