/** coalesce: the merge of two neighbouring free blocks, and the forward
    pass that merges every run of free blocks into one. */
module Coalescer {
  import opened BlockModel

  /** Block k absorbs block k + 1: the merged block is free, holds both sizes
      and keeps block k's p-bit. */
  function MergeAt(bs: seq<Block>, k: int): (r: seq<Block>)
    requires 0 <= k && k + 1 < |bs|
    ensures |r| == |bs| - 1 && r[k] == Block(bs[k].size + bs[k + 1].size, false, bs[k].prevAlloc)
  {
    bs[..k] + [Block(bs[k].size + bs[k + 1].size, false, bs[k].prevAlloc)] + bs[k + 2..]
  }

  /** The words written by the merge as the source does it: the absorbed
      size is added to the header, and nothing else is written. */
  function MergeHeaderOnly(w: seq<int>, h: int, s2: int): (r: seq<int>)
    requires 0 <= h < |w|
    ensures |r| == |w| && r[h] == w[h] + s2
    ensures forall x :: 0 <= x < |w| && x != h ==> r[x] == w[x]
  {
    w[h := w[h] + s2]
  }

  /** The words a merge must write: the header as above, and the merged
      block's footer (the absorbed block's last word) set to the merged size. */
  function MergeWords(w: seq<int>, h: int, s1: int, s2: int): (r: seq<int>)
    requires 0 <= h && WORD <= s1 + s2 && h + (s1 + s2) / WORD <= |w|
    ensures |r| == |w| && r[h + (s1 + s2) / WORD - 1] == s1 + s2
    ensures h + (s1 + s2) / WORD - 1 != h ==> r[h] == w[h] + s2
    ensures forall x :: 0 <= x < |w| && x != h && x != h + (s1 + s2) / WORD - 1 ==> r[x] == w[x]
  {
    MergeHeaderOnly(w, h, s2)[h + (s1 + s2) / WORD - 1 := s1 + s2]
  }

  /** A merge of two free neighbours keeps the list well formed, one block shorter. */
  lemma MergeAtShape(bs: seq<Block>, k: int)
    requires WellFormed(bs) && 0 <= k && k + 1 < |bs| && !bs[k].alloc && !bs[k + 1].alloc
    ensures var bs' := MergeAt(bs, k);
      && |bs'| == |bs| - 1 && WellFormed(bs')
      && bs'[k] == Block(bs[k].size + bs[k + 1].size, false, bs[k].prevAlloc)
  {
  }

  /** Blocks before a merge keep their place and offset. */
  lemma MergeBefore(bs: seq<Block>, k: int, j: int)
    requires 0 <= j <= k && k + 1 < |bs|
    ensures j < k ==> MergeAt(bs, k)[j] == bs[j]
    ensures Offset(MergeAt(bs, k), j) == Offset(bs, j)
  {
    MergePrefix(bs, k);
    OffsetShift(MergeAt(bs, k), 0, bs, 0, j);
  }

  lemma MergePrefix(bs: seq<Block>, k: int)
    requires 0 <= k && k + 1 < |bs|
    ensures forall x :: 0 <= x < k ==> MergeAt(bs, k)[x] == bs[x]
  {
  }

  /** Blocks after a merge move down one index and keep their offsets. */
  lemma MergeAfter(bs: seq<Block>, k: int, j: int)
    requires 0 <= k && k + 1 <= j < |bs|
    ensures j + 1 < |bs| ==> MergeAt(bs, k)[j] == bs[j + 1]
    ensures Offset(MergeAt(bs, k), j) == Offset(bs, j + 1)
  {
    var bs' := MergeAt(bs, k);
    assert forall x :: k + 1 <= x < |bs'| ==> bs'[x] == bs[x + 1];
    MergeBefore(bs, k, k);
    assert Offset(bs', k + 1) == Offset(bs, k + 2);
    OffsetShift(bs', k + 1, bs, k + 2, j - k - 1);
  }

  /** A merge writes only inside the two merged free blocks: every word of
      every allocated block that `w` kept from `w0` is still kept. */
  lemma MergeKeepsAllocated(bs: seq<Block>, w0: seq<int>, w: seq<int>, k: int)
    requires WellFormed(bs) && |w| == Total(bs) / WORD + 1
    requires 0 <= k && k + 1 < |bs| && !bs[k].alloc && !bs[k + 1].alloc
    requires AllocatedKept(bs, w0, w)
    ensures 0 <= HeadWord(bs, k) && HeadWord(bs, k) + (bs[k].size + bs[k + 1].size) / WORD < |w|
    ensures AllocatedKept(MergeAt(bs, k), w0, MergeWords(w, HeadWord(bs, k), bs[k].size, bs[k + 1].size))
  {
    Span(bs, k);
    Span(bs, k + 1);
    var bs' := MergeAt(bs, k);
    var w' := MergeWords(w, HeadWord(bs, k), bs[k].size, bs[k + 1].size);
    MergeAtShape(bs, k);
    forall j, x | 0 <= j < |bs'| && bs'[j].alloc && 0 <= x < |w0| && HeadWord(bs', j) <= x <= FootWord(bs', j)
      ensures w'[x] == w0[x]
    {
      if j < k {
        MergeBefore(bs, k, j);
        Apart(bs, j, k);
        assert HeadWord(bs, j) <= x <= FootWord(bs, j);
      } else {
        MergeAfter(bs, k, j);
        Apart(bs, k + 1, j + 1);
        assert HeadWord(bs, j + 1) <= x <= FootWord(bs, j + 1);
      }
    }
  }

  /** A merge keeps the total size of the heap. */
  lemma MergeTotal(bs: seq<Block>, k: int)
    requires 0 <= k && k + 1 < |bs|
    ensures Total(MergeAt(bs, k)) == Total(bs)
  {
    MergeAfter(bs, k, |bs| - 1);
  }

  lemma MergeHeader(bs: seq<Block>, w: seq<int>, k: int, j: int)
    requires WellFormed(bs) && |w| == Total(bs) / WORD + 1
    requires 0 <= k && k + 1 < |bs| && !bs[k].alloc && !bs[k + 1].alloc
    requires 0 <= j < |bs| - 1
    requires j <= k ==> HeaderAt(bs, w, j)
    requires j > k ==> HeaderAt(bs, w, j + 1)
    ensures 0 <= HeadWord(bs, k) && HeadWord(bs, k) + (bs[k].size + bs[k + 1].size) / WORD < |w|
    ensures HeaderAt(MergeAt(bs, k), MergeWords(w, HeadWord(bs, k), bs[k].size, bs[k + 1].size), j)
  {
    Span(bs, k);
    Span(bs, k + 1);
    if j < k {
      MergeHeaderBefore(bs, w, k, j);
    } else if j == k {
      MergeHeaderSelf(bs, w, k);
    } else {
      MergeHeaderAfter(bs, w, k, j);
    }
  }

  lemma MergeHeaderBefore(bs: seq<Block>, w: seq<int>, k: int, j: int)
    requires WellFormed(bs) && |w| == Total(bs) / WORD + 1
    requires 0 <= k && k + 1 < |bs| && !bs[k].alloc && !bs[k + 1].alloc
    requires 0 <= j < k && HeaderAt(bs, w, j)
    ensures 0 <= HeadWord(bs, k) && HeadWord(bs, k) + (bs[k].size + bs[k + 1].size) / WORD < |w|
    ensures HeaderAt(MergeAt(bs, k), MergeWords(w, HeadWord(bs, k), bs[k].size, bs[k + 1].size), j)
  {
    Span(bs, k);
    Span(bs, k + 1);
    MergeAtShape(bs, k);
    MergeBefore(bs, k, j);
    Span(bs, j);
    Apart(bs, j, k);
  }

  lemma MergeHeaderSelf(bs: seq<Block>, w: seq<int>, k: int)
    requires WellFormed(bs) && |w| == Total(bs) / WORD + 1
    requires 0 <= k && k + 1 < |bs| && !bs[k].alloc && !bs[k + 1].alloc
    requires HeaderAt(bs, w, k)
    ensures 0 <= HeadWord(bs, k) && HeadWord(bs, k) + (bs[k].size + bs[k + 1].size) / WORD < |w|
    ensures HeaderAt(MergeAt(bs, k), MergeWords(w, HeadWord(bs, k), bs[k].size, bs[k + 1].size), k)
  {
    Span(bs, k);
    Span(bs, k + 1);
    MergeAtShape(bs, k);
    MergeBefore(bs, k, k);
    EncodeDecode(bs[k]);
  }

  lemma MergeHeaderAfter(bs: seq<Block>, w: seq<int>, k: int, j: int)
    requires WellFormed(bs) && |w| == Total(bs) / WORD + 1
    requires 0 <= k && k + 1 < |bs| && !bs[k].alloc && !bs[k + 1].alloc
    requires k < j < |bs| - 1 && HeaderAt(bs, w, j + 1)
    ensures 0 <= HeadWord(bs, k) && HeadWord(bs, k) + (bs[k].size + bs[k + 1].size) / WORD < |w|
    ensures HeaderAt(MergeAt(bs, k), MergeWords(w, HeadWord(bs, k), bs[k].size, bs[k + 1].size), j)
  {
    Span(bs, k);
    Span(bs, k + 1);
    MergeAtShape(bs, k);
    MergeAfter(bs, k, j);
    Apart(bs, k + 1, j + 1);
  }

  lemma MergeFooter(bs: seq<Block>, w: seq<int>, k: int, j: int)
    requires WellFormed(bs) && |w| == Total(bs) / WORD + 1
    requires 0 <= k && k + 1 < |bs| && !bs[k].alloc && !bs[k + 1].alloc
    requires 0 <= j < |bs| - 1 && !MergeAt(bs, k)[j].alloc
    requires j < k ==> FooterAt(bs, w, j)
    requires j > k ==> FooterAt(bs, w, j + 1)
    ensures 0 <= HeadWord(bs, k) && HeadWord(bs, k) + (bs[k].size + bs[k + 1].size) / WORD < |w|
    ensures FooterAt(MergeAt(bs, k), MergeWords(w, HeadWord(bs, k), bs[k].size, bs[k + 1].size), j)
  {
    Span(bs, k);
    Span(bs, k + 1);
    if j < k {
      MergePrefix(bs, k);
      MergeFooterBefore(bs, w, k, j);
    } else if j == k {
      MergeFooterSelf(bs, w, k);
    } else {
      MergeAfter(bs, k, j);
      MergeFooterAfter(bs, w, k, j);
    }
  }

  lemma MergeFooterBefore(bs: seq<Block>, w: seq<int>, k: int, j: int)
    requires WellFormed(bs) && |w| == Total(bs) / WORD + 1
    requires 0 <= k && k + 1 < |bs| && !bs[k].alloc && !bs[k + 1].alloc
    requires 0 <= j < k && !bs[j].alloc && FooterAt(bs, w, j)
    ensures 0 <= HeadWord(bs, k) && HeadWord(bs, k) + (bs[k].size + bs[k + 1].size) / WORD < |w|
    ensures FooterAt(MergeAt(bs, k), MergeWords(w, HeadWord(bs, k), bs[k].size, bs[k + 1].size), j)
  {
    Span(bs, k);
    Span(bs, k + 1);
    MergeAtShape(bs, k);
    MergeBefore(bs, k, j);
    Span(bs, j);
    Apart(bs, j, k);
  }

  lemma MergeFooterSelf(bs: seq<Block>, w: seq<int>, k: int)
    requires WellFormed(bs) && |w| == Total(bs) / WORD + 1
    requires 0 <= k && k + 1 < |bs| && !bs[k].alloc && !bs[k + 1].alloc
    ensures 0 <= HeadWord(bs, k) && HeadWord(bs, k) + (bs[k].size + bs[k + 1].size) / WORD < |w|
    ensures FooterAt(MergeAt(bs, k), MergeWords(w, HeadWord(bs, k), bs[k].size, bs[k + 1].size), k)
  {
    Span(bs, k);
    Span(bs, k + 1);
    MergeAtShape(bs, k);
    MergeBefore(bs, k, k);
  }

  lemma MergeFooterAfter(bs: seq<Block>, w: seq<int>, k: int, j: int)
    requires WellFormed(bs) && |w| == Total(bs) / WORD + 1
    requires 0 <= k && k + 1 < |bs| && !bs[k].alloc && !bs[k + 1].alloc
    requires k < j < |bs| - 1 && !bs[j + 1].alloc && FooterAt(bs, w, j + 1)
    ensures 0 <= HeadWord(bs, k) && HeadWord(bs, k) + (bs[k].size + bs[k + 1].size) / WORD < |w|
    ensures FooterAt(MergeAt(bs, k), MergeWords(w, HeadWord(bs, k), bs[k].size, bs[k + 1].size), j)
  {
    Span(bs, k);
    Span(bs, k + 1);
    MergeAtShape(bs, k);
    MergeAfter(bs, k, j);
    Span(bs, j + 1);
    Apart(bs, k + 1, j + 1);
  }

  lemma MergeHeaders(bs: seq<Block>, w: seq<int>, k: int, w': seq<int>)
    requires Lays(bs, w) && 0 <= k && k + 1 < |bs| && !bs[k].alloc && !bs[k + 1].alloc
    requires 0 <= HeadWord(bs, k) && HeadWord(bs, k) + (bs[k].size + bs[k + 1].size) / WORD < |w|
    requires w' == MergeWords(w, HeadWord(bs, k), bs[k].size, bs[k + 1].size)
    ensures forall j :: 0 <= j < |MergeAt(bs, k)| ==> HeaderAt(MergeAt(bs, k), w', j)
  {
    MergeAtShape(bs, k);
    var bs' := MergeAt(bs, k);
    forall j | 0 <= j < |bs'| ensures HeaderAt(bs', w', j) {
      if j <= k { assert HeaderAt(bs, w, j); } else { assert HeaderAt(bs, w, j + 1); }
      MergeHeader(bs, w, k, j);
    }
  }

  lemma MergeFooters(bs: seq<Block>, w: seq<int>, k: int, w': seq<int>)
    requires Lays(bs, w) && 0 <= k && k + 1 < |bs| && !bs[k].alloc && !bs[k + 1].alloc
    requires 0 <= HeadWord(bs, k) && HeadWord(bs, k) + (bs[k].size + bs[k + 1].size) / WORD < |w|
    requires w' == MergeWords(w, HeadWord(bs, k), bs[k].size, bs[k + 1].size)
    ensures forall j :: 0 <= j < |MergeAt(bs, k)| && !MergeAt(bs, k)[j].alloc ==> FooterAt(MergeAt(bs, k), w', j)
  {
    MergeAtShape(bs, k);
    var bs' := MergeAt(bs, k);
    forall j | 0 <= j < |bs'| && !bs'[j].alloc ensures FooterAt(bs', w', j) {
      if j < k {
        MergeBefore(bs, k, j);
        assert FooterAt(bs, w, j);
      } else if j > k {
        MergeAfter(bs, k, j);
        assert FooterAt(bs, w, j + 1);
      }
      MergeFooter(bs, w, k, j);
    }
  }

  /** A merge leaves the end mark alone and keeps the total. */
  lemma MergeEnd(bs: seq<Block>, w: seq<int>, k: int)
    requires WellFormed(bs) && |w| == Total(bs) / WORD + 1 && |w| > 0 && w[|w| - 1] == END_MARK
    requires 0 <= k && k + 1 < |bs|
    ensures 0 <= HeadWord(bs, k) && HeadWord(bs, k) + (bs[k].size + bs[k + 1].size) / WORD < |w|
    ensures Total(MergeAt(bs, k)) == Total(bs)
    ensures var w' := MergeWords(w, HeadWord(bs, k), bs[k].size, bs[k + 1].size);
      |w'| == |w| && w'[|w'| - 1] == END_MARK
  {
    Span(bs, k);
    Span(bs, k + 1);
    MergeTotal(bs, k);
  }

  /** A merge that also writes the footer keeps the heap laid out. */
  lemma MergeKeepsLays(bs: seq<Block>, w: seq<int>, k: int)
    requires Lays(bs, w) && 0 <= k && k + 1 < |bs| && !bs[k].alloc && !bs[k + 1].alloc
    ensures 0 <= HeadWord(bs, k) && HeadWord(bs, k) + (bs[k].size + bs[k + 1].size) / WORD < |w|
    ensures Lays(MergeAt(bs, k), MergeWords(w, HeadWord(bs, k), bs[k].size, bs[k + 1].size))
    ensures Total(MergeAt(bs, k)) == Total(bs)
  {
    MergeAtShape(bs, k);
    MergeEnd(bs, w, k);
    var w' := MergeWords(w, HeadWord(bs, k), bs[k].size, bs[k + 1].size);
    MergeHeaders(bs, w, k, w');
    MergeFooters(bs, w, k, w');
  }

  /** The merge as the source writes it leaves the merged block's footer
      holding the absorbed block's size, not the merged size, so the words no
      longer lay out the merged heap. */
  lemma HeaderOnlyMergeLeavesStaleFooter(bs: seq<Block>, w: seq<int>, k: int)
    requires Lays(bs, w) && 0 <= k && k + 1 < |bs| && !bs[k].alloc && !bs[k + 1].alloc
    ensures 0 <= HeadWord(bs, k) < |w|
    ensures var bs' := MergeAt(bs, k); var w' := MergeHeaderOnly(w, HeadWord(bs, k), bs[k + 1].size);
      && 0 <= FootWord(bs', k) < |w'|
      && w'[FootWord(bs', k)] == bs[k + 1].size
      && w'[FootWord(bs', k)] != bs'[k].size
      && !Lays(bs', w')
  {
    assert FooterAt(bs, w, k + 1);
    StaleFooter(bs, w, k);
  }

  lemma StaleFooter(bs: seq<Block>, w: seq<int>, k: int)
    requires WellFormed(bs) && |w| == Total(bs) / WORD + 1
    requires 0 <= k && k + 1 < |bs| && !bs[k].alloc && !bs[k + 1].alloc && FooterAt(bs, w, k + 1)
    ensures 0 <= HeadWord(bs, k) < |w|
    ensures var bs' := MergeAt(bs, k); var w' := MergeHeaderOnly(w, HeadWord(bs, k), bs[k + 1].size);
      && 0 <= FootWord(bs', k) < |w'|
      && w'[FootWord(bs', k)] == bs[k + 1].size
      && w'[FootWord(bs', k)] != bs'[k].size
      && !FooterAt(bs', w', k)
  {
    Span(bs, k);
    Span(bs, k + 1);
    MergeAtShape(bs, k);
    MergeBefore(bs, k, k);
  }

  // ----- the forward pass -----

  /** coalesce's pass from the block at index i: while the block after it is
      not the end mark, merge it with its successor when both are free and
      look at the grown block again, otherwise step to the successor. */
  function Pass(bs: seq<Block>, i: nat): (r: seq<Block>)
    requires i < |bs|
    ensures i < |r| <= |bs| && r[..i] == bs[..i]
    decreases |bs| - i
  {
    if i + 1 == |bs| then bs
    else if !bs[i].alloc && !bs[i + 1].alloc then Pass(MergeAt(bs, i), i)
    else Pass(bs, i + 1)
  }

  /** No two neighbours before index i (inclusive) are both free. */
  ghost predicate SettledUpTo(bs: seq<Block>, i: int) {
    forall j, j' {:trigger bs[j], bs[j']} :: 0 <= j && j' == j + 1 <= i && j' < |bs| ==> bs[j].alloc || bs[j'].alloc
  }

  /** The pass keeps the list well formed and the total unchanged, never
      grows the list, and leaves no two neighbouring free blocks. */
  lemma {:induction false} PassCoalesces(bs: seq<Block>, i: nat)
    requires WellFormed(bs) && i < |bs| && SettledUpTo(bs, i)
    ensures WellFormed(Pass(bs, i)) && Total(Pass(bs, i)) == Total(bs)
    ensures NoAdjacentFree(Pass(bs, i))
    ensures |Pass(bs, i)| <= |bs|
    decreases |bs| - i
  {
    if i + 1 == |bs| {
    } else if !bs[i].alloc && !bs[i + 1].alloc {
      var bs' := MergeAt(bs, i);
      MergeAtShape(bs, i);
      MergeTotal(bs, i);
      forall j, j' | 0 <= j && j' == j + 1 <= i && j' < |bs'|
        ensures bs'[j].alloc || bs'[j'].alloc
      {
        MergeBefore(bs, i, j);
        if j' < i {
          MergeBefore(bs, i, j');
        }
      }
      PassCoalesces(bs', i);
    } else {
      PassCoalesces(bs, i + 1);
    }
  }

  /** The pass never touches an allocated block: each one is still in the
      list the pass leaves, unchanged and at the same offset. */
  lemma {:induction false} PassKeepsAllocated(bs: seq<Block>, i: nat, j: int)
    requires i < |bs| && 0 <= j < |bs| && bs[j].alloc
    ensures exists j' :: 0 <= j' < |Pass(bs, i)| && Pass(bs, i)[j'] == bs[j] && Offset(Pass(bs, i), j') == Offset(bs, j)
    decreases |bs| - i
  {
    if i + 1 == |bs| {
      assert Pass(bs, i) == bs;
    } else if !bs[i].alloc && !bs[i + 1].alloc {
      var bs' := MergeAt(bs, i);
      assert Pass(bs, i) == Pass(bs', i);
      if j < i {
        MergeBefore(bs, i, j);
        PassKeepsAllocated(bs', i, j);
      } else {
        MergeAfter(bs, i, j - 1);
        PassKeepsAllocated(bs', i, j - 1);
      }
    } else {
      assert Pass(bs, i) == Pass(bs, i + 1);
      PassKeepsAllocated(bs, i + 1, j);
    }
  }

  /** A word frame over the allocated blocks the pass leaves is a frame over
      the allocated blocks the pass started from. */
  lemma PassFrame(bs: seq<Block>, w0: seq<int>, w: seq<int>)
    requires |bs| > 0 && AllocatedKept(Pass(bs, 0), w0, w)
    ensures AllocatedKept(bs, w0, w)
  {
    var p := Pass(bs, 0);
    forall j, x | 0 <= j < |bs| && bs[j].alloc && 0 <= x < |w0| && HeadWord(bs, j) <= x <= FootWord(bs, j)
      ensures w[x] == w0[x]
    {
      PassKeepsAllocated(bs, 0, j);
      var j' :| 0 <= j' < |p| && p[j'] == bs[j] && Offset(p, j') == Offset(bs, j);
      assert HeadWord(p, j') <= x <= FootWord(p, j');
    }
  }

  /** A pass over a heap with no free neighbours changes nothing. */
  lemma {:induction false} PassSettled(bs: seq<Block>, i: nat)
    requires i < |bs| && NoAdjacentFree(bs)
    ensures Pass(bs, i) == bs
    decreases |bs| - i
  {
    if i + 1 < |bs| {
      assert bs[i].alloc || bs[i + 1].alloc;
      PassSettled(bs, i + 1);
    }
  }

  /** A pass that does not shorten the list changes nothing. */
  lemma {:induction false} PassKeepsLength(bs: seq<Block>, i: nat)
    requires i < |bs|
    ensures |Pass(bs, i)| <= |bs|
    ensures |Pass(bs, i)| == |bs| ==> Pass(bs, i) == bs
    decreases |bs| - i
  {
    if i + 1 == |bs| {
    } else if !bs[i].alloc && !bs[i + 1].alloc {
      PassKeepsLength(MergeAt(bs, i), i);
    } else {
      PassKeepsLength(bs, i + 1);
    }
  }

  /** coalesce reports no merge exactly when no two neighbouring blocks were
      both free. */
  lemma NoMergeIffSettled(bs: seq<Block>)
    requires WellFormed(bs)
    ensures |bs| - |Pass(bs, 0)| == 0 <==> NoAdjacentFree(bs)
  {
    PassCoalesces(bs, 0);
    PassKeepsLength(bs, 0);
    if NoAdjacentFree(bs) {
      PassSettled(bs, 0);
    }
  }
}
