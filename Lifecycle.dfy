/** How balloc, bfree and coalesce undo one another: a placement is
    released by the pointer balloc returns, an exact fit freed again is the
    heap it started from, and a split block freed and coalesced is whole
    again. */
module Lifecycle {
  import opened BlockModel
  import opened Allocator
  import opened Deallocator
  import opened Coalescer

  /** Freeing the block an exact fit took gives back the original block list. */
  lemma FreeUndoesExact(bs: seq<Block>, k: int)
    requires WellFormed(bs) && 0 <= k < |bs| && !bs[k].alloc
    ensures FreeAt(ExactAt(bs, k), k) == bs
  {
    var r := FreeAt(ExactAt(bs, k), k);
    assert |r| == |bs|;
    forall j | 0 <= j < |bs| ensures r[j] == bs[j] {
      if j == k + 1 {
        assert bs[j].prevAlloc == bs[k].alloc;
      }
    }
  }

  /** ...and bfree's word writes undo those of the exact fit. */
  lemma FreeWordsUndoExact(bs: seq<Block>, w: seq<int>, k: int)
    requires Lays(bs, w) && 0 <= k < |bs| && !bs[k].alloc
    ensures 0 <= HeadWord(bs, k) && HeadWord(bs, k) + bs[k].size / WORD < |w|
    ensures FreeWords(ExactWords(w, HeadWord(bs, k), bs[k].size), HeadWord(bs, k), bs[k].size) == w
  {
    var h := HeadWord(bs, k);
    var s := bs[k].size;
    Span(bs, k);
    assert HeaderAt(bs, w, k);
    assert FooterAt(bs, w, k);
    EncodeDecode(bs[k]);
    if k + 1 < |bs| {
      Span(bs, k + 1);
      assert HeaderAt(bs, w, k + 1);
      EncodeDecode(bs[k + 1]);
    }
    var w' := FreeWords(ExactWords(w, h, s), h, s);
    assert |w'| == |w|;
    forall x | 0 <= x < |w| ensures w'[x] == w[x] {
    }
  }

  /** A split block, freed and then merged with its free remainder, is the
      block it was before the split. */
  lemma SplitFreeMergeRestores(bs: seq<Block>, k: int, n: int)
    requires WellFormed(bs) && 0 <= k < |bs| && !bs[k].alloc
    requires n % QUANTUM == 0 && QUANTUM <= n < bs[k].size
    ensures var f := FreeAt(SplitAt(bs, k, n), k);
      k + 1 < |f| && !f[k].alloc && !f[k + 1].alloc && MergeAt(f, k) == bs
  {
    var s := SplitAt(bs, k, n);
    SplitAtShape(bs, k, n);
    var f := FreeAt(s, k);
    var m := MergeAt(f, k);
    assert |m| == |bs|;
    forall j | 0 <= j < |bs| ensures m[j] == bs[j] {
      if j < k {
        SplitBefore(bs, k, n, j);
      } else if j > k {
        SplitAfter(bs, k, n, j + 1);
      }
    }
  }

  /** The pointer balloc hands out passes every check of bfree, names the
      block that was placed, and that block is allocated: freeing it succeeds. */
  lemma PlacedPointerAccepted(bs: seq<Block>, n: int)
    requires WellFormed(bs) && n > 0 && n % QUANTUM == 0
    requires !Decide(bs, n).Refuse?
    ensures var d := Decide(bs, n); var bs' := Apply(bs, d); var off := Offset(bs, d.k);
      && d.k < |bs'|
      && !Rejected(Total(bs'), Addr(off + WORD))
      && IsBlockStart(bs', off)
      && BlockIndex(bs', off) == d.k
      && bs'[d.k].alloc
  {
    var d := Decide(bs, n);
    DecidePlaces(bs, n);
    var bs' := Apply(bs, d);
    BlockStartsAccepted(bs', d.k);
    var off := Offset(bs, d.k);
    assert Offset(bs', d.k) == off;
    assert IsBlockStart(bs', off);
    var i := BlockIndex(bs', off);
    if i != d.k {
      OffsetInjective(bs', i, d.k);
    }
  }

  /** Two placements in a row hand out different blocks whose bytes do not
      overlap: the first block is allocated, so the second scan cannot
      choose it. */
  lemma SecondPlacementApart(bs: seq<Block>, n: int, m: int)
    requires WellFormed(bs) && n > 0 && n % QUANTUM == 0 && m > 0 && m % QUANTUM == 0
    requires !Decide(bs, n).Refuse?
    requires !Decide(Apply(bs, Decide(bs, n)), m).Refuse?
    ensures var d := Decide(bs, n); var bs' := Apply(bs, d); var e := Decide(bs', m);
      && d.k < |bs'| && e.k < |bs'| && d.k != e.k
      && (Offset(bs', d.k) + n <= Offset(bs', e.k) || Offset(bs', e.k) + m <= Offset(bs', d.k))
  {
    var d := Decide(bs, n);
    DecidePlaces(bs, n);
    var bs' := Apply(bs, d);
    DecideChoosesBestFit(bs', m);
    var e := Decide(bs', m);
    assert Fits(bs'[e.k], m);
    if d.k < e.k {
      OffsetOrder(bs', d.k, e.k);
    } else {
      OffsetOrder(bs', e.k, d.k);
    }
  }
}
