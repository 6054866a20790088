/** bfree: the pointer checks, and the release of an allocated block,
    stated on the block list and on the words. */
module Deallocator {
  import opened BlockModel

  /** The checks bfree makes before it touches the block: a NULL pointer, a
      header offset that is not a multiple of 8, or a header outside
      [heap_start, heap_start + alloc_size). The header sits one word before
      the pointer. A heap of fewer than 4 bytes (alloc_size 0 before
      init_heap) accepts nothing, and an accepted header lies inside the heap. */
  predicate Rejected(allocSize: int, p: Ptr): (r: bool)
    ensures allocSize < WORD ==> r
    ensures !r ==> p.Addr? && 0 <= p.offset - WORD < allocSize && (p.offset - WORD) % QUANTUM == 0
  {
    p.Null? ||
    (p.offset - WORD) % QUANTUM != 0 ||
    p.offset - WORD < 0 ||
    p.offset - WORD >= (allocSize / WORD) * WORD
  }

  /** The byte offset `off` is where some block's header lies. */
  ghost predicate IsBlockStart(bs: seq<Block>, off: int) {
    exists k :: 0 <= k < |bs| && Offset(bs, k) == off
  }

  /** The index of the block whose header lies at `off`. */
  ghost function BlockIndex(bs: seq<Block>, off: int): (k: int)
    requires IsBlockStart(bs, off)
    ensures 0 <= k < |bs| && Offset(bs, k) == off
  {
    var k :| 0 <= k < |bs| && Offset(bs, k) == off; k
  }

  /** Releasing block k: its a-bit is cleared and its successor learns it. */
  function FreeAt(bs: seq<Block>, k: int): (r: seq<Block>)
    requires 0 <= k < |bs|
    ensures |r| == |bs| && r[k] == Block(bs[k].size, false, bs[k].prevAlloc)
    ensures k + 1 < |bs| ==> r[k + 1] == Block(bs[k + 1].size, bs[k + 1].alloc, false)
  {
    var a := bs[k := bs[k].(alloc := false)];
    if k + 1 < |bs| then a[k + 1 := a[k + 1].(prevAlloc := false)] else a
  }

  /** Words written by bfree for the block of `size` bytes at header word h:
      clear the a-bit, clear the successor's p-bit unless it is the end mark,
      and write the footer. */
  function FreeWords(w: seq<int>, h: int, size: int): (r: seq<int>)
    requires 0 <= h && WORD <= size && h + size / WORD < |w|
    ensures |r| == |w| && r[h + size / WORD - 1] == size
    ensures h + size / WORD - 1 != h ==> r[h] == w[h] - 1
    ensures forall x :: 0 <= x < |w| && x != h && x != h + size / WORD && x != h + size / WORD - 1 ==> r[x] == w[x]
  {
    var w1 := w[h := w[h] - 1];
    var next := h + size / WORD;
    var w2 := if w1[next] != END_MARK then w1[next := w1[next] - 2] else w1;
    w2[next - 1 := size]
  }

  /** Releasing an allocated block keeps the list well formed, with the same offsets. */
  lemma FreeAtShape(bs: seq<Block>, k: int)
    requires WellFormed(bs) && 0 <= k < |bs| && bs[k].alloc
    ensures |FreeAt(bs, k)| == |bs| && WellFormed(FreeAt(bs, k))
    ensures forall j :: 0 <= j <= |bs| ==> Offset(FreeAt(bs, k), j) == Offset(bs, j)
    ensures Total(FreeAt(bs, k)) == Total(bs)
  {
    var bs' := FreeAt(bs, k);
    forall j | 0 <= j <= |bs| ensures Offset(bs', j) == Offset(bs, j) {
      OffsetShift(bs', 0, bs, 0, j);
    }
  }

  lemma FreeHeader(bs: seq<Block>, w: seq<int>, k: int, j: int)
    requires WellFormed(bs) && |w| == Total(bs) / WORD + 1 && 0 <= k < |bs| && bs[k].alloc
    requires 0 <= j < |bs| && HeaderAt(bs, w, j) && HeaderAt(bs, w, k)
    requires k + 1 < |bs| ==> HeaderAt(bs, w, k + 1)
    ensures 0 <= HeadWord(bs, k) && HeadWord(bs, k) + bs[k].size / WORD < |w|
    ensures HeaderAt(FreeAt(bs, k), FreeWords(w, HeadWord(bs, k), bs[k].size), j)
  {
    Span(bs, k);
    if j == k {
      FreeHeaderSelf(bs, w, k);
    } else if j == k + 1 {
      FreeHeaderNext(bs, w, k);
    } else {
      FreeHeaderOther(bs, w, k, j);
    }
  }

  lemma FreeHeaderSelf(bs: seq<Block>, w: seq<int>, k: int)
    requires WellFormed(bs) && |w| == Total(bs) / WORD + 1 && 0 <= k < |bs| && bs[k].alloc
    requires HeaderAt(bs, w, k)
    requires k + 1 < |bs| ==> HeaderAt(bs, w, k + 1)
    ensures 0 <= HeadWord(bs, k) && HeadWord(bs, k) + bs[k].size / WORD < |w|
    ensures HeaderAt(FreeAt(bs, k), FreeWords(w, HeadWord(bs, k), bs[k].size), k)
  {
    Span(bs, k);
    FreeAtShape(bs, k);
    EncodeDecode(bs[k]);
  }

  lemma FreeHeaderNext(bs: seq<Block>, w: seq<int>, k: int)
    requires WellFormed(bs) && |w| == Total(bs) / WORD + 1 && 0 <= k && k + 1 < |bs| && bs[k].alloc
    requires HeaderAt(bs, w, k + 1)
    ensures 0 <= HeadWord(bs, k) && HeadWord(bs, k) + bs[k].size / WORD < |w|
    ensures HeaderAt(FreeAt(bs, k), FreeWords(w, HeadWord(bs, k), bs[k].size), k + 1)
  {
    Span(bs, k);
    Span(bs, k + 1);
    FreeAtShape(bs, k);
    EncodeDecode(bs[k + 1]);
  }

  lemma FreeHeaderOther(bs: seq<Block>, w: seq<int>, k: int, j: int)
    requires WellFormed(bs) && |w| == Total(bs) / WORD + 1 && 0 <= k < |bs| && bs[k].alloc
    requires 0 <= j < |bs| && j != k && j != k + 1 && HeaderAt(bs, w, j)
    ensures 0 <= HeadWord(bs, k) && HeadWord(bs, k) + bs[k].size / WORD < |w|
    ensures HeaderAt(FreeAt(bs, k), FreeWords(w, HeadWord(bs, k), bs[k].size), j)
  {
    Span(bs, k);
    FreeAtShape(bs, k);
    Span(bs, j);
    if j < k {
      Apart(bs, j, k);
    } else {
      Apart(bs, k + 1, j);
      Span(bs, k + 1);
    }
  }

  lemma FreeFooter(bs: seq<Block>, w: seq<int>, k: int, j: int)
    requires WellFormed(bs) && |w| == Total(bs) / WORD + 1 && 0 <= k < |bs| && bs[k].alloc
    requires 0 <= j < |bs| && !FreeAt(bs, k)[j].alloc
    requires j != k ==> FooterAt(bs, w, j)
    ensures 0 <= HeadWord(bs, k) && HeadWord(bs, k) + bs[k].size / WORD < |w|
    ensures FooterAt(FreeAt(bs, k), FreeWords(w, HeadWord(bs, k), bs[k].size), j)
  {
    Span(bs, k);
    FreeAtShape(bs, k);
    Span(bs, j);
    if j < k {
      Apart(bs, j, k);
    } else if j > k {
      Apart(bs, k, j);
      if j > k + 1 {
        Apart(bs, k + 1, j);
      }
    }
  }

  lemma FreeHeaders(bs: seq<Block>, w: seq<int>, k: int)
    requires Lays(bs, w) && 0 <= k < |bs| && bs[k].alloc
    ensures 0 <= HeadWord(bs, k) && HeadWord(bs, k) + bs[k].size / WORD < |w|
    ensures var bs' := FreeAt(bs, k);
      forall j :: 0 <= j < |bs'| ==> HeaderAt(bs', FreeWords(w, HeadWord(bs, k), bs[k].size), j)
  {
    Span(bs, k);
    FreeAtShape(bs, k);
    assert HeaderAt(bs, w, k);
    if k + 1 < |bs| {
      assert HeaderAt(bs, w, k + 1);
    }
    forall j | 0 <= j < |bs| ensures HeaderAt(FreeAt(bs, k), FreeWords(w, HeadWord(bs, k), bs[k].size), j) {
      assert HeaderAt(bs, w, j);
      FreeHeader(bs, w, k, j);
    }
  }

  lemma FreeFooters(bs: seq<Block>, w: seq<int>, k: int)
    requires Lays(bs, w) && 0 <= k < |bs| && bs[k].alloc
    ensures 0 <= HeadWord(bs, k) && HeadWord(bs, k) + bs[k].size / WORD < |w|
    ensures var bs' := FreeAt(bs, k);
      forall j :: 0 <= j < |bs'| && !bs'[j].alloc ==> FooterAt(bs', FreeWords(w, HeadWord(bs, k), bs[k].size), j)
  {
    Span(bs, k);
    FreeAtShape(bs, k);
    var bs' := FreeAt(bs, k);
    forall j | 0 <= j < |bs'| && !bs'[j].alloc ensures FooterAt(bs', FreeWords(w, HeadWord(bs, k), bs[k].size), j) {
      if j != k {
        assert !bs[j].alloc;
        assert FooterAt(bs, w, j);
      }
      FreeFooter(bs, w, k, j);
    }
  }

  /** Releasing leaves the end mark alone. */
  lemma FreeEnd(bs: seq<Block>, w: seq<int>, k: int)
    requires WellFormed(bs) && |w| == Total(bs) / WORD + 1 && |w| > 0 && w[|w| - 1] == END_MARK
    requires 0 <= k < |bs| && bs[k].alloc
    ensures 0 <= HeadWord(bs, k) && HeadWord(bs, k) + bs[k].size / WORD < |w|
    ensures var w' := FreeWords(w, HeadWord(bs, k), bs[k].size);
      |w'| == |w| && w'[|w'| - 1] == END_MARK
  {
    Span(bs, k);
  }

  /** Releasing an allocated block keeps the heap laid out: its footer now
      holds its size, and the successor's p-bit is clear. */
  lemma FreeKeepsLays(bs: seq<Block>, w: seq<int>, k: int)
    requires Lays(bs, w) && 0 <= k < |bs| && bs[k].alloc
    ensures 0 <= HeadWord(bs, k) && HeadWord(bs, k) + bs[k].size / WORD < |w|
    ensures Lays(FreeAt(bs, k), FreeWords(w, HeadWord(bs, k), bs[k].size))
    ensures Total(FreeAt(bs, k)) == Total(bs)
  {
    FreeAtShape(bs, k);
    FreeEnd(bs, w, k);
    FreeHeaders(bs, w, k);
    FreeFooters(bs, w, k);
  }

  /** Of the header offsets in a laid-out heap, bfree rejects none: every
      block's header is 8-aligned and lies inside the heap. */
  lemma BlockStartsAccepted(bs: seq<Block>, k: int)
    requires WellFormed(bs) && 0 <= k < |bs|
    ensures !Rejected(Total(bs), Addr(Offset(bs, k) + WORD))
  {
    Span(bs, k);
    TotalBound(bs);
  }
}
