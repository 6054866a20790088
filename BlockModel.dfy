/** The in-band block layout of the heap: every block starts with a 4-byte
    size_status header (size, a multiple of 8, plus the a-bit and the p-bit),
    a free block also ends with a footer holding its size alone, and the
    word 1 marks the end of the heap.

    Positions are byte offsets from heap_start; the heap is modelled as a
    sequence of 4-byte words, so the header of a block at byte offset o is
    word o / 4. */
module BlockModel {

  /** sizeof(blockHeader): one size_status word. */
  const WORD: int := 4
  /** Block sizes are multiples of this. */
  const QUANTUM: int := 8
  /** The size_status value of the end mark. */
  const END_MARK: int := 1

  /** A block as its header describes it. */
  datatype Block = Block(size: int, alloc: bool, prevAlloc: bool)

  /** An address handed to or returned by the allocator, as a byte offset
      from heap_start, or NULL. */
  datatype Ptr = Null | Addr(offset: int)

  /** The header word of a block: size, plus 1 for the a-bit, plus 2 for the p-bit. */
  function Encode(b: Block): int {
    b.size + (if b.alloc then 1 else 0) + (if b.prevAlloc then 2 else 0)
  }

  /** `v - (v & 0x3)`: the size with both status bits cleared (v is never negative). */
  function PureSize(v: int): int {
    v - v % 4
  }

  /** `(v & 0x1) == 1`: the a-bit. */
  predicate ABit(v: int) {
    v % 2 == 1
  }

  /** `(v & 0x2) == 0x2`: the p-bit. */
  predicate PBit(v: int) {
    v % 4 >= 2
  }

  /** Reading a header back gives the block it encodes, and no header looks
      like the end mark. */
  lemma EncodeDecode(b: Block)
    requires b.size >= QUANTUM && b.size % QUANTUM == 0
    ensures PureSize(Encode(b)) == b.size
    ensures ABit(Encode(b)) == b.alloc && PBit(Encode(b)) == b.prevAlloc
    ensures Encode(b) != END_MARK && Encode(b) > 0
  {
    var m := 2 * (b.size / QUANTUM);
    var t := Encode(b) - b.size;
    assert 0 <= t < 4 && Encode(b) == 4 * m + t;
    assert Encode(b) % 4 == t && Encode(b) % 2 == t % 2;
  }

  /** Byte offset of block i from heap_start: the sum of the sizes before it. */
  function Offset(bs: seq<Block>, i: int): int
    requires 0 <= i <= |bs|
    decreases i
  {
    if i == 0 then 0 else Offset(bs, i - 1) + bs[i - 1].size
  }

  /** Sum of all block sizes. */
  function Total(bs: seq<Block>): int {
    Offset(bs, |bs|)
  }

  /** Word index of block i's header. */
  function HeadWord(bs: seq<Block>, i: int): int
    requires 0 <= i < |bs|
  {
    Offset(bs, i) / WORD
  }

  /** Word index of block i's footer (its last word). */
  function FootWord(bs: seq<Block>, i: int): int
    requires 0 <= i < |bs|
  {
    (Offset(bs, i) + bs[i].size) / WORD - 1
  }

  /** The block-level invariants: sizes are positive multiples of 8, the
      first block's p-bit is set, and every other p-bit matches the a-bit of
      the block before it. */
  ghost predicate WellFormed(bs: seq<Block>) {
    && |bs| > 0
    && (forall i :: 0 <= i < |bs| ==> bs[i].size >= QUANTUM && bs[i].size % QUANTUM == 0)
    && bs[0].prevAlloc
    && (forall i, j {:trigger bs[i], bs[j]} :: 0 <= i && j == i + 1 < |bs| ==> bs[j].prevAlloc == bs[i].alloc)
  }

  ghost predicate HeaderAt(bs: seq<Block>, w: seq<int>, i: int)
    requires 0 <= i < |bs|
  {
    0 <= HeadWord(bs, i) < |w| && w[HeadWord(bs, i)] == Encode(bs[i])
  }

  ghost predicate FooterAt(bs: seq<Block>, w: seq<int>, i: int)
    requires 0 <= i < |bs|
  {
    0 <= FootWord(bs, i) < |w| && w[FootWord(bs, i)] == bs[i].size
  }

  /** The words `w` hold the blocks `bs`: the blocks tile the words from
      heap_start to the end mark, which is the last word; every block's header
      encodes it, and every free block's footer holds its size. */
  ghost predicate Lays(bs: seq<Block>, w: seq<int>) {
    && WellFormed(bs)
    && |w| == Total(bs) / WORD + 1
    && |w| > 0 && w[|w| - 1] == END_MARK
    && (forall i :: 0 <= i < |bs| ==> HeaderAt(bs, w, i))
    && (forall i :: 0 <= i < |bs| && !bs[i].alloc ==> FooterAt(bs, w, i))
  }

  /** Every word of every allocated block of `bs`, header to last word, is
      the same in `w` as in `w0`. */
  ghost predicate AllocatedKept(bs: seq<Block>, w0: seq<int>, w: seq<int>) {
    && |w| == |w0|
    && forall j, x :: 0 <= j < |bs| && bs[j].alloc && 0 <= x < |w0| && HeadWord(bs, j) <= x <= FootWord(bs, j) ==> w[x] == w0[x]
  }

  /** Every payload word (after the header) of every allocated block of `bs`
      is the same in `w` as in `w0`. */
  ghost predicate PayloadKept(bs: seq<Block>, w0: seq<int>, w: seq<int>) {
    && |w| == |w0|
    && forall j, x :: 0 <= j < |bs| && bs[j].alloc && 0 <= x < |w0| && HeadWord(bs, j) < x <= FootWord(bs, j) ==> w[x] == w0[x]
  }

  /** Keeping every word of the allocated blocks keeps their payload words. */
  lemma KeptKeepsPayloads(bs: seq<Block>, w0: seq<int>, w: seq<int>)
    requires AllocatedKept(bs, w0, w)
    ensures PayloadKept(bs, w0, w)
  {
  }

  /** No two neighbouring blocks are both free. */
  ghost predicate NoAdjacentFree(bs: seq<Block>) {
    forall i, j {:trigger bs[i], bs[j]} :: 0 <= i && j == i + 1 < |bs| ==> bs[i].alloc || bs[j].alloc
  }

  // ----- offsets -----

  /** Offsets of a well-formed list are multiples of 8 and grow by at least 8 per block. */
  lemma {:induction false} OffsetAligned(bs: seq<Block>, i: int)
    requires WellFormed(bs) && 0 <= i <= |bs|
    ensures Offset(bs, i) % QUANTUM == 0 && Offset(bs, i) >= QUANTUM * i
  {
    if i > 0 {
      OffsetAligned(bs, i - 1);
    }
  }

  /** A block ends at or before the start of every later block. */
  lemma {:induction false} OffsetOrder(bs: seq<Block>, i: int, j: int)
    requires WellFormed(bs) && 0 <= i < j <= |bs|
    ensures Offset(bs, i) + bs[i].size <= Offset(bs, j)
  {
    if j > i + 1 {
      OffsetOrder(bs, i, j - 1);
    }
  }

  /** Two runs of blocks with the same sizes, starting at the same offset, end at the same offset. */
  lemma {:induction false} OffsetShift(a: seq<Block>, ia: int, b: seq<Block>, ib: int, t: int)
    requires 0 <= t && 0 <= ia && ia + t <= |a| && 0 <= ib && ib + t <= |b|
    requires Offset(a, ia) == Offset(b, ib)
    requires forall x :: ia <= x < ia + t ==> a[x].size == b[x - ia + ib].size
    ensures Offset(a, ia + t) == Offset(b, ib + t)
  {
    if t > 0 {
      OffsetShift(a, ia, b, ib, t - 1);
      assert a[ia + t - 1].size == b[ib + t - 1].size;
    }
  }

  /** A multiple of 8 is a whole, even number of words. */
  lemma Quarter(x: int)
    requires x % QUANTUM == 0
    ensures x == WORD * (x / WORD) && (x / WORD) % 2 == 0
  {
  }

  /** Where block i's words lie: its header, its footer after it, and the
      next block's header (or the end mark) right after the footer. */
  lemma Span(bs: seq<Block>, i: int)
    requires WellFormed(bs) && 0 <= i < |bs|
    ensures Offset(bs, i) % QUANTUM == 0 && 0 <= Offset(bs, i)
    ensures Offset(bs, i) + bs[i].size <= Total(bs)
    ensures HeadWord(bs, i) * WORD == Offset(bs, i)
    ensures 0 <= HeadWord(bs, i) < FootWord(bs, i) < Total(bs) / WORD
    ensures FootWord(bs, i) + 1 == HeadWord(bs, i) + bs[i].size / WORD
    ensures i + 1 < |bs| ==> HeadWord(bs, i + 1) == FootWord(bs, i) + 1
    ensures i + 1 == |bs| ==> Total(bs) / WORD == FootWord(bs, i) + 1
  {
    var o := Offset(bs, i);
    var s := bs[i].size;
    OffsetAligned(bs, i);
    OffsetOrder(bs, i, |bs|);
    OffsetAligned(bs, |bs|);
    assert Offset(bs, i + 1) == o + s;
    Quarter(o);
    Quarter(s);
    Quarter(o + s);
    Quarter(Total(bs));
  }

  /** The words of two different blocks do not overlap. */
  lemma Apart(bs: seq<Block>, i: int, j: int)
    requires WellFormed(bs) && 0 <= i < j < |bs|
    ensures FootWord(bs, i) < HeadWord(bs, j)
  {
    OffsetAligned(bs, j);
    OffsetAligned(bs, i);
    OffsetOrder(bs, i, j);
  }

  /** Header words of the blocks are distinct, and a byte offset names at most one block. */
  lemma OffsetInjective(bs: seq<Block>, i: int, j: int)
    requires WellFormed(bs) && 0 <= i < |bs| && 0 <= j < |bs| && i != j
    ensures Offset(bs, i) != Offset(bs, j)
  {
    if i < j { OffsetOrder(bs, i, j); } else { OffsetOrder(bs, j, i); }
  }

  /** In a well-formed list the blocks fill `Total` bytes, at least 8 per block. */
  lemma TotalBound(bs: seq<Block>)
    requires WellFormed(bs)
    ensures Total(bs) % QUANTUM == 0 && Total(bs) >= QUANTUM * |bs|
  {
    OffsetAligned(bs, |bs|);
  }

  /** What a walk over the words finds at block i: the word at block i's
      offset is its header, or the end mark once i is past the last block,
      and the next header lies size / 4 words further on. */
  ghost predicate Walked(bs: seq<Block>, w: seq<int>, i: int)
    requires 0 <= i <= |bs|
  {
    && 0 <= Offset(bs, i) / WORD < |w|
    && (i == |bs| <==> w[Offset(bs, i) / WORD] == END_MARK)
    && (i < |bs| ==>
      && PureSize(w[Offset(bs, i) / WORD]) == bs[i].size
      && ABit(w[Offset(bs, i) / WORD]) == bs[i].alloc
      && PBit(w[Offset(bs, i) / WORD]) == bs[i].prevAlloc
      && Offset(bs, i) / WORD == HeadWord(bs, i)
      && Offset(bs, i) / WORD + bs[i].size / WORD == Offset(bs, i + 1) / WORD)
  }

  /** Every step of a walk over laid-out words finds what `Walked` says. */
  lemma Walk(bs: seq<Block>, w: seq<int>, i: int)
    requires Lays(bs, w) && 0 <= i <= |bs|
    ensures Walked(bs, w, i)
  {
    TotalBound(bs);
    if i < |bs| {
      Span(bs, i);
      assert HeaderAt(bs, w, i);
      EncodeDecode(bs[i]);
    }
  }

  /** The words can be walked from heap_start to the end mark. */
  ghost predicate Walkable(bs: seq<Block>, w: seq<int>) {
    |bs| > 0 && forall i :: 0 <= i <= |bs| ==> Walked(bs, w, i)
  }

  lemma LaysWalkable(bs: seq<Block>, w: seq<int>)
    requires Lays(bs, w)
    ensures Walkable(bs, w)
  {
    forall i | 0 <= i <= |bs| ensures Walked(bs, w, i) {
      Walk(bs, w, i);
    }
  }
}
