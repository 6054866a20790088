/** balloc: the block-size computation, the best-fit scan, and the
    exact-fit / split placement, stated on the block list and on the words. */
module Allocator {
  import opened BlockModel

  // ----- sizes -----

  /** `m + (q - m % q) % q`: m rounded up to a multiple of q. init_heap pads the
      region to a whole number of pages this way. */
  function RoundUp(m: int, q: int): int
    requires q > 0
  {
    m + (q - m % q) % q
  }

  lemma {:induction false} MulAtLeast(q: int, d: int)
    requires q > 0 && d > 0
    ensures q * d >= q
  {
    if d > 1 {
      MulAtLeast(q, d - 1);
      assert q * d == q * (d - 1) + q;
    }
  }

  lemma MultipleMod(q: int, c: int)
    requires q > 0
    ensures (q * c) % q == 0
  {
    var x := q * c;
    var d := c - x / q;
    assert x == q * (x / q) + x % q;
    assert q * d == x % q;
    if d > 0 {
      MulAtLeast(q, d);
    }
  }

  /** RoundUp gives the next multiple of q at or above m. */
  lemma RoundUpIsNextMultiple(m: int, q: int)
    requires q > 0
    ensures RoundUp(m, q) % q == 0
    ensures m <= RoundUp(m, q) < m + q
  {
    var t := m % q;
    if t == 0 {
      assert (q - t) % q == 0;
    } else {
      assert (q - t) % q == q - t;
      assert RoundUp(m, q) == q * (m / q + 1);
      MultipleMod(q, m / q + 1);
    }
  }

  /** The block size balloc needs for a payload of `size` bytes: header plus
      payload, rounded up to the next multiple of 8. */
  function RequiredSize(size: int): (r: int)
    ensures r % QUANTUM == 0 && WORD + size <= r < WORD + size + QUANTUM
  {
    RoundUpIsNextMultiple(WORD + size, QUANTUM);
    RoundUp(WORD + size, QUANTUM)
  }

  /** The padding loop of balloc: count up from header plus payload until the
      size is a multiple of 8. */
  method PadToQuantum(size: int) returns (newSize: int)
    ensures newSize == RequiredSize(size)
  {
    newSize := WORD + size;
    while newSize % QUANTUM != 0
      invariant WORD + size <= newSize <= RequiredSize(size)
      decreases RequiredSize(size) - newSize
    {
      newSize := newSize + 1;
    }
  }

  // ----- best-fit search -----

  /** A block can hold a request of block size n. */
  predicate Fits(b: Block, n: int) {
    !b.alloc && b.size >= n
  }

  /** What balloc's scan chooses, stated without the scan: a free block of
      the smallest size that fits; if that size is exact, the first such
      block in address order; otherwise the last one. */
  ghost predicate IsBestFit(bs: seq<Block>, n: int, k: int) {
    && 0 <= k < |bs| && Fits(bs[k], n)
    && (forall j :: 0 <= j < |bs| && Fits(bs[j], n) ==> bs[k].size <= bs[j].size)
    && (bs[k].size == n ==> forall j :: 0 <= j < k ==> !Fits(bs[j], n) || bs[j].size != n)
    && (bs[k].size != n ==> forall j :: k < j < |bs| && Fits(bs[j], n) ==> bs[k].size < bs[j].size)
  }

  /** The outcome of the scan: whether a block was found, the index it left in
      `smallest_block_header`, and the value left in `smallest_block_size`. */
  datatype Search = Search(found: bool, chosen: nat, staleSize: int)

  /** The scan of balloc, one loop iteration per call: `i` is the block under
      `current_block_header`, `small` the one under `smallest_block_header`,
      and `ss` the size last read from it. A qualifying block met while the
      recorded one does not qualify is recorded and examined again; a
      qualifying block no larger than the recorded one replaces it; an exact
      fit ends the scan. */
  function Scan(bs: seq<Block>, n: int, i: nat, small: nat, found: bool, ss: int): (r: Search)
    requires i <= |bs| && small < |bs|
    ensures r.chosen < |bs|
    ensures found ==> r.found
    ensures r.chosen == small || i <= r.chosen
    decreases |bs| - i, if small == i then 0 else 1
  {
    if i == |bs| then Search(found, small, ss)
    else
      var cs := bs[i].size;
      var ss' := bs[small].size;
      if !bs[i].alloc && cs >= n then
        if bs[small].alloc || n > ss' then Scan(bs, n, i, i, found, ss')
        else if cs <= ss' && cs > n then Scan(bs, n, i + 1, i, true, ss')
        else if cs <= ss' && cs == n then Search(true, i, ss')
        else Scan(bs, n, i + 1, small, found, ss')
      else Scan(bs, n, i + 1, small, found, ss')
  }

  /** The whole scan, from heap_start. */
  function ScanAll(bs: seq<Block>, n: int): Search
    requires |bs| > 0
  {
    Scan(bs, n, 0, 0, false, 0)
  }

  /** What holds of the scan's state before block i. */
  ghost predicate ScanInv(bs: seq<Block>, n: int, i: int, small: int, found: bool) {
    && 0 <= small <= i <= |bs| && small < |bs|
    && (!found ==> forall j :: 0 <= j < i ==> !Fits(bs[j], n))
    && (found ==>
          && small < i && Fits(bs[small], n) && bs[small].size > n
          && forall j :: 0 <= j < i && Fits(bs[j], n) ==>
               && bs[j].size != n
               && bs[small].size <= bs[j].size
               && (small < j ==> bs[small].size < bs[j].size))
  }

  lemma {:induction false} ScanCorrect(bs: seq<Block>, n: int, i: nat, small: nat, found: bool, ss: int)
    requires ScanInv(bs, n, i, small, found)
    ensures var r := Scan(bs, n, i, small, found, ss);
      && (r.found <==> exists j :: 0 <= j < |bs| && Fits(bs[j], n))
      && (r.found ==> IsBestFit(bs, n, r.chosen))
    decreases |bs| - i, if small == i then 0 else 1
  {
    if i == |bs| {
      if found {
        assert Fits(bs[small], n);
      }
    } else {
      var cs := bs[i].size;
      var ss' := bs[small].size;
      if !bs[i].alloc && cs >= n {
        if bs[small].alloc || n > ss' {
          ScanCorrect(bs, n, i, i, found, ss');
        } else if cs <= ss' && cs > n {
          ScanCorrect(bs, n, i + 1, i, true, ss');
        } else if cs <= ss' && cs == n {
          assert Fits(bs[i], n);
        } else {
          ScanCorrect(bs, n, i + 1, small, found, ss');
        }
      } else {
        ScanCorrect(bs, n, i + 1, small, found, ss');
      }
    }
  }

  /** The scan finds a block exactly when some free block is large enough,
      and the block it finds is the best fit. */
  lemma ScanFindsBestFit(bs: seq<Block>, n: int)
    requires |bs| > 0
    ensures ScanAll(bs, n).found <==> exists j :: 0 <= j < |bs| && Fits(bs[j], n)
    ensures ScanAll(bs, n).found ==> IsBestFit(bs, n, ScanAll(bs, n).chosen)
  {
    ScanCorrect(bs, n, 0, 0, false, 0);
  }

  /** Once the scan has found a block, smallest_block_size is only ever read
      from a block that fits, so the size the scan leaves behind is at least
      n whenever it found something. */
  lemma {:induction false} ScanLeavesFittingSize(bs: seq<Block>, n: int, i: nat, small: nat, found: bool, ss: int)
    requires i <= |bs| && small < |bs|
    requires found ==> Fits(bs[small], n) && ss >= n
    ensures var r := Scan(bs, n, i, small, found, ss);
      r.found ==> Fits(bs[r.chosen], n) && r.staleSize >= n
    decreases |bs| - i, if small == i then 0 else 1
  {
    if i < |bs| {
      var cs := bs[i].size;
      var ss' := bs[small].size;
      if !bs[i].alloc && cs >= n {
        if bs[small].alloc || n > ss' {
          ScanLeavesFittingSize(bs, n, i, i, found, ss');
        } else if cs <= ss' && cs > n {
          ScanLeavesFittingSize(bs, n, i + 1, i, true, ss');
        } else if cs <= ss' && cs == n {
        } else {
          ScanLeavesFittingSize(bs, n, i + 1, small, found, ss');
        }
      } else {
        ScanLeavesFittingSize(bs, n, i + 1, small, found, ss');
      }
    }
  }

  // ----- placement -----

  /** What balloc does after the scan. `Untouched` is the fall-through of the
      source when neither branch applies: the pointer is returned and nothing
      is written. Neither decision below ever takes it. */
  datatype Decision =
    | Refuse
    | ExactFit(k: nat)
    | SplitFit(k: nat, taken: int, remainder: int)
    | Untouched(k: nat)

  /** The decision as the source takes it: from the size left in
      `smallest_block_size`, which may belong to the previously recorded
      block. It refuses and chooses exactly as the corrected decision does;
      only the kind of placement and the sizes may differ. The fall-through
      is never reached. */
  function DecideAsWritten(bs: seq<Block>, n: int): (d: Decision)
    requires |bs| > 0
    ensures !d.Untouched?
    ensures d.Refuse? <==> Decide(bs, n).Refuse?
    ensures !d.Refuse? ==> d.k == Decide(bs, n).k
  {
    var r := ScanAll(bs, n);
    ScanLeavesFittingSize(bs, n, 0, 0, false, 0);
    if !r.found then Refuse
    else if r.staleSize == n then ExactFit(r.chosen)
    else if r.staleSize > n then SplitFit(r.chosen, n, r.staleSize - n)
    else Untouched(r.chosen)
  }

  /** The decision taken from the chosen block's own size: the chosen block
      is free and holds n bytes; it is taken whole when it holds exactly n,
      and otherwise split into n bytes and the rest. */
  function Decide(bs: seq<Block>, n: int): (d: Decision)
    requires |bs| > 0
    ensures !d.Untouched?
    ensures !d.Refuse? ==> d.k < |bs| && Fits(bs[d.k], n)
    ensures d.ExactFit? ==> bs[d.k].size == n
    ensures d.SplitFit? ==> d.taken == n < bs[d.k].size && d.taken + d.remainder == bs[d.k].size
  {
    var r := ScanAll(bs, n);
    ScanLeavesFittingSize(bs, n, 0, 0, false, 0);
    if !r.found then Refuse
    else if bs[r.chosen].size == n then ExactFit(r.chosen)
    else SplitFit(r.chosen, n, bs[r.chosen].size - n)
  }

  /** balloc(size) on the block list `bs` of a heap of `allocSize` bytes:
      only a size in (0, alloc_size] is ever placed, and then into a free
      block holding the required block size. */
  function Request(bs: seq<Block>, allocSize: int, size: int): (d: Decision)
    requires |bs| > 0 || size <= 0 || size > allocSize
    ensures !d.Untouched?
    ensures !d.Refuse? ==> 0 < size <= allocSize && d.k < |bs| && Fits(bs[d.k], RequiredSize(size))
    ensures d.SplitFit? ==> d.taken == RequiredSize(size)
  {
    if size <= 0 || size > allocSize then Refuse else Decide(bs, RequiredSize(size))
  }

  /** The corrected decision refuses exactly when no free block is large
      enough; otherwise it places the request in the best-fit block, exactly
      when the sizes match and by a split into n allocated bytes and a
      non-empty, 8-aligned free remainder otherwise. */
  lemma DecideChoosesBestFit(bs: seq<Block>, n: int)
    requires WellFormed(bs) && n > 0 && n % QUANTUM == 0
    ensures var d := Decide(bs, n);
      && (d.Refuse? <==> forall j :: 0 <= j < |bs| ==> !Fits(bs[j], n))
      && (d.ExactFit? ==> IsBestFit(bs, n, d.k) && bs[d.k].size == n)
      && (d.SplitFit? ==>
            && IsBestFit(bs, n, d.k) && d.taken == n
            && d.taken + d.remainder == bs[d.k].size
            && d.remainder >= QUANTUM && d.remainder % QUANTUM == 0)
  {
    ScanFindsBestFit(bs, n);
    var r := ScanAll(bs, n);
    if r.found {
      assert Fits(bs[r.chosen], n);
    }
  }

  /** balloc refuses a non-positive size, a size beyond the heap, and a
      request no free block can hold; otherwise it places the request. */
  lemma RequestRefuses(bs: seq<Block>, allocSize: int, size: int)
    requires WellFormed(bs)
    ensures Request(bs, allocSize, size).Refuse? <==>
      size <= 0 || size > allocSize || forall j :: 0 <= j < |bs| ==> !Fits(bs[j], RequiredSize(size))
  {
    if size > 0 && size <= allocSize {
      DecideChoosesBestFit(bs, RequiredSize(size));
    }
  }

  /** Exact fit: the block becomes allocated and its successor learns it. */
  function ExactAt(bs: seq<Block>, k: int): (r: seq<Block>)
    requires 0 <= k < |bs|
    ensures |r| == |bs| && r[k] == Block(bs[k].size, true, bs[k].prevAlloc)
    ensures k + 1 < |bs| ==> r[k + 1] == Block(bs[k + 1].size, bs[k + 1].alloc, true)
  {
    var a := bs[k := bs[k].(alloc := true)];
    if k + 1 < |bs| then a[k + 1 := a[k + 1].(prevAlloc := true)] else a
  }

  /** Split: an allocated prefix of n bytes keeping the p-bit, and a free
      remainder whose predecessor is allocated. */
  function SplitAt(bs: seq<Block>, k: int, n: int): (r: seq<Block>)
    requires 0 <= k < |bs|
    ensures |r| == |bs| + 1
    ensures r[k] == Block(n, true, bs[k].prevAlloc) && r[k + 1] == Block(bs[k].size - n, false, true)
  {
    bs[..k] + [Block(n, true, bs[k].prevAlloc), Block(bs[k].size - n, false, true)] + bs[k + 1..]
  }

  /** The block list after a decision. */
  function Apply(bs: seq<Block>, d: Decision): seq<Block>
    requires d.ExactFit? || d.SplitFit? ==> d.k < |bs|
  {
    match d
    case ExactFit(k) => ExactAt(bs, k)
    case SplitFit(k, a, _) => SplitAt(bs, k, a)
    case _ => bs
  }

  /** Words written by an exact fit at header word h of a block of `size` bytes:
      set the a-bit, then the successor's p-bit unless it is the end mark. */
  function ExactWords(w: seq<int>, h: int, size: int): (r: seq<int>)
    requires 0 <= h && WORD <= size && h + size / WORD < |w|
    ensures |r| == |w| && r[h] == w[h] + 1
    ensures forall x :: 0 <= x < |w| && x != h && x != h + size / WORD ==> r[x] == w[x]
  {
    var w1 := w[h := w[h] + 1];
    var next := h + size / WORD;
    if w1[next] != END_MARK then w1[next := w1[next] + 2] else w1
  }

  /** Words written by a split of a `size`-byte block at header word h into n
      allocated bytes and a free remainder with its header and footer. */
  function SplitWords(w: seq<int>, h: int, size: int, n: int): (r: seq<int>)
    requires n % QUANTUM == 0 && size % QUANTUM == 0 && 0 < n < size
    requires 0 <= h && h + size / WORD <= |w|
    ensures |r| == |w|
    ensures r[h + n / WORD] == size - n + 2 && r[h + size / WORD - 1] == size - n
    ensures forall x :: 0 <= x < |w| && x != h && x != h + n / WORD && x != h + size / WORD - 1 ==> r[x] == w[x]
  {
    var freeSize := size - n;
    var w1 := w[h := if PBit(w[h]) then n + 3 else n + 1];
    var next := h + n / WORD;
    var w2 := w1[next := freeSize + 2];
    w2[next + freeSize / WORD - 1 := freeSize]
  }

  /** An exact fit keeps the block list well formed, with the same offsets. */
  lemma ExactAtShape(bs: seq<Block>, k: int)
    requires WellFormed(bs) && 0 <= k < |bs| && !bs[k].alloc
    ensures |ExactAt(bs, k)| == |bs| && WellFormed(ExactAt(bs, k))
    ensures forall j :: 0 <= j <= |bs| ==> Offset(ExactAt(bs, k), j) == Offset(bs, j)
    ensures Total(ExactAt(bs, k)) == Total(bs)
  {
    var bs' := ExactAt(bs, k);
    forall j | 0 <= j <= |bs| ensures Offset(bs', j) == Offset(bs, j) {
      OffsetShift(bs', 0, bs, 0, j);
    }
  }

  lemma ExactHeader(bs: seq<Block>, w: seq<int>, k: int, j: int)
    requires WellFormed(bs) && |w| == Total(bs) / WORD + 1 && 0 <= k < |bs| && !bs[k].alloc
    requires 0 <= j < |bs| && HeaderAt(bs, w, j) && HeaderAt(bs, w, k)
    requires k + 1 < |bs| ==> HeaderAt(bs, w, k + 1)
    ensures 0 <= HeadWord(bs, k) && HeadWord(bs, k) + bs[k].size / WORD < |w|
    ensures HeaderAt(ExactAt(bs, k), ExactWords(w, HeadWord(bs, k), bs[k].size), j)
  {
    Span(bs, k);
    if j == k {
      ExactHeaderSelf(bs, w, k);
    } else if j == k + 1 {
      ExactHeaderNext(bs, w, k);
    } else {
      ExactHeaderOther(bs, w, k, j);
    }
  }

  lemma ExactHeaderSelf(bs: seq<Block>, w: seq<int>, k: int)
    requires WellFormed(bs) && |w| == Total(bs) / WORD + 1 && 0 <= k < |bs| && !bs[k].alloc
    requires HeaderAt(bs, w, k)
    requires k + 1 < |bs| ==> HeaderAt(bs, w, k + 1)
    ensures 0 <= HeadWord(bs, k) && HeadWord(bs, k) + bs[k].size / WORD < |w|
    ensures HeaderAt(ExactAt(bs, k), ExactWords(w, HeadWord(bs, k), bs[k].size), k)
  {
    Span(bs, k);
    ExactAtShape(bs, k);
    EncodeDecode(bs[k]);
  }

  lemma ExactHeaderNext(bs: seq<Block>, w: seq<int>, k: int)
    requires WellFormed(bs) && |w| == Total(bs) / WORD + 1 && 0 <= k && k + 1 < |bs| && !bs[k].alloc
    requires HeaderAt(bs, w, k + 1)
    ensures 0 <= HeadWord(bs, k) && HeadWord(bs, k) + bs[k].size / WORD < |w|
    ensures HeaderAt(ExactAt(bs, k), ExactWords(w, HeadWord(bs, k), bs[k].size), k + 1)
  {
    Span(bs, k);
    Span(bs, k + 1);
    ExactAtShape(bs, k);
    EncodeDecode(bs[k + 1]);
  }

  lemma ExactHeaderOther(bs: seq<Block>, w: seq<int>, k: int, j: int)
    requires WellFormed(bs) && |w| == Total(bs) / WORD + 1 && 0 <= k < |bs| && !bs[k].alloc
    requires 0 <= j < |bs| && j != k && j != k + 1 && HeaderAt(bs, w, j)
    ensures 0 <= HeadWord(bs, k) && HeadWord(bs, k) + bs[k].size / WORD < |w|
    ensures HeaderAt(ExactAt(bs, k), ExactWords(w, HeadWord(bs, k), bs[k].size), j)
  {
    Span(bs, k);
    ExactAtShape(bs, k);
    Span(bs, j);
    if j < k {
      Apart(bs, j, k);
    } else {
      Apart(bs, k + 1, j);
      Span(bs, k + 1);
    }
  }

  lemma ExactFooter(bs: seq<Block>, w: seq<int>, k: int, j: int)
    requires WellFormed(bs) && |w| == Total(bs) / WORD + 1 && 0 <= k < |bs| && !bs[k].alloc
    requires 0 <= j < |bs| && j != k && !bs[j].alloc && FooterAt(bs, w, j)
    ensures 0 <= HeadWord(bs, k) && HeadWord(bs, k) + bs[k].size / WORD < |w|
    ensures FooterAt(ExactAt(bs, k), ExactWords(w, HeadWord(bs, k), bs[k].size), j)
  {
    Span(bs, k);
    ExactAtShape(bs, k);
    Span(bs, j);
    if j < k {
      Apart(bs, j, k);
    } else {
      Apart(bs, k, j);
      if j > k + 1 {
        Apart(bs, k + 1, j);
      }
    }
  }

  lemma ExactHeaders(bs: seq<Block>, w: seq<int>, k: int)
    requires Lays(bs, w) && 0 <= k < |bs| && !bs[k].alloc
    ensures 0 <= HeadWord(bs, k) && HeadWord(bs, k) + bs[k].size / WORD < |w|
    ensures var bs' := ExactAt(bs, k);
      forall j :: 0 <= j < |bs'| ==> HeaderAt(bs', ExactWords(w, HeadWord(bs, k), bs[k].size), j)
  {
    Span(bs, k);
    ExactAtShape(bs, k);
    assert HeaderAt(bs, w, k);
    if k + 1 < |bs| {
      assert HeaderAt(bs, w, k + 1);
    }
    forall j | 0 <= j < |bs| ensures HeaderAt(ExactAt(bs, k), ExactWords(w, HeadWord(bs, k), bs[k].size), j) {
      assert HeaderAt(bs, w, j);
      ExactHeader(bs, w, k, j);
    }
  }

  lemma ExactFooters(bs: seq<Block>, w: seq<int>, k: int)
    requires Lays(bs, w) && 0 <= k < |bs| && !bs[k].alloc
    ensures 0 <= HeadWord(bs, k) && HeadWord(bs, k) + bs[k].size / WORD < |w|
    ensures var bs' := ExactAt(bs, k);
      forall j :: 0 <= j < |bs'| && !bs'[j].alloc ==> FooterAt(bs', ExactWords(w, HeadWord(bs, k), bs[k].size), j)
  {
    Span(bs, k);
    ExactAtShape(bs, k);
    var bs' := ExactAt(bs, k);
    forall j | 0 <= j < |bs'| && !bs'[j].alloc ensures FooterAt(bs', ExactWords(w, HeadWord(bs, k), bs[k].size), j) {
      assert j != k && !bs[j].alloc;
      assert FooterAt(bs, w, j);
      ExactFooter(bs, w, k, j);
    }
  }

  /** An exact fit keeps the heap laid out. */
  lemma ExactKeepsLays(bs: seq<Block>, w: seq<int>, k: int)
    requires Lays(bs, w) && 0 <= k < |bs| && !bs[k].alloc
    ensures 0 <= HeadWord(bs, k) && HeadWord(bs, k) + bs[k].size / WORD < |w|
    ensures Lays(ExactAt(bs, k), ExactWords(w, HeadWord(bs, k), bs[k].size))
    ensures Total(ExactAt(bs, k)) == Total(bs)
  {
    ExactAtShape(bs, k);
    ExactEnd(bs, w, k);
    ExactHeaders(bs, w, k);
    ExactFooters(bs, w, k);
  }

  /** An exact fit leaves the end mark alone. */
  lemma ExactEnd(bs: seq<Block>, w: seq<int>, k: int)
    requires Lays(bs, w) && 0 <= k < |bs| && !bs[k].alloc
    ensures 0 <= HeadWord(bs, k) && HeadWord(bs, k) + bs[k].size / WORD < |w|
    ensures var w' := ExactWords(w, HeadWord(bs, k), bs[k].size);
      |w'| == |w| && w'[|w'| - 1] == END_MARK
  {
    var h := HeadWord(bs, k);
    Span(bs, k);
    if k + 1 < |bs| {
      Span(bs, k + 1);
      assert HeaderAt(bs, w, k + 1);
      EncodeDecode(bs[k + 1]);
    }
  }

  /** A split keeps the block list well formed. */
  lemma SplitAtShape(bs: seq<Block>, k: int, n: int)
    requires WellFormed(bs) && 0 <= k < |bs| && !bs[k].alloc
    requires n % QUANTUM == 0 && QUANTUM <= n < bs[k].size
    ensures var bs' := SplitAt(bs, k, n);
      && |bs'| == |bs| + 1 && WellFormed(bs')
      && bs'[k] == Block(n, true, bs[k].prevAlloc)
      && bs'[k + 1] == Block(bs[k].size - n, false, true)
  {
  }

  lemma SplitPrefix(bs: seq<Block>, k: int, n: int)
    requires 0 <= k < |bs|
    ensures forall x :: 0 <= x < k ==> SplitAt(bs, k, n)[x] == bs[x]
  {
  }

  /** Blocks before a split keep their offsets. */
  lemma SplitBefore(bs: seq<Block>, k: int, n: int, j: int)
    requires 0 <= j <= k < |bs|
    ensures j < k ==> SplitAt(bs, k, n)[j] == bs[j]
    ensures Offset(SplitAt(bs, k, n), j) == Offset(bs, j)
  {
    var bs' := SplitAt(bs, k, n);
    assert |bs'| == |bs| + 1;
    SplitPrefix(bs, k, n);
    assert forall x :: 0 <= x < j ==> bs'[x].size == bs[x - 0 + 0].size;
    OffsetShift(bs', 0, bs, 0, j);
  }

  /** Blocks after a split move up one index and keep their offsets. */
  lemma SplitAfter(bs: seq<Block>, k: int, n: int, j: int)
    requires 0 <= k < |bs| && k + 2 <= j <= |bs| + 1
    ensures j < |bs| + 1 ==> SplitAt(bs, k, n)[j] == bs[j - 1]
    ensures Offset(SplitAt(bs, k, n), k + 1) == Offset(bs, k) + n
    ensures Offset(SplitAt(bs, k, n), j) == Offset(bs, j - 1)
  {
    var bs' := SplitAt(bs, k, n);
    assert forall x :: k + 2 <= x < |bs'| ==> bs'[x] == bs[x - 1];
    SplitBefore(bs, k, n, k);
    assert Offset(bs', k + 2) == Offset(bs, k + 1);
    OffsetShift(bs', k + 2, bs, k + 1, j - k - 2);
  }

  lemma SplitHeader(bs: seq<Block>, w: seq<int>, k: int, n: int, j: int)
    requires WellFormed(bs) && |w| == Total(bs) / WORD + 1 && 0 <= k < |bs| && !bs[k].alloc
    requires n % QUANTUM == 0 && QUANTUM <= n < bs[k].size
    requires HeaderAt(bs, w, k)
    requires 0 <= j < |bs| + 1
    requires j < k ==> HeaderAt(bs, w, j)
    requires j > k + 1 ==> HeaderAt(bs, w, j - 1)
    ensures 0 <= HeadWord(bs, k) && HeadWord(bs, k) + bs[k].size / WORD < |w|
    ensures HeaderAt(SplitAt(bs, k, n), SplitWords(w, HeadWord(bs, k), bs[k].size, n), j)
  {
    Span(bs, k);
    if j == k {
      SplitHeaderSelf(bs, w, k, n);
    } else if j == k + 1 {
      SplitHeaderRest(bs, w, k, n);
    } else if j < k {
      SplitHeaderBefore(bs, w, k, n, j);
    } else {
      SplitHeaderAfter(bs, w, k, n, j);
    }
  }

  lemma SplitHeaderSelf(bs: seq<Block>, w: seq<int>, k: int, n: int)
    requires WellFormed(bs) && |w| == Total(bs) / WORD + 1 && 0 <= k < |bs| && !bs[k].alloc
    requires n % QUANTUM == 0 && QUANTUM <= n < bs[k].size
    requires HeaderAt(bs, w, k)
    ensures 0 <= HeadWord(bs, k) && HeadWord(bs, k) + bs[k].size / WORD < |w|
    ensures HeaderAt(SplitAt(bs, k, n), SplitWords(w, HeadWord(bs, k), bs[k].size, n), k)
  {
    Span(bs, k);
    SplitAtShape(bs, k, n);
    SplitBefore(bs, k, n, k);
    EncodeDecode(bs[k]);
  }

  lemma SplitHeaderRest(bs: seq<Block>, w: seq<int>, k: int, n: int)
    requires WellFormed(bs) && |w| == Total(bs) / WORD + 1 && 0 <= k < |bs| && !bs[k].alloc
    requires n % QUANTUM == 0 && QUANTUM <= n < bs[k].size
    ensures 0 <= HeadWord(bs, k) && HeadWord(bs, k) + bs[k].size / WORD < |w|
    ensures HeaderAt(SplitAt(bs, k, n), SplitWords(w, HeadWord(bs, k), bs[k].size, n), k + 1)
  {
    Span(bs, k);
    SplitAtShape(bs, k, n);
    SplitAfter(bs, k, n, k + 2);
  }

  lemma SplitHeaderBefore(bs: seq<Block>, w: seq<int>, k: int, n: int, j: int)
    requires WellFormed(bs) && |w| == Total(bs) / WORD + 1 && 0 <= k < |bs| && !bs[k].alloc
    requires n % QUANTUM == 0 && QUANTUM <= n < bs[k].size
    requires 0 <= j < k && HeaderAt(bs, w, j)
    ensures 0 <= HeadWord(bs, k) && HeadWord(bs, k) + bs[k].size / WORD < |w|
    ensures HeaderAt(SplitAt(bs, k, n), SplitWords(w, HeadWord(bs, k), bs[k].size, n), j)
  {
    Span(bs, k);
    SplitAtShape(bs, k, n);
    SplitBefore(bs, k, n, j);
    Apart(bs, j, k);
    Span(bs, j);
  }

  lemma SplitHeaderAfter(bs: seq<Block>, w: seq<int>, k: int, n: int, j: int)
    requires WellFormed(bs) && |w| == Total(bs) / WORD + 1 && 0 <= k < |bs| && !bs[k].alloc
    requires n % QUANTUM == 0 && QUANTUM <= n < bs[k].size
    requires k + 1 < j < |bs| + 1 && HeaderAt(bs, w, j - 1)
    ensures 0 <= HeadWord(bs, k) && HeadWord(bs, k) + bs[k].size / WORD < |w|
    ensures HeaderAt(SplitAt(bs, k, n), SplitWords(w, HeadWord(bs, k), bs[k].size, n), j)
  {
    Span(bs, k);
    SplitAtShape(bs, k, n);
    SplitAfter(bs, k, n, j);
    Apart(bs, k, j - 1);
  }

  lemma SplitFooter(bs: seq<Block>, w: seq<int>, k: int, n: int, j: int)
    requires WellFormed(bs) && |w| == Total(bs) / WORD + 1 && 0 <= k < |bs| && !bs[k].alloc
    requires n % QUANTUM == 0 && QUANTUM <= n < bs[k].size
    requires 0 <= j < |bs| + 1 && !SplitAt(bs, k, n)[j].alloc
    requires j < k ==> FooterAt(bs, w, j)
    requires j > k + 1 ==> FooterAt(bs, w, j - 1)
    ensures 0 <= HeadWord(bs, k) && HeadWord(bs, k) + bs[k].size / WORD < |w|
    ensures FooterAt(SplitAt(bs, k, n), SplitWords(w, HeadWord(bs, k), bs[k].size, n), j)
  {
    Span(bs, k);
    SplitAtShape(bs, k, n);
    if j == k + 1 {
      SplitFooterRest(bs, w, k, n);
    } else if j < k {
      SplitBefore(bs, k, n, j);
      SplitFooterBefore(bs, w, k, n, j);
    } else {
      SplitAfter(bs, k, n, j);
      SplitFooterAfter(bs, w, k, n, j);
    }
  }

  lemma SplitFooterRest(bs: seq<Block>, w: seq<int>, k: int, n: int)
    requires WellFormed(bs) && |w| == Total(bs) / WORD + 1 && 0 <= k < |bs| && !bs[k].alloc
    requires n % QUANTUM == 0 && QUANTUM <= n < bs[k].size
    ensures 0 <= HeadWord(bs, k) && HeadWord(bs, k) + bs[k].size / WORD < |w|
    ensures FooterAt(SplitAt(bs, k, n), SplitWords(w, HeadWord(bs, k), bs[k].size, n), k + 1)
  {
    Span(bs, k);
    SplitAtShape(bs, k, n);
    SplitAfter(bs, k, n, k + 2);
  }

  lemma SplitFooterBefore(bs: seq<Block>, w: seq<int>, k: int, n: int, j: int)
    requires WellFormed(bs) && |w| == Total(bs) / WORD + 1 && 0 <= k < |bs| && !bs[k].alloc
    requires n % QUANTUM == 0 && QUANTUM <= n < bs[k].size
    requires 0 <= j < k && !bs[j].alloc && FooterAt(bs, w, j)
    ensures 0 <= HeadWord(bs, k) && HeadWord(bs, k) + bs[k].size / WORD < |w|
    ensures FooterAt(SplitAt(bs, k, n), SplitWords(w, HeadWord(bs, k), bs[k].size, n), j)
  {
    Span(bs, k);
    SplitAtShape(bs, k, n);
    SplitBefore(bs, k, n, j);
    Span(bs, j);
    Apart(bs, j, k);
  }

  lemma SplitFooterAfter(bs: seq<Block>, w: seq<int>, k: int, n: int, j: int)
    requires WellFormed(bs) && |w| == Total(bs) / WORD + 1 && 0 <= k < |bs| && !bs[k].alloc
    requires n % QUANTUM == 0 && QUANTUM <= n < bs[k].size
    requires k + 1 < j < |bs| + 1 && !bs[j - 1].alloc && FooterAt(bs, w, j - 1)
    ensures 0 <= HeadWord(bs, k) && HeadWord(bs, k) + bs[k].size / WORD < |w|
    ensures FooterAt(SplitAt(bs, k, n), SplitWords(w, HeadWord(bs, k), bs[k].size, n), j)
  {
    Span(bs, k);
    SplitAtShape(bs, k, n);
    SplitAfter(bs, k, n, j);
    Span(bs, j - 1);
    Apart(bs, k, j - 1);
  }

  lemma SplitHeaders(bs: seq<Block>, w: seq<int>, k: int, n: int)
    requires Lays(bs, w) && 0 <= k < |bs| && !bs[k].alloc
    requires n % QUANTUM == 0 && QUANTUM <= n < bs[k].size
    ensures 0 <= HeadWord(bs, k) && HeadWord(bs, k) + bs[k].size / WORD < |w|
    ensures var bs' := SplitAt(bs, k, n);
      forall j :: 0 <= j < |bs'| ==> HeaderAt(bs', SplitWords(w, HeadWord(bs, k), bs[k].size, n), j)
  {
    var bs' := SplitAt(bs, k, n);
    Span(bs, k);
    SplitAtShape(bs, k, n);
    assert HeaderAt(bs, w, k);
    forall j | 0 <= j < |bs'| ensures HeaderAt(bs', SplitWords(w, HeadWord(bs, k), bs[k].size, n), j) {
      if j < k { assert HeaderAt(bs, w, j); }
      if j > k + 1 { assert HeaderAt(bs, w, j - 1); }
      SplitHeader(bs, w, k, n, j);
    }
  }

  lemma SplitFooters(bs: seq<Block>, w: seq<int>, k: int, n: int)
    requires Lays(bs, w) && 0 <= k < |bs| && !bs[k].alloc
    requires n % QUANTUM == 0 && QUANTUM <= n < bs[k].size
    ensures 0 <= HeadWord(bs, k) && HeadWord(bs, k) + bs[k].size / WORD < |w|
    ensures var bs' := SplitAt(bs, k, n);
      forall j :: 0 <= j < |bs'| && !bs'[j].alloc ==> FooterAt(bs', SplitWords(w, HeadWord(bs, k), bs[k].size, n), j)
  {
    var bs' := SplitAt(bs, k, n);
    Span(bs, k);
    SplitAtShape(bs, k, n);
    forall j | 0 <= j < |bs'| && !bs'[j].alloc ensures FooterAt(bs', SplitWords(w, HeadWord(bs, k), bs[k].size, n), j) {
      if j < k { assert FooterAt(bs, w, j); }
      if j > k + 1 { assert FooterAt(bs, w, j - 1); }
      SplitFooter(bs, w, k, n, j);
    }
  }

  /** A split of a free block keeps the heap laid out: the allocated prefix
      and the free remainder with its footer tile the old block. */
  lemma SplitKeepsLays(bs: seq<Block>, w: seq<int>, k: int, n: int)
    requires Lays(bs, w) && 0 <= k < |bs| && !bs[k].alloc
    requires n % QUANTUM == 0 && QUANTUM <= n < bs[k].size
    ensures 0 <= HeadWord(bs, k) && HeadWord(bs, k) + bs[k].size / WORD < |w|
    ensures Lays(SplitAt(bs, k, n), SplitWords(w, HeadWord(bs, k), bs[k].size, n))
    ensures Total(SplitAt(bs, k, n)) == Total(bs)
  {
    SplitAtShape(bs, k, n);
    SplitEnd(bs, w, k, n);
    SplitHeaders(bs, w, k, n);
    SplitFooters(bs, w, k, n);
  }

  /** A split conserves the total and leaves the end mark alone. */
  lemma SplitEnd(bs: seq<Block>, w: seq<int>, k: int, n: int)
    requires WellFormed(bs) && |w| == Total(bs) / WORD + 1 && |w| > 0 && w[|w| - 1] == END_MARK
    requires 0 <= k < |bs| && !bs[k].alloc
    requires n % QUANTUM == 0 && QUANTUM <= n < bs[k].size
    ensures 0 <= HeadWord(bs, k) && HeadWord(bs, k) + bs[k].size / WORD < |w|
    ensures Total(SplitAt(bs, k, n)) == Total(bs)
    ensures var w' := SplitWords(w, HeadWord(bs, k), bs[k].size, n);
      |w'| == |w| && w'[|w'| - 1] == END_MARK
  {
    Span(bs, k);
    SplitAfter(bs, k, n, |bs| + 1);
  }

  /** An exact fit writes only the chosen block's header and the header
      after it: no payload word of an allocated block changes. */
  lemma ExactKeepsPayloads(bs: seq<Block>, w: seq<int>, k: int)
    requires WellFormed(bs) && |w| == Total(bs) / WORD + 1 && 0 <= k < |bs| && !bs[k].alloc
    ensures 0 <= HeadWord(bs, k) && HeadWord(bs, k) + bs[k].size / WORD < |w|
    ensures PayloadKept(bs, w, ExactWords(w, HeadWord(bs, k), bs[k].size))
  {
    Span(bs, k);
    var w' := ExactWords(w, HeadWord(bs, k), bs[k].size);
    forall j, x | 0 <= j < |bs| && bs[j].alloc && 0 <= x < |w| && HeadWord(bs, j) < x <= FootWord(bs, j)
      ensures w'[x] == w[x]
    {
      Span(bs, j);
      if j < k {
        Apart(bs, j, k);
      } else {
        Apart(bs, k, j);
      }
    }
  }

  /** A split writes only inside the chosen free block: no word of an
      allocated block changes. */
  lemma SplitKeepsPayloads(bs: seq<Block>, w: seq<int>, k: int, n: int)
    requires WellFormed(bs) && |w| == Total(bs) / WORD + 1 && 0 <= k < |bs| && !bs[k].alloc
    requires n % QUANTUM == 0 && 0 < n < bs[k].size
    ensures 0 <= HeadWord(bs, k) && HeadWord(bs, k) + bs[k].size / WORD < |w|
    ensures AllocatedKept(bs, w, SplitWords(w, HeadWord(bs, k), bs[k].size, n))
  {
    Span(bs, k);
    var w' := SplitWords(w, HeadWord(bs, k), bs[k].size, n);
    forall j, x | 0 <= j < |bs| && bs[j].alloc && 0 <= x < |w| && HeadWord(bs, j) <= x <= FootWord(bs, j)
      ensures w'[x] == w[x]
    {
      Span(bs, j);
      if j < k {
        Apart(bs, j, k);
      } else {
        Apart(bs, k, j);
      }
    }
  }

  // ----- what placement does to the block list -----

  /** After a placement the chosen block is allocated, holds exactly the
      required n bytes at the same offset with its p-bit unchanged, the block
      after it (the remainder of a split, or the old successor) records an
      allocated predecessor, and the heap keeps its total size. */
  lemma DecidePlaces(bs: seq<Block>, n: int)
    requires WellFormed(bs) && n > 0 && n % QUANTUM == 0
    requires !Decide(bs, n).Refuse?
    ensures var d := Decide(bs, n); var bs' := Apply(bs, d);
      && d.k < |bs| && d.k < |bs'| && WellFormed(bs')
      && bs'[d.k] == Block(n, true, bs[d.k].prevAlloc)
      && Offset(bs', d.k) == Offset(bs, d.k)
      && Total(bs') == Total(bs)
      && (d.k + 1 < |bs'| ==> bs'[d.k + 1].prevAlloc)
      && (d.SplitFit? ==> |bs'| == |bs| + 1 && bs'[d.k + 1] == Block(bs[d.k].size - n, false, true))
      && (d.ExactFit? ==> |bs'| == |bs|)
  {
    DecideChoosesBestFit(bs, n);
    var d := Decide(bs, n);
    if d.ExactFit? {
      ExactAtShape(bs, d.k);
    } else {
      SplitAtShape(bs, d.k, n);
      SplitBefore(bs, d.k, n, d.k);
      SplitAfter(bs, d.k, n, |bs| + 1);
    }
  }

  // ----- the stale size left by the scan -----

  /** A replacement on the last block leaves the previously recorded block's
      size in smallest_block_size: the 16-byte request is split off the
      24-byte last block as if that block held 32 bytes, and the remainder's
      footer word would lie past the end mark. The corrected decision splits
      it into 16 and 8 bytes. */
  lemma StaleSizeOverrun()
    ensures var bs := [Block(32, false, true), Block(8, true, false), Block(24, false, true)];
      && WellFormed(bs)
      && DecideAsWritten(bs, 16) == SplitFit(2, 16, 16)
      && bs[2].size == 24
      && HeadWord(bs, 2) + 16 / WORD + 16 / WORD - 1 > Total(bs) / WORD
      && Decide(bs, 16) == SplitFit(2, 16, 8)
  {
    var bs := [Block(32, false, true), Block(8, true, false), Block(24, false, true)];
    assert ScanAll(bs, 16) == Search(true, 2, 32);
  }

  /** An exact fit found after a larger block was recorded: the scan stops
      with the larger block's size, so the exact 16-byte block is "split" and
      the remainder's header is written over the next block's header. The
      corrected decision is an exact fit. */
  lemma StaleSizeClobber()
    ensures var bs := [Block(32, false, true), Block(8, true, false), Block(16, false, true), Block(8, true, false)];
      && WellFormed(bs)
      && DecideAsWritten(bs, 16) == SplitFit(2, 16, 16)
      && bs[2].size == 16
      && HeadWord(bs, 2) + 16 / WORD == HeadWord(bs, 3)
      && Decide(bs, 16) == ExactFit(2)
  {
    var bs := [Block(32, false, true), Block(8, true, false), Block(16, false, true), Block(8, true, false)];
    assert ScanAll(bs, 16) == Search(true, 2, 32);
  }
}
