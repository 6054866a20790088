/** The allocator's state and its four operations: init_heap, balloc, bfree
    and coalesce, each rewriting the size_status words of the heap in place
    and proved against the block-level definitions. */
module P3Heap {
  import opened BlockModel
  import opened Allocator
  import opened Deallocator
  import opened Coalescer

  /** A whole number of pages, less the two words init_heap keeps back, is
      a positive multiple of 8 when the page size is a multiple of 8 above 8. */
  lemma PageMultiple(r: int, pageSize: int)
    requires pageSize > QUANTUM && pageSize % QUANTUM == 0 && r % pageSize == 0 && r > 0
    ensures (r - 2 * WORD) % QUANTUM == 0 && r - 2 * WORD >= QUANTUM
  {
    var c := r / pageSize;
    var e := pageSize / QUANTUM;
    assert r == pageSize * c;
    assert pageSize == QUANTUM * e;
    assert r == QUANTUM * (e * c);
    MulAtLeast(pageSize, c);
    assert r - 2 * WORD == QUANTUM * (e * c - 1);
    MultipleMod(QUANTUM, e * c - 1);
  }

  /** Adding the absorbed size to a free block's header gives the header of
      the merged block, whose pure size is the sum. */
  lemma MergedHeader(bs: seq<Block>, w: seq<int>, i: int)
    requires WellFormed(bs) && |w| == Total(bs) / WORD + 1 && |w| > 0 && w[|w| - 1] == END_MARK
    requires 0 <= i && i + 1 < |bs| && !bs[i].alloc && !bs[i + 1].alloc && HeaderAt(bs, w, i)
    ensures 0 <= HeadWord(bs, i) && HeadWord(bs, i) + (bs[i].size + bs[i + 1].size) / WORD < |w|
    ensures PureSize(w[HeadWord(bs, i)] + bs[i + 1].size) == bs[i].size + bs[i + 1].size
    ensures MergeAt(bs, i)[i].size == bs[i].size + bs[i + 1].size
  {
    var merged := Block(bs[i].size + bs[i + 1].size, false, bs[i].prevAlloc);
    MergeAtShape(bs, i);
    MergeEnd(bs, w, i);
    assert w[HeadWord(bs, i)] + bs[i + 1].size == Encode(merged);
    EncodeDecode(merged);
  }

  /** The words init_heap writes lay out one free block of `size` bytes
      whose predecessor counts as allocated. */
  lemma OneBlockLays(size: int, w: seq<int>)
    requires size >= QUANTUM && size % QUANTUM == 0 && |w| == size / WORD + 1
    requires w[0] == size + 2 && w[size / WORD - 1] == size && w[size / WORD] == END_MARK
    ensures Lays([Block(size, false, true)], w) && Total([Block(size, false, true)]) == size
  {
    var bs := [Block(size, false, true)];
    assert Total(bs) == size;
    assert HeaderAt(bs, w, 0);
    assert FooterAt(bs, w, 0);
  }

  /** The global state of the allocator: the words from heap_start through
      the end mark, alloc_size, and the one-shot flag of init_heap. The block
      list is the ghost reading of the words. */
  class Heap {
    var mem: array<int>
    var allocSize: int
    var initialised: bool
    ghost var blocks: seq<Block>

    /** Once initialised, the words lay out the blocks, which fill alloc_size bytes. */
    ghost predicate Valid()
      reads this, mem
    {
      initialised ==> Lays(blocks, mem[..]) && Total(blocks) == allocSize
    }

    /** The state before init_heap: no heap, alloc_size 0. */
    constructor ()
      ensures Valid() && !initialised && allocSize == 0 && fresh(mem)
    {
      mem := new int[0];
      allocSize := 0;
      initialised := false;
      blocks := [];
    }

    /** init_heap: refuses a second call and a non-positive size; rounds the
        size up to whole pages; on a successful mapping lays out one free
        block of alloc_size = rounded - 8 bytes, its footer, and the end mark.
        `mapped` stands for the outcome of opening /dev/zero and mmap, and
        `pageSize` for getpagesize(). */
    method InitHeap(sizeOfRegion: int, pageSize: int, mapped: bool) returns (r: int)
      requires Valid()
      requires pageSize > QUANTUM && pageSize % QUANTUM == 0
      modifies this
      ensures Valid()
      ensures r == 0 || r == -1
      ensures r == 0 <==> !old(initialised) && sizeOfRegion > 0 && mapped
      ensures r == 0 ==>
        && initialised && fresh(mem)
        && allocSize == RoundUp(sizeOfRegion, pageSize) - 2 * WORD
        && allocSize >= QUANTUM && allocSize % QUANTUM == 0
        && blocks == [Block(allocSize, false, true)]
        && mem.Length == allocSize / WORD + 1
        && mem[0] == allocSize + 2
        && mem[allocSize / WORD - 1] == allocSize
        && mem[allocSize / WORD] == END_MARK
        && (forall x :: 0 < x < allocSize / WORD - 1 ==> mem[x] == 0)
      ensures r == -1 ==> initialised == old(initialised) && mem == old(mem) && blocks == old(blocks)
      ensures r == -1 ==> allocSize == if old(initialised) || sizeOfRegion <= 0 then old(allocSize) else RoundUp(sizeOfRegion, pageSize)
    {
      if initialised {
        return -1;
      }
      if sizeOfRegion <= 0 {
        return -1;
      }
      var padsize := sizeOfRegion % pageSize;
      padsize := (pageSize - padsize) % pageSize;
      allocSize := sizeOfRegion + padsize;
      if !mapped {
        return -1;
      }
      RoundUpIsNextMultiple(sizeOfRegion, pageSize);
      assert allocSize == RoundUp(sizeOfRegion, pageSize);
      PageMultiple(allocSize, pageSize);
      initialised := true;
      allocSize := allocSize - 2 * WORD;
      mem := FreshRegion(allocSize);
      blocks := [Block(allocSize, false, true)];
      OneBlockLays(allocSize, mem[..]);
      return 0;
    }

    /** The words of a freshly mapped region of `size` bytes (zero, as
        /dev/zero gives them) once init_heap has written the header of the
        one free block (p-bit set), its footer and the end mark. */
    static method FreshRegion(size: int) returns (m: array<int>)
      requires size >= QUANTUM && size % QUANTUM == 0
      ensures fresh(m) && m.Length == size / WORD + 1
      ensures m[0] == size + 2 && m[size / WORD - 1] == size && m[size / WORD] == END_MARK
      ensures forall x :: 0 < x < size / WORD - 1 ==> m[x] == 0
    {
      var words := size / WORD;
      assert words >= 2;
      m := new int[words + 1](_ => 0);
      m[words] := END_MARK;
      m[0] := size;
      m[0] := m[0] + 2;
      m[words - 1] := size;
    }

    /** balloc's best-fit scan over the words, without changing them: the
        block found (as the word index of its header), whether one was found,
        and the value left in smallest_block_size, all as `Scan` says. */
    method FindBestFit(n: int) returns (found: bool, small: int, staleSize: int, ghost k: nat)
      requires Walkable(blocks, mem[..])
      ensures found == ScanAll(blocks, n).found && staleSize == ScanAll(blocks, n).staleSize
      ensures small == HeadWord(blocks, ScanAll(blocks, n).chosen)
      ensures k == ScanAll(blocks, n).chosen
    {
      var cur := 0;
      small := 0;
      found := false;
      staleSize := 0;
      ghost var i := 0;
      k := 0;
      assert Walked(blocks, mem[..], 0);
      while mem[cur] != END_MARK
        invariant 0 <= i <= |blocks| && k < |blocks|
        invariant cur == Offset(blocks, i) / WORD && 0 <= cur < mem.Length
        invariant small == HeadWord(blocks, k)
        invariant Scan(blocks, n, i, k, found, staleSize) == ScanAll(blocks, n)
        decreases |blocks| - i, if k == i then 0 else 1
      {
        assert Walked(blocks, mem[..], i);
        assert Walked(blocks, mem[..], i + 1);
        assert Walked(blocks, mem[..], k);
        var cs := PureSize(mem[cur]);
        staleSize := PureSize(mem[small]);
        if mem[cur] % 2 == 0 {
          if cs >= n {
            if mem[small] % 2 == 1 || n > staleSize {
              small := cur;
              k := i;
              continue;
            }
            if cs <= staleSize {
              if cs > n {
                small := cur;
                k := i;
                found := true;
              } else if cs == n {
                small := cur;
                k := i;
                found := true;
                break;
              }
            }
          } else {
            cur := cur + cs / WORD;
            i := i + 1;
            continue;
          }
        }
        cur := cur + cs / WORD;
        i := i + 1;
      }
      assert Walked(blocks, mem[..], i);
    }

    /** balloc: refuses a non-positive size and one beyond alloc_size, pads
        the size to a block size, and places the block. */
    method Balloc(size: int) returns (p: Ptr)
      requires Valid() && (initialised || size <= 0 || size > allocSize)
      modifies this, mem
      ensures Valid()
      ensures mem == old(mem) && allocSize == old(allocSize) && initialised == old(initialised)
      ensures var d := Request(old(blocks), allocSize, size);
        && blocks == Apply(old(blocks), d)
        && (d.Refuse? <==> p.Null?)
        && (d.Refuse? ==> mem[..] == old(mem[..]))
        && (!d.Refuse? ==> d.k < |old(blocks)| && p == Addr(Offset(old(blocks), d.k) + WORD))
        && (d.ExactFit? ==>
              && 0 <= HeadWord(old(blocks), d.k) && WORD <= old(blocks)[d.k].size
              && HeadWord(old(blocks), d.k) + old(blocks)[d.k].size / WORD < |old(mem[..])|
              && mem[..] == ExactWords(old(mem[..]), HeadWord(old(blocks), d.k), old(blocks)[d.k].size))
        && (d.SplitFit? ==>
              && 0 <= HeadWord(old(blocks), d.k)
              && HeadWord(old(blocks), d.k) + old(blocks)[d.k].size / WORD < |old(mem[..])|
              && RequiredSize(size) < old(blocks)[d.k].size && old(blocks)[d.k].size % QUANTUM == 0
              && mem[..] == SplitWords(old(mem[..]), HeadWord(old(blocks), d.k), old(blocks)[d.k].size, RequiredSize(size)))
      ensures PayloadKept(old(blocks), old(mem[..]), mem[..])
    {
      if size <= 0 {
        return Null;
      }
      if size > allocSize {
        return Null;
      }
      var n := PadToQuantum(size);
      p := Place(n);
    }

    /** The rest of balloc for a block size n: scan for the best fit, and take
        the chosen block whole when its size matches or split it otherwise,
        deciding from the chosen block's own size. Returns the payload
        address, one word past the header. */
    method Place(n: int) returns (p: Ptr)
      requires Valid() && initialised && n > 0 && n % QUANTUM == 0
      modifies this, mem
      ensures Valid()
      ensures mem == old(mem) && allocSize == old(allocSize) && initialised
      ensures var d := Decide(old(blocks), n);
        && blocks == Apply(old(blocks), d)
        && (d.Refuse? <==> p.Null?)
        && (d.Refuse? ==> mem[..] == old(mem[..]))
        && (!d.Refuse? ==> d.k < |old(blocks)| && p == Addr(Offset(old(blocks), d.k) + WORD))
        && (d.ExactFit? ==>
              && 0 <= HeadWord(old(blocks), d.k) && WORD <= old(blocks)[d.k].size
              && HeadWord(old(blocks), d.k) + old(blocks)[d.k].size / WORD < |old(mem[..])|
              && mem[..] == ExactWords(old(mem[..]), HeadWord(old(blocks), d.k), old(blocks)[d.k].size))
        && (d.SplitFit? ==>
              && 0 <= HeadWord(old(blocks), d.k)
              && HeadWord(old(blocks), d.k) + old(blocks)[d.k].size / WORD < |old(mem[..])|
              && n < old(blocks)[d.k].size && old(blocks)[d.k].size % QUANTUM == 0
              && mem[..] == SplitWords(old(mem[..]), HeadWord(old(blocks), d.k), old(blocks)[d.k].size, n))
      ensures PayloadKept(old(blocks), old(mem[..]), mem[..])
    {
      LaysWalkable(blocks, mem[..]);
      var found, small, staleSize, k := FindBestFit(n);
      DecideChoosesBestFit(blocks, n);
      if !found {
        return Null;
      }
      p := Commit(small, k, n);
    }

    /** The placement once the scan has chosen block k (its header at word
        `small`): exact fit when the block's own size is n, split otherwise. */
    method Commit(small: int, ghost k: nat, n: int) returns (p: Ptr)
      requires Valid() && initialised && n > 0 && n % QUANTUM == 0
      requires k < |blocks| && Fits(blocks[k], n) && small == HeadWord(blocks, k)
      modifies this, mem
      ensures Valid()
      ensures mem == old(mem) && allocSize == old(allocSize) && initialised
      ensures p == Addr(Offset(old(blocks), k) + WORD)
      ensures 0 <= small && WORD <= old(blocks)[k].size && small + old(blocks)[k].size / WORD < |old(mem[..])|
      ensures PayloadKept(old(blocks), old(mem[..]), mem[..])
      ensures old(blocks)[k].size == n ==>
        && blocks == ExactAt(old(blocks), k)
        && mem[..] == ExactWords(old(mem[..]), small, old(blocks)[k].size)
      ensures old(blocks)[k].size != n ==>
        && n < old(blocks)[k].size && old(blocks)[k].size % QUANTUM == 0
        && blocks == SplitAt(old(blocks), k, n)
        && mem[..] == SplitWords(old(mem[..]), small, old(blocks)[k].size, n)
    {
      Walk(blocks, mem[..], k);
      Span(blocks, k);
      var chosenSize := PureSize(mem[small]);
      if chosenSize == n {
        TakeWhole(k, small);
      } else {
        SplitOff(k, small, n);
      }
      p := Addr(small * WORD + WORD);
    }

    /** The exact-fit branch of balloc: set the block's a-bit, and the
        successor's p-bit unless the successor is the end mark. */
    method TakeWhole(ghost k: nat, small: int)
      requires Valid() && initialised && k < |blocks| && !blocks[k].alloc
      requires small == HeadWord(blocks, k)
      modifies this, mem
      ensures Valid()
      ensures mem == old(mem) && allocSize == old(allocSize) && initialised
      ensures 0 <= small && small + old(blocks)[k].size / WORD < |old(mem[..])|
      ensures blocks == ExactAt(old(blocks), k)
      ensures mem[..] == ExactWords(old(mem[..]), small, old(blocks)[k].size)
      ensures PayloadKept(old(blocks), old(mem[..]), mem[..])
    {
      ghost var w := mem[..];
      Walk(blocks, w, k);
      ExactKeepsLays(blocks, w, k);
      ExactKeepsPayloads(blocks, w, k);
      var size := PureSize(mem[small]);
      WriteExact(small, size);
      blocks := ExactAt(blocks, k);
    }

    /** The split branch of balloc: the chosen block keeps n bytes, its
        p-bit and gains the a-bit; the rest becomes a free block with the
        p-bit set and a footer holding its size. */
    method SplitOff(ghost k: nat, small: int, n: int)
      requires Valid() && initialised && k < |blocks| && !blocks[k].alloc
      requires small == HeadWord(blocks, k)
      requires n % QUANTUM == 0 && QUANTUM <= n < blocks[k].size
      modifies this, mem
      ensures Valid()
      ensures mem == old(mem) && allocSize == old(allocSize) && initialised
      ensures 0 <= small && small + old(blocks)[k].size / WORD < |old(mem[..])|
      ensures old(blocks)[k].size % QUANTUM == 0
      ensures blocks == SplitAt(old(blocks), k, n)
      ensures mem[..] == SplitWords(old(mem[..]), small, old(blocks)[k].size, n)
      ensures AllocatedKept(old(blocks), old(mem[..]), mem[..])
      ensures PayloadKept(old(blocks), old(mem[..]), mem[..])
    {
      ghost var w := mem[..];
      Walk(blocks, w, k);
      SplitKeepsLays(blocks, w, k, n);
      SplitKeepsPayloads(blocks, w, k, n);
      KeptKeepsPayloads(blocks, w, SplitWords(w, small, blocks[k].size, n));
      var size := PureSize(mem[small]);
      WriteSplit(small, size, n);
      blocks := SplitAt(blocks, k, n);
    }

    /** bfree: refuses NULL, a misaligned or out-of-range pointer, and a
        block already free; otherwise clears the a-bit, the successor's p-bit
        (unless the successor is the end mark), and writes the footer. */
    method Bfree(p: Ptr) returns (r: int)
      requires Valid() && (initialised || Rejected(allocSize, p))
      requires !Rejected(allocSize, p) ==> IsBlockStart(blocks, p.offset - WORD)
      modifies this, mem
      ensures Valid()
      ensures mem == old(mem) && allocSize == old(allocSize) && initialised == old(initialised)
      ensures r == 0 || r == -1
      ensures r == -1 <==>
        Rejected(allocSize, p) || !old(blocks)[BlockIndex(old(blocks), p.offset - WORD)].alloc
      ensures r == -1 ==> blocks == old(blocks) && mem[..] == old(mem[..])
      ensures r == 0 ==>
        var k := BlockIndex(old(blocks), p.offset - WORD);
        && blocks == FreeAt(old(blocks), k)
        && 0 <= HeadWord(old(blocks), k) && WORD <= old(blocks)[k].size
        && HeadWord(old(blocks), k) + old(blocks)[k].size / WORD < |old(mem[..])|
        && mem[..] == FreeWords(old(mem[..]), HeadWord(old(blocks), k), old(blocks)[k].size)
    {
      if p.Null? {
        return -1;
      }
      var h := p.offset - WORD;
      if h % QUANTUM != 0 {
        return -1;
      }
      if h < 0 || h >= (allocSize / WORD) * WORD {
        return -1;
      }
      ghost var k := BlockIndex(blocks, h);
      Walk(blocks, mem[..], k);
      var hw := h / WORD;
      if mem[hw] % 2 == 0 {
        return -1;
      }
      Release(k, hw);
      return 0;
    }

    /** The releasing part of bfree: clear the a-bit, clear the successor's
        p-bit unless it is the end mark, and write the footer. */
    method Release(ghost k: nat, hw: int)
      requires Valid() && initialised && k < |blocks| && blocks[k].alloc
      requires hw == HeadWord(blocks, k)
      modifies this, mem
      ensures Valid()
      ensures mem == old(mem) && allocSize == old(allocSize) && initialised
      ensures 0 <= hw && WORD <= old(blocks)[k].size && hw + old(blocks)[k].size / WORD < |old(mem[..])|
      ensures blocks == FreeAt(old(blocks), k)
      ensures mem[..] == FreeWords(old(mem[..]), hw, old(blocks)[k].size)
    {
      ghost var w := mem[..];
      Walk(blocks, w, k);
      FreeKeepsLays(blocks, w, k);
      var ptrSize := PureSize(mem[hw]);
      WriteFree(hw, ptrSize);
      blocks := FreeAt(blocks, k);
    }

    /** coalesce: one forward pass that merges a free block with a free
        successor and looks at the grown block again, or steps on; returns
        the number of merges. Each merge also writes the merged footer. */
    method Coalesce() returns (coalesced: int)
      requires Valid() && initialised
      modifies this, mem
      ensures Valid()
      ensures mem == old(mem) && allocSize == old(allocSize) && initialised
      ensures blocks == Pass(old(blocks), 0)
      ensures coalesced == |old(blocks)| - |blocks|
      ensures NoAdjacentFree(blocks)
      ensures coalesced == 0 <==> NoAdjacentFree(old(blocks))
      ensures AllocatedKept(blocks, old(mem[..]), mem[..])
      ensures AllocatedKept(old(blocks), old(mem[..]), mem[..])
    {
      ghost var bs, w := blocks, mem[..];
      coalesced := Sweep();
      PassCoalesces(bs, 0);
      NoMergeIffSettled(bs);
      PassFrame(bs, w, mem[..]);
    }

    /** The loop of coalesce: walk the blocks from heap_start to the end
        mark, merging as the pass does and counting the merges; only words
        inside free blocks are written. */
    method Sweep() returns (coalesced: int)
      requires Valid() && initialised
      modifies this, mem
      ensures Valid()
      ensures mem == old(mem) && allocSize == old(allocSize) && initialised
      ensures blocks == Pass(old(blocks), 0)
      ensures coalesced == |old(blocks)| - |blocks|
      ensures AllocatedKept(blocks, old(mem[..]), mem[..])
    {
      ghost var w0 := mem[..];
      ghost var i := 0;
      Walk(blocks, mem[..], 0);
      var cur := 0;
      var cs := PureSize(mem[cur]);
      var next := cur + cs / WORD;
      Walk(blocks, mem[..], 1);
      var ns := PureSize(mem[next]);
      coalesced := 0;
      while mem[next] != END_MARK
        invariant At(i, cur, cs, next, ns)
        invariant mem == old(mem) && allocSize == old(allocSize)
        invariant Pass(blocks, i) == Pass(old(blocks), 0)
        invariant coalesced == |old(blocks)| - |blocks|
        invariant AllocatedKept(blocks, w0, mem[..])
        decreases |blocks| - i
      {
        ghost var bs, w, i0 := blocks, mem[..], i;
        var merged;
        cur, cs, next, ns, merged, i := Step(cur, cs, next, ns, i);
        if merged {
          MergeKeepsAllocated(bs, w0, w, i0);
          coalesced := coalesced + 1;
        }
      }
      Walk(blocks, mem[..], i + 1);
    }

    /** Where coalesce's walk stands: `cur` is the header word of block i,
        of `cs` bytes, and `next` that of its successor (or the end mark),
        of `ns` bytes. */
    ghost predicate At(i: nat, cur: int, cs: int, next: int, ns: int)
      reads this, mem
    {
      && Valid() && initialised && i < |blocks|
      && cur == Offset(blocks, i) / WORD && cs == blocks[i].size
      && next == Offset(blocks, i + 1) / WORD && 0 <= next < mem.Length
      && (i + 1 < |blocks| ==> ns == blocks[i + 1].size)
    }

    /** One step of coalesce's walk: a free block followed by a free block
        absorbs it and the walk stays put; otherwise the walk moves on. */
    method Step(cur: int, cs: int, next: int, ns: int, ghost i: nat)
      returns (cur': int, cs': int, next': int, ns': int, merged: bool, ghost i': nat)
      requires At(i, cur, cs, next, ns) && mem[next] != END_MARK
      modifies this, mem
      ensures At(i', cur', cs', next', ns')
      ensures mem == old(mem) && allocSize == old(allocSize)
      ensures i + 1 < |old(blocks)|
      ensures merged <==> !old(blocks)[i].alloc && !old(blocks)[i + 1].alloc
      ensures merged ==> i' == i && blocks == MergeAt(old(blocks), i)
      ensures !merged ==> i' == i + 1 && blocks == old(blocks) && mem[..] == old(mem[..])
      ensures merged ==>
        && 0 <= cur && WORD <= old(blocks)[i].size + old(blocks)[i + 1].size
        && cur + (old(blocks)[i].size + old(blocks)[i + 1].size) / WORD <= |old(mem[..])|
        && mem[..] == MergeWords(old(mem[..]), cur, old(blocks)[i].size, old(blocks)[i + 1].size)
      ensures Pass(blocks, i') == Pass(old(blocks), i)
    {
      Walk(blocks, mem[..], i);
      Walk(blocks, mem[..], i + 1);
      if mem[next] % 2 == 0 && mem[cur] % 2 == 0 {
        cur' := cur;
        cs', next', ns' := StepMerge(cur, ns, i);
        merged := true;
        i' := i;
      } else {
        cur' := next;
        cs', next', ns' := StepOver(next, i);
        merged := false;
        i' := i + 1;
      }
    }

    /** The walk absorbs the free successor of free block i and reads the
        merged block's new successor. */
    method StepMerge(cur: int, ns: int, ghost i: nat) returns (cs': int, next': int, ns': int)
      requires Valid() && initialised && i + 1 < |blocks| && !blocks[i].alloc && !blocks[i + 1].alloc
      requires cur == HeadWord(blocks, i) && ns == blocks[i + 1].size
      modifies this, mem
      ensures At(i, cur, cs', next', ns')
      ensures mem == old(mem) && allocSize == old(allocSize)
      ensures blocks == MergeAt(old(blocks), i)
      ensures 0 <= cur && WORD <= old(blocks)[i].size + ns && cur + (old(blocks)[i].size + ns) / WORD <= |old(mem[..])|
      ensures mem[..] == MergeWords(old(mem[..]), cur, old(blocks)[i].size, ns)
    {
      cs' := MergeNext(cur, ns, i);
      next' := cur + cs' / WORD;
      Walk(blocks, mem[..], i);
      Walk(blocks, mem[..], i + 1);
      ns' := PureSize(mem[next']);
    }

    /** The walk moves from block i to its successor at word `next`. */
    method StepOver(next: int, ghost i: nat) returns (cs': int, next': int, ns': int)
      requires Valid() && initialised && i + 1 < |blocks|
      requires next == Offset(blocks, i + 1) / WORD
      ensures At(i + 1, next, cs', next', ns')
    {
      Walk(blocks, mem[..], i + 1);
      cs' := PureSize(mem[next]);
      next' := next + cs' / WORD;
      Walk(blocks, mem[..], i + 2);
      ns' := PureSize(mem[next']);
    }

    /** One merge of coalesce: the free block at word `cur` absorbs its free
        successor of `ns` bytes; the header gains the absorbed size and keeps
        its p-bit, and the merged footer is written. Returns the merged size. */
    method MergeNext(cur: int, ns: int, ghost i: nat) returns (cs: int)
      requires Valid() && initialised && i + 1 < |blocks| && !blocks[i].alloc && !blocks[i + 1].alloc
      requires cur == HeadWord(blocks, i) && ns == blocks[i + 1].size
      modifies this, mem
      ensures Valid()
      ensures mem == old(mem) && allocSize == old(allocSize) && initialised
      ensures blocks == MergeAt(old(blocks), i) && cs == blocks[i].size && cur == HeadWord(blocks, i)
      ensures 0 <= cur && WORD <= old(blocks)[i].size + ns && cur + (old(blocks)[i].size + ns) / WORD <= |old(mem[..])|
      ensures mem[..] == MergeWords(old(mem[..]), cur, old(blocks)[i].size, ns)
    {
      ghost var bs := blocks;
      ghost var w := mem[..];
      ghost var merged := MergeAt(bs, i);
      assert HeaderAt(bs, w, i);
      MergedHeader(bs, w, i);
      cs := WriteMerge(cur, ns, bs[i].size);
      MergeKeepsLays(bs, w, i);
      MergeBefore(bs, i, i);
      blocks := merged;
    }

    /** The word writes of one merge: add the absorbed size to the header,
        read the merged size back, and write it to the merged footer (the
        write the source leaves out). */
    method WriteMerge(cur: int, ns: int, ghost s1: int) returns (cs: int)
      requires 0 <= cur < mem.Length && WORD <= s1 + ns && cur + (s1 + ns) / WORD <= mem.Length
      requires PureSize(mem[cur] + ns) == s1 + ns
      modifies mem
      ensures cs == s1 + ns
      ensures mem[..] == MergeWords(old(mem[..]), cur, s1, ns)
    {
      mem[cur] := mem[cur] + ns;
      cs := PureSize(mem[cur]);
      mem[cur + cs / WORD - 1] := cs;
    }
 
    /** The word writes of an exact fit of the `size`-byte block at header
        word h: set its a-bit, and the successor's p-bit unless the successor
        is the end mark. */
    method WriteExact(h: int, size: int)
      requires 0 <= h && WORD <= size && h + size / WORD < mem.Length
      modifies mem
      ensures mem[..] == ExactWords(old(mem[..]), h, size)
    {
      mem[h] := mem[h] + 1;
      var next := h + size / WORD;
      if mem[next] != END_MARK {
        mem[next] := mem[next] + 2;
      }
    }

    /** The word writes of a split of the `size`-byte block at header word h:
        its header becomes n with the a-bit and its old p-bit, and the free
        remainder gets a header with the p-bit set and a footer. */
    method WriteSplit(h: int, size: int, n: int)
      requires n % QUANTUM == 0 && size % QUANTUM == 0 && 0 < n < size
      requires 0 <= h && h + size / WORD <= mem.Length
      modifies mem
      ensures mem[..] == SplitWords(old(mem[..]), h, size, n)
    {
      var freeSize := size - n;
      if mem[h] % 4 >= 2 {
        mem[h] := n + 3;
      } else {
        mem[h] := n + 1;
      }
      var next := h + n / WORD;
      mem[next] := freeSize + 2;
      mem[next + freeSize / WORD - 1] := freeSize;
    }

    /** The word writes of bfree for the `size`-byte block at header word h:
        clear its a-bit, clear the successor's p-bit unless the successor is
        the end mark, and write the footer. */
    method WriteFree(h: int, size: int)
      requires 0 <= h && WORD <= size && h + size / WORD < mem.Length
      modifies mem
      ensures mem[..] == FreeWords(old(mem[..]), h, size)
    {
      mem[h] := mem[h] - 1;
      var next := h + size / WORD;
      if mem[next] != END_MARK {
        mem[next] := mem[next] - 2;
      }
      mem[next - 1] := size;
    }
  }
}
