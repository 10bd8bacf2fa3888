/** The allocator itself: the globals `heap_start`, `alloc_size`, `heap_end`
    and init_heap's `allocated_once` as the fields of one heap object, the
    mapped region as an array of 4-byte words, and alloc, free_block and
    init_heap as methods that change those words in place.

    Addresses are byte offsets from the start of the mapped region, which is
    page aligned, so an address is a multiple of 8 exactly when its offset
    is. Word `k` of the array is the 4 bytes at offset `4 * k`. */
module Allocator {
  import opened BlockHeader
  import opened HeapLayout
  import opened Policy
  import opened Steps
  import opened Words
  import opened Options

  /** A pointer handed to or returned by the allocator. */
  datatype Pointer = Null | Addr(offset: int)

  /** The size init_heap maps: the region size rounded up to whole pages. */
  function PageRound(sizeOfRegion: int, pageSize: int): (r: int)
    requires sizeOfRegion > 0 && pageSize > 0
    ensures r % pageSize == 0 && sizeOfRegion <= r < sizeOfRegion + pageSize
  {
    var padSize := sizeOfRegion % pageSize;
    var padSize' := (pageSize - padSize) % pageSize;
    if padSize == 0 then
      ModUnique(pageSize, pageSize, 1, 0);
      sizeOfRegion + padSize'
    else
      ModUnique(pageSize - padSize, pageSize, 0, pageSize - padSize);
      ModUnique(sizeOfRegion + padSize', pageSize, sizeOfRegion / pageSize + 1, 0);
      sizeOfRegion + padSize'
  }

  lemma MulNonNegative(x: int, y: int)
    requires x >= 0 && y >= 0
    ensures x * y >= 0
  {
  }

  /** The remainder of `ps * a + b` by `ps` is `b` when `0 <= b < ps`. */
  lemma ModUnique(y: int, ps: int, a: int, b: int)
    requires ps > 0 && y == ps * a + b && 0 <= b < ps
    ensures y % ps == b
  {
    var e := a - y / ps;
    assert ps * e == y % ps - b;
    if e >= 1 {
      MulNonNegative(ps, e - 1);
    }
  }

  /** `ptr` is the payload address of block `j` of a heap whose first header
      is at `start`. */
  ghost predicate IsPayloadOf(start: int, bs: seq<Block>, ptr: Pointer, j: int)
  {
    ptr.Addr? && 0 <= j < |bs| && HeaderAt(start, bs, j) == ptr.offset - 4
  }

  /** A payload address is a multiple of 8 strictly inside the heap: the
      first three checks of free_block never reject one. */
  lemma PayloadInHeap(m: seq<int>, start: int, end: int, bs: seq<Block>, ptr: Pointer)
    requires Layout(m, start, end, bs)
    ensures forall j :: IsPayloadOf(start, bs, ptr, j) ==> ptr.offset % 8 == 0 && start < ptr.offset < end
  {
    forall j | IsPayloadOf(start, bs, ptr, j)
      ensures ptr.offset % 8 == 0 && start < ptr.offset < end
    {
      HeaderFacts(m, start, end, bs, j);
      PayloadAligned(HeaderAt(start, bs, j), ptr.offset);
    }
  }

  /** A payload address belongs to one block only. */
  lemma PayloadUnique(m: seq<int>, start: int, end: int, bs: seq<Block>, ptr: Pointer, j: int, k: int)
    requires Layout(m, start, end, bs)
    requires IsPayloadOf(start, bs, ptr, j) && IsPayloadOf(start, bs, ptr, k)
    ensures j == k
  {
    if j < k {
      HeaderFacts(m, start, end, bs, j);
      HeadersIncrease(m, start, end, bs, j, k);
    } else if k < j {
      HeaderFacts(m, start, end, bs, k);
      HeadersIncrease(m, start, end, bs, k, j);
    }
  }

  /** Where the scan of alloc stands after `i` blocks: at a header other
      than the end mark, or at the end mark once every block was seen. */
  lemma NextHeaderFacts(m: seq<int>, start: int, end: int, bs: seq<Block>, i: int)
    requires Layout(m, start, end, bs) && 0 <= i <= |bs|
    ensures 0 <= start <= HeaderAt(start, bs, i) <= end
    ensures i == |bs| ==> HeaderAt(start, bs, i) == end
    ensures i < |bs| ==> HeaderAt(start, bs, i) < end && m[HeaderAt(start, bs, i) / 4] != EndMark
  {
    HeaderFacts(m, start, end, bs, i);
    if i < |bs| {
      HeaderIsNotEndMark(bs[i]);
    }
  }

  /** What alloc's scan can walk: a laid-out heap, or the empty region
      before init_heap, where `heap_start` and `heap_end` are both NULL. */
  ghost predicate Walkable(m: seq<int>, start: int, end: int, bs: seq<Block>)
  {
    Layout(m, start, end, bs) || (bs == [] && 0 <= start == end)
  }

  /** What the scan of alloc finds after `i` blocks: the header of block
      `i`, which is not the end mark and decodes to that block's size and
      a-bit, or the end of the heap once every block was seen. */
  lemma ScanAt(m: seq<int>, start: int, end: int, bs: seq<Block>, i: int)
    requires Walkable(m, start, end, bs) && 0 <= i <= |bs|
    ensures var h := HeaderAt(start, bs, i);
      && 0 <= start <= h <= end
      && (i == |bs| ==> h == end)
      && (i < |bs| ==>
            && h < end && 0 <= h / 4 < |m| && m[h / 4] != EndMark
            && SizeOf(m[h / 4]) == bs[i].size && ABit(m[h / 4]) == bs[i].used
            && ValidSize(bs[i].size) && HeaderAt(start, bs, i + 1) == h + bs[i].size)
  {
    if bs != [] {
      NextHeaderFacts(m, start, end, bs, i);
      if i < |bs| {
        HeaderFacts(m, start, end, bs, i);
        PackRoundTrip(bs[i]);
      }
    }
  }

  /** The words init_heap writes lay out one free block over the whole heap. */
  lemma InitialLayout(m: seq<int>, allocSize: int)
    requires ValidSize(allocSize) && |m| == (allocSize + 8) / 4
    requires m[1] == allocSize + 2 && m[allocSize / 4] == allocSize && m[(allocSize + 4) / 4] == EndMark
    ensures Layout(m, 4, 4 + allocSize, [Block(allocSize, false, true)])
    ensures Consistent([Block(allocSize, false, true)])
  {
    var b := Block(allocSize, false, true);
    assert [b][1..] == [];
    assert Tiled(m, [b], 4, 4 + allocSize);
  }

  /** The words init_heap writes: the header is word 1, the footer word
      `allocSize / 4` and the end mark the word after it, the last one. */
  lemma InitOffsets(allocSize: int)
    requires ValidSize(allocSize)
    ensures (4 + allocSize) / 4 == allocSize / 4 + 1 == (allocSize + 8) / 4 - 1
    ensures (4 + allocSize - 4) / 4 == allocSize / 4 >= 2
  {
    var a := allocSize / 8;
    assert allocSize == 8 * a && a >= 1;
    Quarter(allocSize, 2 * a, 0);
    Quarter(4 + allocSize, 2 * a + 1, 0);
    Quarter(allocSize + 8, 2 * a + 2, 0);
  }

  /** A whole number of pages of a size divisible by 8 is divisible by 8. */
  lemma PageMultiple(r: int, pageSize: int)
    requires pageSize >= 16 && pageSize % 8 == 0 && r > 0 && r % pageSize == 0
    ensures r % 8 == 0 && r >= 16
  {
    var q, k := r / pageSize, pageSize / 8;
    assert r == pageSize * q;
    if q < 1 {
      MulNonNegative(pageSize, -q);
    }
    MulNonNegative(pageSize, q - 1);
    assert r == 8 * (k * q);
    ModUnique(r, 8, k * q, 0);
  }

  class Heap {
    /** The mapped region, one entry per 4-byte word. */
    var mem: array<int>
    /** init_heap's `allocated_once`. */
    var allocatedOnce: bool
    /** `heap_start`, as an offset: 0 (NULL) before init_heap, then 4. */
    var heapStart: int
    /** `alloc_size`: the bytes from the first header to the end mark. */
    var allocSize: int
    /** `heap_end`, as an offset; alloc and free_block recompute it. */
    var heapEnd: int
    /** The blocks of the heap, first to last. */
    ghost var blocks: seq<Block>

    /** Before init_heap the globals are zero and there are no blocks; after
        it, the region holds the headers and footers of `blocks` from offset
        4 up to an end mark at `4 + alloc_size`, the last word mapped, and
        the block list keeps the allocator's invariants. */
    ghost predicate Valid()
      reads this`allocatedOnce, this`heapStart, this`allocSize, this`mem, this`blocks, mem
    {
      if allocatedOnce then
        && heapStart == 4 && ValidSize(allocSize)
        && mem.Length == (allocSize + 8) / 4
        && Layout(mem[..], heapStart, heapStart + allocSize, blocks)
        && Consistent(blocks)
      else
        heapStart == 0 && allocSize == 0 && blocks == []
    }

    /** The state of the globals when the program starts. */
    constructor ()
      ensures Valid() && !allocatedOnce && heapEnd == 0 && blocks == [] && fresh(mem)
    {
      mem := new int[0];
      allocatedOnce := false;
      heapStart := 0;
      allocSize := 0;
      heapEnd := 0;
      blocks := [];
    }

    /** init_heap: fails when called a second time or with a size that is
        not positive; otherwise maps the region rounded up to whole pages,
        zero filled, and lays it out as one free block (p-bit set) with its
        footer, followed by the end mark. */
    method InitHeap(sizeOfRegion: int, pageSize: int) returns (r: int)
      requires Valid()
      requires pageSize >= 16 && pageSize % 8 == 0
      modifies this
      ensures Valid()
      ensures old(allocatedOnce) || sizeOfRegion <= 0 ==> r == -1 && unchanged(this)
      ensures !old(allocatedOnce) && sizeOfRegion > 0 ==>
        && r == 0 && allocatedOnce && fresh(mem)
        && heapStart == 4 && allocSize == PageRound(sizeOfRegion, pageSize) - 8
        && blocks == [Block(allocSize, false, true)]
        && heapEnd == old(heapEnd)
        && mem.Length == allocSize / 4 + 2
        && mem[1] == allocSize + 2 && mem[allocSize / 4] == allocSize && mem[allocSize / 4 + 1] == EndMark
        && forall k :: 0 <= k < mem.Length && k != 1 && k != allocSize / 4 && k != allocSize / 4 + 1 ==> mem[k] == 0
    {
      if allocatedOnce {
        return -1;
      }
      if sizeOfRegion <= 0 {
        return -1;
      }
      var padSize := sizeOfRegion % pageSize;
      padSize := (pageSize - padSize) % pageSize;
      var regionSize := sizeOfRegion + padSize;
      assert regionSize == PageRound(sizeOfRegion, pageSize);
      PageMultiple(regionSize, pageSize);
      MapRegion(regionSize);
      return 0;
    }

    /** The successful part of init_heap for a region of `regionSize`
        bytes: map it zero filled, keep 8 bytes back for the alignment word
        and the end mark, and lay out the heap 4 bytes into the region. */
    method MapRegion(regionSize: int)
      requires regionSize % 8 == 0 && regionSize >= 16
      modifies this
      ensures Valid() && allocatedOnce && fresh(mem)
      ensures heapStart == 4 && allocSize == regionSize - 8 && heapEnd == old(heapEnd)
      ensures blocks == [Block(allocSize, false, true)]
      ensures mem.Length == allocSize / 4 + 2
      ensures mem[1] == allocSize + 2 && mem[allocSize / 4] == allocSize && mem[allocSize / 4 + 1] == EndMark
      ensures forall k :: 0 <= k < mem.Length && k != 1 && k != allocSize / 4 && k != allocSize / 4 + 1 ==> mem[k] == 0
    {
      mem := new int[regionSize / 4](_ => 0);
      allocatedOnce := true;
      allocSize := regionSize - 8;
      heapStart := 4;
      blocks := [Block(allocSize, false, true)];
      FormatRegion();
    }

    /** The writes of init_heap into the freshly mapped, zero-filled
        region: the header of one free block over the whole heap (p-bit
        set, as if a block before it were allocated), its footer, and the
        end mark in the last word. */
    method FormatRegion()
      requires heapStart == 4 && ValidSize(allocSize) && mem.Length == (allocSize + 8) / 4
      requires forall k :: 0 <= k < mem.Length ==> mem[k] == 0
      modifies mem
      ensures Layout(mem[..], heapStart, heapStart + allocSize, [Block(allocSize, false, true)])
      ensures Consistent([Block(allocSize, false, true)])
      ensures mem.Length == allocSize / 4 + 2
      ensures mem[1] == allocSize + 2 && mem[allocSize / 4] == allocSize && mem[allocSize / 4 + 1] == EndMark
      ensures forall k :: 0 <= k < mem.Length && k != 1 && k != allocSize / 4 && k != allocSize / 4 + 1 ==> mem[k] == 0
    {
      InitOffsets(allocSize);
      mem[(heapStart + allocSize) / 4] := EndMark;
      mem[heapStart / 4] := allocSize;
      mem[heapStart / 4] := mem[heapStart / 4] + 2;
      mem[(heapStart + allocSize - 4) / 4] := allocSize;
      InitialLayout(mem[..], allocSize);
    }

    /** alloc: NULL for a request below 1 byte; otherwise the block size is
        the request plus the header rounded up to 8, the best-fitting free
        block is taken (the first exact fit ends the scan), a larger block
        is split, and the payload address is returned; NULL with nothing
        changed when no free block is large enough. */
    method Alloc(size: int) returns (p: Pointer)
      requires Valid()
      modifies this, mem
      ensures Valid()
      ensures mem == old(mem) && allocatedOnce == old(allocatedOnce)
      ensures heapStart == old(heapStart) && allocSize == old(allocSize)
      ensures size < 1 ==> p == Null && heapEnd == old(heapEnd) && blocks == old(blocks) && mem[..] == old(mem[..])
      ensures size >= 1 ==> heapEnd == heapStart + allocSize
      ensures size >= 1 && BestFit(old(blocks), EffectiveSize(size)).None? ==>
        p == Null && blocks == old(blocks) && mem[..] == old(mem[..])
      ensures size >= 1 && BestFit(old(blocks), EffectiveSize(size)).Some? ==>
        var i := BestFit(old(blocks), EffectiveSize(size)).value;
        && p == Addr(HeaderAt(heapStart, old(blocks), i) + 4)
        && blocks == Place(old(blocks), i, EffectiveSize(size))
        && UnchangedExcept(old(mem[..]), mem[..], AllocWrites(heapStart, old(blocks), i, EffectiveSize(size)))
      ensures p.Addr? ==> p.offset % 8 == 0 && heapStart < p.offset < heapStart + allocSize
    {
      if size < 1 {
        return Null;
      }
      var eff := RoundUp8(size + 4);
      heapEnd := heapStart + allocSize;
      p := FitRequest(eff);
    }

    /** The search and placement of alloc for block size `eff`, once
        heap_end is set: the best-fitting free block is taken whole or
        split, and the payload address returned; NULL with nothing changed
        when no free block is large enough. */
    method FitRequest(eff: int) returns (p: Pointer)
      requires Valid() && heapEnd == heapStart + allocSize && ValidSize(eff)
      modifies this`blocks, mem
      ensures Valid()
      ensures BestFit(old(blocks), eff).None? ==> p == Null && blocks == old(blocks) && mem[..] == old(mem[..])
      ensures BestFit(old(blocks), eff).Some? ==>
        var i := BestFit(old(blocks), eff).value;
        && p == Addr(HeaderAt(heapStart, old(blocks), i) + 4)
        && blocks == Place(old(blocks), i, eff)
        && UnchangedExcept(old(mem[..]), mem[..], AllocWrites(heapStart, old(blocks), i, eff))
      ensures p.Addr? ==> p.offset % 8 == 0 && heapStart < p.offset < heapEnd
    {
      ghost var bs, m := blocks, mem[..];
      var bestFit, exact, i := Scan(eff, m, bs);
      assert bestFit.Addr? ==> allocatedOnce && 0 <= i < |bs|;
      if exact {
        blocks := Place(bs, i, eff);
        TakeExactFit(bestFit.offset, bestFit.offset + eff, m, bs, i);
        return Addr(bestFit.offset + 4);
      }
      if bestFit.Addr? {
        blocks := Place(bs, i, eff);
        SplitBlock(bestFit.offset, eff, m, bs, i);
        return Addr(bestFit.offset + 4);
      }
      return Null;
    }

    /** The best-fit scan of alloc for block size `eff`: walks the headers
        from heap_start up to the end mark and stops at the first free block
        of exactly `eff` bytes (`exact`); otherwise `bestFit` is the header
        of the smallest free block larger than `eff`, the first among equals,
        or NULL when no free block is large enough. It changes nothing. */
    method Scan(eff: int, ghost m: seq<int>, ghost bs: seq<Block>) returns (bestFit: Pointer, exact: bool, ghost idx: int)
      requires mem[..] == m && ValidSize(eff)
      requires Walkable(m, heapStart, heapEnd, bs)
      ensures bestFit.Null? <==> BestFit(bs, eff).None?
      ensures bestFit.Null? ==> !exact
      ensures bestFit.Addr? ==>
        && BestFit(bs, eff) == Some(idx)
        && bestFit.offset == HeaderAt(heapStart, bs, idx)
        && (exact <==> bs[idx].size == eff)
    {
      var current := heapStart;
      bestFit := Null;
      var bestSize := 0;
      exact, idx := false, 0;
      ghost var i := 0;
      ghost var best: Option<nat> := None;
      ScanAt(m, heapStart, heapEnd, bs, 0);
      while current < heapEnd && mem[current / 4] != EndMark
        invariant 0 <= i <= |bs| && current == HeaderAt(heapStart, bs, i) && 0 <= current <= heapEnd
        invariant i == |bs| ==> current == heapEnd
        invariant i < |bs| ==> current < heapEnd && current / 4 < |m| && mem[current / 4] != EndMark
        invariant best == BestFit(bs[..i], eff)
        invariant bestFit.Null? <==> best.None?
        invariant bestFit.Addr? ==>
          && 0 <= idx < i && best == Some(idx)
          && bestFit.offset == HeaderAt(heapStart, bs, idx) && bestSize == bs[idx].size != eff
        decreases |bs| - i
      {
        ScanAt(m, heapStart, heapEnd, bs, i);
        BestFitExtend(bs, eff, i);
        ghost var nextBest := BestFit(bs[..i + 1], eff);
        var blockSize := SizeOf(mem[current / 4]);
        var nextHeader := current + blockSize;
        if blockSize < eff {
          current := nextHeader;
          i, best := i + 1, nextBest;
          ScanAt(m, heapStart, heapEnd, bs, i);
          continue;
        }
        if !ABit(mem[current / 4]) {
          if blockSize == eff {
            ExactFitStaysBest(bs, eff, i + 1, i);
            bestFit, exact, idx := Addr(current), true, i;
            return;
          } else if bestFit.Null? || blockSize < bestSize {
            bestSize := blockSize;
            bestFit := Addr(current);
            idx := i;
          }
        }
        current := nextHeader;
        i, best := i + 1, nextBest;
        ScanAt(m, heapStart, heapEnd, bs, i);
      }
      assert bs[..i] == bs;
    }

    /** The exact-fit branch of alloc: the free block at `current`, of
        exactly the block size asked for, gets its a-bit, and the header at
        `nextHeader` gets its p-bit unless it is the end mark. */
    method TakeExactFit(current: int, nextHeader: int, ghost m: seq<int>, ghost bs: seq<Block>, ghost i: int)
      requires mem[..] == m && Layout(m, heapStart, heapEnd, bs) && Consistent(bs)
      requires 0 <= i < |bs| && !bs[i].used
      requires current == HeaderAt(heapStart, bs, i) && nextHeader == current + bs[i].size
      modifies mem
      ensures Layout(mem[..], heapStart, heapEnd, Place(bs, i, bs[i].size))
      ensures Consistent(Place(bs, i, bs[i].size))
      ensures UnchangedExcept(m, mem[..], AllocWrites(heapStart, bs, i, bs[i].size))
      ensures (current + 4) % 8 == 0 && heapStart < current + 4 < heapEnd
    {
      ghost var start, end := heapStart, heapEnd;
      ExactFitWords(m, start, end, bs, i);
      ExactFitWrites(current, nextHeader, m, Pack(bs[i].(used := true)),
                     if i + 1 < |bs| then Pack(bs[i + 1].(prevUsed := true)) else 0, i + 1 < |bs|);
      ExactFitResult(m, mem[..], start, end, bs, i);
    }

    /** The writes of the exact-fit branch: the header at `current` gains
        its a-bit, and the word at `nextHeader` its p-bit unless it is the
        end mark or already has it. */
    method ExactFitWrites(current: int, nextHeader: int, ghost m: seq<int>, ghost hdr: int, ghost next: int,
                          ghost hasNext: bool)
      requires mem[..] == m && ExactReads(m, current, nextHeader, heapEnd, hdr, next, hasNext)
      modifies mem
      ensures mem[..] == if hasNext then m[current / 4 := hdr][nextHeader / 4 := next] else m[current / 4 := hdr]
    {
      mem[current / 4] := mem[current / 4] + 1;
      if nextHeader < heapEnd && PBitMask(mem[nextHeader / 4]) == 0 {
        mem[nextHeader / 4] := mem[nextHeader / 4] + 2;
      }
    }

    /** The split at the end of alloc: the best fit at `h`, larger than the
        block size `eff`, becomes an allocated block of size `eff` that
        keeps its p-bit, followed by a free remainder with the same p-bit
        and a footer. */
    method SplitBlock(h: int, eff: int, ghost m: seq<int>, ghost bs: seq<Block>, ghost i: int)
      requires mem[..] == m && Layout(m, heapStart, heapEnd, bs) && Consistent(bs)
      requires 0 <= i < |bs| && h == HeaderAt(heapStart, bs, i)
      requires Fits(bs[i], eff) && ValidSize(eff) && bs[i].size != eff
      modifies mem
      ensures Layout(mem[..], heapStart, heapEnd, Place(bs, i, eff)) && Consistent(Place(bs, i, eff))
      ensures UnchangedExcept(m, mem[..], AllocWrites(heapStart, bs, i, eff))
      ensures (h + 4) % 8 == 0 && heapStart < h + 4 < heapEnd
    {
      ghost var start, end := heapStart, heapEnd;
      SplitWords(m, start, end, bs, i, eff, h);
      SplitWrites(h, eff, m, bs[i].size, bs[i].prevUsed);
      SplitResult(m, mem[..], start, end, bs, i, eff, h);
      assert heapStart == start && heapEnd == end;
    }

    /** The writes of the split into the free block of `s` bytes at `h`:
        the front becomes allocated with `eff` bytes, the remainder gets
        its footer and then its header, both keeping the p-bit `p`. */
    method SplitWrites(h: int, eff: int, ghost m: seq<int>, ghost s: int, ghost p: bool)
      requires mem[..] == m && SplitReads(m, h, eff, s, p)
      modifies mem
      ensures mem[..] == m[h / 4 := Pack(Block(eff, true, p))][(h + s - 4) / 4 := s - eff]
                          [(h + eff) / 4 := Pack(Block(s - eff, false, p))]
      ensures WordIs(mem[..], h, Pack(Block(eff, true, p)))
      ensures WordIs(mem[..], h + eff, Pack(Block(s - eff, false, p)))
      ensures WordIs(mem[..], h + s - 4, s - eff)
      ensures forall k :: 0 <= k < |m| && k != h / 4 && k != (h + eff) / 4 && k != (h + s - 4) / 4
                          ==> mem[k] == m[k]
      ensures UnchangedExcept(m, mem[..], SplitWordSet(h, eff, s))
    {
      var totalFreeSize := SizeOf(mem[h / 4]);
      var bestFitSize := totalFreeSize - eff;
      var newBlock := h;
      mem[newBlock / 4] := eff + PBitMask(mem[newBlock / 4]) + 1;
      ghost var m1 := m[h / 4 := Pack(Block(eff, true, p))];
      assert mem[..] == m1;
      var rest := newBlock + eff;
      assert (rest + bestFitSize - 4) / 4 == (h + s - 4) / 4;
      mem[(rest + bestFitSize - 4) / 4] := bestFitSize;
      assert mem[..] == m1[(h + s - 4) / 4 := s - eff];
      mem[rest / 4] := OrPBit(bestFitSize, mem[newBlock / 4]);
      SplitWritten(m, mem[..], h, s, eff, p);
    }

    /** free_block: -1 with nothing changed for NULL, an address that is not
        a multiple of 8, one outside the heap or the payload of a free
        block; otherwise the block is released and 0 is returned. Any other
        address inside the heap is outside the contract. */
    method FreeBlock(ptr: Pointer) returns (r: int)
      requires Valid()
      requires ptr.Addr? && ptr.offset % 8 == 0 && heapStart <= ptr.offset < heapStart + allocSize ==>
        exists j :: IsPayloadOf(heapStart, blocks, ptr, j)
      modifies this, mem
      ensures Valid()
      ensures mem == old(mem) && allocatedOnce == old(allocatedOnce)
      ensures heapStart == old(heapStart) && allocSize == old(allocSize)
      ensures heapEnd == if ptr.Addr? && ptr.offset % 8 == 0 then heapStart + allocSize else old(heapEnd)
      ensures r == 0 || r == -1
      ensures r == 0 <==> exists j :: IsPayloadOf(heapStart, old(blocks), ptr, j) && old(blocks)[j].used
      ensures r == -1 ==> blocks == old(blocks) && mem[..] == old(mem[..])
      ensures forall j :: IsPayloadOf(heapStart, old(blocks), ptr, j) && old(blocks)[j].used ==>
        && blocks == Coalesce(old(blocks), j)
        && UnchangedExcept(old(mem[..]), mem[..], FreeWrites(heapStart, old(blocks), j))
    {
      if allocatedOnce {
        PayloadInHeap(mem[..], heapStart, heapStart + allocSize, blocks, ptr);
      }
      if ptr.Null? || ptr.offset % 8 != 0 {
        return -1;
      }
      heapEnd := heapStart + allocSize;
      if ptr.offset < heapStart || ptr.offset >= heapEnd {
        return -1;
      }
      ghost var i :| IsPayloadOf(heapStart, blocks, ptr, i);
      forall j | IsPayloadOf(heapStart, blocks, ptr, j) ensures j == i {
        PayloadUnique(mem[..], heapStart, heapEnd, blocks, ptr, i, j);
      }
      var ptrHeader := ptr.offset - 4;
      HeaderFacts(mem[..], heapStart, heapEnd, blocks, i);
      PackRoundTrip(blocks[i]);
      if !ABit(mem[ptrHeader / 4]) {
        return -1;
      }
      ghost var bs := blocks;
      ghost var m := mem[..];
      blocks := Coalesce(bs, i);
      ReleaseBlock(ptrHeader, m, bs, i);
      return 0;
    }

    /** The second half of free_block, once the header at `ptrHeader` has
        been found to be that of allocated block `i`: the block becomes
        free, absorbs a free successor and a free predecessor, the header
        after the merged block loses its p-bit and the merged block gets its
        footer. */
    method ReleaseBlock(ptrHeader: int, ghost m: seq<int>, ghost bs: seq<Block>, ghost i: int)
      requires mem[..] == m && Layout(m, heapStart, heapEnd, bs) && Consistent(bs)
      requires 0 <= i < |bs| && bs[i].used && ptrHeader == HeaderAt(heapStart, bs, i)
      modifies mem
      ensures mem[..] == FreedMemory(m, heapStart, heapEnd, bs, i)
      ensures Layout(mem[..], heapStart, heapEnd, Coalesce(bs, i)) && Consistent(Coalesce(bs, i))
      ensures UnchangedExcept(m, mem[..], FreeWrites(heapStart, bs, i))
    {
      ghost var start, end := heapStart, heapEnd;
      ghost var lo, hi := MergeLo(bs, i), MergeHi(bs, i);
      ghost var hlo, hhi := HeaderAt(start, bs, lo), HeaderAt(start, bs, hi);
      NextStepReads(m, start, end, bs, i, ptrHeader, hhi);
      PrevStepReads(m, start, end, bs, i, ptrHeader, hlo, hhi);
      AfterStepReads(m, start, end, bs, i, ptrHeader, hlo, hhi);
      FreedMemoryIs(m, start, end, bs, i, ptrHeader, hlo, hhi);
      ReleaseWords(ptrHeader, m, hlo, hhi, bs[i].prevUsed, bs[lo].prevUsed,
                   if hi < |bs| then Pack(bs[hi].(prevUsed := false)) else 0, hi < |bs|);
      FreeResult(m, mem[..], start, end, bs, i);
      assert heapStart == start && heapEnd == end;
    }

    /** The writes of free_block once the block is known to be allocated:
        its header at `ptrHeader` becomes free and absorbs a free successor
        (ending just before `hhi`) and a free predecessor (starting at
        `hlo`); `p` and `q` are the p-bits these two headers keep. */
    method ReleaseWords(ptrHeader: int, ghost m: seq<int>, ghost hlo: int, ghost hhi: int,
                        ghost p: bool, ghost q: bool, ghost next: int, ghost hasNext: bool)
      requires mem[..] == m && NextReads(m, ptrHeader, hhi - ptrHeader, p) && 0 <= ptrHeader / 4 < |m|
      requires PrevReads(m[ptrHeader / 4 := Pack(Block(hhi - ptrHeader, false, p))], ptrHeader, hhi - ptrHeader, hlo, q)
      requires 0 <= hlo / 4 < |m|
      requires AfterReads(m[ptrHeader / 4 := Pack(Block(hhi - ptrHeader, false, p))]
                           [hlo / 4 := Pack(Block(hhi - hlo, false, q))], hlo, hhi, heapEnd, next, hasNext)
      modifies mem
      ensures var m2 := m[ptrHeader / 4 := Pack(Block(hhi - ptrHeader, false, p))]
                         [hlo / 4 := Pack(Block(hhi - hlo, false, q))];
        mem[..] == (if hasNext then m2[hhi / 4 := next] else m2)[(hhi - 4) / 4 := hhi - hlo]
    {
      ghost var m1 := m[ptrHeader / 4 := Pack(Block(hhi - ptrHeader, false, p))];
      var ptrSize := ClearAndMergeNext(ptrHeader, m, hhi - ptrHeader, p);
      var hdr, size := MergePrev(ptrHeader, ptrSize, m1, hlo, q);
      FinishRelease(hdr, size, m1[hlo / 4 := Pack(Block(hhi - hlo, false, q))], hhi, next, hasNext);
    }

    /** free_block, first step: the a-bit of the header at `ptrHeader` is
        cleared and a free successor is absorbed; the header keeps its
        p-bit. */
    method ClearAndMergeNext(ptrHeader: int, ghost m: seq<int>, ghost merged: int, ghost p: bool)
        returns (ptrSize: int)
      requires mem[..] == m && NextReads(m, ptrHeader, merged, p)
      modifies mem
      ensures ptrSize == merged
      ensures mem[..] == m[ptrHeader / 4 := Pack(Block(merged, false, p))]
    {
      mem[ptrHeader / 4] := ClearABit(mem[ptrHeader / 4]);
      ptrSize := SizeOf(mem[ptrHeader / 4]);
      var nextHeader := ptrHeader + ptrSize;
      if !ABit(mem[nextHeader / 4]) {
        var nextSize := SizeOf(mem[nextHeader / 4]);
        ptrSize := ptrSize + nextSize;
        mem[ptrHeader / 4] := OrPBit(ptrSize, mem[ptrHeader / 4]);
      }
    }

    /** free_block, second step: when the p-bit says the block before is
        free, its footer leads to its header, which becomes the header of
        the merged block with the merged size and its own p-bit. */
    method MergePrev(ptrHeader: int, ptrSize: int, ghost m: seq<int>, ghost hlo: int, ghost p: bool)
        returns (hdr: int, size: int)
      requires mem[..] == m && PrevReads(m, ptrHeader, ptrSize, hlo, p)
      modifies mem
      ensures hdr == hlo && size == ptrSize + (ptrHeader - hlo) && 0 <= hdr / 4 < |m|
      ensures mem[..] == m[hdr / 4 := Pack(Block(size, false, p))]
    {
      hdr, size := ptrHeader, ptrSize;
      if !PBit(mem[hdr / 4]) {
        var prevFooter := hdr - 4;
        var prevHeader := hdr - mem[prevFooter / 4];
        hdr := prevHeader;
        size := size + mem[prevFooter / 4];
        mem[hdr / 4] := OrPBit(size, mem[prevHeader / 4]);
      }
    }

    /** free_block, last step: the header after the merged block at `hdr`
        loses its p-bit unless it is the end mark (whose size field is 0),
        and the last word of the merged block becomes its footer. The guard
        on the footer's address always holds. */
    method FinishRelease(hdr: int, size: int, ghost m: seq<int>, ghost hEnd: int, ghost next: int, ghost hasNext: bool)
      requires mem[..] == m && hEnd == hdr + size && AfterReads(m, hdr, hEnd, heapEnd, next, hasNext)
      modifies mem
      ensures mem[..] == (if hasNext then m[hEnd / 4 := next] else m)[(hEnd - 4) / 4 := size]
    {
      var nextHeader := hdr + size;
      if SizeOf(mem[nextHeader / 4]) != 0 {
        mem[nextHeader / 4] := ClearPBit(mem[nextHeader / 4]);
      }
      var ptrFooter := hdr + size - 4;
      assert ptrFooter < heapEnd;
      if ptrFooter < heapEnd {
        mem[ptrFooter / 4] := size;
      }
    }
  }
}
