/** How a list of blocks sits in the heap's word memory.

    Memory is a sequence of 4-byte words indexed by byte offset / 4, offsets
    being counted from the page-aligned start of the mapping. Blocks follow
    each other without gaps: a block of size `s` whose header is at byte
    offset `off` is followed by the header at `off + s`. Every block has its
    header word; a free block also has its footer in its last word; the
    region closes with the end-mark word. */
module HeapLayout {
  import opened BlockHeader
  import opened Options

  /** Total size in bytes of a list of blocks. */
  function SumSizes(bs: seq<Block>): int
  {
    if bs == [] then 0 else bs[0].size + SumSizes(bs[1..])
  }

  /** The word at byte offset `off` exists and holds `v`. */
  predicate WordIs(m: seq<int>, off: int, v: int)
  {
    0 <= off && off / 4 < |m| && m[off / 4] == v
  }

  /** `bs` is laid out in `m` from header offset `off` up to (not including)
      offset `end`: each header packs its block, each free block ends in a
      footer holding its size, and the sizes carry the walk from `off` to `end`. */
  ghost predicate Tiled(m: seq<int>, bs: seq<Block>, off: int, end: int)
    decreases |bs|
  {
    if bs == [] then off == end
    else
      && ValidSize(bs[0].size)
      && WordIs(m, off, Pack(bs[0]))
      && (!bs[0].used ==> WordIs(m, off + bs[0].size - 4, bs[0].size))
      && Tiled(m, bs[1..], off + bs[0].size, end)
  }

  /** A whole heap: the blocks tile `[start, end)` with headers on offsets
      that are 4 modulo 8 (so payloads are 8-byte aligned), and the end mark
      sits at `end`. */
  ghost predicate Layout(m: seq<int>, start: int, end: int, bs: seq<Block>)
  {
    start % 8 == 4 && Tiled(m, bs, start, end) && WordIs(m, end, EndMark)
  }

  /** Header offset of block `i` when the list starts at `start`. */
  function HeaderAt(start: int, bs: seq<Block>, i: int): int
    requires 0 <= i <= |bs|
  {
    start + SumSizes(bs[..i])
  }

  lemma {:induction false} SumAppend(a: seq<Block>, b: seq<Block>)
    ensures SumSizes(a + b) == SumSizes(a) + SumSizes(b)
    decreases |a|
  {
    if a == [] {
      assert a + b == b;
    } else {
      assert (a + b)[1..] == a[1..] + b;
      SumAppend(a[1..], b);
    }
  }

  /** The sizes of blocks of valid size add up to a multiple of 8 that is at
      least 8 per block. */
  lemma {:induction false} SumOfValidSizes(bs: seq<Block>)
    requires forall j :: 0 <= j < |bs| ==> ValidSize(bs[j].size)
    ensures SumSizes(bs) % 8 == 0 && SumSizes(bs) >= 8 * |bs|
    decreases |bs|
  {
    if bs != [] {
      SumOfValidSizes(bs[1..]);
    }
  }

  /** A tiling spans exactly the sum of its sizes, a multiple of 8, and
      every block in it has a valid size. */
  lemma TiledSpan(m: seq<int>, bs: seq<Block>, off: int, end: int)
    requires Tiled(m, bs, off, end)
    ensures end == off + SumSizes(bs)
    ensures SumSizes(bs) % 8 == 0 && SumSizes(bs) >= 8 * |bs|
    ensures forall j :: 0 <= j < |bs| ==> ValidSize(bs[j].size)
  {
    TiledSizes(m, bs, off, end);
    SumOfValidSizes(bs);
  }

  /** The walk of a tiling ends at its start plus the sum of its sizes, and
      every size on the way is valid. */
  lemma {:induction false} TiledSizes(m: seq<int>, bs: seq<Block>, off: int, end: int)
    requires Tiled(m, bs, off, end)
    ensures end == off + SumSizes(bs)
    ensures forall j :: 0 <= j < |bs| ==> ValidSize(bs[j].size)
    decreases |bs|
  {
    if bs != [] {
      TiledSizes(m, bs[1..], off + bs[0].size, end);
      forall j | 0 < j < |bs| ensures ValidSize(bs[j].size) {
        assert bs[j] == bs[1..][j - 1];
      }
    }
  }

  /** Two tilings that meet end to start make one. */
  lemma {:induction false} TiledJoin(m: seq<int>, a: seq<Block>, b: seq<Block>, off: int, mid: int, end: int)
    requires Tiled(m, a, off, mid) && Tiled(m, b, mid, end)
    ensures Tiled(m, a + b, off, end)
    decreases |a|
  {
    if a == [] {
      assert a + b == b;
    } else {
      TiledJoin(m, a[1..], b, off + a[0].size, mid, end);
      assert (a + b)[0] == a[0];
      assert (a + b)[1..] == a[1..] + b;
    }
  }

  /** A tiling of `a + b` is a tiling of `a` followed by one of `b`. */
  lemma {:induction false} TiledSplit(m: seq<int>, a: seq<Block>, b: seq<Block>, off: int, end: int)
    requires Tiled(m, a + b, off, end)
    ensures Tiled(m, a, off, off + SumSizes(a)) && Tiled(m, b, off + SumSizes(a), end)
    decreases |a|
  {
    if a == [] {
      assert a + b == b;
    } else {
      assert (a + b)[0] == a[0];
      assert (a + b)[1..] == a[1..] + b;
      TiledSplit(m, a[1..], b, off + a[0].size, end);
    }
  }

  /** A tiling only depends on the words inside the range it covers. */
  lemma {:induction false} TiledFrame(m: seq<int>, m2: seq<int>, bs: seq<Block>, off: int, end: int)
    requires Tiled(m, bs, off, end)
    requires |m2| == |m|
    requires forall k :: off / 4 <= k < end / 4 && 0 <= k < |m| ==> m2[k] == m[k]
    ensures Tiled(m2, bs, off, end)
    decreases |bs|
  {
    if bs != [] {
      var s := bs[0].size;
      TiledSpan(m, bs[1..], off + s, end);
      assert off / 4 < end / 4;
      assert (off + s - 4) / 4 < end / 4;
      TiledFrame(m, m2, bs[1..], off + s, end);
    }
  }

  /** Block `i` of a tiling: its header, its footer when free, and where it ends. */
  lemma TiledAt(m: seq<int>, bs: seq<Block>, off: int, end: int, i: int)
    requires Tiled(m, bs, off, end) && 0 <= i < |bs|
    ensures ValidSize(bs[i].size)
    ensures off <= HeaderAt(off, bs, i) && HeaderAt(off, bs, i) + bs[i].size <= end
    ensures HeaderAt(off, bs, i + 1) == HeaderAt(off, bs, i) + bs[i].size
    ensures WordIs(m, HeaderAt(off, bs, i), Pack(bs[i]))
    ensures !bs[i].used ==> WordIs(m, HeaderAt(off, bs, i) + bs[i].size - 4, bs[i].size)
  {
    TiledFrom(m, bs, off, end, i);
    assert bs[i..][0] == bs[i];
    TiledHead(m, bs[i..], HeaderAt(off, bs, i), end);
    HeaderNext(off, bs, i);
  }

  /** The blocks from `i` on tile the range from header `i` to the end. */
  lemma TiledFrom(m: seq<int>, bs: seq<Block>, off: int, end: int, i: int)
    requires Tiled(m, bs, off, end) && 0 <= i <= |bs|
    ensures off <= HeaderAt(off, bs, i) && Tiled(m, bs[i..], HeaderAt(off, bs, i), end)
  {
    assert bs == bs[..i] + bs[i..];
    TiledSplit(m, bs[..i], bs[i..], off, end);
    TiledSpan(m, bs[..i], off, HeaderAt(off, bs, i));
  }

  /** The first block of a tiling: its header, its footer when free, and
      its end within the range. */
  lemma TiledHead(m: seq<int>, bs: seq<Block>, off: int, end: int)
    requires Tiled(m, bs, off, end) && bs != []
    ensures ValidSize(bs[0].size) && off + bs[0].size <= end
    ensures WordIs(m, off, Pack(bs[0]))
    ensures !bs[0].used ==> WordIs(m, off + bs[0].size - 4, bs[0].size)
  {
    TiledSpan(m, bs[1..], off + bs[0].size, end);
  }

  /** Header `i + 1` follows header `i` by the size of block `i`. */
  lemma HeaderNext(off: int, bs: seq<Block>, i: int)
    requires 0 <= i < |bs|
    ensures HeaderAt(off, bs, i + 1) == HeaderAt(off, bs, i) + bs[i].size
  {
    assert bs[..i + 1] == bs[..i] + [bs[i]];
    SumAppend(bs[..i], [bs[i]]);
    assert SumSizes([bs[i]]) == bs[i].size;
  }

  /** Header `i` of a heap (the end mark when `i == |bs|`): where it is,
      what it holds and where the next one is. */
  lemma HeaderFacts(m: seq<int>, start: int, end: int, bs: seq<Block>, i: int)
    requires Layout(m, start, end, bs) && 0 <= i <= |bs|
    ensures start <= HeaderAt(start, bs, i) <= end
    ensures HeaderAt(start, bs, i) % 8 == 4
    ensures i == |bs| ==> HeaderAt(start, bs, i) == end && WordIs(m, end, EndMark)
    ensures i < |bs| ==>
      && ValidSize(bs[i].size)
      && HeaderAt(start, bs, i) + bs[i].size <= end
      && HeaderAt(start, bs, i + 1) == HeaderAt(start, bs, i) + bs[i].size
      && WordIs(m, HeaderAt(start, bs, i), Pack(bs[i]))
      && (!bs[i].used ==> WordIs(m, HeaderAt(start, bs, i) + bs[i].size - 4, bs[i].size))
  {
    HeaderInRange(m, bs, start, end, i);
    ShiftByMultipleOf8(start, SumSizes(bs[..i]));
    if i < |bs| {
      TiledAt(m, bs, start, end, i);
    } else {
      assert bs[..i] == bs;
      TiledSizes(m, bs, start, end);
    }
  }

  /** Header `i` of a tiling lies in its range, a multiple of 8 away from
      its start. */
  lemma HeaderInRange(m: seq<int>, bs: seq<Block>, off: int, end: int, i: int)
    requires Tiled(m, bs, off, end) && 0 <= i <= |bs|
    ensures off <= HeaderAt(off, bs, i) <= end && SumSizes(bs[..i]) % 8 == 0
  {
    TiledFrom(m, bs, off, end, i);
    TiledSpan(m, bs[i..], HeaderAt(off, bs, i), end);
    TiledSizes(m, bs, off, end);
    assert forall j :: 0 <= j < i ==> bs[..i][j] == bs[j];
    SumOfValidSizes(bs[..i]);
  }

  /** The walk of the heap's debugging printer: from a header offset, decode
      each header and jump by its size until the end-mark word; the walk
      fails unless that word is exactly at `end`. */
  function Walk(m: seq<int>, off: int, end: int): Option<seq<Block>>
    decreases end - off
  {
    if off < 0 || off / 4 >= |m| then None
    else if m[off / 4] == EndMark then (if off == end then Some([]) else None)
    else if off >= end then None
    else
      var b := Decode(m[off / 4]);
      if b.size <= 0 then None
      else
        match Walk(m, off + b.size, end)
        case None => None
        case Some(rest) => Some([b] + rest)
  }

  /** Walking the headers of a laid-out heap from its start reaches the end
      mark exactly and reads back the block list: the block list is a
      function of memory. */
  lemma {:induction false} WalkReadsLayout(m: seq<int>, bs: seq<Block>, off: int, end: int)
    requires Tiled(m, bs, off, end) && WordIs(m, end, EndMark)
    ensures Walk(m, off, end) == Some(bs)
    decreases |bs|
  {
    if bs != [] {
      var b := bs[0];
      TiledSpan(m, bs, off, end);
      PackRoundTrip(b);
      HeaderIsNotEndMark(b);
      WalkReadsLayout(m, bs[1..], off + b.size, end);
      assert [b] + bs[1..] == bs;
    }
  }

  /** Two block lists laid out in the same memory between the same bounds
      are the same list. */
  lemma LayoutDeterminesBlocks(m: seq<int>, start: int, end: int, bs: seq<Block>, bs2: seq<Block>)
    requires Layout(m, start, end, bs) && Layout(m, start, end, bs2)
    ensures bs == bs2
  {
    WalkReadsLayout(m, bs, start, end);
    WalkReadsLayout(m, bs2, start, end);
  }

  /** The heap's blocks plus the end-mark word account for the whole region:
      their sizes add up to `end - start`. */
  lemma LayoutSum(m: seq<int>, start: int, end: int, bs: seq<Block>)
    requires Layout(m, start, end, bs)
    ensures SumSizes(bs) == end - start && end % 8 == 4
  {
    TiledSpan(m, bs, start, end);
    ShiftByMultipleOf8(start, SumSizes(bs));
  }

  /** Moving by a multiple of 8 keeps an offset 4 modulo 8. */
  lemma ShiftByMultipleOf8(a: int, s: int)
    requires a % 8 == 4 && s % 8 == 0
    ensures (a + s) % 8 == 4
  {
    HeaderWord(a);
    Eighth(a + s, a / 8 + s / 8, 4);
  }

  /** The payload just after a header on an offset that is 4 modulo 8 is
      8-byte aligned. */
  lemma PayloadAligned(h: int, payload: int)
    requires h % 8 == 4 && payload == h + 4
    ensures payload % 8 == 0
  {
    HeaderWord(h);
    Eighth(payload, h / 8 + 1, 0);
  }

  /** Headers grow along the list: block `i` ends at or before the header
      of any later block. */
  lemma {:induction false} HeadersIncrease(m: seq<int>, start: int, end: int, bs: seq<Block>, i: int, j: int)
    requires Layout(m, start, end, bs)
    requires 0 <= i < j <= |bs|
    ensures HeaderAt(start, bs, i) + bs[i].size <= HeaderAt(start, bs, j)
    decreases j
  {
    if j == i + 1 {
      HeaderFacts(m, start, end, bs, i);
    } else {
      HeadersIncrease(m, start, end, bs, i, j - 1);
      HeaderFacts(m, start, end, bs, j - 1);
    }
  }

  /** Cutting a tiling in three. */
  lemma TiledCut(m: seq<int>, start: int, end: int, pre: seq<Block>, mid: seq<Block>, post: seq<Block>)
    requires Tiled(m, pre + mid + post, start, end)
    ensures Tiled(m, pre, start, start + SumSizes(pre))
    ensures Tiled(m, mid, start + SumSizes(pre), start + SumSizes(pre) + SumSizes(mid))
    ensures Tiled(m, post, start + SumSizes(pre) + SumSizes(mid), end)
    ensures start + SumSizes(pre) + SumSizes(mid) <= end
  {
    var hi := start + SumSizes(pre) + SumSizes(mid);
    SumAppend(pre, mid);
    TiledSplit(m, pre + mid, post, start, end);
    TiledSplit(m, pre, mid, start, hi);
    TiledSpan(m, post, hi, end);
  }

  /** Gluing three tilings that meet end to start. */
  lemma TiledGlue(m: seq<int>, start: int, lo: int, hi: int, end: int,
                  pre: seq<Block>, mid: seq<Block>, post: seq<Block>)
    requires Tiled(m, pre, start, lo) && Tiled(m, mid, lo, hi) && Tiled(m, post, hi, end)
    ensures Tiled(m, pre + mid + post, start, end)
  {
    TiledJoin(m, pre, mid, start, lo, hi);
    TiledJoin(m, pre + mid, post, start, hi, end);
  }

  /** Replacing the blocks `mid` of a heap by blocks `mid2` that tile the same
      byte range in the new memory, where no word outside that range has
      changed, gives a heap again. */
  lemma Replace(m: seq<int>, m2: seq<int>, start: int, end: int,
                pre: seq<Block>, mid: seq<Block>, post: seq<Block>, mid2: seq<Block>)
    requires Layout(m, start, end, pre + mid + post)
    requires |m2| == |m|
    requires Tiled(m2, mid2, start + SumSizes(pre), start + SumSizes(pre) + SumSizes(mid))
    requires forall k :: 0 <= k < |m| && !((start + SumSizes(pre)) / 4 <= k < (start + SumSizes(pre) + SumSizes(mid)) / 4)
                         ==> m2[k] == m[k]
    ensures Layout(m2, start, end, pre + mid2 + post)
  {
    var lo := start + SumSizes(pre);
    var hi := lo + SumSizes(mid);
    TiledCut(m, start, end, pre, mid, post);
    TiledOutside(m, m2, pre, start, lo, lo, hi);
    TiledOutside(m, m2, post, hi, end, lo, hi);
    assert WordIs(m2, end, EndMark);
    TiledGlue(m2, start, lo, hi, end, pre, mid2, post);
  }

  /** A tiling of a range that lies before `lo` or from `hi` on survives
      changes to the words of `[lo, hi)`. */
  lemma TiledOutside(m: seq<int>, m2: seq<int>, bs: seq<Block>, off: int, end: int, lo: int, hi: int)
    requires Tiled(m, bs, off, end) && |m2| == |m| && (end <= lo || hi <= off)
    requires forall k :: 0 <= k < |m| && !(lo / 4 <= k < hi / 4) ==> m2[k] == m[k]
    ensures Tiled(m2, bs, off, end)
  {
    TiledFrame(m, m2, bs, off, end);
  }
}
