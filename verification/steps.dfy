/** What the words written by each allocator operation do to the heap:
    for exact fit, split and free, the words the code writes turn a heap
    laid out as `bs` into a heap laid out as the block list that module
    Policy prescribes, provided nothing else in memory changed. */
module Steps {
  import opened BlockHeader
  import opened HeapLayout
  import opened Policy

  /** A single block tiles its own byte range. */
  lemma TiledOne(m: seq<int>, b: Block, off: int, end: int)
    requires ValidSize(b.size) && end == off + b.size && WordIs(m, off, Pack(b))
    requires !b.used ==> WordIs(m, end - 4, b.size)
    ensures Tiled(m, [b], off, end)
  {
    assert [b][1..] == [];
  }

  /** Two adjacent blocks tile their joint byte range. */
  lemma TiledTwo(m: seq<int>, a: Block, b: Block, off: int, mid: int, end: int)
    requires Tiled(m, [a], off, mid) && Tiled(m, [b], mid, end)
    ensures Tiled(m, [a, b], off, end)
  {
    assert [a][1..] == [];
    assert [a, b][1..] == [b];
  }

  /** Two adjacent blocks whose headers and footers are in place tile their
      joint byte range. */
  lemma TiledPair(m: seq<int>, a: Block, b: Block, off: int, mid: int, end: int)
    requires ValidSize(a.size) && mid == off + a.size && WordIs(m, off, Pack(a))
    requires !a.used ==> WordIs(m, mid - 4, a.size)
    requires ValidSize(b.size) && end == mid + b.size && WordIs(m, mid, Pack(b))
    requires !b.used ==> WordIs(m, end - 4, b.size)
    ensures Tiled(m, [a, b], off, end)
  {
    TiledOne(m, a, off, mid);
    TiledOne(m, b, mid, end);
    TiledTwo(m, a, b, off, mid, end);
  }

  /** Total size of blocks `a..b`, as a difference of header offsets. */
  lemma SumSlice(start: int, bs: seq<Block>, a: int, b: int)
    requires 0 <= a <= b <= |bs|
    ensures SumSizes(bs[a..b]) == HeaderAt(start, bs, b) - HeaderAt(start, bs, a)
  {
    assert bs[..b] == bs[..a] + bs[a..b];
    SumAppend(bs[..a], bs[a..b]);
  }

  /** A list is its three slices around `a` and `b`. */
  lemma Cut3(bs: seq<Block>, a: int, b: int)
    requires 0 <= a <= b <= |bs|
    ensures bs == bs[..a] + bs[a..b] + bs[b..]
  {
  }

  /** Replace, with the replaced range given by block indices `a..b` whose
      headers sit at `ha` and `hb`. */
  lemma ReplaceBlocks(m: seq<int>, m2: seq<int>, start: int, end: int, bs: seq<Block>,
                      a: int, b: int, ha: int, hb: int, mid2: seq<Block>, r: seq<Block>)
    requires Layout(m, start, end, bs) && 0 <= a <= b <= |bs| && |m2| == |m|
    requires ha == HeaderAt(start, bs, a) && hb == HeaderAt(start, bs, b)
    requires Tiled(m2, mid2, ha, hb)
    requires forall k :: 0 <= k < |m| && !(ha / 4 <= k < hb / 4) ==> m2[k] == m[k]
    requires r == bs[..a] + mid2 + bs[b..]
    ensures Layout(m2, start, end, r)
  {
    Cut3(bs, a, b);
    SumSlice(start, bs, a, b);
    Replace(m, m2, start, end, bs[..a], bs[a..b], bs[b..], mid2);
  }

  lemma BlockWords(h: int, s: int)
    requires h % 8 == 4 && s % 8 == 0 && s >= 8
    ensures h / 4 < (h + s - 4) / 4 < (h + s) / 4 && (h + s) % 8 == 4
  {
    var a, b := h / 8, s / 8;
    HeaderWord(h);
    Quarter(h + s - 4, 2 * (a + b), 0);
    Quarter(h + s, 2 * (a + b) + 1, 0);
    Eighth(h + s, a + b, 4);
  }

  /** Words that change only at three indices inside `[lo, hi)` change
      only inside `[lo, hi)`. */
  lemma FrameWithin(m: seq<int>, m2: seq<int>, a: int, b: int, c: int, lo: int, hi: int)
    requires |m2| == |m| && lo <= a < hi && lo <= b < hi && lo <= c < hi
    requires forall k :: 0 <= k < |m| && k != a && k != b && k != c ==> m2[k] == m[k]
    ensures forall k :: 0 <= k < |m| && !(lo <= k < hi) ==> m2[k] == m[k]
  {
  }

  /** Words that change only inside `[lo, mid)` and at `mid` change only
      inside `[lo, hi)` when `mid < hi`. */
  lemma FrameWiden(m: seq<int>, m2: seq<int>, lo: int, mid: int, hi: int)
    requires |m2| == |m| && lo <= mid < hi
    requires forall k :: 0 <= k < |m| && !(lo <= k < mid) && k != mid ==> m2[k] == m[k]
    ensures forall k :: 0 <= k < |m| && !(lo <= k < hi) ==> m2[k] == m[k]
  {
  }

  /** The list after an exact fit: the served block and, unless it was the
      last, its successor with the p-bit set in place of blocks `i` and
      `i + 1`. */
  lemma PlaceExactShape(bs: seq<Block>, i: int)
    requires 0 <= i < |bs|
    ensures i + 1 < |bs| ==>
      Place(bs, i, bs[i].size) == bs[..i] + [bs[i].(used := true), bs[i + 1].(prevUsed := true)] + bs[i + 2..]
    ensures i + 1 == |bs| ==> Place(bs, i, bs[i].size) == bs[..i] + [bs[i].(used := true)] + bs[i + 1..]
  {
    var served := bs[i].(used := true);
    if i + 1 < |bs| {
      var next := bs[i + 1].(prevUsed := true);
      assert bs[i + 1..][0] == bs[i + 1] && bs[i + 1..][1..] == bs[i + 2..];
      assert WithPrevUsed(bs[i + 1..], true) == [next] + bs[i + 2..];
      assert bs[..i] + [served] + ([next] + bs[i + 2..]) == bs[..i] + [served, next] + bs[i + 2..];
    } else {
      assert WithPrevUsed(bs[i + 1..], true) == [];
    }
  }

  /** The list after a free, with the block after the merged range (if
      any) spelled out. */
  lemma MergedShape(bs: seq<Block>, lo: int, hi: int, merged: Block)
    requires 0 <= lo <= hi <= |bs|
    ensures hi < |bs| ==>
      bs[..lo] + [merged] + WithPrevUsed(bs[hi..], false)
      == bs[..lo] + [merged, bs[hi].(prevUsed := false)] + bs[hi + 1..]
    ensures hi == |bs| ==> bs[..lo] + [merged] + WithPrevUsed(bs[hi..], false) == bs[..lo] + [merged] + bs[hi..]
  {
    if hi < |bs| {
      var n := bs[hi].(prevUsed := false);
      assert WithPrevUsed(bs[hi..], false) == [n] + bs[hi + 1..];
      assert bs[..lo] + [merged, n] + bs[hi + 1..] == bs[..lo] + [merged] + ([n] + bs[hi + 1..]);
    } else {
      assert WithPrevUsed(bs[hi..], false) == [];
    }
  }

  /** Exact fit: the block's header at `h` gains its a-bit and, unless the
      next header is the end mark, the next header gains its p-bit. */
  lemma ExactFitStep(m: seq<int>, m2: seq<int>, start: int, end: int, bs: seq<Block>, i: int, h: int)
    requires Layout(m, start, end, bs)
    requires 0 <= i < |bs| && !bs[i].used
    requires h == HeaderAt(start, bs, i) && |m2| == |m|
    requires WordIs(m2, h, Pack(bs[i].(used := true)))
    requires i + 1 < |bs| ==> WordIs(m2, h + bs[i].size, Pack(bs[i + 1].(prevUsed := true)))
    requires forall k :: 0 <= k < |m| && k != h / 4 && (i + 1 < |bs| ==> k != (h + bs[i].size) / 4)
                         ==> m2[k] == m[k]
    ensures Layout(m2, start, end, Place(bs, i, bs[i].size))
  {
    if i + 1 < |bs| {
      ExactFitBeforeBlock(m, m2, start, end, bs, i, h);
    } else {
      ExactFitBeforeEnd(m, m2, start, end, bs, i, h);
    }
  }

  /** Exact fit of a block followed by another block. */
  lemma ExactFitBeforeBlock(m: seq<int>, m2: seq<int>, start: int, end: int, bs: seq<Block>, i: int, h: int)
    requires Layout(m, start, end, bs)
    requires 0 <= i && i + 1 < |bs| && !bs[i].used
    requires h == HeaderAt(start, bs, i) && |m2| == |m|
    requires WordIs(m2, h, Pack(bs[i].(used := true)))
    requires WordIs(m2, h + bs[i].size, Pack(bs[i + 1].(prevUsed := true)))
    requires forall k :: 0 <= k < |m| && k != h / 4 && k != (h + bs[i].size) / 4 ==> m2[k] == m[k]
    ensures Layout(m2, start, end, Place(bs, i, bs[i].size))
  {
    var s, t := bs[i].size, bs[i + 1].size;
    var a, n := bs[i].(used := true), bs[i + 1].(prevUsed := true);
    HeaderFacts(m, start, end, bs, i);
    HeaderFacts(m, start, end, bs, i + 1);
    var hn, hb := h + s, h + s + t;
    BlockWords(h, s);
    BlockWords(hn, t);
    FrameWithin(m, m2, h / 4, hn / 4, h / 4, h / 4, hb / 4);
    TiledPair(m2, a, n, h, hn, hb);
    PlaceExactShape(bs, i);
    ReplaceBlocks(m, m2, start, end, bs, i, i + 2, h, hb, [a, n], Place(bs, i, s));
  }

  /** Exact fit of the last block, followed by the end mark. */
  lemma ExactFitBeforeEnd(m: seq<int>, m2: seq<int>, start: int, end: int, bs: seq<Block>, i: int, h: int)
    requires Layout(m, start, end, bs)
    requires 0 <= i && i + 1 == |bs| && !bs[i].used
    requires h == HeaderAt(start, bs, i) && |m2| == |m|
    requires WordIs(m2, h, Pack(bs[i].(used := true)))
    requires forall k :: 0 <= k < |m| && k != h / 4 ==> m2[k] == m[k]
    ensures Layout(m2, start, end, Place(bs, i, bs[i].size))
  {
    var s := bs[i].size;
    var a := bs[i].(used := true);
    HeaderFacts(m, start, end, bs, i);
    BlockWords(h, s);
    FrameWithin(m, m2, h / 4, h / 4, h / 4, h / 4, (h + s) / 4);
    TiledOne(m2, a, h, h + s);
    PlaceExactShape(bs, i);
    ReplaceBlocks(m, m2, start, end, bs, i, i + 1, h, h + s, [a], Place(bs, i, s));
  }

  /** Split: the block's header at `h` becomes an allocated block of size
      `eff`, a new header for the free remainder follows it, and the old
      footer word now holds the remainder's size. */
  lemma SplitStep(m: seq<int>, m2: seq<int>, start: int, end: int, bs: seq<Block>, i: int, eff: int, h: int)
    requires Layout(m, start, end, bs)
    requires 0 <= i < |bs| && Fits(bs[i], eff) && ValidSize(eff) && bs[i].size != eff
    requires h == HeaderAt(start, bs, i) && |m2| == |m|
    requires WordIs(m2, h, Pack(Block(eff, true, bs[i].prevUsed)))
    requires WordIs(m2, h + eff, Pack(Block(bs[i].size - eff, false, bs[i].prevUsed)))
    requires WordIs(m2, h + bs[i].size - 4, bs[i].size - eff)
    requires forall k :: 0 <= k < |m| && k != h / 4 && k != (h + eff) / 4 && k != (h + bs[i].size - 4) / 4
                         ==> m2[k] == m[k]
    ensures Layout(m2, start, end, Place(bs, i, eff))
  {
    HeaderFacts(m, start, end, bs, i);
    SplitTiles(m, m2, h, bs[i].size, eff, bs[i].prevUsed);
    SplitReplace(m, m2, start, end, bs, i, eff, h);
  }

  /** The block-list half of `SplitStep`: the front and the remainder,
      tiled in the new memory over block `i`'s range, with no word outside
      that range changed, give the heap of `Place`. */
  lemma SplitReplace(m: seq<int>, m2: seq<int>, start: int, end: int, bs: seq<Block>, i: int, eff: int, h: int)
    requires Layout(m, start, end, bs) && 0 <= i < |bs| && bs[i].size != eff
    requires h == HeaderAt(start, bs, i) && |m2| == |m|
    requires Tiled(m2, [Block(eff, true, bs[i].prevUsed), Block(bs[i].size - eff, false, bs[i].prevUsed)],
                   h, h + bs[i].size)
    requires forall k :: 0 <= k < |m| && !(h / 4 <= k < (h + bs[i].size) / 4) ==> m2[k] == m[k]
    ensures Layout(m2, start, end, Place(bs, i, eff))
  {
    HeaderNext(start, bs, i);
    PlaceSplitShape(bs, i, eff);
    ReplaceBlocks(m, m2, start, end, bs, i, i + 1, h, h + bs[i].size,
                  [Block(eff, true, bs[i].prevUsed), Block(bs[i].size - eff, false, bs[i].prevUsed)],
                  Place(bs, i, eff));
  }

  /** The words a split writes into a block of `s` bytes at `h` tile the
      block's range as the allocated front and the free remainder, and no
      word outside the range changes. */
  lemma SplitTiles(m: seq<int>, m2: seq<int>, h: int, s: int, eff: int, p: bool)
    requires h % 8 == 4 && ValidSize(eff) && ValidSize(s) && eff < s && |m2| == |m|
    requires WordIs(m2, h, Pack(Block(eff, true, p)))
    requires WordIs(m2, h + eff, Pack(Block(s - eff, false, p)))
    requires WordIs(m2, h + s - 4, s - eff)
    requires forall k :: 0 <= k < |m| && k != h / 4 && k != (h + eff) / 4 && k != (h + s - 4) / 4
                         ==> m2[k] == m[k]
    ensures Tiled(m2, [Block(eff, true, p), Block(s - eff, false, p)], h, h + s)
    ensures forall k :: 0 <= k < |m| && !(h / 4 <= k < (h + s) / 4) ==> m2[k] == m[k]
  {
    SplitRemainder(s, eff);
    SplitWordOrder(h, eff, s);
    FrameWithin(m, m2, h / 4, (h + eff) / 4, (h + s - 4) / 4, h / 4, (h + s) / 4);
    TiledPair(m2, Block(eff, true, p), Block(s - eff, false, p), h, h + eff, h + s);
  }

  /** The words of a split lie inside the block being split. */
  lemma SplitWordOrder(h: int, eff: int, s: int)
    requires h % 8 == 4 && ValidSize(eff) && ValidSize(s) && eff < s
    ensures h / 4 < (h + eff) / 4 < (h + s - 4) / 4 < (h + s) / 4
    ensures h >= 0 ==> h / 4 >= 0
  {
    var a, e, t := h / 8, eff / 8, s / 8;
    assert eff == 8 * e && s == 8 * t && e < t;
    HeaderWord(h);
    Quarter(h + eff, 2 * (a + e) + 1, 0);
    Quarter(h + s - 4, 2 * (a + t), 0);
    Quarter(h + s, 2 * (a + t) + 1, 0);
  }

  /** Free: the header of the leftmost merged block (at `hlo`) holds the
      merged size, free, with that block's p-bit; the last word of the
      merged range holds its size; the header after it (at `hhi`), unless
      it is the end mark, loses its p-bit. */
  lemma CoalesceStep(m: seq<int>, m2: seq<int>, start: int, end: int, bs: seq<Block>, i: int,
                     hlo: int, hhi: int)
    requires Layout(m, start, end, bs) && Consistent(bs)
    requires 0 <= i < |bs| && bs[i].used && |m2| == |m|
    requires hlo == HeaderAt(start, bs, MergeLo(bs, i)) && hhi == HeaderAt(start, bs, MergeHi(bs, i))
    requires WordIs(m2, hlo, Pack(Block(hhi - hlo, false, bs[MergeLo(bs, i)].prevUsed)))
    requires WordIs(m2, hhi - 4, hhi - hlo)
    requires MergeHi(bs, i) < |bs| ==> WordIs(m2, hhi, Pack(bs[MergeHi(bs, i)].(prevUsed := false)))
    requires forall k :: 0 <= k < |m| && !(hlo / 4 <= k < hhi / 4) && (MergeHi(bs, i) < |bs| ==> k != hhi / 4)
                         ==> m2[k] == m[k]
    ensures Layout(m2, start, end, Coalesce(bs, i))
  {
    var lo, hi := MergeLo(bs, i), MergeHi(bs, i);
    MergeNeighbours(bs, i);
    var merged := MergedTile(m, m2, start, end, bs, lo, hi, hlo, hhi);
    if hi < |bs| {
      CoalesceBeforeBlock(m, m2, start, end, bs, lo, hi, hlo, hhi, merged);
    } else {
      CoalesceBeforeEnd(m, m2, start, end, bs, lo, hi, hlo, hhi, merged);
    }
  }

  /** The merged free block of blocks `lo..hi` tiles their byte range once
      its header and footer are written. */
  lemma MergedTile(m: seq<int>, m2: seq<int>, start: int, end: int, bs: seq<Block>,
                   lo: int, hi: int, hlo: int, hhi: int) returns (merged: Block)
    requires Layout(m, start, end, bs) && Consistent(bs) && 0 <= lo < hi <= |bs|
    requires hlo == HeaderAt(start, bs, lo) && hhi == HeaderAt(start, bs, hi)
    requires WordIs(m2, hlo, Pack(Block(hhi - hlo, false, bs[lo].prevUsed)))
    requires WordIs(m2, hhi - 4, hhi - hlo)
    ensures merged == Block(SumSizes(bs[lo..hi]), false, bs[lo].prevUsed)
    ensures Tiled(m2, [merged], hlo, hhi) && hlo <= hhi && hhi % 8 == 4
  {
    HeaderFacts(m, start, end, bs, lo);
    HeaderFacts(m, start, end, bs, hi);
    SumSlice(start, bs, lo, hi);
    assert forall j :: 0 <= j < |bs[lo..hi]| ==> ValidSize(bs[lo..hi][j].size) by {
      forall j | 0 <= j < |bs[lo..hi]| ensures ValidSize(bs[lo..hi][j].size) {
        assert bs[lo..hi][j] == bs[lo + j];
      }
    }
    SumOfValidSizes(bs[lo..hi]);
    merged := Block(hhi - hlo, false, bs[lo].prevUsed);
    TiledOne(m2, merged, hlo, hhi);
  }

  /** Free where an allocated block follows the merged range. */
  lemma CoalesceBeforeBlock(m: seq<int>, m2: seq<int>, start: int, end: int, bs: seq<Block>,
                            lo: int, hi: int, hlo: int, hhi: int, merged: Block)
    requires Layout(m, start, end, bs) && 0 <= lo < hi < |bs| && bs[hi].used && |m2| == |m|
    requires hlo == HeaderAt(start, bs, lo) && hhi == HeaderAt(start, bs, hi)
    requires Tiled(m2, [merged], hlo, hhi) && hlo <= hhi
    requires WordIs(m2, hhi, Pack(bs[hi].(prevUsed := false)))
    requires forall k :: 0 <= k < |m| && !(hlo / 4 <= k < hhi / 4) && k != hhi / 4 ==> m2[k] == m[k]
    ensures Layout(m2, start, end, bs[..lo] + [merged] + WithPrevUsed(bs[hi..], false))
  {
    var n := bs[hi].(prevUsed := false);
    HeaderFacts(m, start, end, bs, hi);
    MergedPairTiles(m, m2, merged, n, hlo, hhi);
    MergedShape(bs, lo, hi, merged);
    ReplaceBlocks(m, m2, start, end, bs, lo, hi + 1, hlo, hhi + n.size, [merged, n],
                  bs[..lo] + [merged] + WithPrevUsed(bs[hi..], false));
  }

  /** The merged block followed by the allocated block `n`, whose header at
      `hhi` is written, tile their joint range, and no word outside it
      changed. */
  lemma MergedPairTiles(m: seq<int>, m2: seq<int>, merged: Block, n: Block, hlo: int, hhi: int)
    requires Tiled(m2, [merged], hlo, hhi) && hlo <= hhi && hhi % 8 == 4 && |m2| == |m|
    requires n.used && ValidSize(n.size) && WordIs(m2, hhi, Pack(n))
    requires forall k :: 0 <= k < |m| && !(hlo / 4 <= k < hhi / 4) && k != hhi / 4 ==> m2[k] == m[k]
    ensures Tiled(m2, [merged, n], hlo, hhi + n.size)
    ensures forall k :: 0 <= k < |m| && !(hlo / 4 <= k < (hhi + n.size) / 4) ==> m2[k] == m[k]
  {
    BlockWords(hhi, n.size);
    FrameWiden(m, m2, hlo / 4, hhi / 4, (hhi + n.size) / 4);
    TiledOne(m2, n, hhi, hhi + n.size);
    TiledTwo(m2, merged, n, hlo, hhi, hhi + n.size);
  }

  /** Free where the end mark follows the merged range. */
  lemma CoalesceBeforeEnd(m: seq<int>, m2: seq<int>, start: int, end: int, bs: seq<Block>,
                          lo: int, hi: int, hlo: int, hhi: int, merged: Block)
    requires Layout(m, start, end, bs) && 0 <= lo < hi == |bs| && |m2| == |m|
    requires hlo == HeaderAt(start, bs, lo) && hhi == HeaderAt(start, bs, hi)
    requires Tiled(m2, [merged], hlo, hhi)
    requires forall k :: 0 <= k < |m| && !(hlo / 4 <= k < hhi / 4) ==> m2[k] == m[k]
    ensures Layout(m2, start, end, bs[..lo] + [merged] + WithPrevUsed(bs[hi..], false))
  {
    MergedShape(bs, lo, hi, merged);
    ReplaceBlocks(m, m2, start, end, bs, lo, hi, hlo, hhi, [merged],
                  bs[..lo] + [merged] + WithPrevUsed(bs[hi..], false));
  }
}
