/** The words each allocator operation reads and writes, stated on the
    memory as a sequence of words: what alloc and free_block find in
    memory before they write (the sizes and flags they decode there), and
    what their writes leave (the new layout, and no word changed outside
    the ones they write). The methods of module Allocator read and write
    the words; the lemmas here carry the reasoning about them. */
module Words {
  import opened BlockHeader
  import opened HeapLayout
  import opened Policy
  import opened Steps

  /** `m2` differs from `m` at most in the words `ws`. */
  ghost predicate UnchangedExcept(m: seq<int>, m2: seq<int>, ws: set<int>)
  {
    |m2| == |m| && forall k :: 0 <= k < |m| && k !in ws ==> m2[k] == m[k]
  }

  /** The words alloc writes when it serves a request of block size `eff`
      with block `i`: the header, and either the next header (exact fit,
      unless it is the end mark) or the remainder's header and footer. */
  ghost function AllocWrites(start: int, bs: seq<Block>, i: int, eff: int): set<int>
    requires 0 <= i < |bs|
  {
    if bs[i].size == eff then ExactWordSet(HeaderAt(start, bs, i), eff, i + 1 < |bs|)
    else SplitWordSet(HeaderAt(start, bs, i), eff, bs[i].size)
  }

  /** The words of an exact fit of `eff` bytes at `h`: the header, and the
      next header when there is one. */
  ghost function ExactWordSet(h: int, eff: int, hasNext: bool): set<int>
  {
    if hasNext then {h / 4, (h + eff) / 4} else {h / 4}
  }

  /** The words of a split of the `s`-byte block at `h` with a front of
      `eff` bytes: the header, the remainder's header and its footer. */
  ghost function SplitWordSet(h: int, eff: int, s: int): set<int>
  {
    {h / 4, (h + eff) / 4, (h + s - 4) / 4}
  }

  /** The words free_block writes when it frees block `i`: that block's
      header, the header of the merged block, the merged block's footer and,
      unless it is the end mark, the header after it. */
  ghost function FreeWrites(start: int, bs: seq<Block>, i: int): set<int>
    requires 0 <= i < |bs|
  {
    var hi := HeaderAt(start, bs, MergeHi(bs, i));
    {HeaderAt(start, bs, i) / 4, HeaderAt(start, bs, MergeLo(bs, i)) / 4, (hi - 4) / 4}
      + (if MergeHi(bs, i) < |bs| then {hi / 4} else {})
  }


  /** The footer that free_block writes for the merged block lies below
      `heap_end`, so its guard `ptr_footer < heap_end` always holds. */
  lemma MergedFooterInHeap(m: seq<int>, start: int, end: int, bs: seq<Block>, i: int)
    requires Layout(m, start, end, bs) && Consistent(bs) && 0 <= i < |bs| && bs[i].used
    ensures start <= HeaderAt(start, bs, MergeHi(bs, i)) - 4 < end
  {
    MergeNeighbours(bs, i);
    HeaderFacts(m, start, end, bs, i);
    HeaderFacts(m, start, end, bs, i + 1);
    HeaderFacts(m, start, end, bs, MergeHi(bs, i));
  }

  /** What free_block reads after block `i`: the next header or the end
      mark, and where the merged range ends. */
  lemma FreeFactsNext(m: seq<int>, start: int, end: int, bs: seq<Block>, i: int)
    requires Layout(m, start, end, bs) && Consistent(bs) && 0 <= i < |bs| && bs[i].used
    ensures var h, n, hi := HeaderAt(start, bs, i), HeaderAt(start, bs, i + 1), MergeHi(bs, i);
      var hhi := HeaderAt(start, bs, hi);
      && i < hi <= |bs|
      && 0 <= start <= h && n == h + bs[i].size && h + 8 <= n <= hhi <= end
      && h % 8 == 4 && hhi % 8 == 4 && bs[i].size % 8 == 0
      && (i + 1 < |bs| ==> WordIs(m, n, Pack(bs[i + 1])) && bs[i + 1].size % 8 == 0)
      && (i + 1 == |bs| ==> WordIs(m, n, EndMark))
      && (hi == i + 2 ==> i + 1 < |bs| && !bs[i + 1].used && hhi == n + bs[i + 1].size)
      && (hi == i + 1 ==> hhi == n && (i + 1 < |bs| ==> bs[i + 1].used))
      && (hi < |bs| ==> WordIs(m, hhi, Pack(bs[hi])) && bs[hi].size % 8 == 0 && bs[hi].used)
      && (hi == |bs| ==> WordIs(m, hhi, EndMark))
  {
    var hi := MergeHi(bs, i);
    MergeNeighbours(bs, i);
    HeaderFacts(m, start, end, bs, i);
    HeaderFacts(m, start, end, bs, i + 1);
    HeaderFacts(m, start, end, bs, hi);
  }

  /** What free_block reads before block `i`: the footer of a free
      predecessor, and where the merged range begins. */
  lemma FreeFactsPrev(m: seq<int>, start: int, end: int, bs: seq<Block>, i: int)
    requires Layout(m, start, end, bs) && Consistent(bs) && 0 <= i < |bs| && bs[i].used
    ensures var h, lo := HeaderAt(start, bs, i), MergeLo(bs, i);
      var hlo := HeaderAt(start, bs, lo);
      && 0 <= lo <= i && start <= hlo <= h && hlo % 8 == 4
      && (lo == i - 1 <==> !bs[i].prevUsed)
      && (lo == i - 1 ==> WordIs(m, h - 4, bs[i - 1].size) && hlo == h - bs[i - 1].size)
      && (lo == i ==> hlo == h)
      && WordIs(m, hlo, Pack(bs[lo])) && bs[lo].size % 8 == 0
  {
    var lo := MergeLo(bs, i);
    MergeNeighbours(bs, i);
    HeaderFacts(m, start, end, bs, lo);
    if lo == i - 1 {
      assert PBitAgrees(bs, i);
      HeaderFacts(m, start, end, bs, i - 1);
    } else if i > 0 {
      assert bs[i].prevUsed;
    } else {
      assert bs[0].prevUsed;
    }
  }

  /** Word indices of three headers in increasing order, and of the word
      just below the last one. */
  lemma WordOrder(h: int, n: int, hhi: int)
    requires h % 8 == 4 && n % 8 == 4 && hhi % 8 == 4 && h < n <= hhi
    ensures h / 4 < n / 4 <= hhi / 4
    ensures h / 4 <= (hhi - 4) / 4 < hhi / 4
  {
    HeaderWord(h);
    HeaderWord(n);
    HeaderWord(hhi);
    Quarter(hhi - 4, 2 * (hhi / 8), 0);
  }

  /** What the exact-fit branch of alloc reads: the header at `h`, which
      with its a-bit added becomes `hdr`, and the word at `n` just after the
      block, a header whose p-bit is clear exactly when `hasNext` (it then
      becomes `next` with its p-bit added); otherwise `n` is the end mark. */
  ghost predicate ExactReads(m: seq<int>, h: int, n: int, end: int, hdr: int, next: int, hasNext: bool)
  {
    && 0 <= h / 4 < n / 4 < |m|
    && m[h / 4] + 1 == hdr
    && ((n < end && PBitMask(m[n / 4]) == 0) <==> hasNext)
    && (hasNext ==> m[n / 4] + 2 == next)
  }

  /** The exact-fit branch finds what it expects at free block `i`. */
  lemma ExactFitWords(m: seq<int>, start: int, end: int, bs: seq<Block>, i: int)
    requires Layout(m, start, end, bs) && Consistent(bs) && 0 <= i < |bs| && !bs[i].used
    ensures var h := HeaderAt(start, bs, i);
      && ExactReads(m, h, h + bs[i].size, end, Pack(bs[i].(used := true)),
                    if i + 1 < |bs| then Pack(bs[i + 1].(prevUsed := true)) else 0, i + 1 < |bs|)
      && (h + 4) % 8 == 0 && start < h + 4 < end
  {
    var h := HeaderAt(start, bs, i);
    HeaderFacts(m, start, end, bs, i);
    HeaderFacts(m, start, end, bs, i + 1);
    FreeBlockFollowsUsed(bs, i);
    if i + 1 < |bs| {
      ExactWordsBeforeBlock(m, start, end, h, bs[i], bs[i + 1]);
    } else {
      ExactWordsBeforeEnd(m, start, end, h, bs[i]);
    }
  }

  /** The exact-fit reads of a free block `b` at `h` followed by the
      allocated block `nb`, whose p-bit is clear. */
  lemma ExactWordsBeforeBlock(m: seq<int>, start: int, end: int, h: int, b: Block, nb: Block)
    requires start <= h && h % 8 == 4 && ValidSize(b.size) && !b.used
    requires WordIs(m, h, Pack(b)) && WordIs(m, h + b.size, Pack(nb))
    requires ValidSize(nb.size) && !nb.prevUsed && h + b.size + nb.size <= end
    ensures ExactReads(m, h, h + b.size, end, Pack(b.(used := true)), Pack(nb.(prevUsed := true)), true)
    ensures (h + 4) % 8 == 0 && start < h + 4 < end
  {
    BlockWords(h, b.size);
    UnflaggedHeader(nb);
  }

  /** The exact-fit reads of a free block `b` at `h` that ends at the end
      mark. */
  lemma ExactWordsBeforeEnd(m: seq<int>, start: int, end: int, h: int, b: Block)
    requires start <= h && h % 8 == 4 && ValidSize(b.size) && !b.used
    requires WordIs(m, h, Pack(b)) && WordIs(m, h + b.size, EndMark) && h + b.size == end
    ensures ExactReads(m, h, h + b.size, end, Pack(b.(used := true)), 0, false)
    ensures (h + 4) % 8 == 0 && start < h + 4 < end
  {
    BlockWords(h, b.size);
  }

  /** A header with a clear p-bit gains it by adding 2. */
  lemma UnflaggedHeader(b: Block)
    requires b.size % 8 == 0 && !b.prevUsed
    ensures PBitMask(Pack(b)) == 0 && Pack(b) + 2 == Pack(b.(prevUsed := true))
  {
    PackRoundTrip(b);
  }

  /** What the exact-fit writes leave: the layout of `Place`, and no
      other word changed. */
  lemma ExactFitResult(m: seq<int>, m2: seq<int>, start: int, end: int, bs: seq<Block>, i: int)
    requires Layout(m, start, end, bs) && Consistent(bs) && 0 <= i < |bs| && !bs[i].used
    requires var h := HeaderAt(start, bs, i); var n := h + bs[i].size;
      && 0 <= h / 4 < n / 4 < |m|
      && m2 == if i + 1 < |bs|
               then m[h / 4 := Pack(bs[i].(used := true))][n / 4 := Pack(bs[i + 1].(prevUsed := true))]
               else m[h / 4 := Pack(bs[i].(used := true))]
    ensures Layout(m2, start, end, Place(bs, i, bs[i].size)) && Consistent(Place(bs, i, bs[i].size))
    ensures UnchangedExcept(m, m2, AllocWrites(start, bs, i, bs[i].size))
  {
    var h := HeaderAt(start, bs, i);
    var n := h + bs[i].size;
    var ws := AllocWrites(start, bs, i, bs[i].size);
    assert ws == if i + 1 < |bs| then {h / 4, n / 4} else {h / 4};
    forall k | 0 <= k < |m| && k !in ws ensures m2[k] == m[k] {
      assert k != h / 4 && (i + 1 < |bs| ==> k != n / 4);
    }
    PlaceKeepsInvariants(bs, i, bs[i].size);
    ExactFitStep(m, m2, start, end, bs, i, h);
  }

  /** What the split at the end of alloc reads at the header `h` of a free
      block of `s` bytes with p-bit `p`: the size field, and the p-bit
      that the allocated front of `eff` bytes and the remainder keep. */
  ghost predicate SplitReads(m: seq<int>, h: int, eff: int, s: int, p: bool)
  {
    && 0 <= h && h / 4 < (h + eff) / 4 < (h + s - 4) / 4 < |m|
    && SizeOf(m[h / 4]) == s
    && eff + PBitMask(m[h / 4]) + 1 == Pack(Block(eff, true, p))
    && OrPBit(s - eff, Pack(Block(eff, true, p))) == Pack(Block(s - eff, false, p))
  }

  /** The split finds what it expects at block `i`. */
  lemma SplitWords(m: seq<int>, start: int, end: int, bs: seq<Block>, i: int, eff: int, h: int)
    requires Layout(m, start, end, bs) && Consistent(bs) && 0 <= i < |bs| && h == HeaderAt(start, bs, i)
    requires Fits(bs[i], eff) && ValidSize(eff) && bs[i].size != eff
    ensures SplitReads(m, h, eff, bs[i].size, bs[i].prevUsed)
    ensures (h + 4) % 8 == 0 && start < h + 4 < end
  {
    HeaderFacts(m, start, end, bs, i);
    HeaderFacts(m, start, end, bs, |bs|);
    SplitWordsAt(m, start, end, h, bs[i], eff);
  }

  /** The split reads at the header `h` of block `b`, which holds more
      than `eff` bytes. */
  lemma SplitWordsAt(m: seq<int>, start: int, end: int, h: int, b: Block, eff: int)
    requires start <= h && h % 8 == 4 && h + b.size <= end && end / 4 < |m| && WordIs(m, h, Pack(b))
    requires ValidSize(b.size) && ValidSize(eff) && eff < b.size
    ensures SplitReads(m, h, eff, b.size, b.prevUsed)
    ensures (h + 4) % 8 == 0 && start < h + 4 < end
  {
    PackRoundTrip(b);
    SplitRemainder(b.size, eff);
    PackRoundTrip(Block(eff, true, b.prevUsed));
    OrPBitOfSize(b.size - eff, Pack(Block(eff, true, b.prevUsed)));
    SplitWordOrder(h, eff, b.size);
    QuarterMono(h + b.size, end);
    PayloadAligned(h, h + 4);
  }

  /** What the split writes leave: the layout of `Place`, and no other word
      changed. */
  lemma SplitResult(m: seq<int>, m2: seq<int>, start: int, end: int, bs: seq<Block>, i: int, eff: int, h: int)
    requires Layout(m, start, end, bs) && Consistent(bs) && 0 <= i < |bs| && h == HeaderAt(start, bs, i)
    requires Fits(bs[i], eff) && ValidSize(eff) && bs[i].size != eff && |m2| == |m|
    requires WordIs(m2, h, Pack(Block(eff, true, bs[i].prevUsed)))
    requires WordIs(m2, h + eff, Pack(Block(bs[i].size - eff, false, bs[i].prevUsed)))
    requires WordIs(m2, h + bs[i].size - 4, bs[i].size - eff)
    requires forall k :: 0 <= k < |m| && k != h / 4 && k != (h + eff) / 4 && k != (h + bs[i].size - 4) / 4
                         ==> m2[k] == m[k]
    requires UnchangedExcept(m, m2, SplitWordSet(h, eff, bs[i].size))
    ensures Layout(m2, start, end, Place(bs, i, eff)) && Consistent(Place(bs, i, eff))
    ensures UnchangedExcept(m, m2, AllocWrites(start, bs, i, eff))
  {
    PlaceKeepsInvariants(bs, i, eff);
    SplitStep(m, m2, start, end, bs, i, eff, h);
  }

  /** The three words the split writes, and nothing else, differ after it. */
  lemma SplitWritten(m: seq<int>, m2: seq<int>, h: int, s: int, eff: int, p: bool)
    requires 0 <= h && h / 4 < (h + eff) / 4 < (h + s - 4) / 4 < |m|
    requires m2 == m[h / 4 := Pack(Block(eff, true, p))][(h + s - 4) / 4 := s - eff]
                    [(h + eff) / 4 := Pack(Block(s - eff, false, p))]
    ensures |m2| == |m|
    ensures WordIs(m2, h, Pack(Block(eff, true, p)))
    ensures WordIs(m2, h + eff, Pack(Block(s - eff, false, p)))
    ensures WordIs(m2, h + s - 4, s - eff)
    ensures forall k :: 0 <= k < |m| && k != h / 4 && k != (h + eff) / 4 && k != (h + s - 4) / 4
                        ==> m2[k] == m[k]
    ensures UnchangedExcept(m, m2, SplitWordSet(h, eff, s))
  {
  }

  /** The distance between two header offsets is a multiple of 8. */
  lemma HeaderDistance(a: int, b: int)
    requires a % 8 == 4 && b % 8 == 4
    ensures (b - a) % 8 == 0
  {
    HeaderWord(a);
    HeaderWord(b);
    Eighth(b - a, b / 8 - a / 8, 0);
  }

  /** The word just below a header, where a free predecessor keeps its
      footer, comes right before the header's word. */
  lemma FooterBelow(h: int)
    requires h % 8 == 4 && h >= 4
    ensures 0 <= (h - 4) / 4 < h / 4
  {
    HeaderWord(h);
    Quarter(h - 4, 2 * (h / 8), 0);
  }

  /** What free_block reads at an allocated block `b` with header `h` and
      just after it: its own header, whose a-bit it clears, and the word at
      `h + b.size`, the header of `next` when `hasNext` or else the end mark;
      the merged range ends at `hhi`, past `next` exactly when `merge`. */
  lemma NextReadsAt(m: seq<int>, h: int, b: Block, hhi: int, next: Block, hasNext: bool, merge: bool)
    requires h % 8 == 4 && b.used && ValidSize(b.size) && WordIs(m, h, Pack(b))
    requires hasNext ==> WordIs(m, h + b.size, Pack(next)) && next.size % 8 == 0
    requires !hasNext ==> WordIs(m, h + b.size, EndMark)
    requires merge ==> hasNext && !next.used && hhi == h + b.size + next.size
    requires !merge ==> hhi == h + b.size && (hasNext ==> next.used)
    ensures NextReads(m, h, hhi - h, b.prevUsed)
  {
    var n := h + b.size;
    HeaderIsNotEndMark(b);
    ClearABitPacks(b);
    PackRoundTrip(b.(used := false));
    assert n % 8 == 4 && h / 4 < n / 4 by {
      ShiftByMultipleOf8(h, b.size);
    }
    if hasNext {
      PackRoundTrip(next);
    }
    if merge {
      assert (hhi - h) % 8 == 0 by {
        ShiftByMultipleOf8(h, b.size);
        ShiftByMultipleOf8(n, next.size);
        HeaderDistance(h, hhi);
      }
      OrPBitOfSize(hhi - h, ClearABit(m[h / 4]));
    }
  }

  /** What free_block reads before block `i`: the footer and header of a
      free predecessor, which it merges when the p-bit of block `i` is
      clear. */
  lemma FreeWordsPrev(m: seq<int>, start: int, end: int, bs: seq<Block>, i: int)
    requires Layout(m, start, end, bs) && Consistent(bs) && 0 <= i < |bs| && bs[i].used
    ensures var h := HeaderAt(start, bs, i);
      var lo := MergeLo(bs, i);
      var hlo, hhi := HeaderAt(start, bs, lo), HeaderAt(start, bs, MergeHi(bs, i));
      && 0 <= hlo / 4 <= h / 4 < |m| && (hhi - h) % 8 == 0
      && (bs[i].prevUsed ==> lo == i && hlo == h)
      && (!bs[i].prevUsed ==>
            && 0 <= (h - 4) / 4 < h / 4 && hlo / 4 < h / 4 && m[(h - 4) / 4] == h - hlo
            && OrPBit((hhi - h) + (h - hlo), m[hlo / 4])
               == Pack(Block((hhi - h) + (h - hlo), false, bs[lo].prevUsed)))
  {
    var h := HeaderAt(start, bs, i);
    var lo, hi := MergeLo(bs, i), MergeHi(bs, i);
    var hlo, hhi := HeaderAt(start, bs, lo), HeaderAt(start, bs, hi);
    MergeNeighbours(bs, i);
    HeaderFacts(m, start, end, bs, i);
    HeaderFacts(m, start, end, bs, hi);
    FreeFactsPrev(m, start, end, bs, i);
    HeaderDistance(h, hhi);
    if lo == i - 1 {
      FooterBelow(h);
      WordOrder(hlo, h, h);
      HeaderDistance(hlo, hhi);
      PackRoundTrip(bs[lo]);
      assert (hhi - h) + (h - hlo) == hhi - hlo;
      OrPBitOfSize(hhi - hlo, m[hlo / 4]);
    }
  }

  /** What free_block reads after the merged range: a header, whose p-bit
      it clears, or the end mark, whose size field is 0. */
  lemma FreeWordsAfter(m: seq<int>, start: int, end: int, bs: seq<Block>, i: int)
    requires Layout(m, start, end, bs) && Consistent(bs) && 0 <= i < |bs| && bs[i].used
    ensures var hi := MergeHi(bs, i);
      var hhi := HeaderAt(start, bs, hi);
      && 0 <= hhi / 4 < |m|
      && (SizeOf(m[hhi / 4]) != 0 <==> hi < |bs|)
      && (hi < |bs| ==> ClearPBit(m[hhi / 4]) == Pack(bs[hi].(prevUsed := false)))
  {
    var hi := MergeHi(bs, i);
    FreeFactsNext(m, start, end, bs, i);
    HeaderIsNotEndMark(Block(8, false, false));
    if hi < |bs| {
      PackRoundTrip(bs[hi]);
      HeaderIsNotEndMark(bs[hi]);
      ClearPBitPacks(bs[hi]);
    }
  }

  /** The header, the merged block's header and its last word all lie in
      the merged range, ahead of the header that follows it. */
  lemma FreeSpan(m: seq<int>, start: int, end: int, bs: seq<Block>, i: int)
    requires Layout(m, start, end, bs) && Consistent(bs) && 0 <= i < |bs| && bs[i].used
    ensures var h := HeaderAt(start, bs, i);
      var hlo, hhi := HeaderAt(start, bs, MergeLo(bs, i)), HeaderAt(start, bs, MergeHi(bs, i));
      0 <= hlo / 4 <= h / 4 < (hhi - 4) / 4 < hhi / 4 < |m| && hhi <= end
  {
    MergeNeighbours(bs, i);
    HeaderFacts(m, start, end, bs, i);
    HeaderFacts(m, start, end, bs, MergeHi(bs, i));
    if MergeLo(bs, i) < i {
      HeaderFacts(m, start, end, bs, i - 1);
    }
    if MergeHi(bs, i) > i + 1 {
      HeaderFacts(m, start, end, bs, i + 1);
    }
  }

  /** What the first step of free_block reads at the header `h` it
      releases: once the a-bit is cleared, the size field gives the header
      after the block; when that one is allocated the released block alone
      has size `merged`, and when it is free `merged` adds its size. Either
      way a free header of size `merged` with p-bit `p` results. */
  ghost predicate NextReads(m: seq<int>, h: int, merged: int, p: bool)
  {
    && 0 <= h / 4 < |m|
    && var n := h + SizeOf(ClearABit(m[h / 4]));
       && h / 4 < n / 4 < |m|
       && (ABit(m[n / 4]) ==> merged == n - h && ClearABit(m[h / 4]) == Pack(Block(merged, false, p)))
       && (!ABit(m[n / 4]) ==>
             && merged == n - h + SizeOf(m[n / 4])
             && OrPBit(merged, ClearABit(m[h / 4])) == Pack(Block(merged, false, p)))
  }

  /** What the second step of free_block reads at the header `h`, now of a
      free block of `size` bytes: a set p-bit means the block stays where it
      is (`hlo == h`); a clear one means the footer just below `h` holds the
      distance back to the header `hlo` of the free block before, which
      becomes the header of the merged block with p-bit `p`. */
  ghost predicate PrevReads(m: seq<int>, h: int, size: int, hlo: int, p: bool)
  {
    && 0 <= h / 4 < |m|
    && (PBit(m[h / 4]) ==> hlo == h && m[h / 4] == Pack(Block(size, false, p)))
    && (!PBit(m[h / 4]) ==>
          && 0 <= (h - 4) / 4 < |m| && m[(h - 4) / 4] == h - hlo && 0 <= hlo / 4 < |m|
          && OrPBit(size + (h - hlo), m[hlo / 4]) == Pack(Block(size + (h - hlo), false, p)))
  }

  /** What the last step of free_block reads after the merged block at
      `hdr`, which ends just before `hEnd`: the word at `hEnd`, a header with
      a nonzero size field exactly when `hasNext` (its p-bit then cleared
      gives `next`), or the end mark; the merged block's last word lies
      below `end`. */
  ghost predicate AfterReads(m: seq<int>, hdr: int, hEnd: int, end: int, next: int, hasNext: bool)
  {
    && 0 <= hdr / 4 <= (hEnd - 4) / 4 < hEnd / 4 < |m| && hEnd <= end
    && (SizeOf(m[hEnd / 4]) != 0 <==> hasNext)
    && (hasNext ==> ClearPBit(m[hEnd / 4]) == next)
  }

  /** The first step of free_block finds what it expects at block `i`. */
  lemma NextStepReads(m: seq<int>, start: int, end: int, bs: seq<Block>, i: int, h: int, hhi: int)
    requires Layout(m, start, end, bs) && Consistent(bs) && 0 <= i < |bs| && bs[i].used
    requires h == HeaderAt(start, bs, i) && hhi == HeaderAt(start, bs, MergeHi(bs, i))
    ensures NextReads(m, h, hhi - h, bs[i].prevUsed)
  {
    var hi := MergeHi(bs, i);
    FreeFactsNext(m, start, end, bs, i);
    HeaderFacts(m, start, end, bs, i);
    if i + 1 < |bs| {
      NextReadsAt(m, h, bs[i], hhi, bs[i + 1], true, hi == i + 2);
    } else {
      NextReadsAt(m, h, bs[i], hhi, bs[i], false, false);
    }
  }

  /** The second step of free_block finds what it expects once the first
      has rewritten the header of block `i`. */
  lemma PrevStepReads(m: seq<int>, start: int, end: int, bs: seq<Block>, i: int, h: int, hlo: int, hhi: int)
    requires Layout(m, start, end, bs) && Consistent(bs) && 0 <= i < |bs| && bs[i].used
    requires h == HeaderAt(start, bs, i) && hlo == HeaderAt(start, bs, MergeLo(bs, i))
    requires hhi == HeaderAt(start, bs, MergeHi(bs, i))
    ensures 0 <= h / 4 < |m|
    ensures PrevReads(m[h / 4 := Pack(Block(hhi - h, false, bs[i].prevUsed))], h, hhi - h, hlo,
                      bs[MergeLo(bs, i)].prevUsed)
  {
    FreeWordsPrev(m, start, end, bs, i);
    PrevReadsAfterWrite(m, h, hhi - h, hlo, bs[i].prevUsed, bs[MergeLo(bs, i)].prevUsed);
  }

  /** Word-level core of `PrevStepReads`: rewriting the header at `h` with
      a free block of `size` bytes and p-bit `p` leaves the footer and
      header below it, which the second step reads when `p` is clear. */
  lemma PrevReadsAfterWrite(m: seq<int>, h: int, size: int, hlo: int, p: bool, q: bool)
    requires 0 <= h / 4 < |m| && size % 8 == 0
    requires p ==> hlo == h && q == p
    requires !p ==>
      && 0 <= (h - 4) / 4 < h / 4 && 0 <= hlo / 4 < h / 4 && m[(h - 4) / 4] == h - hlo
      && OrPBit(size + (h - hlo), m[hlo / 4]) == Pack(Block(size + (h - hlo), false, q))
    ensures PrevReads(m[h / 4 := Pack(Block(size, false, p))], h, size, hlo, q)
  {
    PackRoundTrip(Block(size, false, p));
  }

  /** The last step of free_block finds what it expects once the first two
      have rewritten the header of block `i` and the merged block's header. */
  lemma AfterStepReads(m: seq<int>, start: int, end: int, bs: seq<Block>, i: int, h: int, hlo: int, hhi: int)
    requires Layout(m, start, end, bs) && Consistent(bs) && 0 <= i < |bs| && bs[i].used
    requires h == HeaderAt(start, bs, i) && hlo == HeaderAt(start, bs, MergeLo(bs, i))
    requires hhi == HeaderAt(start, bs, MergeHi(bs, i))
    ensures 0 <= hlo / 4 <= h / 4 < |m|
    ensures AfterReads(m[h / 4 := Pack(Block(hhi - h, false, bs[i].prevUsed))]
                        [hlo / 4 := Pack(Block(hhi - hlo, false, bs[MergeLo(bs, i)].prevUsed))],
                       hlo, hhi, end,
                       if MergeHi(bs, i) < |bs| then Pack(bs[MergeHi(bs, i)].(prevUsed := false)) else 0,
                       MergeHi(bs, i) < |bs|)
  {
    FreeSpan(m, start, end, bs, i);
    FreeWordsAfter(m, start, end, bs, i);
  }

  /** The memory free_block leaves, written with the offsets of its three
      steps. */
  lemma FreedMemoryIs(m: seq<int>, start: int, end: int, bs: seq<Block>, i: int, h: int, hlo: int, hhi: int)
    requires Layout(m, start, end, bs) && Consistent(bs) && 0 <= i < |bs| && bs[i].used
    requires h == HeaderAt(start, bs, i) && hlo == HeaderAt(start, bs, MergeLo(bs, i))
    requires hhi == HeaderAt(start, bs, MergeHi(bs, i))
    ensures 0 <= hlo / 4 <= h / 4 < |m| && 0 <= (hhi - 4) / 4 < hhi / 4 < |m|
    ensures var m2 := m[h / 4 := Pack(Block(hhi - h, false, bs[i].prevUsed))]
                       [hlo / 4 := Pack(Block(hhi - hlo, false, bs[MergeLo(bs, i)].prevUsed))];
      FreedMemory(m, start, end, bs, i)
      == (if MergeHi(bs, i) < |bs| then m2[hhi / 4 := Pack(bs[MergeHi(bs, i)].(prevUsed := false))] else m2)
           [(hhi - 4) / 4 := hhi - hlo]
  {
    FreeSpan(m, start, end, bs, i);
  }

  /** The memory free_block leaves when it releases block `i`: block
      `i`'s header holds the size up to the end of the merged range (after
      absorbing a free successor), the merged block's header holds the whole
      merged size and the p-bit of its leftmost block, the header after the
      merged range, unless it is the end mark, loses its p-bit, and the last
      word of the merged range holds the merged size. */
  ghost function FreedMemory(m: seq<int>, start: int, end: int, bs: seq<Block>, i: int): seq<int>
    requires Layout(m, start, end, bs) && Consistent(bs) && 0 <= i < |bs| && bs[i].used
  {
    FreeSpan(m, start, end, bs, i);
    var lo, hi := MergeLo(bs, i), MergeHi(bs, i);
    var h, hlo, hhi := HeaderAt(start, bs, i), HeaderAt(start, bs, lo), HeaderAt(start, bs, hi);
    var m1 := m[h / 4 := Pack(Block(hhi - h, false, bs[i].prevUsed))]
               [hlo / 4 := Pack(Block(hhi - hlo, false, bs[lo].prevUsed))];
    var m2 := if hi < |bs| then m1[hhi / 4 := Pack(bs[hi].(prevUsed := false))] else m1;
    m2[(hhi - 4) / 4 := hhi - hlo]
  }

  /** What the writes of free_block leave: the layout of `Coalesce`, and no
      word changed outside the ones it writes. */
  lemma FreeResult(m: seq<int>, m2: seq<int>, start: int, end: int, bs: seq<Block>, i: int)
    requires Layout(m, start, end, bs) && Consistent(bs) && 0 <= i < |bs| && bs[i].used
    requires m2 == FreedMemory(m, start, end, bs, i)
    ensures Layout(m2, start, end, Coalesce(bs, i)) && Consistent(Coalesce(bs, i))
    ensures UnchangedExcept(m, m2, FreeWrites(start, bs, i))
  {
    var lo, hi := MergeLo(bs, i), MergeHi(bs, i);
    var h, hlo, hhi := HeaderAt(start, bs, i), HeaderAt(start, bs, lo), HeaderAt(start, bs, hi);
    FreeSpan(m, start, end, bs, i);
    assert WordIs(m2, hlo, Pack(Block(hhi - hlo, false, bs[lo].prevUsed)));
    assert WordIs(m2, hhi - 4, hhi - hlo);
    assert hi < |bs| ==> WordIs(m2, hhi, Pack(bs[hi].(prevUsed := false)));
    var ws := FreeWrites(start, bs, i);
    assert ws == {h / 4, hlo / 4, (hhi - 4) / 4} + (if hi < |bs| then {hhi / 4} else {});
    forall k | 0 <= k < |m| && k !in ws ensures m2[k] == m[k] {
      assert k != h / 4 && k != hlo / 4 && k != (hhi - 4) / 4 && (hi < |bs| ==> k != hhi / 4);
    }
    forall k | 0 <= k < |m| && !(hlo / 4 <= k < hhi / 4) && (hi < |bs| ==> k != hhi / 4)
      ensures m2[k] == m[k]
    {
      assert k !in ws;
    }
    CoalesceKeepsInvariants(bs, i);
    CoalesceStep(m, m2, start, end, bs, i, hlo, hhi);
  }
}
