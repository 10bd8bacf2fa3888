/** The allocator's decisions on the abstract block list: which block a
    request takes (best fit, lowest address on ties), how the block list
    changes when a block is taken (exact fit or split) and when one is
    freed (coalescing with free neighbours). The memory-level methods in
    module Heap are proved to follow these functions. */
module Policy {
  import opened BlockHeader
  import opened Options
  import opened HeapLayout

  /** The p-bit of block `j` tells whether block `j - 1` is allocated. */
  ghost predicate PBitAgrees(bs: seq<Block>, j: int)
    requires 0 < j < |bs|
  {
    bs[j].prevUsed == bs[j - 1].used
  }

  /** Every p-bit tells whether the block before is allocated; the first
      block has no predecessor and its p-bit is set. */
  ghost predicate PBitsAgree(bs: seq<Block>)
  {
    && (|bs| > 0 ==> bs[0].prevUsed)
    && forall j :: 0 < j < |bs| ==> PBitAgrees(bs, j)
  }

  /** Blocks `j - 1` and `j` are not both free. */
  ghost predicate NotBothFree(bs: seq<Block>, j: int)
    requires 0 < j < |bs|
  {
    bs[j - 1].used || bs[j].used
  }

  /** Coalescing leaves no two free blocks next to each other. */
  ghost predicate NoAdjacentFree(bs: seq<Block>)
  {
    forall j :: 0 < j < |bs| ==> NotBothFree(bs, j)
  }

  /** The invariants of a heap's block list between two calls. */
  ghost predicate Consistent(bs: seq<Block>)
  {
    && (forall i :: 0 <= i < |bs| ==> ValidSize(bs[i].size))
    && PBitsAgree(bs)
    && NoAdjacentFree(bs)
  }

  /** A free block's p-bit is always set: its predecessor cannot be free. */
  lemma FreeBlockFollowsUsed(bs: seq<Block>, i: int)
    requires Consistent(bs) && 0 <= i < |bs| && !bs[i].used
    ensures bs[i].prevUsed
    ensures i + 1 < |bs| ==> bs[i + 1].used && !bs[i + 1].prevUsed
  {
    if i > 0 {
      assert PBitAgrees(bs, i) && NotBothFree(bs, i);
    }
    if i + 1 < |bs| {
      assert PBitAgrees(bs, i + 1) && NotBothFree(bs, i + 1);
    }
  }

  /** Block size for a request of `request` payload bytes: the request plus
      the 4-byte header, rounded up to a multiple of 8. */
  function EffectiveSize(request: int): (r: int)
    ensures r % 8 == 0 && request + 4 <= r < request + 12
    ensures request >= 1 ==> ValidSize(r)
  {
    RoundUp8(request + 4)
  }

  /** A block that can serve a request of block size `eff`. */
  predicate Fits(b: Block, eff: int)
  {
    !b.used && b.size >= eff
  }

  /** Block `i` is the best fit: it fits, no fitting block is smaller, and
      every fitting block before it is strictly larger. */
  ghost predicate IsBestFit(bs: seq<Block>, eff: int, i: int)
  {
    && 0 <= i < |bs|
    && Fits(bs[i], eff)
    && (forall j :: 0 <= j < |bs| && Fits(bs[j], eff) ==> bs[i].size <= bs[j].size)
    && (forall j :: 0 <= j < i && Fits(bs[j], eff) ==> bs[i].size < bs[j].size)
  }

  /** The block chosen by a left-to-right scan that keeps the smallest
      fitting block seen so far and replaces it only by a strictly smaller one. */
  function BestFit(bs: seq<Block>, eff: int): (r: Option<nat>)
    ensures r.Some? ==> r.value < |bs| && Fits(bs[r.value], eff)
    decreases |bs|
  {
    if bs == [] then None
    else
      var n := |bs| - 1;
      var r := BestFit(bs[..n], eff);
      if Fits(bs[n], eff) && (r.None? || bs[n].size < bs[r.value].size) then Some(n)
      else r
  }

  /** The scan finds nothing exactly when no block fits, and otherwise
      finds the best fit. */
  lemma {:induction false} BestFitIsBest(bs: seq<Block>, eff: int)
    ensures BestFit(bs, eff).None? <==> forall j :: 0 <= j < |bs| ==> !Fits(bs[j], eff)
    ensures BestFit(bs, eff).Some? ==> IsBestFit(bs, eff, BestFit(bs, eff).value)
    decreases |bs|
  {
    if bs != [] {
      var n := |bs| - 1;
      BestFitIsBest(bs[..n], eff);
      assert forall j :: 0 <= j < n ==> bs[..n][j] == bs[j];
    }
  }

  /** One more step of the scan: block `i` replaces the choice among the
      first `i` blocks when it fits and is strictly smaller. */
  lemma BestFitExtend(bs: seq<Block>, eff: int, i: int)
    requires 0 <= i < |bs|
    ensures var r := BestFit(bs[..i], eff);
      BestFit(bs[..i + 1], eff) ==
        if Fits(bs[i], eff) && (r.None? || bs[i].size < bs[r.value].size) then Some(i) else r
  {
    assert bs[..i + 1][..i] == bs[..i];
    var r := BestFit(bs[..i], eff);
    if r.Some? {
      assert bs[..i][r.value] == bs[r.value];
    }
  }

  /** At most one block is the best fit. */
  lemma BestFitUnique(bs: seq<Block>, eff: int, i: int, k: int)
    requires IsBestFit(bs, eff, i) && IsBestFit(bs, eff, k)
    ensures i == k
  {
  }

  /** A best fit of exactly the request's size among the first `k` blocks
      is the best fit of the whole list: the scan may stop there. */
  lemma {:induction false} ExactFitStaysBest(bs: seq<Block>, eff: int, k: int, i: int)
    requires 0 <= i < k <= |bs| && BestFit(bs[..k], eff) == Some(i) && bs[i].size == eff
    ensures BestFit(bs, eff) == Some(i)
    decreases |bs| - k
  {
    if k == |bs| {
      assert bs[..k] == bs;
    } else {
      BestFitExtend(bs, eff, k);
      ExactFitStaysBest(bs, eff, k + 1, i);
    }
  }

  /** The same list with the p-bit of its first block set to `p`. */
  function WithPrevUsed(bs: seq<Block>, p: bool): (r: seq<Block>)
  {
    if bs == [] then [] else [bs[0].(prevUsed := p)] + bs[1..]
  }

  /** The block list after block `i` (free, of size at least `eff`) serves a
      request of block size `eff`. An exact fit only becomes allocated and
      sets its successor's p-bit; a larger block is split into an allocated
      front of size `eff` and a free remainder, both keeping the original
      block's p-bit. */
  function Place(bs: seq<Block>, i: int, eff: int): seq<Block>
    requires 0 <= i < |bs|
  {
    if bs[i].size == eff then
      bs[..i] + [bs[i].(used := true)] + WithPrevUsed(bs[i + 1..], true)
    else
      bs[..i] + [Block(eff, true, bs[i].prevUsed), Block(bs[i].size - eff, false, bs[i].prevUsed)] + bs[i + 1..]
  }

  /** The list after a split: the served block and the free remainder in
      place of block `i`. */
  lemma PlaceSplitShape(bs: seq<Block>, i: int, eff: int)
    requires 0 <= i < |bs| && bs[i].size != eff
    ensures Place(bs, i, eff)
            == bs[..i] + [Block(eff, true, bs[i].prevUsed), Block(bs[i].size - eff, false, bs[i].prevUsed)] + bs[i + 1..]
  {
  }

  /** A split never leaves a remainder below the minimum block size: both
      sizes are multiples of 8 and equal sizes take the exact-fit path. */
  lemma SplitRemainder(size: int, eff: int)
    requires ValidSize(size) && ValidSize(eff) && size >= eff && size != eff
    ensures ValidSize(size - eff)
  {
    Eighth(size - eff, size / 8 - eff / 8, 0);
  }

  /** Total size of a one- or two-block list. */
  lemma SumSmall(a: Block, b: Block)
    ensures SumSizes([a]) == a.size
    ensures SumSizes([a, b]) == a.size + b.size
  {
    assert [a][1..] == [];
    assert [b][1..] == [];
    assert [a, b][1..] == [b];
  }

  /** Changing the first p-bit changes no size. */
  lemma SumWithPrevUsed(bs: seq<Block>, p: bool)
    ensures SumSizes(WithPrevUsed(bs, p)) == SumSizes(bs)
    ensures |WithPrevUsed(bs, p)| == |bs|
  {
    if bs != [] {
      assert WithPrevUsed(bs, p)[1..] == bs[1..];
    }
  }

  /** Replacing the middle of a list by blocks of the same total size keeps
      the total size. */
  lemma SumReplace(pre: seq<Block>, mid: seq<Block>, post: seq<Block>, mid2: seq<Block>, post2: seq<Block>)
    requires SumSizes(mid) == SumSizes(mid2) && SumSizes(post) == SumSizes(post2)
    ensures SumSizes(pre + mid + post) == SumSizes(pre + mid2 + post2)
  {
    SumAppend(pre + mid, post);
    SumAppend(pre, mid);
    SumAppend(pre + mid2, post2);
    SumAppend(pre, mid2);
  }

  lemma PlaceExact(bs: seq<Block>, i: int)
    requires Consistent(bs) && 0 <= i < |bs| && !bs[i].used
    ensures Consistent(Place(bs, i, bs[i].size))
    ensures SumSizes(Place(bs, i, bs[i].size)) == SumSizes(bs)
    ensures |Place(bs, i, bs[i].size)| == |bs|
  {
    var r := Place(bs, i, bs[i].size);
    var post := WithPrevUsed(bs[i + 1..], true);
    SumWithPrevUsed(bs[i + 1..], true);
    assert |r| == |bs|;
    assert Consistent(r) by {
      FreeBlockFollowsUsed(bs, i);
      assert forall j :: 0 <= j < |bs| && j != i && j != i + 1 ==> r[j] == bs[j];
      assert r[i] == bs[i].(used := true);
      assert i + 1 < |bs| ==> r[i + 1] == bs[i + 1].(prevUsed := true);
      forall j | 0 < j < |r| ensures PBitAgrees(r, j) && NotBothFree(r, j) {
        assert PBitAgrees(bs, j) && NotBothFree(bs, j);
      }
    }
    assert bs == bs[..i] + [bs[i]] + bs[i + 1..];
    SumSmall(bs[i], bs[i]);
    SumSmall(r[i], r[i]);
    SumReplace(bs[..i], [bs[i]], bs[i + 1..], [r[i]], post);
  }

  lemma PlaceSplit(bs: seq<Block>, i: int, eff: int)
    requires Consistent(bs) && 0 <= i < |bs| && Fits(bs[i], eff) && ValidSize(eff) && bs[i].size != eff
    ensures Consistent(Place(bs, i, eff))
    ensures SumSizes(Place(bs, i, eff)) == SumSizes(bs)
    ensures |Place(bs, i, eff)| == |bs| + 1
  {
    var f := Block(eff, true, bs[i].prevUsed);
    var rem := Block(bs[i].size - eff, false, bs[i].prevUsed);
    PlaceSplitConsistent(bs, i, eff);
    assert bs == bs[..i] + [bs[i]] + bs[i + 1..];
    SumSmall(bs[i], bs[i]);
    SumSmall(f, rem);
    SumReplace(bs[..i], [bs[i]], bs[i + 1..], [f, rem], bs[i + 1..]);
  }

  lemma PlaceSplitConsistent(bs: seq<Block>, i: int, eff: int)
    requires Consistent(bs) && 0 <= i < |bs| && Fits(bs[i], eff) && ValidSize(eff) && bs[i].size != eff
    ensures Consistent(Place(bs, i, eff))
  {
    var f := Block(eff, true, bs[i].prevUsed);
    var rem := Block(bs[i].size - eff, false, bs[i].prevUsed);
    var r := bs[..i] + [f, rem] + bs[i + 1..];
    assert Place(bs, i, eff) == r;
    FreeBlockFollowsUsed(bs, i);
    SplitRemainder(bs[i].size, eff);
    assert |r| == |bs| + 1;
    forall j | 0 <= j < |r| ensures ValidSize(r[j].size) {
      if j < i {
        assert r[j] == bs[j];
      } else if j > i + 1 {
        assert r[j] == bs[j - 1];
      }
    }
    forall j | 0 < j < |r| ensures PBitAgrees(r, j) && NotBothFree(r, j) {
      if j < i {
        assert r[j] == bs[j] && r[j - 1] == bs[j - 1];
        assert PBitAgrees(bs, j) && NotBothFree(bs, j);
      } else if j == i {
        assert r[j] == f && r[j - 1] == bs[j - 1];
        assert PBitAgrees(bs, j);
      } else if j == i + 1 {
        assert r[j] == rem && r[j - 1] == f;
      } else if j == i + 2 {
        assert r[j] == bs[i + 1] && r[j - 1] == rem;
      } else {
        assert r[j] == bs[j - 1] && r[j - 1] == bs[j - 2];
        assert PBitAgrees(bs, j - 1) && NotBothFree(bs, j - 1);
      }
    }
    assert |r| > 0 ==> r[0].prevUsed by {
      if i > 0 { assert r[0] == bs[0]; } else { assert r[0] == f; }
    }
  }

  /** Serving a request keeps the list consistent and its total size, and the
      served block is allocated with exactly the effective size. */
  lemma PlaceKeepsInvariants(bs: seq<Block>, i: int, eff: int)
    requires Consistent(bs) && 0 <= i < |bs| && Fits(bs[i], eff) && ValidSize(eff)
    ensures Consistent(Place(bs, i, eff))
    ensures SumSizes(Place(bs, i, eff)) == SumSizes(bs)
    ensures |Place(bs, i, eff)| == if bs[i].size == eff then |bs| else |bs| + 1
    ensures Place(bs, i, eff)[i] == Block(eff, true, true)
    ensures forall j :: 0 <= j < i ==> Place(bs, i, eff)[j] == bs[j]
  {
    FreeBlockFollowsUsed(bs, i);
    if bs[i].size == eff {
      PlaceExact(bs, i);
    } else {
      PlaceSplit(bs, i, eff);
    }
  }

  /** Index of the first block merged when block `i` is freed: its
      predecessor when the p-bit says that one is free. */
  function MergeLo(bs: seq<Block>, i: int): int
    requires 0 <= i < |bs|
  {
    if i > 0 && !bs[i].prevUsed then i - 1 else i
  }

  /** One past the last block merged when block `i` is freed: its successor
      is absorbed when free (the end mark never is). */
  function MergeHi(bs: seq<Block>, i: int): int
    requires 0 <= i < |bs|
  {
    if i + 1 < |bs| && !bs[i + 1].used then i + 2 else i + 1
  }

  /** The blocks just outside the merged range of a free are allocated. */
  lemma MergeNeighbours(bs: seq<Block>, i: int)
    requires Consistent(bs) && 0 <= i < |bs| && bs[i].used
    ensures 0 <= MergeLo(bs, i) <= i < MergeHi(bs, i) <= |bs|
    ensures MergeHi(bs, i) < |bs| ==> bs[MergeHi(bs, i)].used
    ensures MergeLo(bs, i) > 0 ==> bs[MergeLo(bs, i) - 1].used
  {
    if i + 2 < |bs| && !bs[i + 1].used {
      assert NotBothFree(bs, i + 2);
    }
    if i > 0 {
      assert PBitAgrees(bs, i);
    }
    if i > 0 && !bs[i].prevUsed {
      if i > 1 {
        assert NotBothFree(bs, i - 1);
      }
    }
  }

  /** The block list after block `i` is freed: blocks MergeLo..MergeHi become
      one free block that keeps the p-bit of the leftmost, and the block after
      it has its p-bit cleared. */
  function Coalesce(bs: seq<Block>, i: int): seq<Block>
    requires 0 <= i < |bs|
  {
    var lo, hi := MergeLo(bs, i), MergeHi(bs, i);
    bs[..lo] + [Block(SumSizes(bs[lo..hi]), false, bs[lo].prevUsed)] + WithPrevUsed(bs[hi..], false)
  }

  /** The shape of the list after a free: the blocks before MergeLo are
      unchanged, the merged block follows, then the rest with the first
      p-bit cleared. */
  lemma CoalesceShape(bs: seq<Block>, i: int)
    requires 0 <= i < |bs|
    ensures var lo, hi, r := MergeLo(bs, i), MergeHi(bs, i), Coalesce(bs, i);
      && |r| == |bs| - (hi - lo) + 1
      && (forall j :: 0 <= j < lo ==> r[j] == bs[j])
      && r[lo] == Block(SumSizes(bs[lo..hi]), false, bs[lo].prevUsed)
      && (lo + 1 < |r| ==> r[lo + 1] == bs[hi].(prevUsed := false))
      && (forall j :: lo + 1 < j < |r| ==> r[j] == bs[j - lo - 1 + hi])
  {
    var lo, hi := MergeLo(bs, i), MergeHi(bs, i);
    SumWithPrevUsed(bs[hi..], false);
  }

  /** Freeing an allocated block keeps the list consistent (in particular no
      two free blocks end up adjacent) and its total size; the merged block
      is free and sits at index MergeLo. */
  lemma CoalesceKeepsInvariants(bs: seq<Block>, i: int)
    requires Consistent(bs) && 0 <= i < |bs| && bs[i].used
    ensures Consistent(Coalesce(bs, i))
    ensures SumSizes(Coalesce(bs, i)) == SumSizes(bs)
    ensures |Coalesce(bs, i)| == |bs| - (MergeHi(bs, i) - MergeLo(bs, i)) + 1
    ensures !Coalesce(bs, i)[MergeLo(bs, i)].used
  {
    CoalesceConsistent(bs, i);
    CoalesceSum(bs, i);
  }

  lemma CoalesceConsistent(bs: seq<Block>, i: int)
    requires Consistent(bs) && 0 <= i < |bs| && bs[i].used
    ensures Consistent(Coalesce(bs, i))
  {
    CoalesceSizes(bs, i);
    CoalesceBits(bs, i);
  }

  /** Every block left by a free has a valid size. */
  lemma CoalesceSizes(bs: seq<Block>, i: int)
    requires Consistent(bs) && 0 <= i < |bs| && bs[i].used
    ensures forall j :: 0 <= j < |Coalesce(bs, i)| ==> ValidSize(Coalesce(bs, i)[j].size)
  {
    var lo, hi := MergeLo(bs, i), MergeHi(bs, i);
    var r := Coalesce(bs, i);
    CoalesceShape(bs, i);
    assert forall j :: 0 <= j < hi - lo ==> bs[lo..hi][j] == bs[lo + j];
    SumOfValidSizes(bs[lo..hi]);
    forall j | 0 <= j < |r| ensures ValidSize(r[j].size) {
      if j < lo {
        assert r[j] == bs[j];
      } else if j == lo + 1 {
        assert r[j].size == bs[hi].size;
      } else if j > lo + 1 {
        assert r[j] == bs[j - lo - 1 + hi];
      }
    }
  }

  /** After a free, every p-bit still tells whether the block before is
      allocated, and no two free blocks are adjacent. */
  lemma CoalesceBits(bs: seq<Block>, i: int)
    requires Consistent(bs) && 0 <= i < |bs| && bs[i].used
    ensures PBitsAgree(Coalesce(bs, i)) && NoAdjacentFree(Coalesce(bs, i))
  {
    var lo, hi := MergeLo(bs, i), MergeHi(bs, i);
    var r := Coalesce(bs, i);
    CoalesceShape(bs, i);
    MergeNeighbours(bs, i);
    forall j | 0 < j < |r| ensures PBitAgrees(r, j) && NotBothFree(r, j) {
      if j < lo {
        assert r[j] == bs[j] && r[j - 1] == bs[j - 1];
        assert PBitAgrees(bs, j) && NotBothFree(bs, j);
      } else if j == lo {
        assert r[j - 1] == bs[lo - 1];
        assert PBitAgrees(bs, lo);
      } else if j == lo + 1 {
        assert r[j] == bs[hi].(prevUsed := false);
      } else if j == lo + 2 {
        assert r[j] == bs[hi + 1] && r[j - 1].used == bs[hi].used;
        assert PBitAgrees(bs, hi + 1) && NotBothFree(bs, hi + 1);
      } else {
        var k := j - lo - 1 + hi;
        assert r[j] == bs[k] && r[j - 1] == bs[k - 1];
        assert PBitAgrees(bs, k) && NotBothFree(bs, k);
      }
    }
    assert |r| > 0 ==> r[0].prevUsed by {
      if lo > 0 { assert r[0] == bs[0]; }
    }
  }

  lemma CoalesceSum(bs: seq<Block>, i: int)
    requires 0 <= i < |bs|
    ensures SumSizes(Coalesce(bs, i)) == SumSizes(bs)
    ensures |Coalesce(bs, i)| == |bs| - (MergeHi(bs, i) - MergeLo(bs, i)) + 1
    ensures !Coalesce(bs, i)[MergeLo(bs, i)].used
  {
    var lo, hi := MergeLo(bs, i), MergeHi(bs, i);
    var merged := Block(SumSizes(bs[lo..hi]), false, bs[lo].prevUsed);
    var post := WithPrevUsed(bs[hi..], false);
    assert Coalesce(bs, i) == bs[..lo] + [merged] + post;
    SumWithPrevUsed(bs[hi..], false);
    SumSmall(merged, merged);
    assert bs == bs[..lo] + bs[lo..hi] + bs[hi..];
    SumReplace(bs[..lo], bs[lo..hi], bs[hi..], [merged], post);
    assert (bs[..lo] + [merged] + post)[lo] == merged;
  }

  /** Freeing a block right after it was served gives back the block list
      as it was before the request, whether the request was an exact fit or
      a split. */
  lemma PlaceThenCoalesce(bs: seq<Block>, i: int, eff: int)
    requires Consistent(bs) && 0 <= i < |bs| && Fits(bs[i], eff) && ValidSize(eff)
    ensures Coalesce(Place(bs, i, eff), i) == bs
  {
    if bs[i].size == eff {
      ExactThenCoalesce(bs, i);
    } else {
      SplitThenCoalesce(bs, i, eff);
    }
  }

  /** Freeing an exact fit clears the a-bit again and gives the next block
      back its clear p-bit. */
  lemma ExactThenCoalesce(bs: seq<Block>, i: int)
    requires Consistent(bs) && 0 <= i < |bs| && !bs[i].used
    ensures Coalesce(Place(bs, i, bs[i].size), i) == bs
  {
    FreeBlockFollowsUsed(bs, i);
    ExactThenCoalesceAt(bs, i);
  }

  /** The list reasoning of `ExactThenCoalesce`, from the flags around the
      free block `i` alone. */
  lemma ExactThenCoalesceAt(bs: seq<Block>, i: int)
    requires 0 <= i < |bs| && !bs[i].used && bs[i].prevUsed
    requires i + 1 < |bs| ==> bs[i + 1].used && !bs[i + 1].prevUsed
    ensures Coalesce(Place(bs, i, bs[i].size), i) == bs
  {
    var a := bs[i].(used := true);
    var rest := WithPrevUsed(bs[i + 1..], true);
    var p := bs[..i] + [a] + rest;
    assert Place(bs, i, bs[i].size) == p;
    assert p[i] == a && p[..i] == bs[..i] && p[i + 1..] == rest;
    if i + 1 < |bs| {
      assert p[i + 1] == bs[i + 1].(prevUsed := true);
    }
    assert MergeLo(p, i) == i && MergeHi(p, i) == i + 1;
    assert p[i..i + 1] == [a];
    SumSmall(a, a);
    assert WithPrevUsed(rest, false) == bs[i + 1..];
    assert bs == bs[..i] + [bs[i]] + bs[i + 1..];
  }

  /** Freeing the front of a split merges it with the free remainder into
      the block that was split. */
  lemma SplitThenCoalesce(bs: seq<Block>, i: int, eff: int)
    requires Consistent(bs) && 0 <= i < |bs| && Fits(bs[i], eff) && ValidSize(eff) && bs[i].size != eff
    ensures Coalesce(Place(bs, i, eff), i) == bs
  {
    FreeBlockFollowsUsed(bs, i);
    SplitThenCoalesceAt(bs, i, eff);
  }

  /** The list reasoning of `SplitThenCoalesce`, from the flags around the
      free block `i` alone. */
  lemma SplitThenCoalesceAt(bs: seq<Block>, i: int, eff: int)
    requires 0 <= i < |bs| && !bs[i].used && bs[i].prevUsed && bs[i].size != eff
    requires i + 1 < |bs| ==> bs[i + 1].used && !bs[i + 1].prevUsed
    ensures Coalesce(Place(bs, i, eff), i) == bs
  {
    var f, r := Block(eff, true, bs[i].prevUsed), Block(bs[i].size - eff, false, bs[i].prevUsed);
    var p := bs[..i] + [f, r] + bs[i + 1..];
    assert Place(bs, i, eff) == p;
    assert p[i] == f && p[i + 1] == r && p[..i] == bs[..i];
    assert MergeLo(p, i) == i && MergeHi(p, i) == i + 2;
    assert p[i..i + 2] == [f, r];
    SumSmall(f, r);
    assert p[i + 2..] == bs[i + 1..];
    assert WithPrevUsed(bs[i + 1..], false) == bs[i + 1..];
    assert bs == bs[..i] + [bs[i]] + bs[i + 1..];
  }

  /** The first request on a fresh 4096-byte heap (4088 bytes of blocks):
      100 bytes become a 104-byte block split off the single free block, and
      freeing it restores the fresh heap. */
  lemma FirstRequestScenario()
    ensures EffectiveSize(100) == 104
    ensures BestFit([Block(4088, false, true)], 104) == Some(0)
    ensures Place([Block(4088, false, true)], 0, 104) == [Block(104, true, true), Block(3984, false, true)]
    ensures Coalesce([Block(104, true, true), Block(3984, false, true)], 0) == [Block(4088, false, true)]
  {
    var bs := [Block(4088, false, true)];
    assert bs[..0] == [] && bs[1..] == [];
    var p := [Block(104, true, true), Block(3984, false, true)];
    assert p[0..2] == [p[0], p[1]] && p[2..] == [] && p[..0] == [];
    SumSmall(p[0], p[1]);
  }

  /** Free blocks of 32, 64 and 48 bytes between allocated ones: a 40-byte
      block goes to the 48-byte one, the smallest that fits; of two equally
      small candidates the lower one is chosen. */
  lemma BestFitScenario()
    ensures BestFit([Block(32, false, true), Block(8, true, false), Block(64, false, true),
                     Block(8, true, false), Block(48, false, true)], 40) == Some(4)
    ensures BestFit([Block(48, false, true), Block(8, true, false), Block(48, false, true)], 40) == Some(0)
  {
    var bs := [Block(32, false, true), Block(8, true, false), Block(64, false, true),
               Block(8, true, false), Block(48, false, true)];
    assert bs[..4][..3] == bs[..3] && bs[..3][..2] == bs[..2] && bs[..2][..1] == bs[..1];
    var cs := [Block(48, false, true), Block(8, true, false), Block(48, false, true)];
    assert cs[..2][..1] == cs[..1];
  }
}
