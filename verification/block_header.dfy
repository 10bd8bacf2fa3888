/** The one-word block header ("size_status") of the p3Heap allocator.

    Bits 2 and up hold the block size in bytes (always a multiple of 8),
    bit 0 (the a-bit) says the block is allocated and bit 1 (the p-bit)
    says the block just before it in memory is allocated. A free block
    ends in a footer word that holds its size with both flags clear, and
    the region ends in an end-mark word whose value is 1.

    The bit operations of the C code are written with integer arithmetic.
    Dafny's `%` and `/` by a positive constant round toward minus infinity,
    which is exactly what masking a two's-complement word does, so each
    helper below agrees with its C expression for every word value. */
module BlockHeader {

  /** The three things a header word says about its block. */
  datatype Block = Block(size: int, used: bool, prevUsed: bool)

  /** Value of the end-mark word that closes the region. */
  const EndMark: int := 1

  /** A block size the allocator can produce: a positive multiple of 8
      (header plus footer at the least). */
  predicate ValidSize(size: int) {
    size >= 8 && size % 8 == 0
  }

  /** `w & ~0x3`: the size field. */
  function SizeOf(w: int): int {
    w - w % 4
  }

  /** `(w & 0x1) != 0`: the a-bit. */
  predicate ABit(w: int) {
    w % 2 == 1
  }

  /** `(w & 0x2) != 0`: the p-bit. */
  predicate PBit(w: int) {
    (w / 2) % 2 == 1
  }

  /** The header word of a block. */
  function Pack(b: Block): int {
    b.size + (if b.prevUsed then 2 else 0) + (if b.used then 1 else 0)
  }

  /** What a header word says. */
  function Decode(w: int): Block {
    Block(SizeOf(w), ABit(w), PBit(w))
  }

  /** `w & ~0x1`: the same word with the a-bit cleared. */
  function ClearABit(w: int): (r: int)
    ensures Decode(r) == Decode(w).(used := false)
  {
    Split(w);
    LowBits(w / 4, w % 4 - w % 2);
    w - w % 2
  }

  /** `w & ~0x2`: the same word with the p-bit cleared. */
  function ClearPBit(w: int): (r: int)
    ensures Decode(r) == Decode(w).(prevUsed := false)
  {
    Split(w);
    if PBit(w) then
      LowBits(w / 4, w % 4 - 2);
      w - 2
    else
      w
  }

  /** `x | (w & 0x2)`: `x` with the p-bit of `w` added to it. */
  function OrPBit(x: int, w: int): (r: int)
    ensures Decode(r) == Decode(x).(prevUsed := PBit(x) || PBit(w))
  {
    Split(x);
    if PBit(w) && !PBit(x) then
      LowBits(x / 4, x % 4 + 2);
      x + 2
    else
      x
  }

  /** A word is its size field plus its two low bits. */
  lemma Split(w: int)
    ensures w == 4 * (w / 4) + w % 4 && 0 <= w % 4 < 4
    ensures Decode(w) == Block(4 * (w / 4), w % 4 % 2 == 1, w % 4 >= 2)
  {
    LowBits(w / 4, w % 4);
  }

  /** The flags of `4 * q + k` are the bits of `k`. */
  lemma LowBits(q: int, k: int)
    requires 0 <= k < 4
    ensures Decode(4 * q + k) == Block(4 * q, k % 2 == 1, k >= 2)
  {
    var w := 4 * q + k;
    var lo, hi := k % 2, k / 2;
    assert k == 2 * hi + lo && 0 <= hi < 2;
    Quarter(w, q, k);
    Half(w, 2 * q + hi, lo);
    Half(2 * q + hi, q, hi);
  }

  /** Division by 2 with a known quotient and remainder. */
  lemma Half(x: int, q: int, r: int)
    requires 0 <= r < 2 && x == 2 * q + r
    ensures x / 2 == q && x % 2 == r
  {
  }

  /** Division by 4 with a known quotient and remainder. */
  lemma Quarter(x: int, q: int, r: int)
    requires 0 <= r < 4 && x == 4 * q + r
    ensures x / 4 == q && x % 4 == r
  {
  }

  /** Division by 8 with a known quotient and remainder. */
  lemma Eighth(x: int, q: int, r: int)
    requires 0 <= r < 8 && x == 8 * q + r
    ensures x / 8 == q && x % 8 == r
  {
  }

  /** Counting in words keeps the order of offsets. */
  lemma QuarterMono(x: int, y: int)
    requires x <= y
    ensures x / 4 <= y / 4
  {
    assert x == 4 * (x / 4) + x % 4 && y == 4 * (y / 4) + y % 4;
  }

  /** An offset that is 4 modulo 8, counted in words, is odd. */
  lemma HeaderWord(h: int)
    requires h % 8 == 4
    ensures h == 8 * (h / 8) + 4 && h / 4 == 2 * (h / 8) + 1
  {
    Quarter(h, 2 * (h / 8) + 1, 0);
  }

  /** `w & 0x2`: the p-bit kept in place, which is bit 1 of the word's two
      low bits. */
  function PBitMask(w: int): (r: int)
    ensures r == w % 4 - w % 2
    ensures r == 2 <==> PBit(w)
  {
    Split(w);
    if PBit(w) then 2 else 0
  }

  /** Every word is the packing of what it says. */
  lemma PackDecode(w: int)
    ensures Pack(Decode(w)) == w
  {
    Split(w);
  }

  /** `size | (w & 0x2)` for a multiple of 8: a free block's header with
      the p-bit taken from `w`. */
  lemma OrPBitOfSize(size: int, w: int)
    requires size % 8 == 0
    ensures OrPBit(size, w) == Pack(Block(size, false, PBit(w)))
  {
    FooterDecodes(size);
    PackDecode(OrPBit(size, w));
  }

  /** Clearing the a-bit of a header gives the header of the same block, free. */
  lemma ClearABitPacks(b: Block)
    requires b.size % 8 == 0
    ensures ClearABit(Pack(b)) == Pack(b.(used := false))
  {
    PackRoundTrip(b);
    PackDecode(ClearABit(Pack(b)));
  }

  /** Clearing the p-bit of a header gives the header of the same block
      after a free one. */
  lemma ClearPBitPacks(b: Block)
    requires b.size % 8 == 0
    ensures ClearPBit(Pack(b)) == Pack(b.(prevUsed := false))
  {
    PackRoundTrip(b);
    PackDecode(ClearPBit(Pack(b)));
  }

  /** Rounds a byte count up to the next multiple of 8, as alloc does
      with `size + (8 - size % 8)` when `size % 8 != 0`. */
  function RoundUp8(n: int): (r: int)
    ensures r % 8 == 0 && n <= r < n + 8
  {
    if n % 8 != 0 then n + (8 - n % 8) else n
  }

  /** Decoding a packed header gives back its size and both flags. */
  lemma PackRoundTrip(b: Block)
    requires b.size % 8 == 0
    ensures Decode(Pack(b)) == b
  {
    var k := (if b.prevUsed then 2 else 0) + (if b.used then 1 else 0);
    var q := b.size / 4;
    assert b.size == 4 * q;
    assert Pack(b) == 4 * q + k;
    LowBits(q, k);
  }

  /** A footer word (the size alone) decodes to that size with both flags clear. */
  lemma FooterDecodes(size: int)
    requires size % 8 == 0
    ensures Decode(size) == Block(size, false, false)
  {
    PackRoundTrip(Block(size, false, false));
  }

  /** A header of a real block is never taken for the end mark, and the end
      mark has an empty size field and a set a-bit. */
  lemma HeaderIsNotEndMark(b: Block)
    requires ValidSize(b.size)
    ensures Pack(b) != EndMark && SizeOf(Pack(b)) != 0
    ensures SizeOf(EndMark) == 0 && ABit(EndMark)
  {
    PackRoundTrip(b);
  }

  /** The worked examples of the header comment: a 24-byte block. */
  lemma DocumentedExamples()
    ensures Pack(Block(24, true, false)) == 25
    ensures Pack(Block(24, true, true)) == 27
    ensures Pack(Block(24, false, false)) == 24
    ensures Pack(Block(24, false, true)) == 26
    ensures Decode(25) == Block(24, true, false) && Decode(27) == Block(24, true, true)
    ensures Decode(24) == Block(24, false, false) && Decode(26) == Block(24, false, true)
  {
    PackRoundTrip(Block(24, true, false));
    PackRoundTrip(Block(24, true, true));
    PackRoundTrip(Block(24, false, false));
    PackRoundTrip(Block(24, false, true));
  }
}
