/**
 The memory layout of an RGBA image: four one-byte channels per pixel, rows
 padded to a stride that is a multiple of 32 bytes, and pixel `(x, y)` channel
 `c` stored at byte `y*stride + 4x + c` of one flat buffer.
 */
module Layout {
  import opened Bits

  /** Bytes per pixel (R, G, B, A). */
  const Channels: nat := 4
  /** Every row starts on a multiple of this many bytes. */
  const Alignment: u32 := 32

  /** Channel index of the alpha byte within a pixel. */
  const Alpha: nat := 3

  /**
   Round `value` up to a multiple of `alignment` with the bitmask trick
   `(value + alignment - 1) & ~(alignment - 1)`, every step in wrapping
   unsigned 32-bit arithmetic.
   */
  function AlignUp(value: u32, alignment: u32): u32
  {
    var sum := AddU32(AddU32(value, alignment), WordModulus - 1);
    var mask := Not32(AddU32(alignment, WordModulus - 1));
    AndAtMost(sum, mask);
    And(sum, mask)
  }

  /** The widths whose row size `4*width`, rounded up, still fits in 32 bits. */
  predicate StrideFits(width: nat) {
    Channels * width + Alignment - 1 < WordModulus
  }

  /** Row stride in bytes: `4*width` rounded up to the alignment. */
  function Stride(width: u32): u32
  {
    AlignUp(MulU32(width, Channels), Alignment)
  }

  /** Bytes in the whole buffer; the source widens to a 64-bit size first, so no wrap-around. */
  function SizeBytes(stride: nat, height: nat): nat
  {
    stride * height
  }

  /** Byte offset of the first byte of row `y`, computed without wrap-around. */
  function RowOffset(y: nat, stride: nat): nat
  {
    y * stride
  }

  /** Row offset as the source computes it: a 32-bit product `y * m_stride` that wraps. */
  function RowOffsetAsWritten(y: u32, stride: u32): u32
  {
    MulU32(y, stride)
  }

  /** Byte offset of channel `c` of pixel `(x, y)`. */
  function PixelOffset(stride: nat, y: nat, x: nat, c: nat): nat
  {
    RowOffset(y, stride) + Channels * x + c
  }

  /** The pixel coordinates `(y, x, c)` that a byte offset belongs to, reading it back from the layout. */
  function PixelOf(stride: nat, i: nat): (r: (nat, nat, nat))
    requires stride > 0
    ensures r.2 < Channels
  {
    (i / stride, (i % stride) / Channels, (i % stride) % Channels)
  }

  /** The bitmask rounding of a power-of-two alignment gives the least multiple of it that is at least `value`. */
  lemma AlignUpRoundsUp(value: u32, alignment: u32)
    requires IsPowerOfTwo(alignment)
    requires value + alignment - 1 < WordModulus
    ensures AlignUp(value, alignment) % alignment == 0
    ensures value <= AlignUp(value, alignment) < value + alignment
    ensures AlignUp(value, alignment) == (value + alignment - 1) / alignment * alignment
  {
    var x := value + alignment - 1;
    AlignUpIsRoundDown(value, alignment);
    RoundDownIsMultiple(x, alignment);
  }

  /** The bitmask rounding clears the remainder of `value + alignment - 1` modulo the alignment. */
  lemma AlignUpIsRoundDown(value: u32, alignment: u32)
    requires IsPowerOfTwo(alignment)
    requires value + alignment - 1 < WordModulus
    ensures AlignUp(value, alignment) == (value + alignment - 1) - (value + alignment - 1) % alignment
  {
    var k: nat :| k < 32 && Pow2(k) == alignment;
    AlignUpOperands(value, alignment);
    MaskRoundsDown(value + alignment - 1, alignment, k);
  }

  /** AND with the 32-bit mask `~(a - 1)` of a power of two `a` rounds down to a multiple of `a`. */
  lemma MaskRoundsDown(x: nat, a: nat, k: nat)
    requires k < 32 && Pow2(k) == a && a < WordModulus && x < WordModulus
    ensures And(x, WordModulus - a) == x - x % a
  {
    Pow2Values();
    AndClearsLowBits(x, k, 32);
  }

  /** Without wrap-around the two operands of the AND are `value + alignment - 1` and `2^32 - alignment`. */
  lemma AlignUpOperands(value: u32, alignment: u32)
    requires 0 < alignment && value + alignment - 1 < WordModulus
    ensures AddU32(AddU32(value, alignment), WordModulus - 1) == value + alignment - 1
    ensures Not32(AddU32(alignment, WordModulus - 1)) == WordModulus - alignment
  {
  }

  /** No smaller multiple of the alignment lies between `value` and `AlignUp(value, alignment)`. */
  lemma AlignUpIsLeast(value: u32, alignment: u32, m: nat)
    requires IsPowerOfTwo(alignment)
    requires value + alignment - 1 < WordModulus
    requires m % alignment == 0 && value <= m
    ensures AlignUp(value, alignment) <= m
  {
    AlignUpRoundsUp(value, alignment);
    MultipleBetween(value, alignment, AlignUp(value, alignment), m);
  }

  /** Of two multiples of `a` that are both at least `value`, one below `value + a` is the smaller. */
  lemma MultipleBetween(value: nat, a: nat, r: nat, m: nat)
    requires a > 0
    requires r % a == 0 && value <= r < value + a
    requires m % a == 0 && value <= m
    ensures r <= m
  {
    var p, q := m / a, r / a;
    RoundDownIsMultiple(m, a);
    RoundDownIsMultiple(r, a);
    if p < q {
      MulMonotone(p + 1, q, a);
      assert false;
    }
    MulMonotone(q, p, a);
  }

  lemma AlignmentIsPowerOfTwo()
    ensures IsPowerOfTwo(Alignment as nat)
  {
    Pow2Values();
    assert Pow2(5) == 32;
  }

  /** The stride holds one row of pixels, is a multiple of 32, and pads by less than 32 bytes. */
  lemma StrideBounds(width: u32)
    requires StrideFits(width)
    ensures Stride(width) % Alignment == 0
    ensures Channels * width <= Stride(width) < Channels * width + Alignment
    ensures Stride(width) == 0 <==> width == 0
  {
    AlignmentIsPowerOfTwo();
    assert MulU32(width, Channels) == Channels * width;
    AlignUpRoundsUp(Channels * width, Alignment);
  }

  /** A width of 2^30 pixels does not fit: `4*width` wraps to 0 and so does the stride. */
  lemma StrideWrapsForHugeWidth()
    ensures !StrideFits(0x4000_0000)
    ensures Stride(0x4000_0000) == 0
  {
    assert MulU32(0x4000_0000, Channels) == 0;
    assert AlignUp(0, Alignment) == 0 by {
      AlignmentIsPowerOfTwo();
      AlignUpRoundsUp(0, Alignment);
    }
  }

  /** Consecutive rows start exactly one stride apart. */
  lemma RowOffsetNext(y: nat, stride: nat)
    ensures RowOffset(y + 1, stride) == RowOffset(y, stride) + stride
  {
  }

  /** Row `y` of a `height`-row buffer, all `stride` bytes of it, lies inside the buffer. */
  lemma RowWithinBuffer(stride: nat, height: nat, y: nat)
    requires y < height
    ensures RowOffset(y, stride) + stride <= SizeBytes(stride, height)
  {
    assert RowOffset(y, stride) + stride == (y + 1) * stride;
    MulMonotone(y + 1, height, stride);
  }

  lemma MulMonotone(a: nat, b: nat, s: nat)
    requires a <= b
    ensures a * s <= b * s
  {
  }

  /** The pixel bytes of two different rows never overlap, because each row is followed by its padding. */
  lemma RowsDisjoint(stride: nat, width: nat, y1: nat, y2: nat)
    requires Channels * width <= stride
    requires y1 < y2
    ensures RowOffset(y1, stride) + Channels * width <= RowOffset(y2, stride)
  {
    assert RowOffset(y2, stride) - RowOffset(y1, stride) == (y2 - y1) * stride;
    MulAtLeast(y2 - y1, stride);
  }

  /** Every channel byte of every pixel lies inside the buffer. */
  lemma PixelWithinBuffer(stride: nat, width: nat, height: nat, y: nat, x: nat, c: nat)
    requires Channels * width <= stride
    requires y < height && x < width && c < Channels
    ensures PixelOffset(stride, y, x, c) < SizeBytes(stride, height)
  {
    RowWithinBuffer(stride, height, y);
  }

  /** A byte `k` positions into row `y` belongs to row `y` and sits at position `k` of it. */
  lemma RowPosition(stride: nat, y: nat, k: nat)
    requires k < stride
    ensures (RowOffset(y, stride) + k) / stride == y
    ensures (RowOffset(y, stride) + k) % stride == k
  {
    DivModUnique(y, stride, k);
  }

  /** Byte `4x + c` of a row holds channel `c`. */
  lemma ChannelOfByte(x: nat, c: nat)
    requires c < Channels
    ensures (Channels * x + c) % Channels == c
  {
    DivModUnique(x, Channels, c);
  }

  /** Reading the coordinates back from a pixel's byte offset gives the pixel and channel again. */
  lemma PixelOfPixelOffset(stride: nat, width: nat, y: nat, x: nat, c: nat)
    requires Channels * width <= stride
    requires x < width && c < Channels
    ensures PixelOf(stride, PixelOffset(stride, y, x, c)) == (y, x, c)
    ensures PixelOffset(stride, y, x, c) % stride == Channels * x + c
  {
    DivModUnique(y, stride, Channels * x + c);
    DivModUnique(x, Channels, c);
  }

  /** A byte whose position within its row is below `4*width` is the byte of exactly the pixel `PixelOf` names. */
  lemma PixelOffsetOfPixelOf(stride: nat, width: nat, i: nat)
    requires 0 < stride && Channels * width <= stride
    requires i % stride < Channels * width
    ensures PixelOf(stride, i).1 < width
    ensures PixelOffset(stride, PixelOf(stride, i).0, PixelOf(stride, i).1, PixelOf(stride, i).2) == i
  {
    var k := i % stride;
    assert i == (i / stride) * stride + k;
    assert k == Channels * (k / Channels) + k % Channels;
  }

  /**
   The row offset as written wraps once `y * stride` reaches 2^32: in a 16384-pixel-wide
   image of 65537 rows, row 65536 is given the same offset as row 0, although the
   buffer holds both rows separately.
   */
  lemma RowOffsetAsWrittenAliases()
    ensures StrideFits(16384) && Stride(16384) == 65536
    ensures 65536 < 65537 && SizeBytes(65536, 65537) > WordModulus
    ensures RowOffsetAsWritten(65536, 65536) == RowOffsetAsWritten(0, 65536)
    ensures RowOffset(65536, 65536) != RowOffset(0, 65536)
  {
    StrideBounds(16384);
  }
}
