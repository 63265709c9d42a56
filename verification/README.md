# simd-img in Dafny

This project models the core of simd-img, a small C++ library whose centre is an
RGBA pixel buffer with 32-byte row alignment, together with two implementations of
one image filter, brightness. The SIMD one is meant to give the same result as the
portable one.

- **`Bits`** (`bits.dfy`). Bytes, `uint32_t` values, and wrapping 32-bit addition and
  multiplication. Also the bitwise AND and NOT that `alignUp` uses, defined one bit at
  a time on naturals. The lemma `AndClearsLowBits` proves that AND with the mask
  `2^n - 2^k` rounds down to a multiple of `2^k`. `Clamp` is `std::clamp(v, 0, 255)`
  followed by the byte cast.
- **`Layout`** (`layout.dfy`). The buffer layout:
  - `kChannels = 4` and `kAlignment = 32`;
  - `alignUp` and the stride `alignUp(width * 4, 32)`;
  - `sizeBytes`, and the offset `y * stride + 4x + c` of channel `c` of pixel `(x, y)`.

  The lemmas prove that the bitmask rounding returns the least multiple at or above its
  argument. They also prove that rows lie inside the buffer and do not overlap, and
  that byte offsets and pixel coordinates convert into each other.
- **`ImageBuffer`** (`image.dfy`). The `Image` value with the operations:
  - construction (`Create`), allocated and zero-filled;
  - `clone` (`Clone`);
  - `row(y)` (`Row`);
  - `fill` (`Fill`), a row loop over a pixel loop, split into one method per loop level.

  The buffer is a `seq<byte>`. An operation that changes pixels returns the changed
  image.
- **`Sse`** (`simd.dfy`). The SSE2 intrinsics the kernel calls, as pure functions on
  16-lane byte vectors: `_mm_loadu_si128`, `_mm_storeu_si128`, `_mm_adds_epu8`,
  `_mm_subs_epu8` and `_mm_set_epi8`.
- **`Filters`** (`filters.dfy`). The brightness contract both variants share, stated
  byte by byte as `BrightnessSpec`:
  - R, G and B are moved by the offset and clamped;
  - alpha and row padding are kept.

  The module also holds the per-pixel channel loop both variants run, and the
  saturation scenarios of the filter tests.
- **`ScalarFilter`** (`filters_scalar.dfy`). `scalar::brightness`, proved equal to
  `BrightnessSpec`.
- **`SseFilter`** (`filters_sse.dfy`). `sse::brightness`, with its three parts:
  - the early return for 0;
  - the `[B, B, B, 0]` delta register;
  - per row, the 16-byte batch loop, then the scalar tail loop.

  The result is proved to be `SseSpec`, and `SseMatchesReference` proves that `SseSpec`
  equals `BrightnessSpec` for every offset in the documented range [-255, 255]. For
  offsets outside that range the two differ (see Findings). `BrightnessClampedDelta`
  is the kernel with the offset clamped first, and it agrees with the reference for
  every 32-bit offset.

Parameters and preconditions stand in for what the model cannot see:
- The allocator's success or failure is the parameter `allocOk` of `Create` and
  `Clone`. A refused allocation (`std::bad_alloc`) is the result `AllocationFailed`.
- Undefined behaviour in the source appears as a precondition:
  - `int` overflow in `px + value`;
  - `std::abs(INT_MIN)` in the SSE kernel.

## Model

| member | source | states |
|---|---|---|
| `Bits.Clamp` | src/filters_scalar.cpp:18-19 | the stored byte is the byte nearest to `px + value`, and a sum already in [0, 255] is stored unchanged |
| `Bits.AndClearsLowBits` | src/image.cpp:18 | below `2^n`, AND with the mask `2^n - 2^k` subtracts exactly the remainder modulo `2^k`, which is the identity the bitmask trick relies on |
| `Bits.AndAtMost` | src/image.cpp:18 | an AND is never larger than either operand, so the masked value stays a `uint32_t` |
| `Layout.AlignUpRoundsUp` | src/image.cpp:14-19 | for a power-of-two alignment and no overflow, the result is a multiple of the alignment, lies in `[value, value + alignment)`, and is `ceil(value / alignment) * alignment` |
| `Layout.AlignUpIsLeast` | src/image.cpp:14-19 | no multiple of the alignment that is at least `value` is smaller than the result |
| `Layout.AlignUpIsRoundDown` | src/image.cpp:18 | the bitmask expression equals `value + alignment - 1` minus its remainder modulo the alignment |
| `Layout.MaskRoundsDown` | src/image.cpp:18 | AND with the 32-bit `~(a - 1)` of a power of two `a` rounds down to a multiple of `a` |
| `Layout.AlignmentIsPowerOfTwo` | include/simd_img/image.h:33 | the row alignment 32 is a power of two, as the rounding trick requires (src/image.cpp:14-15) |
| `Layout.StrideBounds` | src/image.cpp:50 | when `4*width + 31` fits in 32 bits, the stride is a multiple of 32, holds the row's `4*width` bytes, pads by fewer than 32 bytes, and is 0 exactly when the width is 0 |
| `Layout.StrideWrapsForHugeWidth` | src/image.cpp:50 | for a width of 2^30, the 32-bit product `width * 4` wraps and the stride computed from it is 0 |
| `Layout.RowWithinBuffer` | include/simd_img/image.h:46-52 | all `stride` bytes of every row `y < height` lie inside the `sizeBytes()` buffer |
| `Layout.RowsDisjoint` | include/simd_img/image.h:51-52 | the pixel bytes of a row end at or before the first byte of any later row |
| `Layout.PixelWithinBuffer` | src/image.cpp:69-72 | every channel byte `fill` writes lies inside the buffer |
| `Layout.RowPosition` | include/simd_img/image.h:51-52 | a byte `k < stride` bytes into row `y` belongs to row `y` at position `k` |
| `Layout.PixelOfPixelOffset` | include/simd_img/image.h:51-52 | reading the coordinates back from the offset of `(x, y, c)` gives `(y, x, c)` again |
| `Layout.PixelOffsetOfPixelOf` | include/simd_img/image.h:51-52 | every non-padding byte is the offset of the pixel and channel read back from it, with `x < width` |
| `Layout.RowOffsetAsWrittenAliases` | include/simd_img/image.h:51-52 | for a 16384-pixel-wide image of 65537 rows, the 32-bit `y * m_stride` gives row 65536 the offset of row 0, although the buffer holds both rows apart |
| `ImageBuffer.CreateAsWritten` | src/image.cpp:38-60 | the constructor succeeds exactly when the allocator agrees or the size is 0; the image has the requested dimensions, the wrapped stride and `stride * height` bytes, all zero |
| `ImageBuffer.CreateAsWrittenHugeWidth` | src/image.cpp:50-53 | a 2^30-pixel-wide image gets stride 0 and no buffer, which breaks the layout invariant |
| `ImageBuffer.Create` | src/image.cpp:38-60 | every width whose padded row fits in 32 bits behaves as written and gives a valid, zero-filled image with the requested dimensions and a 32-byte-multiple stride; an empty image always succeeds with no bytes; the allocator's refusal is reported |
| `ImageBuffer.Clone` | src/image.cpp:77-82 | a successful clone equals the original in dimensions, stride and every byte; it fails only when the allocator refuses a non-empty buffer |
| `ImageBuffer.Row` | include/simd_img/image.h:51-52 | `row(y)` has `stride` bytes, and its byte `4x + c` is channel `c` of pixel `(x, y)` |
| `ImageBuffer.FillByteInRow` | src/image.cpp:62-75 | within row `y`, a filled byte is the requested channel value at pixel positions and the old byte in the padding |
| `ImageBuffer.FillByteAtPixel` | src/image.cpp:69-72 | after `fill`, channel `c` of every pixel holds the `c`-th of `(r, g, b, a)` |
| `ImageBuffer.FillPixel` | src/image.cpp:69-72 | the four stores set the pixel's R, G, B, A bytes and change no other byte |
| `ImageBuffer.FillRowPixels` | src/image.cpp:67-73 | the pixel loop sets every pixel byte of the row to its channel value and changes no other byte |
| `ImageBuffer.FillRow` | src/image.cpp:64-74 | one row step extends the filled prefix of the buffer by exactly one row |
| `ImageBuffer.Fill` | src/image.cpp:62-75 | every channel of every pixel holds the requested value (alpha defaulting to 255), padding bytes are unchanged, and dimensions and stride are kept |
| `Sse.SaturatingIsClamp` | src/filters_sse.cpp:17-19 | saturating unsigned byte addition and subtraction equal the clamp of the exact sum and difference, and a zero lane changes nothing |
| `Sse.LoadU` | src/filters_sse.cpp:44-45 | lane `l` of the loaded register is byte `p + l` of memory |
| `Sse.StoreU` | src/filters_sse.cpp:53 | the 16 bytes at `p` receive the register's lanes and every other byte is unchanged |
| `Sse.LoadAfterStore` | src/filters_sse.cpp:44-53 | loading from where a register was just stored gives back that register |
| `Sse.StoreWhatWasLoaded` | src/filters_sse.cpp:44-53 | storing the register just loaded leaves memory unchanged |
| `Filters.BrightenPixel` | src/filters_scalar.cpp:16-20 | the channel loop clamps R, G and B of the pixel with the offset and leaves alpha and every other byte alone |
| `Filters.BrightnessAtPixel` | include/simd_img/filters.h:7-8 | under the brightness contract, channels R, G, B of a pixel become the clamped sum and alpha is preserved |
| `Filters.BrightnessKeepsPadding` | include/simd_img/filters.h:7-8 | row padding is never changed by brightness |
| `Filters.BrightnessByZero` | include/simd_img/filters.h:7-8 | brightness by 0 changes no byte |
| `Filters.ClampDelta` | include/simd_img/filters.h:8 | the clamped offset lies in [-255, 255], and an offset already in that range is kept |
| `Filters.BrightnessSaturatesDelta` | include/simd_img/filters.h:7-8 | an offset beyond [-255, 255] gives the same image as the nearest offset inside it |
| `Filters.BrightUpSaturates` | tests/test_filters.cpp:124-130 | on an image filled with `(250, 250, 250, 255)`, brightness +30 gives `255` in every channel |
| `Filters.BrightDownSaturates` | include/simd_img/filters.h:7-8 | on an image filled with `(10, 10, 10, 255)`, brightness -60 gives `(0, 0, 0, 255)` in every pixel |
| `ScalarFilter.BrightnessRowPixels` | src/filters_scalar.cpp:13-21 | the pixel loop brightens exactly the pixel bytes of the row |
| `ScalarFilter.BrightnessRow` | src/filters_scalar.cpp:10-22 | one row step extends the brightened prefix of the buffer by exactly one row |
| `ScalarFilter.Brightness` | src/filters_scalar.cpp:8-23 | the result meets the brightness contract byte for byte and keeps dimensions and stride |
| `SseFilter.DeltaPattern` | src/filters_sse.cpp:28-33 | the delta register holds the offset's byte in every colour lane and 0 in every alpha lane |
| `SseFilter.BatchEnd` | src/filters_sse.cpp:41 | the batch loop ends at the largest multiple of 4 pixels not beyond the width |
| `SseFilter.ApplyDelta` | src/filters_sse.cpp:48-50 | each lane is the byte plus the delta lane clamped to [0, 255] for a positive offset, and the byte minus the delta lane clamped to [0, 255] otherwise |
| `SseFilter.SseKeepsPadding` | src/filters_sse.cpp:41-65 | for every offset, row padding is never changed, because the batches end within `4*width` bytes and the tail stops at the width |
| `SseFilter.SseKeepsAlpha` | src/filters_sse.cpp:28-33 | for every offset, in range or not, the alpha byte of every pixel is unchanged, because its delta lane is 0 |
| `SseFilter.Batch` | src/filters_sse.cpp:44-53 | one batch applies the lane operation to the 16 bytes of four pixels, against the delta lane at the same row position modulo 16, and changes nothing else |
| `SseFilter.BatchLoop` | src/filters_sse.cpp:41-54 | the batch loop applies the lane operation to exactly the first `BatchEnd(width)` pixels of the row |
| `SseFilter.TailLoop` | src/filters_sse.cpp:58-65 | the tail loop brightens exactly the pixels from `BatchEnd(width)` to the width |
| `SseFilter.BrightnessRow` | src/filters_sse.cpp:35-66 | one row step, batches then tail, extends the finished prefix of the buffer by exactly one row |
| `SseFilter.SseRowByteMatchesReference` | src/filters_sse.cpp:41-65 | for a nonzero offset in [-255, 255], batch lanes, tail pixels and padding each get the byte the brightness contract asks for |
| `SseFilter.SseMatchesReference` | include/simd_img/filters.h:7-16 | for every offset in [-255, 255], the SSE result equals the scalar reference on every byte |
| `SseFilter.SseDivergesBeyondRange` | src/filters_sse.cpp:28 | with offset 256 the byte-cast delta is 0, so the SSE kernel keeps the first byte of a row four or more pixels wide while the reference saturates it to 255 |
| `SseFilter.Brightness` | src/filters_sse.cpp:21-67 | the kernel's result is the batch-and-tail result for every offset free of undefined behaviour; it is the unchanged image for 0 and the reference result for every offset in [-255, 255] |
| `SseFilter.BrightnessClampedDelta` | src/filters_sse.cpp:21-33 | with the offset clamped to [-255, 255] first, the kernel equals the reference for every 32-bit offset |

## Left out

- PPM loading and saving (`loadPpm`, `savePpm`) are file I/O and are not part of this model.
- Addresses and the 32-byte alignment of the buffer's start (`alignedMalloc`, `posix_memalign`) are not modelled. The model has no addresses. The allocator's yes or no is the `allocOk` parameter.
- Move construction and assignment, and the deleted copy operations, are not modelled. Images are values here. For the same reason a clone's independence from its original holds by construction.
- The getters `width()`, `height()`, `stride()` and `data()` are the fields of `Image`.
- `ImageBuffer.Row`: requires `y < height`. The source does not check `y`, and an out-of-range row is undefined behaviour.
- `ScalarFilter.Brightness`: requires that `value + 255` fits in an `int`. Beyond that, `px + value` overflows, which is undefined behaviour in the source.
- `SseFilter.Brightness`: requires `value != INT_MIN`, where `std::abs` is undefined, and the same `int` bound as the scalar filter for its tail loop.
- The tests compare images with a tolerance of 1 (`imagesMatch`). The model proves exact equality instead.
- The build script and any timing or benchmarking are not modelled.
- Register contents are modelled as 16 byte lanes. Other register widths (AVX) do not occur in the core.

## Findings

| source | as written | input that shows it | evidently intended | confidence | as-written member | corrected member |
|---|---|---|---|---|---|---|
| src/filters_sse.cpp:28 | the batch delta is `abs(value)` cast to `uint8_t`, so an offset beyond ±255 wraps, while the tail loop clamps the full offset | an image four pixels wide and one row high, all bytes 0, offset 256: the batch delta is 0 and byte 0 stays 0, while the scalar filter gives 255 | the two variants agree for every offset; clamping the offset to [-255, 255] first achieves this | not executed; medium, because the header documents only [-255, 255] | `SseFilter.SseDivergesBeyondRange` | `SseFilter.BrightnessClampedDelta` |
| include/simd_img/image.h:51-52 | `row(y)` computes `y * m_stride` in 32-bit arithmetic, although `sizeBytes()` widens to `size_t` | width 16384 (stride 65536), height 65537: row 65536 gets offset 0, the same as row 0 | the row offset is computed in `size_t` like `sizeBytes()` | not executed; high, since the arithmetic is exact | `Layout.RowOffsetAsWrittenAliases` | `Layout.RowWithinBuffer` |
| src/image.cpp:50 | `m_width * kChannels` and the rounding are 32-bit, so any width with `4*width + 31 >= 2^32` wraps the stride | width 2^30, height 1: the stride is 0, the size is 0 and no buffer is allocated, yet `width()` reports 2^30 and `fill` writes through row 0 | a width whose padded row does not fit in 32 bits is refused, like a failed allocation | not executed; medium, because such widths are impractical | `ImageBuffer.CreateAsWrittenHugeWidth` | `ImageBuffer.Create` |

Three members model the code as written. `SseFilter.Brightness` takes the byte-cast
delta. `Layout.RowOffsetAsWritten` is the wrapping row offset. `ImageBuffer.CreateAsWritten`
uses the wrapping stride. The rest of the model uses the corrected definitions:
- `Layout.RowOffset` is an unbounded product. `Layout.RowWithinBuffer` and
  `Layout.RowsDisjoint` prove that every row lies inside the buffer and that no two
  rows overlap.
- `ImageBuffer.Create` refuses a width whose row does not fit.
- `SseFilter.BrightnessClampedDelta` clamps the offset first.
