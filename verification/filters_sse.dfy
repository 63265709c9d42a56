/**
 The SSE2 brightness filter: per row, four pixels (16 bytes) at a time with
 saturating unsigned lane arithmetic against a `[B, B, B, 0]` delta pattern,
 then the leftover pixels with the scalar clamp.
 */
module SseFilter {
  import opened Bits
  import opened Layout
  import opened ImageBuffer
  import opened Sse
  import opened Filters

  /** Pixels per 16-byte batch. */
  const BatchPixels: nat := 4

  /** `static_cast<uint8_t>(std::abs(value))`: the magnitude, wrapped to a byte. */
  function AbsByte(value: int): byte
  {
    (if value < 0 then -value else value) % 256
  }

  /** The delta register: `B` in the colour lanes and 0 in every alpha lane. */
  function DeltaPattern(b: byte): (r: Vec16)
    ensures forall l :: 0 <= l < Lanes ==> r[l] == if l % Channels == Alpha then 0 else b
  {
    SetEpi8(0, b, b, b,
            0, b, b, b,
            0, b, b, b,
            0, b, b, b)
  }

  /** The first pixel of a row that the batch loop leaves to the tail loop. */
  function BatchEnd(width: nat): (r: nat)
    ensures r % BatchPixels == 0 && r <= width < r + BatchPixels
  {
    width - width % BatchPixels
  }

  /** One lane of the batch step: add for a positive offset, subtract for a negative one. */
  function LaneOp(value: int, a: byte, b: byte): byte
  {
    if value > 0 then AddsU8(a, b) else SubsU8(a, b)
  }

  /**
   The batch instruction: `_mm_adds_epu8` for a positive offset, `_mm_subs_epu8` otherwise.
   Lane by lane it clamps the byte plus (or minus) the delta lane to [0, 255].
   */
  function ApplyDelta(value: int, data: Vec16, delta: Vec16): (r: Vec16)
    ensures forall l :: 0 <= l < Lanes ==>
              r[l] == if value > 0 then Clamp(data[l] as int + delta[l]) else Clamp(data[l] as int - delta[l])
  {
    var v := if value > 0 then AddsEpu8(data, delta) else SubsEpu8(data, delta);
    assert forall l :: 0 <= l < Lanes ==>
             v[l] == if value > 0 then Clamp(data[l] as int + delta[l]) else Clamp(data[l] as int - delta[l]) by {
      forall l | 0 <= l < Lanes {
        SaturatingIsClamp(data[l], delta[l]);
      }
    }
    v
  }

  /**
   Byte `k` of a row after the kernel, for a nonzero `value`: batch pixels get the lane
   operation against the delta pattern, tail pixels the scalar clamp on R, G and B only,
   and padding nothing.
   */
  function SseRowByte(width: nat, value: int, k: nat, v: byte): byte
  {
    if k >= Channels * width then v
    else if k < Channels * BatchEnd(width) then LaneOp(value, v, DeltaPattern(AbsByte(value))[k % Lanes])
    else if k % Channels != Alpha then Clamp(v + value)
    else v
  }

  /** The whole buffer after `sse::brightness`, byte by byte. */
  function SseSpec(img: Image, value: int): (r: seq<byte>)
    requires img.Valid()
    ensures |r| == |img.data|
  {
    if value == 0 then img.data
    else (seq(|img.data|, i requires 0 <= i < |img.data| =>
            SseRowByte(img.width, value, i % img.stride, img.data[i])))
  }

  /** A row byte gets the same value from the kernel as from the reference, for any in-range nonzero offset. */
  lemma SseRowByteMatchesReference(width: nat, value: int, k: nat, v: byte)
    requires InRange(value) && value != 0
    ensures SseRowByte(width, value, k, v) == BrightnessRowByte(width, value, k, v)
  {
    if Channels * BatchEnd(width) <= k || Channels * width <= k {
    } else {
      var lane := k % Lanes;
      assert lane % Channels == k % Channels;
      var b := AbsByte(value);
      SaturatingIsClamp(v, b);
      if value > 0 {
        assert b == value;
      } else {
        assert b == -value;
      }
    }
  }

  /** The central claim: for every offset in [-255, 255], the kernel and the reference agree on every byte. */
  lemma SseMatchesReference(img: Image, value: int)
    requires img.Valid() && InRange(value)
    ensures SseSpec(img, value) == BrightnessSpec(img, value)
  {
    if value == 0 {
      BrightnessByZero(img);
    } else {
      forall i | 0 <= i < |img.data|
        ensures SseSpec(img, value)[i] == BrightnessSpec(img, value)[i]
      {
        SseRowByteMatchesReference(img.width, value, i % img.stride, img.data[i]);
      }
    }
  }

  /**
   Beyond the documented range the two disagree: with `value == 256` the byte cast makes the
   batch delta 0, so the first byte of a row at least four pixels wide keeps its value,
   while the reference saturates it to 255.
   */
  lemma SseDivergesBeyondRange(img: Image)
    requires img.Valid() && img.width >= 4 && img.height >= 1
    ensures 0 < |img.data|
    ensures SseSpec(img, 256)[0] == img.data[0]
    ensures BrightnessSpec(img, 256)[0] == 255
  {
    PixelWithinBuffer(img.stride, img.width, img.height, 0, 0, 0);
    PixelOfPixelOffset(img.stride, img.width, 0, 0, 0);
  }

  /** For every offset, in range or not, the kernel leaves row padding alone. */
  lemma SseKeepsPadding(img: Image, value: int, i: nat)
    requires img.Valid() && i < |img.data| && img.IsPadding(i)
    ensures SseSpec(img, value)[i] == img.data[i]
  {
  }

  /** For every offset, in range or not, the kernel leaves the alpha byte of every pixel alone: its delta lane is 0. */
  lemma SseKeepsAlpha(img: Image, value: int, y: nat, x: nat)
    requires img.Valid() && y < img.height && x < img.width
    ensures PixelOffset(img.stride, y, x, Alpha) < |img.data|
    ensures SseSpec(img, value)[PixelOffset(img.stride, y, x, Alpha)] == img.data[PixelOffset(img.stride, y, x, Alpha)]
  {
    var p := PixelOffset(img.stride, y, x, Alpha);
    PixelWithinBuffer(img.stride, img.width, img.height, y, x, Alpha);
    PixelOfPixelOffset(img.stride, img.width, y, x, Alpha);
    if value != 0 {
      var k := Channels * x + Alpha;
      assert p % img.stride == k;
      assert k % Lanes % Channels == Alpha by {
        DivModUnique(k / Lanes * 4 + (k % Lanes) / Channels, Channels, k % Lanes % Channels);
        DivModUnique(x, Channels, Alpha);
      }
      SaturatingIsClamp(img.data[p], 0);
    }
  }

  /** One batch: the 16 bytes of pixels `x` to `x + 3` are loaded, combined with the delta lane by lane, and stored back. */
  method Batch(d: seq<byte>, row: nat, x: nat, value: int, delta: Vec16) returns (d': seq<byte>)
    requires x % BatchPixels == 0 && row + Channels * x + Lanes <= |d|
    ensures |d'| == |d|
    ensures forall i :: row + Channels * x <= i < row + Channels * x + Lanes ==>
              d'[i] == LaneOp(value, d[i], delta[(i - row) % Lanes])
    ensures forall i :: 0 <= i < |d| && !(row + Channels * x <= i < row + Channels * x + Lanes) ==> d'[i] == d[i]
  {
    var p := row + Channels * x;
    var data := LoadU(d, p);
    var result := ApplyDelta(value, data, delta);
    d' := StoreU(d, p, result);
    forall i | p <= i < p + Lanes
      ensures d'[i] == LaneOp(value, d[i], delta[(i - row) % Lanes])
    {
      BatchLane(x, i - p);
      SaturatingIsClamp(d[i], delta[i - p]);
    }
  }

  /** The batch loop over the row starting at byte `row`: pixels `[0, BatchEnd(width))` get the lane operation, four at a time. */
  method BatchLoop(d: seq<byte>, row: nat, width: nat, value: int, delta: Vec16) returns (d': seq<byte>)
    requires row + Channels * width <= |d|
    ensures |d'| == |d|
    ensures forall i :: row <= i < row + Channels * BatchEnd(width) ==>
              d'[i] == LaneOp(value, d[i], delta[(i - row) % Lanes])
    ensures forall i :: 0 <= i < |d| && !(row <= i < row + Channels * BatchEnd(width)) ==> d'[i] == d[i]
  {
    d' := d;
    var x: nat := 0;
    while x + BatchPixels <= width
      invariant x % BatchPixels == 0 && x <= width && |d'| == |d|
      invariant forall i :: row <= i < row + Channels * x ==> d'[i] == LaneOp(value, d[i], delta[(i - row) % Lanes])
      invariant forall i :: 0 <= i < |d| && !(row <= i < row + Channels * x) ==> d'[i] == d[i]
    {
      d' := Batch(d', row, x, value, delta);
      x := x + BatchPixels;
    }
    BatchLoopExit(width, x);
  }

  /** Lane `l` of the batch that starts at pixel `x` (a multiple of 4) is byte `4x + l` of the row. */
  lemma BatchLane(x: nat, l: nat)
    requires x % BatchPixels == 0 && l < Lanes
    ensures (Channels * x + l) % Lanes == l
  {
    DivModUnique(x / BatchPixels, Lanes, l);
  }

  /** The batch loop stops exactly at `BatchEnd(width)`. */
  lemma BatchLoopExit(width: nat, x: nat)
    requires x % BatchPixels == 0 && x <= width < x + BatchPixels
    ensures x == BatchEnd(width)
  {
    DivModUnique(x / BatchPixels, BatchPixels, width - x);
  }

  /** The tail loop over the row starting at byte `row`: pixels `[BatchEnd(width), width)` get the scalar clamp on R, G and B. */
  method TailLoop(d: seq<byte>, row: nat, width: nat, value: int) returns (d': seq<byte>)
    requires row + Channels * width <= |d|
    ensures |d'| == |d|
    ensures forall i :: row + Channels * BatchEnd(width) <= i < row + Channels * width ==>
              d'[i] == BrightnessRowByte(width, value, i - row, d[i])
    ensures forall i :: 0 <= i < |d| && !(row + Channels * BatchEnd(width) <= i < row + Channels * width) ==>
              d'[i] == d[i]
  {
    var start := row + Channels * BatchEnd(width);
    d' := d;
    var x: nat := BatchEnd(width);
    while x < width
      invariant BatchEnd(width) <= x <= width && |d'| == |d|
      invariant forall i :: start <= i < row + Channels * x ==> d'[i] == BrightnessRowByte(width, value, i - row, d[i])
      invariant forall i :: 0 <= i < |d| && !(start <= i < row + Channels * x) ==> d'[i] == d[i]
    {
      d' := BrightenPixel(d', row, width, x, value);
      x := x + 1;
    }
  }

  /** One iteration of the row loop: batch loop, then tail loop; rows before `y + 1` are done, the rest untouched. */
  method BrightnessRow(img: Image, d: seq<byte>, y: nat, value: int, delta: Vec16) returns (d': seq<byte>)
    requires img.Valid() && y < img.height && |d| == |img.data| && RowOffset(y, img.stride) <= |d|
    requires value != 0 && IsInt32(value + 255) && delta == DeltaPattern(AbsByte(value))
    requires forall i :: 0 <= i < RowOffset(y, img.stride) ==> d[i] == SseSpec(img, value)[i]
    requires forall i :: RowOffset(y, img.stride) <= i < |d| ==> d[i] == img.data[i]
    ensures |d'| == |d| && RowOffset(y + 1, img.stride) <= |d'|
    ensures forall i :: 0 <= i < RowOffset(y + 1, img.stride) ==> d'[i] == SseSpec(img, value)[i]
    ensures forall i :: RowOffset(y + 1, img.stride) <= i < |d'| ==> d'[i] == img.data[i]
  {
    var row := RowOffset(y, img.stride);
    RowWithinBuffer(img.stride, img.height, y);
    var batched := BatchLoop(d, row, img.width, value, delta);
    d' := TailLoop(batched, row, img.width, value);
    forall i | row <= i < row + img.stride
      ensures d'[i] == SseSpec(img, value)[i]
    {
      RowPosition(img.stride, y, i - row);
    }
    RowOffsetNext(y, img.stride);
    RowWithinBuffer(img.stride, img.height, y);
  }

  /**
   `sse::brightness`. The result is `SseSpec` for every offset the source can take without
   undefined behaviour, and the reference result for every offset in [-255, 255].
   */
  method Brightness(img: Image, value: int) returns (out: Image)
    requires img.Valid()
    requires IsInt32(value) && value != -0x8000_0000 && IsInt32(value + 255)
    ensures out.Valid()
    ensures out.width == img.width && out.height == img.height && out.stride == img.stride
    ensures out.data == SseSpec(img, value)
    ensures value == 0 ==> out == img
    ensures InRange(value) ==> out.data == BrightnessSpec(img, value)
  {
    if value == 0 {
      out := img;
      BrightnessByZero(img);
      return;
    }
    var delta := DeltaPattern(AbsByte(value));
    var d := img.data;
    var y: nat := 0;
    while y < img.height
      invariant y <= img.height && |d| == |img.data| && RowOffset(y, img.stride) <= |d|
      invariant forall i :: 0 <= i < RowOffset(y, img.stride) ==> d[i] == SseSpec(img, value)[i]
      invariant forall i :: RowOffset(y, img.stride) <= i < |d| ==> d[i] == img.data[i]
    {
      d := BrightnessRow(img, d, y, value, delta);
      y := y + 1;
    }
    assert RowOffset(y, img.stride) == |d|;
    out := img.(data := d);
    if InRange(value) {
      SseMatchesReference(img, value);
    }
  }

  /**
   The kernel with the offset first clamped into [-255, 255]: it agrees with the reference
   for every 32-bit offset, the agreement the design asks of the two variants.
   */
  method BrightnessClampedDelta(img: Image, value: int) returns (out: Image)
    requires img.Valid() && IsInt32(value)
    ensures out.Valid()
    ensures out.width == img.width && out.height == img.height && out.stride == img.stride
    ensures out.data == BrightnessSpec(img, value)
  {
    out := Brightness(img, ClampDelta(value));
    BrightnessSaturatesDelta(img, value);
  }
}
