/**
 The contract both brightness variants share: each of R, G and B is moved by
 `value` and clamped to [0, 255]; alpha and row padding are left alone.
 */
module Filters {
  import opened Bits
  import opened Layout
  import opened ImageBuffer

  /** The documented range of brightness offsets. */
  predicate InRange(value: int) {
    -255 <= value <= 255
  }

  /** Byte `k` of a row after brightness: pixel colour bytes are clamped, alpha and padding kept. */
  function BrightnessRowByte(width: nat, value: int, k: nat, v: byte): byte
  {
    if k < Channels * width && k % Channels != Alpha then Clamp(v + value) else v
  }

  /**
   The channel loop on pixel `x` of the row starting at byte `row`: R, G and B become
   their clamped sums with `value`; alpha and every other byte are left alone.
   */
  method BrightenPixel(d: seq<byte>, row: nat, width: nat, x: nat, value: int) returns (d': seq<byte>)
    requires x < width && row + Channels * width <= |d|
    ensures |d'| == |d|
    ensures forall i :: row + Channels * x <= i < row + Channels * x + Channels ==>
              d'[i] == BrightnessRowByte(width, value, i - row, d[i])
    ensures forall i :: 0 <= i < |d| && !(row + Channels * x <= i < row + Channels * x + Channels) ==> d'[i] == d[i]
  {
    var p := row + Channels * x;
    d' := d;
    var c: nat := 0;
    while c < 3
      invariant c <= 3 && |d'| == |d|
      invariant forall i :: p <= i < p + c ==> d'[i] == Clamp(d[i] + value)
      invariant forall i :: 0 <= i < |d| && !(p <= i < p + c) ==> d'[i] == d[i]
    {
      var v := d'[p + c] + value;
      d' := d'[p + c := Clamp(v)];
      c := c + 1;
    }
    forall i | p <= i < p + Channels
      ensures d'[i] == BrightnessRowByte(width, value, i - row, d[i])
    {
      ChannelOfByte(x, i - p);
    }
  }

  /** The whole buffer after brightness, byte by byte. */
  function BrightnessSpec(img: Image, value: int): (r: seq<byte>)
    requires img.Valid()
    ensures |r| == |img.data|
  {
    seq(|img.data|, i requires 0 <= i < |img.data| =>
      BrightnessRowByte(img.width, value, i % img.stride, img.data[i]))
  }

  /** Reading `BrightnessSpec` at one pixel: R, G and B are clamped sums, alpha is unchanged. */
  lemma BrightnessAtPixel(img: Image, value: int, y: nat, x: nat, c: nat)
    requires img.Valid() && y < img.height && x < img.width && c < Channels
    ensures PixelOffset(img.stride, y, x, c) < |img.data|
    ensures var p := PixelOffset(img.stride, y, x, c);
      BrightnessSpec(img, value)[p] == if c == Alpha then img.data[p] else Clamp(img.data[p] + value)
  {
    PixelWithinBuffer(img.stride, img.width, img.height, y, x, c);
    PixelOfPixelOffset(img.stride, img.width, y, x, c);
  }

  /** Row padding is never changed by brightness. */
  lemma BrightnessKeepsPadding(img: Image, value: int, i: nat)
    requires img.Valid() && i < |img.data| && img.IsPadding(i)
    ensures BrightnessSpec(img, value)[i] == img.data[i]
  {
  }

  /** Brightness by 0 changes no byte. */
  lemma BrightnessByZero(img: Image)
    requires img.Valid()
    ensures BrightnessSpec(img, 0) == img.data
  {
  }

  /** `value` clamped into the documented range. */
  function ClampDelta(value: int): (r: int)
    ensures InRange(r)
    ensures InRange(value) ==> r == value
  {
    if value < -255 then -255 else if value > 255 then 255 else value
  }

  /** An offset beyond the documented range saturates exactly like the nearest in-range offset. */
  lemma BrightnessSaturatesDelta(img: Image, value: int)
    requires img.Valid()
    ensures BrightnessSpec(img, value) == BrightnessSpec(img, ClampDelta(value))
  {
    var a, b := BrightnessSpec(img, value), BrightnessSpec(img, ClampDelta(value));
    forall i | 0 <= i < |a|
      ensures a[i] == b[i]
    {
      var v := img.data[i];
      assert value > 255 ==> v + value >= 255 && v + 255 >= 255;
      assert value < -255 ==> v + value <= 0 && v - 255 <= 0;
    }
  }

  /** Every pixel of an image filled with `(250, 250, 250, 255)` becomes `(255, 255, 255, 255)` under brightness +30. */
  lemma BrightUpSaturates(img: Image)
    requires img.Valid()
    requires forall y: nat, x: nat, c: nat :: y < img.height && x < img.width && c < Channels ==>
               PixelOffset(img.stride, y, x, c) < |img.data| &&
               img.data[PixelOffset(img.stride, y, x, c)] == ChannelValue(250, 250, 250, 255, c)
    ensures forall y: nat, x: nat, c: nat :: y < img.height && x < img.width && c < Channels ==>
              PixelOffset(img.stride, y, x, c) < |img.data| &&
              BrightnessSpec(img, 30)[PixelOffset(img.stride, y, x, c)] == 255
  {
    forall y: nat, x: nat, c: nat | y < img.height && x < img.width && c < Channels
      ensures BrightnessSpec(img, 30)[PixelOffset(img.stride, y, x, c)] == 255
    {
      BrightnessAtPixel(img, 30, y, x, c);
    }
  }

  /** Every pixel of an image filled with `(10, 10, 10, 255)` becomes `(0, 0, 0, 255)` under brightness -60. */
  lemma BrightDownSaturates(img: Image)
    requires img.Valid()
    requires forall y: nat, x: nat, c: nat :: y < img.height && x < img.width && c < Channels ==>
               PixelOffset(img.stride, y, x, c) < |img.data| &&
               img.data[PixelOffset(img.stride, y, x, c)] == ChannelValue(10, 10, 10, 255, c)
    ensures forall y: nat, x: nat, c: nat :: y < img.height && x < img.width && c < Channels ==>
              PixelOffset(img.stride, y, x, c) < |img.data| &&
              BrightnessSpec(img, -60)[PixelOffset(img.stride, y, x, c)] == ChannelValue(0, 0, 0, 255, c)
  {
    forall y: nat, x: nat, c: nat | y < img.height && x < img.width && c < Channels
      ensures BrightnessSpec(img, -60)[PixelOffset(img.stride, y, x, c)] == ChannelValue(0, 0, 0, 255, c)
    {
      BrightnessAtPixel(img, -60, y, x, c);
    }
  }
}
