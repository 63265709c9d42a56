/**
 The portable reference brightness filter: rows, then pixels, then the three
 colour channels, each clamped with `std::clamp`.
 */
module ScalarFilter {
  import opened Bits
  import opened Layout
  import opened ImageBuffer
  import opened Filters

  /** The offsets the source can add to a byte without overflowing its 32-bit `int`. */
  predicate NoIntOverflow(value: int) {
    IsInt32(value) && IsInt32(value + 255)
  }

  /** The pixel loop over the row starting at byte `row`: its pixel bytes are brightened; every other byte of `d` is left alone. */
  method BrightnessRowPixels(d: seq<byte>, row: nat, width: nat, value: int) returns (d': seq<byte>)
    requires row + Channels * width <= |d|
    ensures |d'| == |d|
    ensures forall i :: row <= i < row + Channels * width ==> d'[i] == BrightnessRowByte(width, value, i - row, d[i])
    ensures forall i :: 0 <= i < |d| && !(row <= i < row + Channels * width) ==> d'[i] == d[i]
  {
    d' := d;
    var x: nat := 0;
    while x < width
      invariant x <= width && |d'| == |d|
      invariant forall i :: row <= i < row + Channels * x ==> d'[i] == BrightnessRowByte(width, value, i - row, d[i])
      invariant forall i :: 0 <= i < |d| && !(row <= i < row + Channels * x) ==> d'[i] == d[i]
    {
      d' := BrightenPixel(d', row, width, x, value);
      x := x + 1;
    }
  }

  /** One iteration of the row loop: rows before `y + 1` are brightened, the rest untouched. */
  method BrightnessRow(img: Image, d: seq<byte>, y: nat, value: int) returns (d': seq<byte>)
    requires img.Valid() && y < img.height && |d| == |img.data| && RowOffset(y, img.stride) <= |d|
    requires NoIntOverflow(value)
    requires forall i :: 0 <= i < RowOffset(y, img.stride) ==> d[i] == BrightnessSpec(img, value)[i]
    requires forall i :: RowOffset(y, img.stride) <= i < |d| ==> d[i] == img.data[i]
    ensures |d'| == |d| && RowOffset(y + 1, img.stride) <= |d'|
    ensures forall i :: 0 <= i < RowOffset(y + 1, img.stride) ==> d'[i] == BrightnessSpec(img, value)[i]
    ensures forall i :: RowOffset(y + 1, img.stride) <= i < |d'| ==> d'[i] == img.data[i]
  {
    var row := RowOffset(y, img.stride);
    RowWithinBuffer(img.stride, img.height, y);
    d' := BrightnessRowPixels(d, row, img.width, value);
    forall i | row <= i < row + img.stride
      ensures d'[i] == BrightnessSpec(img, value)[i]
    {
      RowPosition(img.stride, y, i - row);
    }
    RowOffsetNext(y, img.stride);
    RowWithinBuffer(img.stride, img.height, y);
  }

  /** `scalar::brightness`: every R, G and B byte is clamped after adding `value`; alpha and padding are untouched. */
  method Brightness(img: Image, value: int) returns (out: Image)
    requires img.Valid()
    requires NoIntOverflow(value)
    ensures out.Valid()
    ensures out.width == img.width && out.height == img.height && out.stride == img.stride
    ensures out.data == BrightnessSpec(img, value)
  {
    var d := img.data;
    var y: nat := 0;
    while y < img.height
      invariant y <= img.height && |d| == |img.data| && RowOffset(y, img.stride) <= |d|
      invariant forall i :: 0 <= i < RowOffset(y, img.stride) ==> d[i] == BrightnessSpec(img, value)[i]
      invariant forall i :: RowOffset(y, img.stride) <= i < |d| ==> d[i] == img.data[i]
    {
      d := BrightnessRow(img, d, y, value);
      y := y + 1;
    }
    assert RowOffset(y, img.stride) == |d|;
    out := img.(data := d);
  }
}
