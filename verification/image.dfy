/**
 The RGBA pixel buffer: construction with a zero-filled, row-padded buffer,
 `fill`, `clone` and row access. The buffer is a value; an operation that
 changes pixels returns the changed image.
 */
module ImageBuffer {
  import opened Bits
  import opened Layout

  datatype Image = Image(width: u32, height: u32, stride: u32, data: seq<byte>)
  {
    /** What every constructed image keeps: the stride is the rounded row size and the buffer holds `stride * height` bytes. */
    predicate Valid() {
      && StrideFits(width)
      && stride == Stride(width)
      && Channels * width <= stride
      && |data| == SizeBytes(stride, height)
    }

    /** Byte `i` is row padding: it lies past the `4*width` pixel bytes of its row. */
    predicate IsPadding(i: nat) {
      stride > 0 && i % stride >= Channels * width
    }
  }

  /** The outcome of a request for a new buffer: the allocator may refuse it. */
  datatype Allocation = Allocated(image: Image) | AllocationFailed

  /** The value a pixel's channel `c` receives from `fill(r, g, b, a)`. */
  function ChannelValue(r: byte, g: byte, b: byte, a: byte, c: nat): byte
    requires c < Channels
  {
    [r, g, b, a][c]
  }

  /**
   The constructor as written: the stride is computed in wrapping 32-bit arithmetic,
   an empty buffer is not allocated at all, and any other buffer is requested from the
   allocator (whose answer is `allocOk`) and zero-filled.
   */
  function CreateAsWritten(width: u32, height: u32, allocOk: bool): (r: Allocation)
    ensures r.Allocated? <==> allocOk || SizeBytes(Stride(width), height) == 0
    ensures r.Allocated? ==> r.image.width == width && r.image.height == height && r.image.stride == Stride(width)
    ensures r.Allocated? ==> |r.image.data| == SizeBytes(r.image.stride, height)
    ensures r.Allocated? ==> forall i :: 0 <= i < |r.image.data| ==> r.image.data[i] == 0
  {
    var stride := Stride(width);
    var total := SizeBytes(stride, height);
    if total == 0 then
      Allocated(Image(width, height, stride, []))
    else if !allocOk then
      AllocationFailed
    else
      Allocated(Image(width, height, stride, seq(total, _ => 0)))
  }

  /**
   A width of 2^30 pixels makes `4*width` wrap to 0, so the constructor as written
   builds an image of that width with stride 0 and no buffer at all.
   */
  lemma CreateAsWrittenHugeWidth()
    ensures CreateAsWritten(0x4000_0000, 1, true) == Allocated(Image(0x4000_0000, 1, 0, []))
    ensures !CreateAsWritten(0x4000_0000, 1, true).image.Valid()
  {
    StrideWrapsForHugeWidth();
  }

  /**
   Construct a `width` x `height` image, refusing a width whose padded row does not fit
   in 32 bits; otherwise exactly the constructor as written.
   */
  function Create(width: u32, height: u32, allocOk: bool): (r: Allocation)
    ensures r.Allocated? <==> StrideFits(width) && (allocOk || SizeBytes(Stride(width), height) == 0)
    ensures StrideFits(width) ==> r == CreateAsWritten(width, height, allocOk)
    ensures r.Allocated? ==> r.image.Valid() && r.image.width == width && r.image.height == height
    ensures r.Allocated? ==> Channels * width <= r.image.stride && r.image.stride % Alignment == 0
    ensures r.Allocated? ==> forall i :: 0 <= i < |r.image.data| ==> r.image.data[i] == 0
    ensures r.Allocated? && (width == 0 || height == 0) ==> |r.image.data| == 0
  {
    if !StrideFits(width) then
      AllocationFailed
    else
      StrideBounds(width);
      assert width == 0 ==> Stride(width) == 0;
      CreateAsWritten(width, height, allocOk)
  }

  /** A deep copy: a freshly constructed image of the same size into which every byte is copied. */
  function Clone(img: Image, allocOk: bool): (r: Allocation)
    requires img.Valid()
    ensures r.Allocated? <==> allocOk || |img.data| == 0
    ensures r.Allocated? ==> r.image == img
  {
    match Create(img.width, img.height, allocOk)
    case AllocationFailed => AllocationFailed
    case Allocated(copy) => Allocated(copy.(data := img.data[..SizeBytes(img.stride, img.height)]))
  }

  /** The `stride` bytes of row `y`, pixel bytes followed by padding. */
  function Row(img: Image, y: nat): (r: seq<byte>)
    requires img.Valid() && y < img.height
    ensures |r| == img.stride
    ensures forall x: nat, c: nat :: x < img.width && c < Channels ==>
              Channels * x + c < |r| && PixelOffset(img.stride, y, x, c) < |img.data| && r[Channels * x + c] == img.data[PixelOffset(img.stride, y, x, c)]
  {
    StrideBounds(img.width);
    RowWithinBuffer(img.stride, img.height, y);
    img.data[RowOffset(y, img.stride)..RowOffset(y, img.stride) + img.stride]
  }

  /** Byte `i` of the image after `fill(r, g, b, a)`. */
  function FillByte(img: Image, r: byte, g: byte, b: byte, a: byte, i: nat): byte
    requires img.Valid() && i < |img.data|
  {
    if img.IsPadding(i) then img.data[i]
    else ChannelValue(r, g, b, a, (i % img.stride) % Channels)
  }

  /** Within row `y`, the filled byte depends only on the position in the row. */
  lemma FillByteInRow(img: Image, r: byte, g: byte, b: byte, a: byte, y: nat, i: nat)
    requires img.Valid() && y < img.height
    requires RowOffset(y, img.stride) <= i < RowOffset(y, img.stride) + img.stride
    ensures i < |img.data|
    ensures FillByte(img, r, g, b, a, i) ==
      if i - RowOffset(y, img.stride) < Channels * img.width
      then ChannelValue(r, g, b, a, (i - RowOffset(y, img.stride)) % Channels)
      else img.data[i]
  {
    RowWithinBuffer(img.stride, img.height, y);
    RowPosition(img.stride, y, i - RowOffset(y, img.stride));
  }

  /** After a fill, channel `c` of every pixel holds the requested channel value. */
  lemma FillByteAtPixel(img: Image, r: byte, g: byte, b: byte, a: byte, y: nat, x: nat, c: nat)
    requires img.Valid() && y < img.height && x < img.width && c < Channels
    ensures PixelOffset(img.stride, y, x, c) < |img.data|
    ensures FillByte(img, r, g, b, a, PixelOffset(img.stride, y, x, c)) == ChannelValue(r, g, b, a, c)
  {
    PixelWithinBuffer(img.stride, img.width, img.height, y, x, c);
    PixelOfPixelOffset(img.stride, img.width, y, x, c);
  }

  /** The four stores of the inner loop of `Fill` for pixel `x` of the row starting at byte `row`. */
  method FillPixel(d: seq<byte>, row: nat, x: nat, r: byte, g: byte, b: byte, a: byte) returns (d': seq<byte>)
    requires row + Channels * x + Channels <= |d|
    ensures |d'| == |d|
    ensures forall i :: row + Channels * x <= i < row + Channels * x + Channels ==>
              d'[i] == ChannelValue(r, g, b, a, (i - row) % Channels)
    ensures forall i :: 0 <= i < |d| && !(row + Channels * x <= i < row + Channels * x + Channels) ==> d'[i] == d[i]
  {
    var p := row + Channels * x;
    d' := d[p := r][p + 1 := g][p + 2 := b][p + 3 := a];
    forall i | p <= i < p + Channels
      ensures d'[i] == ChannelValue(r, g, b, a, (i - row) % Channels)
    {
      ChannelOfByte(x, i - p);
    }
  }

  /** The inner loop of `Fill` over the row starting at byte `row`: its pixel bytes are set; the rest of `d` is left alone. */
  method FillRowPixels(d: seq<byte>, row: nat, width: nat, r: byte, g: byte, b: byte, a: byte) returns (d': seq<byte>)
    requires row + Channels * width <= |d|
    ensures |d'| == |d|
    ensures forall i :: row <= i < row + Channels * width ==> d'[i] == ChannelValue(r, g, b, a, (i - row) % Channels)
    ensures forall i :: 0 <= i < |d| && !(row <= i < row + Channels * width) ==> d'[i] == d[i]
  {
    d' := d;
    var x: nat := 0;
    while x < width
      invariant x <= width && |d'| == |d|
      invariant forall i :: row <= i < row + Channels * x ==> d'[i] == ChannelValue(r, g, b, a, (i - row) % Channels)
      invariant forall i :: 0 <= i < |d| && !(row <= i < row + Channels * x) ==> d'[i] == d[i]
    {
      d' := FillPixel(d', row, x, r, g, b, a);
      x := x + 1;
    }
  }

  /** One iteration of the row loop of `Fill`: rows before `y + 1` are filled, the rest untouched. */
  method FillRow(img: Image, d: seq<byte>, y: nat, r: byte, g: byte, b: byte, a: byte) returns (d': seq<byte>)
    requires img.Valid() && y < img.height && |d| == |img.data| && RowOffset(y, img.stride) <= |d|
    requires forall i :: 0 <= i < RowOffset(y, img.stride) ==> d[i] == FillByte(img, r, g, b, a, i)
    requires forall i :: RowOffset(y, img.stride) <= i < |d| ==> d[i] == img.data[i]
    ensures |d'| == |d| && RowOffset(y + 1, img.stride) <= |d'|
    ensures forall i :: 0 <= i < RowOffset(y + 1, img.stride) ==> d'[i] == FillByte(img, r, g, b, a, i)
    ensures forall i :: RowOffset(y + 1, img.stride) <= i < |d'| ==> d'[i] == img.data[i]
  {
    var row := RowOffset(y, img.stride);
    RowWithinBuffer(img.stride, img.height, y);
    d' := FillRowPixels(d, row, img.width, r, g, b, a);
    forall i | row <= i < row + img.stride
      ensures d'[i] == FillByte(img, r, g, b, a, i)
    {
      FillByteInRow(img, r, g, b, a, y, i);
    }
    RowOffsetNext(y, img.stride);
    RowWithinBuffer(img.stride, img.height, y);
  }

  /** Set every pixel to `(r, g, b, a)`, row by row and pixel by pixel; the alpha `a` defaults to opaque (255). */
  method Fill(img: Image, r: byte, g: byte, b: byte, a: byte := 255) returns (out: Image)
    requires img.Valid()
    ensures out.Valid()
    ensures out.width == img.width && out.height == img.height && out.stride == img.stride
    ensures forall y: nat, x: nat, c: nat :: y < img.height && x < img.width && c < Channels ==>
              PixelOffset(img.stride, y, x, c) < |out.data| &&
              out.data[PixelOffset(img.stride, y, x, c)] == ChannelValue(r, g, b, a, c)
    ensures forall i :: 0 <= i < |img.data| && img.IsPadding(i) ==> out.data[i] == img.data[i]
  {
    var d := img.data;
    var y: nat := 0;
    while y < img.height
      invariant y <= img.height && |d| == |img.data| && RowOffset(y, img.stride) <= |d|
      invariant forall i :: 0 <= i < RowOffset(y, img.stride) ==> d[i] == FillByte(img, r, g, b, a, i)
      invariant forall i :: RowOffset(y, img.stride) <= i < |d| ==> d[i] == img.data[i]
    {
      d := FillRow(img, d, y, r, g, b, a);
      y := y + 1;
    }
    assert RowOffset(y, img.stride) == |d|;
    assert forall i :: 0 <= i < |d| ==> d[i] == FillByte(img, r, g, b, a, i);
    out := img.(data := d);
    forall y: nat, x: nat, c: nat | y < img.height && x < img.width && c < Channels
      ensures PixelOffset(img.stride, y, x, c) < |out.data|
      ensures out.data[PixelOffset(img.stride, y, x, c)] == ChannelValue(r, g, b, a, c)
    {
      FillByteAtPixel(img, r, g, b, a, y, x, c);
    }
  }
}
