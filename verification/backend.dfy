/** Turning the renderer's flat output buffers into images (src/backend.rs,
    src/gpu/backend.rs), and the size arithmetic of the GPU dispatch. */
module Backend {
  import opened Elementary
  import opened Machine
  import opened Raster

  /** What `Backend::to_image` returns: the image, or the error for a final
      chunk of fewer than three floats (its length is what the message
      reports). */
  datatype Decoding = Decoded(image: Image) | RaggedChunk(len: nat)

  /** The colour of chunk i of a flat RGB buffer, made opaque. */
  function ChunkColor(v: seq<real>, i: nat): Color
    requires 3 * i + 2 < |v|
  {
    Color(v[3 * i], v[3 * i + 1], v[3 * i + 2], 1.0)
  }

  /** The pixel that item i of a buffer lands on: column i mod width, row
      i div width, after `index as u32`. */
  function Column(i: nat, width: u16): nat
    requires width > 0
  {
    WrapU32(i) % width
  }

  function Row(i: nat, width: u16): nat
    requires width > 0
  {
    WrapU32(i) / width
  }

  /** A row-major position lies in a row below the height exactly when it is
      below width·height. */
  lemma RowBelowHeightIff(i: nat, width: nat, height: nat)
    requires width > 0
    ensures i / width < height <==> i < width * height
  {
    RowMajorSplit(i, width);
    if i / width < height {
      RowMajorInBounds(i % width, i / width, width, height);
    } else {
      MulLeftMonotone(height, i / width, width);
    }
  }

  /** Painting item i at its own row-major position: the invariant of both
      decoders, "position k holds item k for k < i, black beyond", moves
      from i to i + 1. */
  lemma PaintKeepsPrefix(img: Image, out: Image, i: nat, item: nat -> Color, c: Color)
    requires img.Valid() && img.width > 0
    requires forall k :: 0 <= k < |img.pixels| ==> img.pixels[k] == (if k < i then item(k) else Black)
    requires c == item(i)
    requires i < |img.pixels| ==> out.pixels == img.pixels[i := c]
    requires i >= |img.pixels| ==> out.pixels == img.pixels
    ensures forall k :: 0 <= k < |out.pixels| ==> out.pixels[k] == (if k < i + 1 then item(k) else Black)
  {
  }

  /** `Backend::to_image`: chunk i of three floats becomes pixel
      (i mod width, i div width) in opacity 1, rows at or past the height are
      skipped, and a final chunk shorter than three is an error. A zero
      width with a full chunk would divide by zero, so it is excluded. */
  method ToImage(v: seq<real>, width: u16, height: u16) returns (res: Decoding)
    requires width > 0 || |v| < 3
    ensures res.RaggedChunk? <==> |v| % 3 != 0
    ensures res.RaggedChunk? ==> res.len == |v| % 3
    ensures res.Decoded? ==> res.image.Valid() && res.image.width == width && res.image.height == height
    ensures res.Decoded? && |v| / 3 <= U32_LIMIT ==>
              forall k :: 0 <= k < |res.image.pixels| ==>
                res.image.pixels[k] == (if k < |v| / 3 then ChunkColor(v, k) else Black)
  {
    var image := Filled(width, height, Black);
    var chunks := (|v| + 2) / 3;
    ghost var item := (k: nat) => if 3 * k + 2 < |v| then ChunkColor(v, k) else Black;
    var index := 0;
    while index < chunks
      invariant 0 <= index <= chunks && 3 * index <= |v| + 2
      invariant index < chunks ==> 3 * index < |v|
      invariant image.Valid() && image.width == width && image.height == height
      invariant 3 * index <= |v|
      invariant |v| / 3 <= U32_LIMIT ==>
                  forall k :: 0 <= k < |image.pixels| ==> image.pixels[k] == (if k < index then item(k) else Black)
    {
      var len := if 3 * index + 3 <= |v| then 3 else |v| - 3 * index;
      if len != 3 {
        return RaggedChunk(len);
      }
      var c := Color(v[3 * index], v[3 * index + 1], v[3 * index + 2], 1.0);
      var px, py := Column(index, width), Row(index, width);
      var next := image;
      if py < height as nat {
        RowMajorInBounds(px, py, width, height);
        next := SetPixel(image, px, py, c);
      }
      if |v| / 3 <= U32_LIMIT {
        assert WrapU32(index) == index;
        RowMajorSplit(index, width);
        RowBelowHeightIff(index, width, height);
        PaintKeepsPrefix(image, next, index, item, c);
      }
      image := next;
      index := index + 1;
    }
    return Decoded(image);
  }

  /** `GPUBackend::to_image`: item i, an RGBA colour, is copied verbatim to
      pixel (i mod width, i div width); rows at or past the height are
      skipped. It never fails. A zero width with any item would divide by
      zero, so it is excluded. */
  method GpuToImage(result: seq<Color>, width: u16, height: u16) returns (image: Image)
    requires width > 0 || |result| == 0
    ensures image.Valid() && image.width == width && image.height == height
    ensures |result| <= U32_LIMIT ==>
              forall k :: 0 <= k < |image.pixels| ==>
                image.pixels[k] == (if k < |result| then result[k] else Black)
  {
    image := Filled(width, height, Black);
    ghost var item := (k: nat) => if k < |result| then result[k] else Black;
    var index := 0;
    while index < |result|
      invariant 0 <= index <= |result|
      invariant image.Valid() && image.width == width && image.height == height
      invariant |result| <= U32_LIMIT ==>
                  forall k :: 0 <= k < |image.pixels| ==> image.pixels[k] == (if k < index then item(k) else Black)
    {
      var c := result[index];
      var px, py := Column(index, width), Row(index, width);
      var next := image;
      if py < height as nat {
        RowMajorInBounds(px, py, width, height);
        next := SetPixel(image, px, py, c);
      }
      if |result| <= U32_LIMIT {
        assert WrapU32(index) == index;
        RowMajorSplit(index, width);
        RowBelowHeightIff(index, width, height);
        PaintKeepsPrefix(image, next, index, item, c);
      }
      image := next;
      index := index + 1;
    }
  }

  // ---------------------------------------------------------------------
  // Dispatch arithmetic of `GPUBackend::compute`

  /** `num_pixels`: the screen area, computed in f64 and cast `as u32`
      (truncating, saturating). */
  function NumPixels(screenWidth: real, screenHeight: real): (n: u32)
    ensures 0.0 <= screenWidth * screenHeight < (U32_LIMIT - 1) as real ==>
              n as real <= screenWidth * screenHeight < n as real + 1.0
    ensures screenWidth * screenHeight <= 0.0 ==> n == 0
    ensures (U32_LIMIT - 1) as real <= screenWidth * screenHeight ==> n == U32_LIMIT - 1
  {
    SaturateU32(screenWidth * screenHeight)
  }

  /** Bytes per pixel of the output buffer: one `[f32; 4]`. */
  const PIXEL_BYTES: nat := 16

  /** The output buffer's size, `num_pixels * size_of::<[f32; 4]>()` in u32
      arithmetic (wrapping on overflow). */
  function BufferSize(numPixels: u32): u32
  {
    WrapU32(numPixels * PIXEL_BYTES)
  }

  /** `num_pixels.div_ceil(64)`: the number of 64-thread workgroups. */
  function Workgroups(numPixels: u32): (groups: u32)
    ensures 64 * groups >= numPixels
    ensures numPixels > 0 ==> 64 * (groups - 1) < numPixels
    ensures numPixels == 0 ==> groups == 0
  {
    (numPixels + 63) / 64
  }

  // ---------------------------------------------------------------------
  // Properties

  /** Distinct chunk indices below width·height land on distinct pixels. */
  lemma DistinctChunksDistinctPixels(i: nat, j: nat, width: u16, height: u16)
    requires width > 0 && i < width * height && j < width * height && i != j
    ensures (Column(i, width), Row(i, width)) != (Column(j, width), Row(j, width))
  {
    RowBelowHeightIff(i, width, height);
    assert i < U32_LIMIT && j < U32_LIMIT;
    RowMajorSplit(i, width);
    RowMajorSplit(j, width);
  }

  /** The decoded image holds chunk i at (i mod width, i div width) whenever
      that row exists. */
  lemma ChunkLandsOnItsPixel(v: seq<real>, width: u16, height: u16, img: Image, i: nat)
    requires width > 0 && |v| % 3 == 0 && |v| / 3 <= U32_LIMIT
    requires img.Valid() && img.width == width && img.height == height
    requires forall k :: 0 <= k < |img.pixels| ==> img.pixels[k] == (if k < |v| / 3 then ChunkColor(v, k) else Black)
    requires i < |v| / 3 && Row(i, width) < height
    ensures Row(i, width) * width + Column(i, width) < |img.pixels|
    ensures img.pixels[Row(i, width) * width + Column(i, width)] == ChunkColor(v, i)
  {
    assert WrapU32(i) == i;
    RowMajorSplit(i, width);
    RowBelowHeightIff(i, width, height);
  }

  /** The buffer holds num_pixels × 16 bytes exactly when that product fits
      in 32 bits, that is below 2^28 pixels; beyond, it wraps around. */
  lemma BufferSizeExactIff(numPixels: u32)
    ensures BufferSize(numPixels) == numPixels * PIXEL_BYTES <==> numPixels < 0x1000_0000
  {
    if numPixels >= 0x1000_0000 {
      assert numPixels * PIXEL_BYTES >= U32_LIMIT;
    }
  }

  /** A 16384 × 16384 screen gets an output buffer of 0 bytes. */
  lemma BufferSizeWrapsAtLargeScreens()
    ensures NumPixels(16384.0, 16384.0) == 0x1000_0000
    ensures BufferSize(NumPixels(16384.0, 16384.0)) == 0
  {
  }

  /** The workgroup count is the least one covering every pixel. */
  lemma WorkgroupsLeast(numPixels: u32, g: nat)
    requires 64 * g >= numPixels
    ensures Workgroups(numPixels) <= g
  {
  }
}
