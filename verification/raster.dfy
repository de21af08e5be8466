/** The pieces of macroquad's image and colour types the renderer relies on:
    a colour is four reals, an image a row-major grid of colours created in
    one colour and changed one pixel at a time. */
module Raster {
  import opened Elementary

  datatype Color = Color(r: real, g: real, b: real, a: real)

  /** macroquad's `BLACK`: opaque black. */
  const Black: Color := Color(0.0, 0.0, 0.0, 1.0)

  /** An image: `pixels[y * width + x]` is the colour at column x, row y. */
  datatype Image = Image(width: nat, height: nat, pixels: seq<Color>)
  {
    ghost predicate Valid()
    {
      |pixels| == width * height
    }
  }

  /** `Image::gen_image_color`: every pixel in the one colour. */
  function Filled(width: nat, height: nat, c: Color): (img: Image)
    ensures img.Valid() && img.width == width && img.height == height
    ensures forall k :: 0 <= k < |img.pixels| ==> img.pixels[k] == c
  {
    Image(width, height, seq(width * height, _ => c))
  }

  /** `Image::set_pixel`, which asserts that (x, y) lies inside the image:
      exactly the pixel at row-major position y·width + x changes. */
  function SetPixel(img: Image, x: nat, y: nat, c: Color): (out: Image)
    requires img.Valid() && x < img.width && y < img.height
    ensures out.Valid() && out.width == img.width && out.height == img.height
    ensures y * img.width + x < |img.pixels|
    ensures out.pixels == img.pixels[y * img.width + x := c]
  {
    RowMajorInBounds(x, y, img.width, img.height);
    Image(img.width, img.height, img.pixels[y * img.width + x := c])
  }

  /** A column below the width and a row below the height give a row-major
      position below width·height. */
  lemma RowMajorInBounds(x: nat, y: nat, width: nat, height: nat)
    requires x < width && y < height
    ensures 0 <= y * width + x < width * height
  {
    MulLeftMonotone(0, y, width);
    assert y * width + x < y * width + width;
    assert y * width + width == (y + 1) * width;
    assert (y + 1) * width <= height * width by {
      MulLeftMonotone(y + 1, height, width);
    }
  }

  /** Row-major position k is column k % width of row k / width. */
  lemma RowMajorSplit(k: nat, width: nat)
    requires width > 0
    ensures (k / width) * width + k % width == k
    ensures k % width < width
  {
  }
}
