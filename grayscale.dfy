/** `convert_to_grayscale`: a fresh RGBA image of the input's size, filled row by row
    with the gray value of each input pixel and that pixel's own alpha. */
module Grayscale {
  import opened Pixels
  import opened Raster
  import opened ScanOrder

  /** The image `convert_to_grayscale` returns, as a value: pixel for pixel the gray version of `img`. */
  ghost function GrayscaleOf(weigh: WeightedSum, img: Image): (out: Image)
    requires img.Valid()
  {
    Image(img.width, img.height,
          seq(|img.pixels|, i requires 0 <= i < |img.pixels| => GrayPixel(weigh, img.pixels[i])))
  }

  /** The gray image has the input's dimensions; each of its pixels has equal red, green and
      blue, equal to the gray value of the input pixel at the same (x, y), and that pixel's alpha. */
  lemma GrayscaleOfAt(weigh: WeightedSum, img: Image, x: nat, y: nat)
    requires img.Valid() && x < img.width && y < img.height
    ensures GrayscaleOf(weigh, img).width == img.width && GrayscaleOf(weigh, img).height == img.height
    ensures GrayscaleOf(weigh, img).Valid()
    ensures var p, q := img.At(x, y), GrayscaleOf(weigh, img).At(x, y);
      q.r == q.g == q.b == Gray(weigh, p) && q.a == p.a
  {
    IndexInBounds(img.width, img.height, x, y);
    var i := y * img.width + x;
    assert GrayscaleOf(weigh, img).At(x, y) == GrayscaleOf(weigh, img).pixels[i];
    assert GrayscaleOf(weigh, img).pixels[i] == GrayPixel(weigh, img.pixels[i]);
  }

  /** Two inputs that agree on the colour channels of pixel `i` give the same red, green and
      blue there, and each keeps its own alpha. */
  lemma GrayscaleOfIgnoresAlpha(weigh: WeightedSum, img: Image, other: Image, i: nat)
    requires img.Valid() && other.Valid() && img.width == other.width && img.height == other.height
    requires i < |img.pixels|
    requires img.pixels[i].r == other.pixels[i].r && img.pixels[i].g == other.pixels[i].g
    requires img.pixels[i].b == other.pixels[i].b
    ensures GrayscaleOf(weigh, img).pixels[i].r == GrayscaleOf(weigh, other).pixels[i].r
    ensures GrayscaleOf(weigh, img).pixels[i].g == GrayscaleOf(weigh, other).pixels[i].g
    ensures GrayscaleOf(weigh, img).pixels[i].b == GrayscaleOf(weigh, other).pixels[i].b
    ensures GrayscaleOf(weigh, img).pixels[i].a == img.pixels[i].a
    ensures GrayscaleOf(weigh, other).pixels[i].a == other.pixels[i].a
  {
    GrayIgnoresAlpha(weigh, img.pixels[i], other.pixels[i]);
  }

  /** The loop invariant on the output buffer `s`: the first `done` pixels hold the gray
      version of the input's first `done` pixels, and every later byte is still the zero
      that `RgbaImage::new` put there. */
  ghost predicate Filled(weigh: WeightedSum, pixels: seq<Rgba>, s: seq<Byte>, done: nat)
  {
    done <= |pixels| && 4 * done <= |s| &&
    (forall i :: 0 <= i < done ==> PixelOf(s, i) == GrayPixel(weigh, pixels[i])) &&
    (forall k :: 4 * done <= k < |s| ==> s[k] == 0)
  }

  /** Writing the gray version of the next pixel extends the filled prefix by one pixel
      and leaves every byte after it untouched. */
  lemma FillStep(weigh: WeightedSum, pixels: seq<Rgba>, s: seq<Byte>, done: nat)
    requires Filled(weigh, pixels, s, done) && done < |pixels| && 4 * done + 4 <= |s|
    ensures Filled(weigh, pixels, WritePixel(s, done, GrayPixel(weigh, pixels[done])), done + 1)
  {
    var t := WritePixel(s, done, GrayPixel(weigh, pixels[done]));
    forall i | 0 <= i < done + 1
      ensures PixelOf(t, i) == GrayPixel(weigh, pixels[i])
    {
      if i < done {
        assert PixelOf(t, i) == PixelOf(s, i);
      }
    }
  }

  /** A buffer filled with every pixel of `img` reads back, pixel for pixel and as a whole,
      as the gray version of `img`. */
  lemma FilledImage(weigh: WeightedSum, img: Image, out: RgbaImage)
    requires img.Valid() && out.Valid()
    requires out.width == img.width && out.height == img.height
    requires Filled(weigh, img.pixels, out.buf[..], |img.pixels|)
    ensures forall x, y :: 0 <= x < out.width && 0 <= y < out.height ==>
              out.GetPixel(x, y) == GrayPixel(weigh, img.At(x, y))
    ensures out.Snapshot() == GrayscaleOf(weigh, img)
  {
    forall x: nat, y: nat | x < out.width && y < out.height
      ensures out.GetPixel(x, y) == GrayPixel(weigh, img.At(x, y))
    {
      IndexInBounds(out.width, out.height, x, y);
    }
  }

  /** `convert_to_grayscale(input_img)`. The `put_pixel` calls it makes on the new image
      (`out.writes`) are all the in-range pixels, each once, in row-major order. */
  method ConvertToGrayscale(weigh: WeightedSum, img: Image) returns (out: RgbaImage)
    requires img.Valid()
    ensures fresh(out) && fresh(out.buf) && out.Valid()
    ensures out.width == img.width && out.height == img.height
    ensures forall x, y :: 0 <= x < out.width && 0 <= y < out.height ==>
              out.GetPixel(x, y) == GrayPixel(weigh, img.At(x, y))
    ensures out.Snapshot() == GrayscaleOf(weigh, img)
    ensures out.writes == RowMajor(img.width, img.height)
  {
    var width, height := img.width, img.height;
    out := new RgbaImage.New(width, height);
    ghost var done: nat := 0;
    var y := 0;
    while y < height
      invariant 0 <= y <= height && done == y * width
      invariant fresh(out) && fresh(out.buf) && out.Valid() && out.width == width && out.height == height
      invariant out.writes == RowMajor(width, y)
      invariant Filled(weigh, img.pixels, out.buf[..], done)
    {
      var x := 0;
      while x < width
        invariant 0 <= x <= width && done == y * width + x
        invariant out.writes == RowMajor(width, y) + Row(x, y)
        invariant Filled(weigh, img.pixels, out.buf[..], done)
      {
        var pixel := img.At(x, y);
        var gray := Gray(weigh, pixel);
        IndexInBounds(width, height, x, y);
        assert pixel == img.pixels[done];
        ghost var before := out.buf[..];
        out.PutPixel(x, y, Rgba(gray, gray, gray, pixel.a));
        assert out.buf[..] == WritePixel(before, done, GrayPixel(weigh, img.pixels[done]));
        FillStep(weigh, img.pixels, before, done);
        assert Row(x + 1, y) == Row(x, y) + [Coord(x, y)];
        done := done + 1;
        x := x + 1;
      }
      assert (y + 1) * width == y * width + width;
      y := y + 1;
    }
    assert done == width * height;
    FilledImage(weigh, img, out);
  }
}
