/** Row-major pixel grids: the decoded input image, the `RgbaImage` output buffer,
    and the order in which a row-by-row scan visits pixel coordinates. */
module Raster {
  import opened Pixels

  /** Pixel (x, y) of a `width` by `height` grid sits at linear index `y * width + x`. */
  lemma IndexInBounds(width: nat, height: nat, x: nat, y: nat)
    requires x < width && y < height
    ensures y * width + x < width * height
  {
    assert y * width + x < (y + 1) * width;
    assert (y + 1) * width <= height * width;
  }

  /** The decoded input image as `get_pixel` presents it: `width * height` RGBA pixels, row by row. */
  datatype Image = Image(width: nat, height: nat, pixels: seq<Rgba>)
  {
    ghost predicate Valid()
    {
      |pixels| == width * height
    }

    /** `get_pixel(x, y)` on an in-range coordinate. */
    function At(x: nat, y: nat): Rgba
      requires Valid() && x < width && y < height
    {
      IndexInBounds(width, height, x, y);
      pixels[y * width + x]
    }
  }

  /** A pixel coordinate: column `x`, row `y`. */
  datatype Coord = Coord(x: nat, y: nat)

  /** Pixel number `i` of a flat channel buffer: bytes `4 * i` to `4 * i + 3`. */
  function PixelOf(s: seq<Byte>, i: nat): Rgba
    requires 4 * i + 4 <= |s|
  {
    Rgba(s[4 * i], s[4 * i + 1], s[4 * i + 2], s[4 * i + 3])
  }

  /** The channel buffer `s` after pixel number `i` is overwritten with `p`. */
  function WritePixel(s: seq<Byte>, i: nat, p: Rgba): (t: seq<Byte>)
    requires 4 * i + 4 <= |s|
    ensures |t| == |s| && PixelOf(t, i) == p
    ensures forall k :: 0 <= k < |s| && (k < 4 * i || 4 * i + 4 <= k) ==> t[k] == s[k]
  {
    s[4 * i := p.r][4 * i + 1 := p.g][4 * i + 2 := p.b][4 * i + 3 := p.a]
  }

  /** The `RgbaImage` (an `ImageBuffer<Rgba<u8>, Vec<u8>>`): a flat buffer of channel
      bytes, four per pixel, pixel (x, y) starting at offset `4 * (y * width + x)`.
      `writes` records, in order, the coordinate of every `put_pixel` call made on it. */
  class RgbaImage {
    const width: nat
    const height: nat
    const buf: array<Byte>
    ghost var writes: seq<Coord>

    ghost predicate Valid()
    {
      buf.Length == 4 * (width * height)
    }

    /** `RgbaImage::new(w, h)`: a `w` by `h` buffer with every channel of every pixel zero. */
    constructor New(w: nat, h: nat)
      ensures width == w && height == h && Valid() && fresh(buf)
      ensures forall k :: 0 <= k < buf.Length ==> buf[k] == 0
      ensures writes == []
    {
      width, height := w, h;
      buf := new Byte[4 * (w * h)](_ => 0);
      writes := [];
    }

    /** `get_pixel(x, y)` on an in-range coordinate. */
    function GetPixel(x: nat, y: nat): Rgba
      reads buf
      requires Valid() && x < width && y < height
    {
      IndexInBounds(width, height, x, y);
      PixelOf(buf[..], y * width + x)
    }

    /** The buffer read back as an image value: its pixel (x, y) is what `get_pixel(x, y)` reads. */
    ghost function Snapshot(): (img: Image)
      reads buf
      requires Valid()
      ensures img.width == width && img.height == height && img.Valid()
      ensures forall x, y :: 0 <= x < width && 0 <= y < height ==> img.At(x, y) == GetPixel(x, y)
    {
      var img := Image(width, height, seq(width * height, i requires 0 <= i < width * height reads buf => PixelOf(buf[..], i)));
      assert forall x, y :: 0 <= x < width && 0 <= y < height ==> img.At(x, y) == GetPixel(x, y) by {
        forall x: nat, y: nat | x < width && y < height
          ensures img.At(x, y) == GetPixel(x, y)
        {
          IndexInBounds(width, height, x, y);
        }
      }
      img
    }

    /** `put_pixel(x, y, p)`: the four channel bytes of pixel (x, y) become `p`'s, no other
        byte changes, and the call is recorded in `writes`. */
    method PutPixel(x: nat, y: nat, p: Rgba)
      requires Valid() && x < width && y < height
      modifies this, buf
      ensures y * width + x < width * height
      ensures buf[..] == WritePixel(old(buf[..]), y * width + x, p)
      ensures writes == old(writes) + [Coord(x, y)]
    {
      IndexInBounds(width, height, x, y);
      var o := 4 * (y * width + x);
      buf[o], buf[o + 1], buf[o + 2], buf[o + 3] := p.r, p.g, p.b, p.a;
      writes := writes + [Coord(x, y)];
    }
  }
}

/** The order in which a row-by-row scan of a grid visits pixel coordinates. */
module ScanOrder {
  import opened Raster

  /** The first `n` coordinates of row `y`, left to right: (0, y), ..., (n - 1, y). */
  function Row(n: nat, y: nat): seq<Coord>
  {
    if n == 0 then [] else Row(n - 1, y) + [Coord(n - 1, y)]
  }

  /** Every coordinate of rows 0 to `h - 1` of a `w`-wide grid, row after row. */
  function RowMajor(w: nat, h: nat): seq<Coord>
  {
    if h == 0 then [] else RowMajor(w, h - 1) + Row(w, h - 1)
  }

  /** Row `y` lists column `x` at position `x`. */
  lemma {:induction false} RowAt(n: nat, y: nat)
    ensures |Row(n, y)| == n
    ensures forall x :: 0 <= x < n ==> Row(n, y)[x] == Coord(x, y)
  {
    if n > 0 {
      RowAt(n - 1, y);
    }
  }

  /** Distinct in-grid coordinates have distinct linear indices `y * w + x`. */
  lemma LinearInjective(w: nat, c: Coord, d: Coord)
    requires c.x < w && d.x < w
    requires c.y * w + c.x == d.y * w + d.x
    ensures c == d
  {
    MulMonotone(c.y + 1, d.y, w);
    MulMonotone(d.y + 1, c.y, w);
    assert (c.y + 1) * w == c.y * w + w && (d.y + 1) * w == d.y * w + w;
  }

  /** Multiplying by the same width keeps the order of two row numbers. */
  lemma MulMonotone(a: nat, b: nat, w: nat)
    ensures a <= b ==> a * w <= b * w
  {
  }

  /** Visit number `k` of the scan is the in-grid coordinate whose linear index is `k`,
      and the scan makes `w * h` visits. */
  lemma {:induction false} RowMajorIndex(w: nat, h: nat)
    ensures |RowMajor(w, h)| == w * h
    ensures forall k :: 0 <= k < |RowMajor(w, h)| ==>
              RowMajor(w, h)[k].x < w && RowMajor(w, h)[k].y < h &&
              RowMajor(w, h)[k].y * w + RowMajor(w, h)[k].x == k
  {
    if h > 0 {
      var earlier, last := RowMajor(w, h - 1), Row(w, h - 1);
      RowMajorIndex(w, h - 1);
      RowAt(w, h - 1);
      assert |earlier| == (h - 1) * w;
      assert (h - 1) * w + w == w * h;
      var s: seq<Coord> := earlier + last;
      assert s == RowMajor(w, h);
      forall k | 0 <= k < |s|
        ensures s[k].x < w && s[k].y < h && s[k].y * w + s[k].x == k
      {
        if k >= |earlier| {
          assert s[k] == Coord(k - |earlier|, h - 1);
        }
      }
    }
  }

  /** Every in-grid pixel is visited exactly once, as visit number `y * w + x`; by
      RowMajorIndex nothing outside the grid is visited. */
  lemma RowMajorVisitsOnce(w: nat, h: nat, c: Coord)
    requires c.x < w && c.y < h
    ensures c.y * w + c.x < |RowMajor(w, h)|
    ensures forall k :: 0 <= k < |RowMajor(w, h)| ==> (RowMajor(w, h)[k] == c <==> k == c.y * w + c.x)
  {
    RowMajorIndex(w, h);
    IndexInBounds(w, h, c.x, c.y);
    var s := RowMajor(w, h);
    forall k | 0 <= k < |s|
      ensures s[k] == c <==> k == c.y * w + c.x
    {
      if k == c.y * w + c.x {
        LinearInjective(w, s[k], c);
      }
    }
  }
}
