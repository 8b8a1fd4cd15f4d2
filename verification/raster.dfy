/**
 * The byte layout of the framebuffer, as pure functions over the buffer's
 * contents: `width * height` pixels stored row by row, three bytes (red,
 * green, blue) per pixel, pixel (x, y) starting at byte (y * width + x) * 3.
 * The class in framebuffer.dfy is specified by these functions.
 */
module Raster {
  import opened Colors

  /** Offset of the first byte of pixel (x, y) in a buffer `width` pixels wide. */
  function PixelIndex(width: nat, x: nat, y: nat): nat
  {
    (y * width + x) * 3
  }

  /** The guard shared by `point`, `set_pixel` and `get_pixel`. */
  predicate InBounds(width: nat, height: nat, x: int, y: int)
  {
    0 <= x < width && 0 <= y < height
  }

  /** Row-major position of an in-range pixel: below `width * height`. */
  lemma PositionInRange(width: nat, height: nat, x: nat, y: nat)
    requires InBounds(width, height, x, y)
    ensures y * width + x < width * height
  {
    calc {
      y * width + x;
    <  y * width + width;
    == (y + 1) * width;
    <= { assert y + 1 <= height; MulMonotone(y + 1, height, width); }
      height * width;
    }
  }

  lemma MulMonotone(a: nat, b: nat, k: nat)
    requires a <= b
    ensures a * k <= b * k
  {
  }

  /** Row `y` of an image ends inside the image. */
  lemma RowFits(width: nat, height: nat, y: nat)
    requires y < height
    ensures y * width + width <= width * height
  {
    MulMonotone(y + 1, height, width);
  }

  /** Every byte of an in-range pixel lies inside the buffer. */
  lemma IndexInRange(width: nat, height: nat, x: nat, y: nat)
    requires InBounds(width, height, x, y)
    ensures PixelIndex(width, x, y) + 2 < width * height * 3
  {
    PositionInRange(width, height, x, y);
  }

  /** Two different in-range pixels occupy disjoint byte triples. */
  lemma IndexSeparated(width: nat, height: nat, x: nat, y: nat, x': nat, y': nat)
    requires InBounds(width, height, x, y) && InBounds(width, height, x', y')
    requires (x, y) != (x', y')
    ensures PixelIndex(width, x, y) + 3 <= PixelIndex(width, x', y')
         || PixelIndex(width, x', y') + 3 <= PixelIndex(width, x, y)
  {
    if y < y' {
      RowsApart(width, x, y, x', y');
    } else if y' < y {
      RowsApart(width, x', y', x, y);
    }
  }

  lemma RowsApart(width: nat, x: nat, y: nat, x': nat, y': nat)
    requires x < width && y < y'
    ensures y * width + x < y' * width + x'
  {
    MulMonotone(y + 1, y', width);
  }

  /**
   * The pixel at (x, y): `None` exactly when the coordinates fall outside
   * the image, otherwise the three stored bytes.
   */
  function PixelOf(d: seq<Byte>, width: nat, height: nat, x: int, y: int): (p: Option<Rgb>)
    requires |d| == width * height * 3
    ensures p.None? <==> !InBounds(width, height, x, y)
  {
    if x < 0 || y < 0 || x >= width || y >= height then None
    else
      IndexInRange(width, height, x, y);
      var i := PixelIndex(width, x, y);
      Some((d[i], d[i + 1], d[i + 2]))
  }

  /** The buffer after writing colour `c` at (x, y); out-of-range writes are dropped. */
  function WritePixel(d: seq<Byte>, width: nat, height: nat, x: int, y: int, c: Rgb): (r: seq<Byte>)
    requires |d| == width * height * 3
    ensures |r| == |d|
  {
    if InBounds(width, height, x, y) then
      IndexInRange(width, height, x, y);
      var i := PixelIndex(width, x, y);
      d[i := c.0][i + 1 := c.1][i + 2 := c.2]
    else d
  }

  /** Reading back a pixel just written yields the written colour. */
  lemma ReadAfterWrite(d: seq<Byte>, width: nat, height: nat, x: int, y: int, c: Rgb)
    requires |d| == width * height * 3
    requires InBounds(width, height, x, y)
    ensures PixelOf(WritePixel(d, width, height, x, y, c), width, height, x, y) == Some(c)
  {
    IndexInRange(width, height, x, y);
    var i := PixelIndex(width, x, y);
    var r := WritePixel(d, width, height, x, y, c);
    assert r == d[i := c.0][i + 1 := c.1][i + 2 := c.2];
    assert r[i] == c.0 && r[i + 1] == c.1 && r[i + 2] == c.2;
  }

  /** A write leaves every other pixel, in range or not, as it was. */
  lemma ReadOtherAfterWrite(d: seq<Byte>, width: nat, height: nat, x: int, y: int, c: Rgb, x': int, y': int)
    requires |d| == width * height * 3
    requires (x, y) != (x', y')
    ensures PixelOf(WritePixel(d, width, height, x, y, c), width, height, x', y')
         == PixelOf(d, width, height, x', y')
  {
    if InBounds(width, height, x, y) && InBounds(width, height, x', y') {
      IndexInRange(width, height, x, y);
      IndexInRange(width, height, x', y');
      IndexSeparated(width, height, x, y, x', y');
      var i, i' := PixelIndex(width, x, y), PixelIndex(width, x', y');
      var r := WritePixel(d, width, height, x, y, c);
      assert r == d[i := c.0][i + 1 := c.1][i + 2 := c.2];
      assert r[i'] == d[i'] && r[i' + 1] == d[i' + 1] && r[i' + 2] == d[i' + 2];
    }
  }

  /**
   * A write changes at most the three bytes of its own pixel, and nothing
   * at all when the coordinates are out of range.
   */
  lemma WriteTouchesOnlyPixel(d: seq<Byte>, width: nat, height: nat, x: int, y: int, c: Rgb, j: int)
    requires |d| == width * height * 3
    requires 0 <= j < |d|
    requires !InBounds(width, height, x, y) || j < PixelIndex(width, x, y) || PixelIndex(width, x, y) + 3 <= j
    ensures WritePixel(d, width, height, x, y, c)[j] == d[j]
  {
    if InBounds(width, height, x, y) {
      IndexInRange(width, height, x, y);
      var i := PixelIndex(width, x, y);
      assert WritePixel(d, width, height, x, y, c) == d[i := c.0][i + 1 := c.1][i + 2 := c.2];
    }
  }

  /** Channel `k` (0 red, 1 green, 2 blue) of a colour. */
  function Channel(c: Rgb, k: nat): Byte
  {
    if k == 0 then c.0 else if k == 1 then c.1 else c.2
  }

  /** Every three-byte chunk of `d` holds colour `c`. */
  predicate FilledWith(d: seq<Byte>, c: Rgb)
  {
    forall j | 0 <= j < |d| :: d[j] == Channel(c, j % 3)
  }

  /** The first `n` bytes of `d` are whole or partial chunks holding colour `c`. */
  predicate FilledUpTo(d: seq<Byte>, c: Rgb, n: nat)
  {
    n <= |d| && forall j | 0 <= j < n :: d[j] == Channel(c, j % 3)
  }

  /** Writing chunk `p` with `c` extends a filled prefix of `3 * p` bytes by one chunk. */
  lemma FillStep(d: seq<Byte>, c: Rgb, p: nat)
    requires FilledUpTo(d, c, 3 * p) && 3 * p + 2 < |d|
    ensures FilledUpTo(d[3 * p := c.0][3 * p + 1 := c.1][3 * p + 2 := c.2], c, 3 * p + 3)
  {
    var e := d[3 * p := c.0][3 * p + 1 := c.1][3 * p + 2 := c.2];
    forall j | 0 <= j < 3 * p + 3
      ensures e[j] == Channel(c, j % 3)
    {
      if j >= 3 * p {
        assert j % 3 == j - 3 * p;
      }
    }
  }

  /** In a buffer filled with `c`, every in-range pixel reads as `c`. */
  lemma ReadFilled(d: seq<Byte>, width: nat, height: nat, c: Rgb, x: int, y: int)
    requires |d| == width * height * 3
    requires FilledWith(d, c)
    requires InBounds(width, height, x, y)
    ensures PixelOf(d, width, height, x, y) == Some(c)
  {
    var i := PixelIndex(width, x, y);
    IndexInRange(width, height, x, y);
    var k := y * width + x;
    assert i == 3 * k;
    assert i % 3 == 0 && (i + 1) % 3 == 1 && (i + 2) % 3 == 2;
  }

  /** In an all-zero buffer every in-range pixel reads as black. */
  lemma ReadCleared(d: seq<Byte>, width: nat, height: nat, x: int, y: int)
    requires |d| == width * height * 3
    requires forall j | 0 <= j < |d| :: d[j] == 0
    requires InBounds(width, height, x, y)
    ensures PixelOf(d, width, height, x, y) == Some((0, 0, 0))
  {
    IndexInRange(width, height, x, y);
  }

  /** The buffer after plotting colour `c` at each point of `ps`, in order. */
  function PlotAll(d: seq<Byte>, width: nat, height: nat, c: Rgb, ps: seq<(int, int)>): (r: seq<Byte>)
    requires |d| == width * height * 3
    ensures |r| == |d|
    decreases |ps|
  {
    if ps == [] then d
    else
      var last := ps[|ps| - 1];
      WritePixel(PlotAll(d, width, height, c, ps[..|ps| - 1]), width, height, last.0, last.1, c)
  }

  /** Plotting one more point is one more `WritePixel` on the result. */
  lemma PlotAllSnoc(d: seq<Byte>, width: nat, height: nat, c: Rgb, ps: seq<(int, int)>, x: int, y: int)
    requires |d| == width * height * 3
    ensures PlotAll(d, width, height, c, ps + [(x, y)]) == WritePixel(PlotAll(d, width, height, c, ps), width, height, x, y, c)
  {
    assert (ps + [(x, y)])[..|ps|] == ps;
  }

  /** Plotting a list of points colours each in-range point of it with `c`. */
  lemma {:induction false} PlotAllPaints(d: seq<Byte>, width: nat, height: nat, c: Rgb, ps: seq<(int, int)>, x: int, y: int)
    requires |d| == width * height * 3
    requires (x, y) in ps && InBounds(width, height, x, y)
    ensures PixelOf(PlotAll(d, width, height, c, ps), width, height, x, y) == Some(c)
    decreases |ps|
  {
    var last := ps[|ps| - 1];
    var before := PlotAll(d, width, height, c, ps[..|ps| - 1]);
    if last == (x, y) {
      ReadAfterWrite(before, width, height, x, y, c);
    } else {
      assert ps == ps[..|ps| - 1] + [last];
      assert (x, y) in ps[..|ps| - 1];
      PlotAllPaints(d, width, height, c, ps[..|ps| - 1], x, y);
      ReadOtherAfterWrite(before, width, height, last.0, last.1, c, x, y);
    }
  }

  /** Plotting a list of points leaves every pixel off the list as it was. */
  lemma {:induction false} PlotAllKeeps(d: seq<Byte>, width: nat, height: nat, c: Rgb, ps: seq<(int, int)>, x: int, y: int)
    requires |d| == width * height * 3
    requires (x, y) !in ps
    ensures PixelOf(PlotAll(d, width, height, c, ps), width, height, x, y) == PixelOf(d, width, height, x, y)
    decreases |ps|
  {
    if ps != [] {
      var last := ps[|ps| - 1];
      assert (x, y) !in ps[..|ps| - 1];
      PlotAllKeeps(d, width, height, c, ps[..|ps| - 1], x, y);
      ReadOtherAfterWrite(PlotAll(d, width, height, c, ps[..|ps| - 1]), width, height, last.0, last.1, c, x, y);
    }
  }
}
