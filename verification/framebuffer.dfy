/**
 * The framebuffer: a `width * height` image stored as a flat, row-major
 * buffer of RGB bytes that its methods update in place, plus the colour
 * that `point` and `draw_line` paint with. Coordinates reach it already
 * rounded to integers.
 */
module Framebuffers {
  import opened Colors
  import opened Raster
  import Packing
  import Bresenham

  class Framebuffer {
    var width: nat
    var height: nat
    var data: array<Byte>
    var currentColor: Rgb

    /** Three bytes per pixel, nothing more. */
    ghost predicate Valid()
      reads this
    {
      data.Length == width * height * 3
    }

    /** A black image of the given size; the current colour is black. */
    constructor (width: nat, height: nat)
      ensures Valid() && fresh(data)
      ensures this.width == width && this.height == height
      ensures data.Length == width * height * 3
      ensures forall j | 0 <= j < data.Length :: data[j] == 0
      ensures currentColor == (0, 0, 0)
    {
      this.width := width;
      this.height := height;
      data := new Byte[width * height * 3](_ => 0);
      currentColor := (0, 0, 0);
    }

    /** Paints every pixel with `color`, three bytes at a time. */
    method SetBackgroundColor(color: Color)
      requires Valid()
      modifies data
      ensures Valid()
      ensures FilledWith(data[..], ToRgb(color))
    {
      var rgb := ToRgb(color);
      var chunks := width * height;  // one chunk of three bytes per pixel
      for p := 0 to chunks
        invariant FilledUpTo(data[..], rgb, 3 * p)
      {
        FillStep(data[..], rgb, p);
        data[3 * p] := color.red;
        data[3 * p + 1] := color.green;
        data[3 * p + 2] := color.blue;
      }
    }

    /** Selects the colour later `point` calls paint with. */
    method SetCurrentColor(color: Color)
      modifies this`currentColor
      ensures currentColor == ToRgb(color)
    {
      currentColor := (color.red, color.green, color.blue);
    }

    /** Paints pixel (x, y) with the current colour; out-of-range points are ignored. */
    method Point(x: int, y: int)
      requires Valid()
      modifies data
      ensures data[..] == WritePixel(old(data[..]), width, height, x, y, currentColor)
    {
      if x < 0 || y < 0 || x >= width || y >= height {
        return;
      }
      SetPixel(x, y, currentColor.0, currentColor.1, currentColor.2);
    }

    /** Sets every byte to 0. */
    method Clear()
      requires Valid()
      modifies data
      ensures forall j | 0 <= j < data.Length :: data[j] == 0
    {
      forall j | 0 <= j < data.Length {
        data[j] := 0;
      }
    }

    /** Stores (r, g, b) at pixel (x, y) when it lies inside the image. */
    method SetPixel(x: nat, y: nat, r: Byte, g: Byte, b: Byte)
      requires Valid()
      modifies data
      ensures data[..] == WritePixel(old(data[..]), width, height, x, y, (r, g, b))
    {
      if x >= width || y >= height {
        return;
      }
      IndexInRange(width, height, x, y);
      var index := (y * width + x) * 3;
      data[index] := r;
      data[index + 1] := g;
      data[index + 2] := b;
      assert data[..] == old(data[..])[index := r][index + 1 := g][index + 2 := b];
    }

    /** The pixel at (x, y), or `None` when (x, y) is outside the image. */
    function GetPixel(x: int, y: int): (p: Option<Rgb>)
      reads this, data
      requires Valid()
      ensures p == PixelOf(data[..], width, height, x, y)
    {
      if x < 0 || y < 0 || x >= width || y >= height then None
      else
        IndexInRange(width, height, x, y);
        var index := (y * width + x) * 3;
        Some((data[index], data[index + 1], data[index + 2]))
    }

    /** One 0x00RRGGBB word per pixel, in row-major order. */
    method ToU32Buffer() returns (buf: seq<Word>)
      requires Valid()
      ensures |data[..]| % 3 == 0 && buf == Packing.PackedPixels(data[..])
    {
      var n := width * height;
      var buffer := new Word[n](_ => 0);
      var row := 0;
      for y := 0 to height
        invariant row == y * width && row <= n
        invariant Packing.PackedUpTo(buffer[..], data[..], row)
      {
        RowFits(width, height, y);
        PackRow(buffer, row);
        row := row + width;
      }
      buf := buffer[..];
      Packing.PackedUpToAll(buf, data[..], n);
    }

    /**
     * The inner loop of `to_u32_buffer`: packs the `width` pixels of the row
     * whose first pixel is `row` (that is, `y * width`).
     */
    method PackRow(buffer: array<Word>, row: nat)
      requires Valid()
      requires row + width <= buffer.Length && data.Length == 3 * buffer.Length
      requires Packing.PackedUpTo(buffer[..], data[..], row)
      modifies buffer
      ensures Packing.PackedUpTo(buffer[..], data[..], row + width)
      ensures buffer[row + width..] == old(buffer[row + width..])
    {
      for x := 0 to width
        invariant Packing.PackedUpTo(buffer[..], data[..], row + x)
        invariant buffer[row + width..] == old(buffer[row + width..])
      {
        var p := row + x;
        var index := p * 3;
        var r, g, b := data[index], data[index + 1], data[index + 2];
        Packing.PackedUpToStep(buffer[..], data[..], p, r, g, b);
        buffer[p] := Packing.Pack(r, g, b);
      }
    }

    /** Plots the Bresenham line from (x1, y1) to (x2, y2) with the current colour. */
    method DrawLine(x1: int, y1: int, x2: int, y2: int)
      requires Valid()
      modifies data
      ensures data[..] == PlotAll(old(data[..]), width, height, currentColor,
                                  Bresenham.LinePoints(Bresenham.Line(x1, y1, x2, y2)))
    {
      var l := Bresenham.Line(x1, y1, x2, y2);
      var c := Bresenham.Start(l);
      ghost var plotted: seq<(int, int)> := [];
      Bresenham.StartInv(l);
      while true
        invariant Bresenham.Inv(l, c)
        invariant plotted + Bresenham.Trace(l, c) == Bresenham.LinePoints(l)
        invariant data[..] == PlotAll(old(data[..]), width, height, currentColor, plotted)
        decreases Bresenham.RemX(l, c) + Bresenham.RemY(l, c)
      {
        PlotAllSnoc(old(data[..]), width, height, currentColor, plotted, c.x, c.y);
        Point(c.x, c.y);
        if c.x == x2 && c.y == y2 {
          Bresenham.TraceAtEnd(l, c, plotted);
          plotted := plotted + [(c.x, c.y)];
          break;
        }
        Bresenham.TraceAdvance(l, c, plotted);
        plotted := plotted + [(c.x, c.y)];
        c := Bresenham.Step(l, c);
      }
    }
  }
}
