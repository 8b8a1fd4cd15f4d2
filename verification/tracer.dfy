/**
 * The renderer of main.rs: `cast_ray` picks a colour from the intersection
 * records the scene's objects produce for one ray, `render` paints every
 * pixel through `Framebuffer::point`, and the window loop packs the byte
 * buffer into 0xAARRGGBB words. The float geometry that produces the
 * records is not modelled: a ray is represented by the sequence of records
 * its objects yield, in scene order.
 */
module Tracer {
  import opened Colors
  import opened Raster
  import Packing
  import opened Framebuffers

  datatype Material = Material(diffuse: Color)

  /** An intersection record: how far along the ray, whether it hit, and the surface's material. */
  datatype Intersect = Intersect(distance: real, isIntersecting: bool, material: Material)

  /** `Intersect::empty()`: the no-hit record, at distance 0. */
  function Empty(): (e: Intersect)
    ensures !e.isIntersecting && e.distance == 0.0
  {
    Intersect(0.0, false, Material(Color(0, 0, 0)))
  }

  /**
   * A record as `ray_intersect` can produce it: either the empty record or a
   * hit built by `Intersect::new` only when the root `t` is positive.
   */
  predicate WellFormed(r: Intersect): (b: bool)
    ensures b && r.isIntersecting ==> !Below(r.distance, Finite(Empty().distance))
  {
    r.isIntersecting ==> r.distance > 0.0
  }

  /** The z-buffer threshold: `f32::INFINITY` at the start, a distance afterwards. */
  datatype Depth = Infinity | Finite(value: real)

  /** `d < zbuffer` */
  predicate Below(d: real, z: Depth)
  {
    z.Infinity? || d < z.value
  }

  /** The sky colour returned when no object is hit. */
  const Sky: Color := Color(4, 12, 36)

  /** The two variables `cast_ray`'s loop updates. */
  datatype Scan = Scan(intersect: Intersect, zbuffer: Depth)

  /**
   * One iteration of the selection loop. A record is accepted when it hits
   * and lies below the threshold; the threshold then becomes the distance
   * of the record kept SO FAR, not of the one accepted.
   */
  function Consider(s: Scan, tmp: Intersect): (r: Scan)
    ensures r == s || r.intersect == tmp
    ensures r != s ==> tmp.isIntersecting && Below(tmp.distance, s.zbuffer) && r.zbuffer == Finite(s.intersect.distance)
    ensures tmp.isIntersecting && Below(tmp.distance, s.zbuffer) ==> r.intersect == tmp
  {
    if tmp.isIntersecting && Below(tmp.distance, s.zbuffer) then Scan(tmp, Finite(s.intersect.distance))
    else s
  }

  predicate AnyHit(objects: seq<Intersect>)
  {
    exists i | 0 <= i < |objects| :: objects[i].isIntersecting
  }

  /**
   * The state after the loop has run over `objects`. A record is kept iff
   * some object hit, the kept record is one of the objects' records, and
   * with no hit the state is still the initial one.
   */
  function ScanAll(objects: seq<Intersect>): (s: Scan)
    ensures s.intersect.isIntersecting <==> AnyHit(objects)
    ensures s.intersect.isIntersecting ==> s.intersect in objects
    ensures !s.intersect.isIntersecting ==> s == Scan(Empty(), Infinity)
    decreases |objects|
  {
    if objects == [] then Scan(Empty(), Infinity)
    else
      var prefix := objects[..|objects| - 1];
      var last := objects[|objects| - 1];
      assert objects == prefix + [last];
      assert forall i | 0 <= i < |prefix| :: prefix[i] == objects[i];
      Consider(ScanAll(prefix), last)
  }

  /** The colour `cast_ray` returns for a ray whose objects yield `objects`. */
  function RayColor(objects: seq<Intersect>): (c: Color)
    ensures !AnyHit(objects) ==> c == Sky
    ensures AnyHit(objects) ==> exists i | 0 <= i < |objects| :: objects[i].isIntersecting && c == objects[i].material.diffuse
  {
    var s := ScanAll(objects);
    if !s.intersect.isIntersecting then Sky
    else
      assert s.intersect in objects;
      s.intersect.material.diffuse
  }

  /**
   * Because hits lie at positive distances and the threshold becomes the
   * empty record's 0.0 on the first accepted hit, the record kept is the
   * FIRST intersecting one in scene order, whatever the distances.
   */
  lemma {:induction false} FirstHitKept(objects: seq<Intersect>, i: nat)
    requires forall j | 0 <= j < |objects| :: WellFormed(objects[j])
    requires i < |objects| && objects[i].isIntersecting
    requires forall j | 0 <= j < i :: !objects[j].isIntersecting
    ensures ScanAll(objects) == Scan(objects[i], Finite(0.0))
    decreases |objects|
  {
    var prefix := objects[..|objects| - 1];
    var last := objects[|objects| - 1];
    if i == |objects| - 1 {
      assert !AnyHit(prefix) by {
        forall j | 0 <= j < |prefix| ensures !prefix[j].isIntersecting {
          assert prefix[j] == objects[j];
        }
      }
    } else {
      FirstHitKept(prefix, i);
      assert WellFormed(last);
    }
  }

  /** `cast_ray` returns the diffuse colour of the first object the ray hits. */
  lemma FirstHitColor(objects: seq<Intersect>, i: nat)
    requires forall j | 0 <= j < |objects| :: WellFormed(objects[j])
    requires i < |objects| && objects[i].isIntersecting
    requires forall j | 0 <= j < i :: !objects[j].isIntersecting
    ensures RayColor(objects) == objects[i].material.diffuse
  {
    FirstHitKept(objects, i);
  }

  /**
   * The comment in `cast_ray` calls the kept record the closest, but it is
   * not: with a hit at distance 2 before a hit at distance 1, the farther
   * one's colour is returned.
   */
  lemma NearerLaterHitIgnored()
    ensures var far := Intersect(2.0, true, Material(Color(255, 255, 255)));
            var near := Intersect(1.0, true, Material(Color(0, 0, 0)));
            RayColor([far, near]) == Color(255, 255, 255)
  {
    var far := Intersect(2.0, true, Material(Color(255, 255, 255)));
    var near := Intersect(1.0, true, Material(Color(0, 0, 0)));
    FirstHitColor([far, near], 0);
  }

  /** The selection loop of `cast_ray`. */
  method CastRay(objects: seq<Intersect>) returns (c: Color)
    ensures c == RayColor(objects)
    ensures !AnyHit(objects) ==> c == Sky
  {
    var intersect := Empty();
    var zbuffer := Infinity;
    for k := 0 to |objects|
      invariant Scan(intersect, zbuffer) == ScanAll(objects[..k])
      invariant intersect.isIntersecting <==> AnyHit(objects[..k])
    {
      var tmp := objects[k];
      assert objects[..k + 1] == objects[..k] + [tmp];
      if tmp.isIntersecting && Below(tmp.distance, zbuffer) {
        zbuffer := Finite(intersect.distance);
        intersect := tmp;
      }
    }
    assert objects[..|objects|] == objects;
    if !intersect.isIntersecting {
      return Sky;
    }
    c := intersect.material.diffuse;
  }

  /** The pixels of row `y`, left to right. */
  function Row(width: nat, y: nat): (r: seq<(nat, nat)>)
    ensures |r| == width
    ensures forall x | 0 <= x < width :: r[x] == (x, y)
  {
    seq(width, x requires 0 <= x < width => (x, y))
  }

  /** The order in which `render` visits pixels: row by row, top row first. */
  function RowMajor(width: nat, height: nat): (r: seq<(nat, nat)>)
    ensures |r| == width * height
    decreases height
  {
    if height == 0 then []
    else
      assert (height - 1) * width + width == width * height;
      RowMajor(width, height - 1) + Row(width, height - 1)
  }

  /** Entry `y * width + x` of the visiting order is pixel (x, y). */
  lemma {:induction false} RowMajorAt(width: nat, height: nat, x: nat, y: nat)
    requires x < width && y < height
    ensures y * width + x < |RowMajor(width, height)|
    ensures RowMajor(width, height)[y * width + x] == (x, y)
    decreases height
  {
    PositionInRange(width, height, x, y);
    var before := RowMajor(width, height - 1);
    assert RowMajor(width, height) == before + Row(width, height - 1);
    if y < height - 1 {
      PositionInRange(width, height - 1, x, y);
      RowMajorAt(width, height - 1, x, y);
    } else {
      assert y * width + x - |before| == x;
    }
  }

  /**
   * The visiting order enumerates every in-range pixel exactly once: it has
   * `width * height` entries and entry `y * width + x` is (x, y).
   */
  lemma RowMajorEnumerates(width: nat, height: nat)
    ensures |RowMajor(width, height)| == width * height
    ensures forall x, y | 0 <= x < width && 0 <= y < height ::
      y * width + x < width * height && RowMajor(width, height)[y * width + x] == (x, y)
  {
    forall x, y | 0 <= x < width && 0 <= y < height
      ensures y * width + x < width * height && RowMajor(width, height)[y * width + x] == (x, y)
    {
      RowMajorAt(width, height, x, y);
    }
  }

  /** Whether pixel (x, y) of `d` shows colour `c`. */
  predicate Shows(d: seq<Byte>, width: nat, height: nat, x: int, y: int, c: Color)
    requires |d| == width * height * 3
  {
    PixelOf(d, width, height, x, y) == Some(ToRgb(c))
  }

  /** Every pixel before (x, y) in row-major order shows its traced colour. */
  predicate PaintedBefore(d: seq<Byte>, width: nat, height: nat, hitsAt: (nat, nat) -> seq<Intersect>, x: nat, y: nat)
    requires |d| == width * height * 3
  {
    forall xx, yy | 0 <= xx < width && 0 <= yy < height && (yy < y || (yy == y && xx < x)) ::
      Shows(d, width, height, xx, yy, RayColor(hitsAt(xx, yy)))
  }

  /** Painting pixel (x, y) with its colour extends the painted prefix of the image by one pixel. */
  lemma PaintExtends(d: seq<Byte>, width: nat, height: nat, x: nat, y: nat, hitsAt: (nat, nat) -> seq<Intersect>)
    requires |d| == width * height * 3
    requires x < width && y < height
    requires PaintedBefore(d, width, height, hitsAt, x, y)
    ensures PaintedBefore(WritePixel(d, width, height, x, y, ToRgb(RayColor(hitsAt(x, y)))), width, height, hitsAt, x + 1, y)
  {
    var c := ToRgb(RayColor(hitsAt(x, y)));
    forall xx, yy | 0 <= xx < width && 0 <= yy < height && (yy < y || (yy == y && xx < x + 1))
      ensures Shows(WritePixel(d, width, height, x, y, c), width, height, xx, yy, RayColor(hitsAt(xx, yy)))
    {
      if (xx, yy) == (x, y) {
        ReadAfterWrite(d, width, height, x, y, c);
      } else {
        ReadOtherAfterWrite(d, width, height, x, y, c, xx, yy);
      }
    }
  }

  /** A fully painted row moves the painted prefix to the start of the next row. */
  lemma RowDone(d: seq<Byte>, width: nat, height: nat, y: nat, hitsAt: (nat, nat) -> seq<Intersect>)
    requires |d| == width * height * 3
    requires PaintedBefore(d, width, height, hitsAt, width, y)
    ensures PaintedBefore(d, width, height, hitsAt, 0, y + 1)
  {
  }

  /** Every pixel in the rows after row `y` of `d` is as it is in `d0`. */
  predicate RowsAfterKept(d0: seq<Byte>, d: seq<Byte>, width: nat, height: nat, y: nat)
    requires |d0| == |d| == width * height * 3
  {
    forall xx, yy | 0 <= xx < width && y < yy < height ::
      PixelOf(d, width, height, xx, yy) == PixelOf(d0, width, height, xx, yy)
  }

  /** Writing a pixel of row `y` leaves the rows after it as they were. */
  lemma WriteKeepsRowsAfter(d0: seq<Byte>, d: seq<Byte>, width: nat, height: nat, x: nat, y: nat, c: Rgb)
    requires |d0| == |d| == width * height * 3
    requires RowsAfterKept(d0, d, width, height, y)
    ensures RowsAfterKept(d0, WritePixel(d, width, height, x, y, c), width, height, y)
  {
    forall xx, yy | 0 <= xx < width && y < yy < height
      ensures PixelOf(WritePixel(d, width, height, x, y, c), width, height, xx, yy) == PixelOf(d0, width, height, xx, yy)
    {
      ReadOtherAfterWrite(d, width, height, x, y, c, xx, yy);
    }
  }

  /**
   * Traces every pixel and paints it. `hitsAt(x, y)` stands for the records
   * the scene yields for pixel (x, y)'s ray; `visits` logs the points
   * painted, in order.
   */
  method Render(fb: Framebuffer, hitsAt: (nat, nat) -> seq<Intersect>) returns (ghost visits: seq<(nat, nat)>)
    requires fb.Valid()
    modifies fb`currentColor, fb.data
    ensures fb.Valid()
    ensures forall x, y | 0 <= x < fb.width && 0 <= y < fb.height ::
      Shows(fb.data[..], fb.width, fb.height, x, y, RayColor(hitsAt(x, y)))
    ensures visits == RowMajor(fb.width, fb.height)
    ensures fb.width > 0 && fb.height > 0 ==>
      fb.currentColor == ToRgb(RayColor(hitsAt(fb.width - 1, fb.height - 1)))
    ensures fb.width == 0 || fb.height == 0 ==> fb.currentColor == old(fb.currentColor)
  {
    var width, height := fb.width, fb.height;
    visits := [];
    for y := 0 to height
      invariant fb.Valid()
      invariant width == 0 || y == 0 ==> fb.currentColor == old(fb.currentColor)
      invariant visits == RowMajor(width, y)
      invariant PaintedBefore(fb.data[..], width, height, hitsAt, 0, y)
      invariant y > 0 && width > 0 ==> PixelOf(fb.data[..], width, height, width - 1, y - 1) == Some(fb.currentColor)
    {
      ghost var row := RenderRow(fb, hitsAt, y);
      visits := visits + row;
      RowDone(fb.data[..], width, height, y, hitsAt);
    }
    if width > 0 && height > 0 {
      assert Shows(fb.data[..], width, height, width - 1, height - 1, RayColor(hitsAt(width - 1, height - 1)));
    }
  }

  /**
   * The inner loop of `render`: traces and paints the pixels of row `y`
   * from left to right; `row` logs the points painted, in order.
   */
  method RenderRow(fb: Framebuffer, hitsAt: (nat, nat) -> seq<Intersect>, y: nat) returns (ghost row: seq<(nat, nat)>)
    requires fb.Valid() && y < fb.height
    requires PaintedBefore(fb.data[..], fb.width, fb.height, hitsAt, 0, y)
    modifies fb`currentColor, fb.data
    ensures fb.Valid()
    ensures PaintedBefore(fb.data[..], fb.width, fb.height, hitsAt, fb.width, y)
    ensures fb.width > 0 ==> PixelOf(fb.data[..], fb.width, fb.height, fb.width - 1, y) == Some(fb.currentColor)
    ensures fb.width == 0 ==> fb.currentColor == old(fb.currentColor)
    ensures RowsAfterKept(old(fb.data[..]), fb.data[..], fb.width, fb.height, y)
    ensures row == Row(fb.width, y)
  {
    var width, height := fb.width, fb.height;
    row := [];
    for x := 0 to width
      invariant fb.Valid()
      invariant x == 0 ==> fb.currentColor == old(fb.currentColor)
      invariant RowsAfterKept(old(fb.data[..]), fb.data[..], width, height, y)
      invariant row == Row(width, y)[..x]
      invariant PaintedBefore(fb.data[..], width, height, hitsAt, x, y)
      invariant x > 0 ==> PixelOf(fb.data[..], width, height, x - 1, y) == Some(fb.currentColor)
    {
      var color := CastRay(hitsAt(x, y));
      fb.SetCurrentColor(color);
      ghost var d := fb.data[..];
      fb.Point(x, y);
      PaintExtends(d, width, height, x, y, hitsAt);
      WriteKeepsRowsAfter(old(fb.data[..]), d, width, height, x, y, fb.currentColor);
      ReadAfterWrite(d, width, height, x, y, fb.currentColor);
      row := row + [(x, y)];
      assert Row(width, y)[..x + 1] == Row(width, y)[..x] + [(x, y)];
    }
    assert Row(width, y)[..width] == Row(width, y);
  }

  /**
   * The buffer the window loop hands to the display: one 0xFFRRGGBB word per
   * three-byte chunk of the framebuffer.
   */
  method DisplayBuffer(fb: Framebuffer) returns (buf: seq<Word>)
    requires fb.Valid()
    ensures |buf| == fb.width * fb.height
    ensures buf == Packing.ArgbPixels(fb.data[..])
  {
    var buffer := new Word[fb.width * fb.height](_ => 0);
    var chunks := fb.data.Length / 3;
    for i := 0 to chunks
      invariant forall q | 0 <= q < i :: buffer[q] == Packing.ArgbWord(fb.data[..], q)
    {
      var r, g, b := fb.data[3 * i], fb.data[3 * i + 1], fb.data[3 * i + 2];
      buffer[i] := Packing.Argb(r, g, b);
    }
    buf := buffer[..];
  }
}
