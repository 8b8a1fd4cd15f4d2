# Framebuffer and ray-casting loop of a small Rust ray tracer, in Dafny

This project models the two sequential parts of the ray tracer that need no
floating-point reasoning:

* **The framebuffer** (`src/framebuffer.rs`). This is a `width * height` image
  stored as a flat, row-major vector of RGB bytes. Pixel (x, y) starts at byte
  `(y * width + x) * 3`. The model is the class `Framebuffers.Framebuffer`
  over an `array<bv8>` that its methods update in place. The class is
  specified by pure functions over the buffer's contents in module `Raster`:
  `PixelOf` reads a pixel, `WritePixel` writes one and `PlotAll` plots a list
  of points. The conversions to packed 32-bit words (`to_u32_buffer`,
  `hex_to_rgb`) are bit-vector functions in module `Packing`. The line
  rasteriser `draw_line` is Bresenham's all-octant algorithm. Module
  `Bresenham` models it with a cursor `(x, y, err)`, one `Step` per loop
  iteration, and `LinePoints`, the sequence of points the loop plots.
  Termination rests on the invariant
  `err == dx + dy - dy * (x steps left) - dx * (y steps left)`.
  The method `DrawLine` runs that loop with a `Cursor` value and calls `Point`
  on each point.
* **The renderer in `src/main.rs`**, in module `Tracer`:
  * `cast_ray` scans the objects' intersection records. The model's `CastRay`
    runs the same loop over a sequence of abstract records
    `Intersect(distance, isIntersecting, material)`, with distances as reals.
  * `render` visits every pixel in row-major order, sets the current colour
    and calls `point`. `Render` does the same.
  * The window loop packs the bytes into `0xFFRRGGBB` words. `DisplayBuffer`
    does the same.

In `cast_ray`, the threshold `zbuffer` is assigned the distance of the record
kept so far *before* the new record replaces it (src/main.rs:21-22). It
therefore becomes `Intersect::empty()`'s `0.0` on the first accepted hit.
Because every hit lies at a positive distance (src/ray_intersect.rs:33-40),
no later record is accepted. The colour returned is the diffuse colour of the
*first* intersecting object in scene order, not of the nearest one, although
the comment in the source calls it the closest. The model keeps this
behaviour:
* `FirstHitKept` and `FirstHitColor` prove it for records that satisfy
  `WellFormed`.
* `NearerLaterHitIgnored` shows an input where the nearer, later hit loses.

`Colors.Color` stands for the colour type of `color.rs` (three bytes `red`,
`green`, `blue`). That file is not part of this model.

## Model

| member | source | states |
|---|---|---|
| Framebuffers.Framebuffer.constructor | src/framebuffer.rs:14-23 | the buffer has `width * height * 3` bytes, all 0, and the current colour is black |
| Framebuffers.Framebuffer.SetBackgroundColor | src/framebuffer.rs:25-31 | afterwards every three-byte chunk holds the colour's (red, green, blue); size and current colour are untouched |
| Framebuffers.Framebuffer.SetCurrentColor | src/framebuffer.rs:34-36 | the current colour becomes the colour's channel triple; nothing else changes |
| Framebuffers.Framebuffer.Point | src/framebuffer.rs:38-47 | the buffer becomes `WritePixel` of the old buffer at (x, y) with the current colour: that pixel only, and nothing for negative or out-of-range coordinates |
| Framebuffers.Framebuffer.Clear | src/framebuffer.rs:49-51 | every byte of the buffer is 0 |
| Framebuffers.Framebuffer.SetPixel | src/framebuffer.rs:53-62 | the buffer becomes `WritePixel` of the old buffer at (x, y) with (r, g, b); coordinates at or past the width or height change nothing |
| Framebuffers.Framebuffer.GetPixel | src/framebuffer.rs:64-73 | reading the array agrees with `PixelOf` of its contents; the buffer is only read |
| Framebuffers.Framebuffer.ToU32Buffer | src/framebuffer.rs:83-95 | the nested loops produce exactly `PackedPixels` of the buffer: one word per pixel, in row-major order |
| Framebuffers.Framebuffer.PackRow | src/framebuffer.rs:86-92 | the inner loop packs the `width` pixels of one row, extends the packed prefix of the buffer to the end of that row, and leaves every entry after the row as it was |
| Framebuffers.Framebuffer.DrawLine | src/framebuffer.rs:97-129 | the loop terminates, and the buffer becomes the old one with every point of `LinePoints`, in order, plotted in the current colour |
| Raster.PixelOf | src/framebuffer.rs:64-73 | `None` exactly when x < 0, y < 0, x >= width or y >= height; otherwise the three bytes at `(y * width + x) * 3` |
| Raster.WritePixel | src/framebuffer.rs:53-62 | a write keeps the buffer's length |
| Raster.IndexInRange | src/framebuffer.rs:58-61 | for an in-range pixel, `(y * width + x) * 3 + 2` is inside the `width * height * 3` buffer |
| Raster.IndexSeparated | src/framebuffer.rs:58 | two different in-range pixels occupy disjoint byte triples |
| Raster.ReadAfterWrite | src/framebuffer.rs:157-165 | reading an in-range pixel right after writing (r, g, b) there gives `Some((r, g, b))` |
| Raster.ReadOtherAfterWrite | src/framebuffer.rs:53-62 | a write leaves every other pixel as it was |
| Raster.WriteTouchesOnlyPixel | src/framebuffer.rs:53-62 | a write changes no byte outside its own pixel, and no byte at all when out of range |
| Raster.FillStep | src/framebuffer.rs:26-30 | writing (red, green, blue) into chunk p extends the filled prefix from 3p bytes to 3p + 3 bytes |
| Raster.ReadFilled | src/framebuffer.rs:25-31 | after a background fill, every in-range pixel reads as the background colour |
| Raster.ReadCleared | src/framebuffer.rs:176-182 | after `clear`, every in-range pixel reads as `Some((0, 0, 0))` |
| Raster.PlotAll | src/framebuffer.rs:112-113 | plotting a list of points keeps the buffer's length |
| Raster.PlotAllSnoc | src/framebuffer.rs:112-113 | plotting one more point applies one more `point` write to the result |
| Raster.PlotAllPaints | src/framebuffer.rs:97-129 | every in-range point of the plotted list shows the plotting colour |
| Raster.PlotAllKeeps | src/framebuffer.rs:97-129 | every pixel that is not on the plotted list keeps its colour |
| Packing.Pack | src/framebuffer.rs:88-91 | `(r << 16) \| (g << 8) \| b` is below 2^24 |
| Packing.UnpackPack | src/framebuffer.rs:75-91 | `hex_to_rgb` of a packed pixel returns its (r, g, b) |
| Packing.HexToRgb | src/framebuffer.rs:75-81 | packing the three bytes `hex_to_rgb` extracts rebuilds the word with its top byte cleared (`UnpackPack` gives the other direction) |
| Packing.PackedPixels | src/framebuffer.rs:83-95 | the packed buffer has one word per pixel, each below 2^24 |
| Packing.PackedUpToStep | src/framebuffer.rs:87-91 | storing pixel p's packed word at index p extends the packed prefix by one entry |
| Packing.PackedUpToAll | src/framebuffer.rs:83-95 | a buffer with one entry per pixel whose entries are all packed equals `PackedPixels` |
| Packing.PackedPixelAt | src/framebuffer.rs:83-95 | entry `y * width + x` of the packed buffer exists and `hex_to_rgb` of it is the pixel `get_pixel` reads at (x, y) |
| Packing.Argb | src/main.rs:157 | the display word's top byte is 0xFF |
| Packing.ArgbIsPackWithAlpha | src/main.rs:157 | the display word is the `to_u32_buffer` word with the alpha byte set |
| Packing.AlphaMasksOff | src/main.rs:157 | setting the alpha byte changes neither the low 24 bits nor what `hex_to_rgb` extracts |
| Packing.UnpackArgb | src/main.rs:154-157 | `hex_to_rgb` of a display word returns the pixel's (r, g, b) |
| Packing.ArgbPixels | src/main.rs:152-158 | the display buffer has one word per three-byte chunk |
| Packing.DisplayDiffersOnlyInAlpha | src/main.rs:152-158 | each display word equals the corresponding `to_u32_buffer` word with 0xFF000000 or-ed in |
| Bresenham.StartInv | src/framebuffer.rs:103-110 | the loop invariant holds at the start point with `err = dx + dy`, with all dx x-steps and \|dy\| y-steps still to take |
| Bresenham.StepShape | src/framebuffer.rs:119-127 | in each iteration at least one axis moves; x does not move once x2 is reached, and y does not move once y2 is reached |
| Bresenham.StepKeepsInv | src/framebuffer.rs:119-127 | each iteration keeps the error-term invariant and takes one step off each axis that moved |
| Bresenham.Step | src/framebuffer.rs:119-127 | an iteration keeps the invariant, moves x by 0 or sx and y by 0 or sy (never both by 0), and shortens the remaining path, so the loop terminates |
| Bresenham.Trace | src/framebuffer.rs:112-128 | the points plotted from a cursor on: the cursor's point first and the end point last |
| Bresenham.TraceAdvance | src/framebuffer.rs:112-128 | plotting the cursor and stepping keeps "points plotted + points still to plot" equal to the whole line |
| Bresenham.TraceAtEnd | src/framebuffer.rs:113-117 | on the end point, the point just plotted completes the line |
| Bresenham.LinePoints | src/framebuffer.rs:107-128 | the points `draw_line` plots, in order: (x1, y1) first and (x2, y2) last |
| Bresenham.TraceShape | src/framebuffer.rs:112-128 | from any cursor, the plotted points start at the cursor and end on (x2, y2); consecutive points are adjacent; there are at least (steps left on the longer axis + 1) and at most (x steps left + y steps left + 1) of them |
| Bresenham.LineShape | src/framebuffer.rs:97-129 | `draw_line` plots (x1, y1) first and (x2, y2) last, each point adjacent to the one before, and at least max(\|dx\|, \|dy\|) + 1 and at most \|dx\| + \|dy\| + 1 points |
| Tracer.Empty | src/ray_intersect.rs:69-77 | the empty record does not hit and lies at distance 0 |
| Tracer.WellFormed | src/ray_intersect.rs:33-43 | a well-formed hit never lies below the threshold 0.0 that the empty record's distance sets |
| Tracer.Consider | src/main.rs:19-23 | one iteration keeps the state or replaces the kept record by the new one; a replacement happens exactly for a hit below the threshold, and the threshold then becomes the previously kept record's distance |
| Tracer.ScanAll | src/main.rs:17-24 | after the loop, a record is kept iff some object's record hits; the kept record is one of them; with no hit, the state is still `(Intersect::empty(), INFINITY)` |
| Tracer.RayColor | src/main.rs:25-33 | with no hit the colour is the sky colour (4, 12, 36); otherwise it is the diffuse colour of some intersecting record |
| Tracer.FirstHitKept | src/main.rs:17-24 | for records whose hits lie at positive distances, the loop ends holding the first intersecting record with `zbuffer == 0.0` |
| Tracer.FirstHitColor | src/main.rs:13-34 | for such records, `cast_ray` returns the diffuse colour of the first intersecting object in list order |
| Tracer.NearerLaterHitIgnored | src/main.rs:19-22 | a hit at distance 2 followed by a hit at distance 1 yields the first hit's colour |
| Tracer.CastRay | src/main.rs:13-34 | the loop computes `RayColor`, keeping "a record is kept iff some record so far hit" as its invariant; it returns the sky colour when nothing hits |
| Tracer.Row | src/main.rs:42 | row y's pixels from left to right: `width` entries, entry x being (x, y) |
| Tracer.RowMajor | src/main.rs:41-42 | the visiting order, row by row, has `width * height` entries |
| Tracer.RowMajorAt | src/main.rs:41-42 | entry `y * width + x` of the visiting order is pixel (x, y) |
| Tracer.RowMajorEnumerates | src/main.rs:41-42 | the visiting order lists every in-range pixel exactly once, at position `y * width + x` |
| Tracer.PaintExtends | src/main.rs:54-57 | painting pixel (x, y) with its traced colour extends the painted row-major prefix by that pixel |
| Tracer.RowDone | src/main.rs:41-42 | a fully painted row moves the painted prefix to the start of the next row |
| Tracer.WriteKeepsRowsAfter | src/main.rs:57 | painting a pixel of row y leaves every pixel of the rows after y as it was |
| Tracer.RenderRow | src/main.rs:42-58 | the inner loop paints row y left to right, each pixel with its `cast_ray` colour; it extends the painted prefix to the end of the row, leaves the rows after y untouched, and leaves the current colour equal to the row's last pixel (unchanged for an empty row) |
| Tracer.Render | src/main.rs:36-60 | every in-range pixel shows the `cast_ray` colour of its records; pixels are visited once each, in row-major order; the current colour ends as the last pixel's colour, and is unchanged when the image is empty; the size is unchanged |
| Tracer.DisplayBuffer | src/main.rs:152-158 | the window buffer has `width * height` words, and word i is `0xFF000000 \| r << 16 \| g << 8 \| b` of bytes 3i .. 3i+2 |

## Left out

- The float-to-integer `round()` at the entry to `point` and `draw_line` (src/framebuffer.rs:39-40, 98-101) is not modelled. Both methods take integer coordinates, and `render` passes its loop indices directly.
- Machine-width arithmetic on `usize` and `isize` is not modelled. This covers overflow of `width * height * 3` in `new` and the `as isize` casts of width and height. Sizes and coordinates are unbounded integers.
- The `data` field of the `Framebuffer` that `Framebuffer::new` builds is a `Vec<u8>`. The model uses a fixed-length array, because nothing in the core resizes the vector. Callers outside the core could reassign the public fields `width`, `height` and `data`; the model does not capture that.
- Framebuffers.Framebuffer.DrawLine: the loop keeps `x`, `y` and `err` in one `Bresenham.Cursor`. `Bresenham.Step` does the `e2` arithmetic of one iteration, and its contract states what that iteration achieves: the invariant is kept, the move is to an adjacent point, and the remaining path gets shorter.
- Framebuffers.Framebuffer.DrawLine: each plotted point passes through `x as f32` before `point` rounds it back (src/framebuffer.rs:113). That round trip returns the integer unchanged only when its magnitude is at most 2^24. The model passes the integers unchanged, so its contract describes the source only for coordinates within that range.
- Tracer.Render: the loop indices pass through `as f32` into `point` (src/main.rs:57). That round trip returns the integer unchanged only when it is at most 2^24. Beyond that, the source paints a neighbouring pixel twice and skips one. The contract, which says every in-range pixel shows its colour, therefore describes the source only for images at most 2^24 pixels wide and tall.
- `Sphere::ray_intersect` and the float ray-direction computation in `render` (src/ray_intersect.rs:10-45, src/main.rs:37-51) are not modelled. Each pixel's ray is represented by `hitsAt(x, y)`, the records its objects yield. `WellFormed` states the one fact used about them: a hit's distance is positive.
- Distances are reals. `f32::INFINITY` is the `Depth.Infinity` case; NaN and rounding are not modelled.
- Tracer.Render: the log of visited pixels is ghost. It records the order of the `point` calls; it is not an output of the source.
- The `minifb` window, the key polling, the scene literal and `update_with_buffer` in `main` (src/main.rs:63-150, 161) are I/O and are not modelled. Only the packing loop is.
- `impl fmt::Display for Framebuffer` (src/framebuffer.rs:132-143) is string formatting and is not modelled.
- `cube.rs`, `sphere.rs`, `materials.rs` and `camera.rs` belong to other versions of the program and are not compiled in this one, so they are not part of this model.
- `bmp.rs` and `color.rs` are compiled (src/main.rs:2, 4) but not modelled. `bmp.rs` is not used by the modelled code, and only the three byte fields of `color.rs`'s `Color` matter here.
- The unit tests (src/framebuffer.rs:145-188) do not compile as written. They are used only as statements of intent: `ReadAfterWrite` and `ReadCleared` state what they check.
