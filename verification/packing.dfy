/**
 * Conversions between RGB bytes and packed 32-bit words: `to_u32_buffer`
 * packs 0x00RRGGBB, `hex_to_rgb` unpacks it, and the display loop in
 * `main` packs 0xFFRRGGBB (opaque alpha in the top byte).
 */
module Packing {
  import opened Colors
  import opened Raster

  /** `(r << 16) | (g << 8) | b`: the word `to_u32_buffer` stores per pixel. */
  function Pack(r: Byte, g: Byte, b: Byte): (w: Word)
    ensures w < 0x100_0000
  {
    ((r as Word) << 16) | ((g as Word) << 8) | (b as Word)
  }

  /**
   * The three low bytes of a word, most significant first: packing them
   * again rebuilds the word with its top byte cleared.
   */
  function HexToRgb(hex: Word): (c: Rgb)
    ensures Pack(c.0, c.1, c.2) == hex & 0xFF_FFFF
  {
    (((hex >> 16) & 0xFF) as Byte, ((hex >> 8) & 0xFF) as Byte, (hex & 0xFF) as Byte)
  }

  /** `(255 << 24) | (r << 16) | (g << 8) | b`: the word the window receives. */
  function Argb(r: Byte, g: Byte, b: Byte): (w: Word)
    ensures w >> 24 == 0xFF
  {
    (255 << 24) | ((r as Word) << 16) | ((g as Word) << 8) | (b as Word)
  }

  /** Unpacking a packed pixel gives back its bytes. */
  lemma UnpackPack(r: Byte, g: Byte, b: Byte)
    ensures HexToRgb(Pack(r, g, b)) == (r, g, b)
  {
  }

  /** The display word is the framebuffer word with the alpha byte set. */
  lemma ArgbIsPackWithAlpha(r: Byte, g: Byte, b: Byte)
    ensures Argb(r, g, b) == Pack(r, g, b) | 0xFF00_0000
  {
  }

  /** Setting the alpha byte of a 24-bit word hides nothing from `hex_to_rgb`. */
  lemma AlphaMasksOff(p: Word)
    requires p < 0x100_0000
    ensures (p | 0xFF00_0000) & 0xFF_FFFF == p
    ensures HexToRgb(p | 0xFF00_0000) == HexToRgb(p)
  {
  }

  /** Unpacking a display word gives back the pixel's bytes. */
  lemma UnpackArgb(r: Byte, g: Byte, b: Byte)
    ensures HexToRgb(Argb(r, g, b)) == (r, g, b)
  {
    ArgbIsPackWithAlpha(r, g, b);
    AlphaMasksOff(Pack(r, g, b));
    UnpackPack(r, g, b);
  }

  /** Pixel `p` of a byte buffer, packed as `to_u32_buffer` packs it. */
  function PixelWord(d: seq<Byte>, p: nat): Word
    requires 3 * p + 2 < |d|
  {
    Pack(d[3 * p], d[3 * p + 1], d[3 * p + 2])
  }

  /** Pixel `p` of a byte buffer, packed as the display loop packs it. */
  function ArgbWord(d: seq<Byte>, p: nat): Word
    requires 3 * p + 2 < |d|
  {
    Argb(d[3 * p], d[3 * p + 1], d[3 * p + 2])
  }

  /** The first `n` entries of `buf` are the first `n` pixels of `d`, packed. */
  ghost predicate PackedUpTo(buf: seq<Word>, d: seq<Byte>, n: nat)
  {
    n <= |buf| && 3 * n <= |d| && forall q | 0 <= q < n :: buf[q] == PixelWord(d, q)
  }

  /** Storing the packed pixel `n` at index `n` extends the packed prefix by one. */
  lemma PackedUpToStep(buf: seq<Word>, d: seq<Byte>, n: nat, r: Byte, g: Byte, b: Byte)
    requires PackedUpTo(buf, d, n) && n < |buf| && 3 * n + 2 < |d|
    requires r == d[3 * n] && g == d[3 * n + 1] && b == d[3 * n + 2]
    ensures PackedUpTo(buf[n := Pack(r, g, b)], d, n + 1)
  {
  }

  /** Word `p` of a packed buffer: pixel `p` of the byte buffer, packed. */
  function PackedPixels(d: seq<Byte>): (ws: seq<Word>)
    requires |d| % 3 == 0
    ensures |ws| == |d| / 3
    ensures forall p | 0 <= p < |ws| :: ws[p] < 0x100_0000
  {
    seq(|d| / 3, p requires 0 <= p < |d| / 3 => PixelWord(d, p))
  }

  /** A buffer holding every pixel packed, and nothing else, is `PackedPixels`. */
  lemma PackedUpToAll(buf: seq<Word>, d: seq<Byte>, n: nat)
    requires |d| == 3 * n && |buf| == n && PackedUpTo(buf, d, n)
    ensures |d| % 3 == 0 && buf == PackedPixels(d)
  {
  }

  /** Word `p` of the display buffer: pixel `p` of the byte buffer, packed with alpha. */
  function ArgbPixels(d: seq<Byte>): (ws: seq<Word>)
    requires |d| % 3 == 0
    ensures |ws| == |d| / 3
  {
    seq(|d| / 3, p requires 0 <= p < |d| / 3 => ArgbWord(d, p))
  }

  lemma DisplayWordAt(d: seq<Byte>, p: int)
    requires |d| % 3 == 0 && 0 <= p < |d| / 3
    ensures ArgbPixels(d)[p] == PackedPixels(d)[p] | 0xFF00_0000
  {
    var a, k := ArgbPixels(d)[p], PackedPixels(d)[p];
    var r, g, b := d[3 * p], d[3 * p + 1], d[3 * p + 2];
    assert a == ArgbWord(d, p) == Argb(r, g, b) && k == PixelWord(d, p) == Pack(r, g, b);
    SameBytesWithAlpha(a, k, r, g, b);
  }

  lemma SameBytesWithAlpha(a: Word, k: Word, r: Byte, g: Byte, b: Byte)
    requires a == Argb(r, g, b) && k == Pack(r, g, b)
    ensures a == k | 0xFF00_0000
  {
    ArgbIsPackWithAlpha(r, g, b);
  }

  /** The display buffer and `to_u32_buffer` agree except for the alpha byte. */
  lemma DisplayDiffersOnlyInAlpha(d: seq<Byte>)
    requires |d| % 3 == 0
    ensures forall p | 0 <= p < |d| / 3 :: ArgbPixels(d)[p] == PackedPixels(d)[p] | 0xFF00_0000
  {
    forall p | 0 <= p < |d| / 3
      ensures ArgbPixels(d)[p] == PackedPixels(d)[p] | 0xFF00_0000
    {
      DisplayWordAt(d, p);
    }
  }

  lemma UnpackWord(k: Word, r: Byte, g: Byte, b: Byte)
    requires k == Pack(r, g, b)
    ensures HexToRgb(k) == (r, g, b)
  {
    UnpackPack(r, g, b);
  }

  /**
   * Entry y * width + x of `to_u32_buffer` is pixel (x, y): `hex_to_rgb`
   * of it returns the bytes `get_pixel` reads there.
   */
  lemma PackedPixelAt(d: seq<Byte>, width: nat, height: nat, x: int, y: int)
    requires |d| == width * height * 3
    requires InBounds(width, height, x, y)
    ensures y * width + x < |PackedPixels(d)| == width * height
    ensures PixelOf(d, width, height, x, y) == Some(HexToRgb(PackedPixels(d)[y * width + x]))
  {
    PositionInRange(width, height, x, y);
    IndexInRange(width, height, x, y);
    var p := y * width + x;
    var k := PackedPixels(d)[p];
    assert 3 * p == PixelIndex(width, x, y);
    assert k == PixelWord(d, p) == Pack(d[3 * p], d[3 * p + 1], d[3 * p + 2]);
    UnpackWord(k, d[3 * p], d[3 * p + 1], d[3 * p + 2]);
  }
}
