/** Byte-level value types shared by the framebuffer and the tracer. */
module Colors {

  /** An unsigned 8-bit channel (Rust `u8`). */
  type Byte = bv8

  /** An unsigned 32-bit word (Rust `u32`), as handed to the display. */
  type Word = bv32

  /** A pixel as the framebuffer stores and returns it: (red, green, blue). */
  type Rgb = (Byte, Byte, Byte)

  /** The colour type of the renderer: three 8-bit channels. */
  datatype Color = Color(red: Byte, green: Byte, blue: Byte)

  /** The channel triple of a colour, in the order the framebuffer stores it. */
  function ToRgb(c: Color): Rgb
  {
    (c.red, c.green, c.blue)
  }

  datatype Option<T> = None | Some(value: T)
}
