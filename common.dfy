/** Types shared by every stage of the mosaic pipeline.

    Every stage works with three colour channels (red, green, blue): the
    program fixes its output colour type to 3 bytes per pixel, and the model
    writes that count as the literal 3 in all index arithmetic so that the
    arithmetic stays linear in the block and pixel indices. */
module Common {

  /** An 8-bit colour component, the element type of every decoded buffer. */
  type Byte = b: nat | b < 256

  datatype Option<T> = None | Some(value: T)

  datatype Result<T, E> = Ok(value: T) | Err(error: E)

  /** A decoded image: `pixels` is row-major with the `bpp` bytes of each
      pixel interleaved (3 for RGB, 4 for RGBA). */
  datatype Image = Image(width: nat, height: nat, bpp: nat, pixels: seq<Byte>)

  /** What the decoder promises and the averaging code then relies on: a
      colour type it understands and a buffer of exactly the frame's size. */
  predicate Decodable(img: Image)
  {
    (img.bpp == 3 || img.bpp == 4) && |img.pixels| == img.width * img.height * img.bpp
  }
}
