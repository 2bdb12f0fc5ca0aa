/** ARGB_8888 pixels as the Kotlin code sees them: one 32-bit `Int` per pixel,
    alpha in bits 24..31, red in 16..23, green in 8..15, blue in 0..7.
    A bitmap is reduced to its dimensions and the int array that `getPixels`
    copies out of it. */
module Argb {

  /** One 8-bit colour channel (the result of `... and 0xff`). */
  type Channel = bv8

  /** `pixel ushr 24 and 0xff`: the byte in bits 24..31. */
  function Alpha(p: bv32): (c: Channel)
    ensures (c as bv32) << 24 == p & 0xff00_0000
  {
    ((p >> 24) & 0xff) as bv8
  }

  /** `pixel ushr 16 and 0xff`: the byte in bits 16..23. */
  function Red(p: bv32): (c: Channel)
    ensures (c as bv32) << 16 == p & 0x00ff_0000
  {
    ((p >> 16) & 0xff) as bv8
  }

  /** `pixel ushr 8 and 0xff`: the byte in bits 8..15. */
  function Green(p: bv32): (c: Channel)
    ensures (c as bv32) << 8 == p & 0x0000_ff00
  {
    ((p >> 8) & 0xff) as bv8
  }

  /** `pixel and 0xff`: the byte in bits 0..7. */
  function Blue(p: bv32): (c: Channel)
    ensures c as bv32 == p & 0x0000_00ff
  {
    (p & 0xff) as bv8
  }

  /** `(a shl 24) or ((r and 0xff) shl 16) or ((g and 0xff) shl 8) or (b and 0xff)`:
      unpacking the word gives back the alpha and the low byte of each colour. */
  function Pack(a: Channel, r: bv32, g: bv32, b: bv32): (w: bv32)
    ensures Alpha(w) == a
    ensures Red(w) == (r & 0xff) as bv8
    ensures Green(w) == (g & 0xff) as bv8
    ensures Blue(w) == (b & 0xff) as bv8
  {
    ((a as bv32) << 24) | ((r & 0xff) << 16) | ((g & 0xff) << 8) | (b & 0xff)
  }

  /** The other direction of the round trip: a word is determined by its four channels. */
  lemma PackUnpack(p: bv32)
    ensures Pack(Alpha(p), Red(p) as bv32, Green(p) as bv32, Blue(p) as bv32) == p
  {
  }

  /** A bitmap: its size and its pixels in row-major order (`getPixels` with
      stride `width`). Android never creates a bitmap with a zero side. */
  datatype Image = Image(width: int, height: int, pixels: seq<bv32>) {
    predicate Valid() {
      width >= 1 && height >= 1 && |pixels| == width * height
    }
  }
}
