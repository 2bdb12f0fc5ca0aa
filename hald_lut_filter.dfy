/** The software Hald-LUT applier (`HaldLutFilter.applyLut`): a fixed 64-sided
    cube stored in a Hald image with red varying fastest, eight corner lookups
    per source pixel, and an in-place rewrite of the pixel array.

    The eight-corner trilinear weighting is done in double precision by the
    source; the model takes it as a parameter `blend` that, given a source
    pixel's red, green and blue and the same channel of the eight corners,
    returns that channel of the output (`xFinal.toInt() and 0xff`). */
module HaldLutFilter {
  import opened Argb
  import Arith

  /** `lutSize`: the side of the cube. */
  const LutSize := 64

  /** `lutSteps`: the stride of the blue axis. */
  const LutSteps := 4096

  /** Number of cube entries; a LUT image with at least this many pixels
      (512 x 512) holds every one of them. */
  const CubeEntries := 262144

  predicate IsCorner(i: int) { 0 <= i < LutSize }

  /** `floor(c * (lutSize - 1) / 255.0).toInt()`. The double quotient is an
      integer only for c in {0, 85, 170, 255} and otherwise lies at least 1/85
      away from one, so its floor is the integer quotient. The result is the
      unique corner whose cube coordinate does not exceed the channel's. */
  function LowerCorner(c: Channel): (i: int)
    ensures IsCorner(i)
    ensures i * 255 <= (c as int) * 63 < (i + 1) * 255
  {
    (c as int) * 63 / 255
  }

  /** `(lo + 1).coerceAtMost(lutSize - 1)` */
  function UpperCorner(lo: int): (hi: int)
    requires IsCorner(lo)
    ensures IsCorner(hi) && lo <= hi
  {
    var next := lo + 1;
    if next > LutSize - 1 then LutSize - 1 else next
  }

  /** Both corners are inside the cube, the upper one is the next grid point,
      and they coincide exactly for a saturated channel. */
  lemma CornerPair(c: Channel)
    ensures var lo, hi := LowerCorner(c), UpperCorner(LowerCorner(c));
      0 <= lo <= hi <= LutSize - 1 && (hi == lo <==> c == 255) && (c != 255 ==> hi == lo + 1)
  {
    var lo := LowerCorner(c);
    if lo == LutSize - 1 {
      assert (c as int) * 63 >= 63 * 255;
    }
  }

  /** `rr + gg * lutSize + bb * lutSteps`: red fastest, blue slowest. Every
      corner triple has its own index below `CubeEntries`. */
  function LutIndex(rr: int, gg: int, bb: int): (i: int)
    requires IsCorner(rr) && IsCorner(gg) && IsCorner(bb)
    ensures 0 <= i < CubeEntries
  {
    rr + gg * LutSize + bb * LutSteps
  }

  /** The flat index splits back into its three corner coordinates. */
  lemma LutIndexDecode(rr: int, gg: int, bb: int)
    requires IsCorner(rr) && IsCorner(gg) && IsCorner(bb)
    ensures var i := LutIndex(rr, gg, bb);
      i % 64 == rr && i / 64 % 64 == gg && i / 4096 == bb
  {
    var i := LutIndex(rr, gg, bb);
    Arith.DivModUnique(gg + bb * 64, 64, rr);
    assert i == (gg + bb * 64) * 64 + rr;
    Arith.DivModUnique(bb, 64, gg);
    Arith.DivModUnique(bb, 4096, rr + gg * 64);
  }

  /** Distinct corners are read from distinct LUT pixels. */
  lemma LutIndexInjective(r1: int, g1: int, b1: int, r2: int, g2: int, b2: int)
    requires IsCorner(r1) && IsCorner(g1) && IsCorner(b1)
    requires IsCorner(r2) && IsCorner(g2) && IsCorner(b2)
    ensures LutIndex(r1, g1, b1) == LutIndex(r2, g2, b2) <==> r1 == r2 && g1 == g2 && b1 == b2
  {
    LutIndexDecode(r1, g1, b1);
    LutIndexDecode(r2, g2, b2);
  }

  /** The LUT entry a flat index denotes: the pixel there, or 0 past the end. */
  function LutEntry(lut: Image, index: int): bv32
    requires index >= 0
  {
    if index < |lut.pixels| then lut.pixels[index] else 0
  }

  /** The local `getLutPixel`: splits the flat index into a column and a row of
      the LUT image and reads there when both are inside it. `lutX < lutWidth`
      always holds, so the row test alone decides; the read is always in
      bounds and lands on the pixel at the flat index itself. */
  function LutPixel(lut: Image, rr: int, gg: int, bb: int): (p: bv32)
    requires lut.Valid()
    requires IsCorner(rr) && IsCorner(gg) && IsCorner(bb)
    ensures p == LutEntry(lut, LutIndex(rr, gg, bb))
  {
    var lutIndex := LutIndex(rr, gg, bb);
    var lutX := lutIndex % lut.width;
    var lutY := lutIndex / lut.width;
    Arith.RowColumn(lutIndex, lut.width, lut.height);
    if lutX < lut.width && lutY < lut.height then
      lut.pixels[lutY * lut.width + lutX]
    else
      0
  }

  /** The eight fetched corner words `c000` .. `c111` (red, green, blue digit). */
  datatype Corners = Corners(
    c000: bv32, c001: bv32, c010: bv32, c011: bv32,
    c100: bv32, c101: bv32, c110: bv32, c111: bv32)

  /** One channel of the eight corners, in the same order. */
  datatype Octet = Octet(
    v000: Channel, v001: Channel, v010: Channel, v011: Channel,
    v100: Channel, v101: Channel, v110: Channel, v111: Channel)

  /** The double-precision weighting of one channel followed by `toInt()`:
      the source pixel's red, green and blue (which fix the weights) and that
      channel of the eight corners give a 32-bit `Int`. */
  type Blend = (Channel, Channel, Channel, Octet) -> bv32

  function Project(cs: Corners, channel: bv32 -> Channel): Octet
  {
    Octet(channel(cs.c000), channel(cs.c001), channel(cs.c010), channel(cs.c011),
          channel(cs.c100), channel(cs.c101), channel(cs.c110), channel(cs.c111))
  }

  /** The eight `getLutPixel` lookups of one source pixel, at the lower and
      upper corner of each channel. */
  function FetchCorners(lut: Image, p: bv32): Corners
    requires lut.Valid()
  {
    var r0, g0, b0 := LowerCorner(Red(p)), LowerCorner(Green(p)), LowerCorner(Blue(p));
    var r1, g1, b1 := UpperCorner(r0), UpperCorner(g0), UpperCorner(b0);
    Corners(
      LutPixel(lut, r0, g0, b0), LutPixel(lut, r0, g0, b1),
      LutPixel(lut, r0, g1, b0), LutPixel(lut, r0, g1, b1),
      LutPixel(lut, r1, g0, b0), LutPixel(lut, r1, g0, b1),
      LutPixel(lut, r1, g1, b0), LutPixel(lut, r1, g1, b1))
  }

  /** One iteration of the loop body: unpack the source word, fetch the eight
      corners, blend each colour, and pack the source alpha with the low byte
      of each blended value. */
  function GradePixel(lut: Image, blend: Blend, pixel: bv32): (q: bv32)
    requires lut.Valid()
    ensures Alpha(q) == Alpha(pixel)
    ensures Red(q) == (blend(Red(pixel), Green(pixel), Blue(pixel), Project(FetchCorners(lut, pixel), Red)) & 0xff) as bv8
    ensures Green(q) == (blend(Red(pixel), Green(pixel), Blue(pixel), Project(FetchCorners(lut, pixel), Green)) & 0xff) as bv8
    ensures Blue(q) == (blend(Red(pixel), Green(pixel), Blue(pixel), Project(FetchCorners(lut, pixel), Blue)) & 0xff) as bv8
  {
    var a, r, g, b := Alpha(pixel), Red(pixel), Green(pixel), Blue(pixel);
    var cs := FetchCorners(lut, pixel);
    var rFinal := blend(r, g, b, Project(cs, Red));
    var gFinal := blend(r, g, b, Project(cs, Green));
    var bFinal := blend(r, g, b, Project(cs, Blue));
    Pack(a, rFinal, gFinal, bFinal)
  }

  /** A LUT image of at least 512 x 512 pixels never hits the zero fallback:
      every corner is the LUT pixel at its flat index. */
  lemma LargeLutNoFallback(lut: Image, p: bv32)
    requires lut.Valid() && |lut.pixels| >= CubeEntries
    ensures var r0, g0, b0 := LowerCorner(Red(p)), LowerCorner(Green(p)), LowerCorner(Blue(p));
      var r1, g1, b1 := UpperCorner(r0), UpperCorner(g0), UpperCorner(b0);
      var cs := FetchCorners(lut, p);
      cs.c000 == lut.pixels[LutIndex(r0, g0, b0)] && cs.c001 == lut.pixels[LutIndex(r0, g0, b1)] &&
      cs.c010 == lut.pixels[LutIndex(r0, g1, b0)] && cs.c011 == lut.pixels[LutIndex(r0, g1, b1)] &&
      cs.c100 == lut.pixels[LutIndex(r1, g0, b0)] && cs.c101 == lut.pixels[LutIndex(r1, g0, b1)] &&
      cs.c110 == lut.pixels[LutIndex(r1, g1, b0)] && cs.c111 == lut.pixels[LutIndex(r1, g1, b1)]
  {
    CornerPair(Red(p));
    CornerPair(Green(p));
    CornerPair(Blue(p));
  }

  /** A blend that returns the common value when all eight corners agree.
      Exact real weights, which sum to one, would; the source's weights are
      doubles and its sum is truncated by `toInt()`, so a sum that rounds to
      just below `v` gives `v - 1`. `ConstantLut` covers the source only for
      the corners where that rounding does not happen. */
  ghost predicate KeepsConstants(blend: Blend)
  {
    forall r: Channel, g: Channel, b: Channel, v: Channel :: blend(r, g, b, Octet(v, v, v, v, v, v, v, v)) == v as bv32
  }

  /** In a full-size LUT whose every pixel is `color`, all eight corners are `color`. */
  lemma ConstantCorners(lut: Image, color: bv32, p: bv32)
    requires lut.Valid() && |lut.pixels| >= CubeEntries
    requires forall i :: 0 <= i < |lut.pixels| ==> lut.pixels[i] == color
    ensures FetchCorners(lut, p) == Corners(color, color, color, color, color, color, color, color)
  {
    LargeLutNoFallback(lut, p);
  }

  /** A LUT whose every pixel is `color` maps every pixel to `color`, keeping
      the pixel's own alpha, under any blend that keeps constants. */
  lemma ConstantLut(lut: Image, blend: Blend, color: bv32, p: bv32)
    requires lut.Valid() && |lut.pixels| >= CubeEntries
    requires forall i :: 0 <= i < |lut.pixels| ==> lut.pixels[i] == color
    requires KeepsConstants(blend)
    ensures var q := GradePixel(lut, blend, p);
      Alpha(q) == Alpha(p) && Red(q) == Red(color) && Green(q) == Green(color) && Blue(q) == Blue(color)
  {
    ConstantCorners(lut, color, p);
  }

  /** The loop of `applyLut`, for any per-pixel rewrite `f`: iteration `i`
      reads `pixels[i]` and overwrites it with `f` of that value, so every
      index is rewritten exactly once, from its original value. */
  method MapPixels(pixels: array<bv32>, f: bv32 -> bv32)
    modifies pixels
    ensures forall k :: 0 <= k < pixels.Length ==> pixels[k] == f(old(pixels[k]))
  {
    for i := 0 to pixels.Length
      invariant forall k :: 0 <= k < i ==> pixels[k] == f(old(pixels[k]))
      invariant forall k :: i <= k < pixels.Length ==> pixels[k] == old(pixels[k])
    {
      var pixel := pixels[i];
      pixels[i] := f(pixel);
    }
  }

  /** The pixel loop of `applyLut` with its per-pixel grading. */
  method ApplyLutInPlace(pixels: array<bv32>, lut: Image, blend: Blend)
    requires lut.Valid()
    modifies pixels
    ensures forall k :: 0 <= k < pixels.Length ==> pixels[k] == GradePixel(lut, blend, old(pixels[k]))
  {
    MapPixels(pixels, p => GradePixel(lut, blend, p));
  }

  /** `applyLut`: copy the source pixels out, grade them in place, and return
      a bitmap of the source's size holding the graded pixels. */
  method ApplyLut(source: Image, lut: Image, blend: Blend) returns (result: Image)
    requires source.Valid() && lut.Valid()
    ensures result.Valid()
    ensures result.width == source.width && result.height == source.height
    ensures forall i :: 0 <= i < |result.pixels| ==>
      result.pixels[i] == GradePixel(lut, blend, source.pixels[i])
  {
    var pixels := new bv32[source.width * source.height](i requires 0 <= i < |source.pixels| => source.pixels[i]);
    ApplyLutInPlace(pixels, lut, blend);
    result := Image(source.width, source.height, pixels[..]);
  }
}
