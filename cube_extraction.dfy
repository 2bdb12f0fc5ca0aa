/** `ColorCubeFilter.createCubeDataFromHaldLut`: reading a `D`-sided colour
    cube out of a Hald image into a byte buffer of `4 * D^3` bytes, one RGBA
    sample per cube cell with red outermost and blue innermost. */
module CubeExtraction {
  import opened Argb
  import Arith

  /** The largest dimension whose buffer size `dimension^3 * 4` is still a
      positive Kotlin `Int` (812^3 * 4 = 2141549312 < 2^31). */
  const MaxDimension := 812

  predicate InCube(d: int, r: int, g: int, b: int)
  {
    0 <= r < d && 0 <= g < d && 0 <= b < d
  }

  /** `b + (r % 8) * dimension + (g % 8) * dimension * 8` */
  function HaldX(d: int, r: int, g: int, b: int): int
  {
    b + (r % 8) * d + (g % 8) * d * 8
  }

  /** `(g / 8) + (r / 8) * 8` */
  function HaldY(r: int, g: int): int
  {
    g / 8 + (r / 8) * 8
  }

  /** `y * lutBitmap.width + x` */
  function HaldIndex(lut: Image, d: int, r: int, g: int, b: int): int
  {
    HaldY(r, g) * lut.width + HaldX(d, r, g, b)
  }

  /** The index is never negative, so the single upper-bound test in front of
      the read keeps it in bounds; a one-sided cube only ever reads index 0. */
  lemma HaldIndexBounds(lut: Image, d: int, r: int, g: int, b: int)
    requires lut.Valid() && InCube(d, r, g, b)
    ensures HaldIndex(lut, d, r, g, b) >= 0
    ensures d == 1 ==> HaldIndex(lut, d, r, g, b) == 0 < |lut.pixels|
  {
    Arith.MulMono(1, lut.height, lut.width);
    Arith.MulMono(0, HaldY(r, g), lut.width);
    Arith.MulMono(0, r % 8, d);
    Arith.MulMono(0, g % 8, d);
  }

  /** `c * 255 / (dimension - 1)`, the identity gradient: a level that fits
      one byte, from 0 at the first cell to 255 at the last. */
  function GradientLevel(c: int, d: int): (v: int)
    requires d >= 2 && 0 <= c < d
    ensures 0 <= v <= 255
    ensures c == 0 ==> v == 0
    ensures c == d - 1 ==> v == 255
  {
    Arith.MulMono(c, d - 1, 255);
    Arith.DivMono(c * 255, (d - 1) * 255, d - 1);
    Arith.DivModUnique(255, d - 1, 0);
    c * 255 / (d - 1)
  }

  /** The gradient is the floor of the scaled coordinate: the largest level
      whose scaled value does not pass `c * 255`. */
  lemma GradientFloor(c: int, d: int)
    requires d >= 2 && 0 <= c < d
    ensures GradientLevel(c, d) * (d - 1) <= c * 255 < (GradientLevel(c, d) + 1) * (d - 1)
  {
    var v := GradientLevel(c, d);
    Arith.MulStep(d - 1, v + 1);
    assert c * 255 == v * (d - 1) + c * 255 % (d - 1);
  }

  /** A later cell never gets a lower gradient level. */
  lemma GradientMonotone(c1: int, c2: int, d: int)
    requires d >= 2 && 0 <= c1 <= c2 < d
    ensures GradientLevel(c1, d) <= GradientLevel(c2, d)
  {
    Arith.MulMono(c1, c2, 255);
    Arith.DivMono(c1 * 255, c2 * 255, d - 1);
  }

  /** The four bytes put for cell (r, g, b): the red, green and blue bytes of
      the Hald pixel at the flat index when it is inside the image (Kotlin's
      `shr` then `and 0xFF` keeps the same eight bits as `ushr`), otherwise
      the identity gradient; alpha is 0xFF either way. A one-sided cube only
      reads index 0, which every bitmap has, so the gradient's division by
      `dimension - 1` is never reached with a zero divisor. */
  function Sample(lut: Image, d: int, r: int, g: int, b: int): (s: seq<bv8>)
    requires lut.Valid() && InCube(d, r, g, b)
    ensures |s| == 4 && s[3] == 0xFF
  {
    HaldIndexBounds(lut, d, r, g, b);
    var index := HaldIndex(lut, d, r, g, b);
    if index < |lut.pixels| then
      var lutColor := lut.pixels[index];
      [Red(lutColor), Green(lutColor), Blue(lutColor), 0xFF]
    else
      [GradientLevel(r, d) as bv8, GradientLevel(g, d) as bv8, GradientLevel(b, d) as bv8, 0xFF]
  }

  /** The sample of a cell whose index falls inside the Hald image. */
  lemma SampleFromImage(lut: Image, d: int, r: int, g: int, b: int)
    requires lut.Valid() && InCube(d, r, g, b)
    requires HaldIndex(lut, d, r, g, b) < |lut.pixels|
    ensures HaldIndex(lut, d, r, g, b) >= 0
    ensures var p := lut.pixels[HaldIndex(lut, d, r, g, b)];
      Sample(lut, d, r, g, b) == [Red(p), Green(p), Blue(p), 0xFF]
  {
    HaldIndexBounds(lut, d, r, g, b);
  }

  /** The sample of a cell whose index falls past the end of the image; such
      a cell exists only in a cube of two or more sides. */
  lemma SampleFallback(lut: Image, d: int, r: int, g: int, b: int)
    requires lut.Valid() && InCube(d, r, g, b)
    requires HaldIndex(lut, d, r, g, b) >= |lut.pixels|
    ensures d >= 2
    ensures Sample(lut, d, r, g, b)
      == [GradientLevel(r, d) as bv8, GradientLevel(g, d) as bv8, GradientLevel(b, d) as bv8, 0xFF]
  {
    HaldIndexBounds(lut, d, r, g, b);
  }

  /** The loops visit the cells in the order r, then g, then b: cell
      (r, g, b) is visited `CellNumber(d, r, g, b)`-th, counting from 0. */
  function CellNumber(d: int, r: int, g: int, b: int): int
  {
    (r * d + g) * d + b
  }

  /** The cell visited `m`-th: the inverse of `CellNumber`. */
  function VisitR(d: int, m: int): int requires d >= 1 { m / d / d }
  function VisitG(d: int, m: int): int requires d >= 1 { m / d % d }
  function VisitB(d: int, m: int): int requires d >= 1 { m % d }

  /** Numbering the cells and reading the number back agree, and the numbers
      of a `d`-sided cube are exactly 0 .. d^3 - 1. */
  lemma CellNumberDecode(d: int, r: int, g: int, b: int)
    requires InCube(d, r, g, b)
    ensures 0 <= CellNumber(d, r, g, b) < d * d * d
    ensures VisitR(d, CellNumber(d, r, g, b)) == r
    ensures VisitG(d, CellNumber(d, r, g, b)) == g
    ensures VisitB(d, CellNumber(d, r, g, b)) == b
  {
    var m := CellNumber(d, r, g, b);
    Arith.DivModUnique(r * d + g, d, b);
    Arith.DivModUnique(r, d, g);
    Arith.MulBelow(r, g, d, d);
    Arith.MulBelow(r * d + g, b, d * d, d);
    assert d * d * d == (d * d) * d;
    Arith.MulMono(0, r * d + g, d);
  }

  /** Every cell number below d^3 is the number of a cell of the cube. */
  lemma VisitInCube(d: int, m: int)
    requires d >= 1 && 0 <= m < d * d * d
    ensures InCube(d, VisitR(d, m), VisitG(d, m), VisitB(d, m))
    ensures CellNumber(d, VisitR(d, m), VisitG(d, m), VisitB(d, m)) == m
  {
    var q := m / d;
    Arith.RowColumn(m, d, d * d);
    Arith.RowColumn(q, d, d);
    assert d * d * d == d * (d * d);
  }

  /** What the loop body puts for the `m`-th cell. */
  type CellBytes = int -> seq<bv8>

  /** The bytes of the first `n` cells, in the order the loops visit them. */
  function Cells(cell: CellBytes, n: int): seq<bv8>
    decreases n
  {
    if n <= 0 then [] else Cells(cell, n - 1) + cell(n - 1)
  }

  /** Each of the first `n` cells puts four bytes. */
  ghost predicate FourBytes(cell: CellBytes, n: int)
  {
    forall m :: 0 <= m < n ==> |cell(m)| == 4
  }

  lemma {:induction false} CellsLength(cell: CellBytes, n: int)
    requires n >= 0 && FourBytes(cell, n)
    ensures |Cells(cell, n)| == 4 * n
    decreases n
  {
    if n > 0 {
      CellsLength(cell, n - 1);
    }
  }

  /** The `m`-th cell's bytes start at byte `4 * m`. */
  lemma {:induction false} CellsAt(cell: CellBytes, n: int, m: int, k: int)
    requires 0 <= m < n && FourBytes(cell, n) && 0 <= k < 4
    ensures 4 * m + k < |Cells(cell, n)|
    ensures Cells(cell, n)[4 * m + k] == cell(m)[k]
    decreases n
  {
    CellsLength(cell, n - 1);
    if m < n - 1 {
      CellsAt(cell, n - 1, m, k);
    }
  }

  /** The `m`-th cell of the Hald extraction. */
  function HaldCell(lut: Image, d: int): CellBytes
    requires lut.Valid()
  {
    m =>
      if d >= 1 && InCube(d, VisitR(d, m), VisitG(d, m), VisitB(d, m))
      then Sample(lut, d, VisitR(d, m), VisitG(d, m), VisitB(d, m))
      else []
  }

  /** The bytes of the first `n` cells the extraction visits. */
  function CubePrefix(lut: Image, d: int, n: int): seq<bv8>
    requires lut.Valid()
  {
    Cells(HaldCell(lut, d), n)
  }

  /** The whole buffer: the cells' bytes in loop order. */
  function Cube(lut: Image, d: int): seq<bv8>
    requires lut.Valid()
  {
    CubePrefix(lut, d, d * d * d)
  }

  lemma HaldCellFourBytes(lut: Image, d: int)
    requires lut.Valid() && d >= 0
    ensures FourBytes(HaldCell(lut, d), d * d * d)
  {
    forall m | 0 <= m < d * d * d
      ensures |HaldCell(lut, d)(m)| == 4
    {
      if d == 0 {
        assert false;
      }
      VisitInCube(d, m);
    }
  }

  /** The buffer holds exactly `4 * dimension^3` bytes. */
  lemma CubeLength(lut: Image, d: int)
    requires lut.Valid() && d >= 0
    ensures |Cube(lut, d)| == d * d * d * 4
  {
    HaldCellFourBytes(lut, d);
    var n := d * d * d;
    Arith.MulMono(0, d * d, d);
    CellsLength(HaldCell(lut, d), n);
  }

  /** Cell (r, g, b) of the extracted cube occupies bytes
      `((r * D + g) * D + b) * 4` .. `+ 3` of the buffer, in the order
      R, G, B, A. */
  lemma CubeLayout(lut: Image, d: int, r: int, g: int, b: int, k: int)
    requires lut.Valid() && InCube(d, r, g, b) && 0 <= k < 4
    ensures 0 <= ((r * d + g) * d + b) * 4 + k < |Cube(lut, d)|
    ensures Cube(lut, d)[((r * d + g) * d + b) * 4 + k] == Sample(lut, d, r, g, b)[k]
  {
    var m := CellNumber(d, r, g, b);
    CellNumberDecode(d, r, g, b);
    HaldCellFourBytes(lut, d);
    CellsAt(HaldCell(lut, d), d * d * d, m, k);
    assert HaldCell(lut, d)(m) == Sample(lut, d, r, g, b);
  }

  /** The alpha byte of every cell is 0xFF, whichever branch produced it. */
  lemma CubeAlpha(lut: Image, d: int, r: int, g: int, b: int)
    requires lut.Valid() && InCube(d, r, g, b)
    ensures 0 <= ((r * d + g) * d + b) * 4 + 3 < |Cube(lut, d)|
    ensures Cube(lut, d)[((r * d + g) * d + b) * 4 + 3] == 0xFF
  {
    CubeLayout(lut, d, r, g, b, 3);
  }

  lemma XBelow(d: int, r: int, g: int, b: int)
    requires InCube(d, r, g, b)
    ensures 0 <= HaldX(d, r, g, b) < 64 * d
  {
    Arith.MulMono(0, r % 8, d);
    Arith.MulMono(0, g % 8, d);
    Arith.MulMono(r % 8, 7, d);
    Arith.MulMono(g % 8, 7, d);
  }

  /** With the Hald image at least `64 * D` pixels wide and `D <= 64`, every
      coordinate can be read back from the flat index: the row gives the
      high three bits of red and green, the column within a tile gives blue
      and the tile gives the low three bits of red and green. */
  lemma HaldIndexDecode(lut: Image, d: int, r: int, g: int, b: int)
    requires lut.Valid() && d <= 64 && lut.width >= 64 * d && InCube(d, r, g, b)
    ensures var i := HaldIndex(lut, d, r, g, b);
      && i / lut.width / 8 == r / 8 && i / lut.width % 8 == g / 8
      && i % lut.width / d % 8 == r % 8 && i % lut.width / d / 8 == g % 8
      && i % lut.width % d == b
  {
    var x, y := HaldX(d, r, g, b), HaldY(r, g);
    XBelow(d, r, g, b);
    Arith.DivModUnique(y, lut.width, x);
    Arith.DivModUnique(r / 8, 8, g / 8);
    TileColumn(d, r, g, b);
    Arith.DivModUnique(g % 8, 8, r % 8);
  }

  /** Under the same width condition the tiling formula sends distinct cells
      to distinct pixels. */
  lemma HaldIndexInjective(lut: Image, d: int, r1: int, g1: int, b1: int, r2: int, g2: int, b2: int)
    requires lut.Valid() && d <= 64 && lut.width >= 64 * d
    requires InCube(d, r1, g1, b1) && InCube(d, r2, g2, b2)
    ensures HaldIndex(lut, d, r1, g1, b1) == HaldIndex(lut, d, r2, g2, b2) <==> r1 == r2 && g1 == g2 && b1 == b2
  {
    if HaldIndex(lut, d, r1, g1, b1) == HaldIndex(lut, d, r2, g2, b2) {
      HaldIndexDecode(lut, d, r1, g1, b1);
      HaldIndexDecode(lut, d, r2, g2, b2);
    }
  }

  /** x splits into the blue coordinate and the column of the tile. */
  lemma TileColumn(d: int, r: int, g: int, b: int)
    requires InCube(d, r, g, b)
    ensures HaldX(d, r, g, b) / d == r % 8 + (g % 8) * 8
    ensures HaldX(d, r, g, b) % d == b
  {
    var t := r % 8 + (g % 8) * 8;
    assert HaldX(d, r, g, b) == t * d + b;
    Arith.DivModUnique(t, d, b);
  }

  /** On a Hald image only `8 * D` wide (an 8 x 8 grid of D x D tiles, such as
      the 512 x 512 image of a 64-sided cube), the formula's x runs past the
      end of the row: cells (0, 1, 0) and (0, 8, 0) both land on pixel
      `8 * D`, so two different cube cells get the same colour. */
  lemma TilingCollision(lut: Image, d: int)
    requires lut.Valid() && lut.width == 8 * d && d >= 9
    ensures HaldIndex(lut, d, 0, 1, 0) == HaldIndex(lut, d, 0, 8, 0) == 8 * d
  {
    assert HaldIndex(lut, d, 0, 1, 0) == 8 * d by {
      assert HaldX(d, 0, 1, 0) == 8 * d && HaldY(0, 1) == 0;
    }
    assert HaldIndex(lut, d, 0, 8, 0) == 8 * d by {
      assert HaldX(d, 0, 8, 0) == 0 && HaldY(0, 8) == 1;
    }
  }

  /** The two colliding cells get the same sample whenever the shared pixel
      exists. */
  lemma TilingCollisionSample(lut: Image, d: int)
    requires lut.Valid() && lut.width == 8 * d && d >= 9 && 8 * d < |lut.pixels|
    ensures Sample(lut, d, 0, 1, 0) == Sample(lut, d, 0, 8, 0)
  {
    TilingCollision(lut, d);
    SampleFromImage(lut, d, 0, 1, 0);
    SampleFromImage(lut, d, 0, 8, 0);
  }

  /** `ByteBuffer.allocateDirect`: a fixed array of bytes and a write position
      that each `put` advances. */
  class ByteBuffer {
    const bytes: array<bv8>
    var position: int

    ghost predicate Valid()
      reads this
    {
      0 <= position <= bytes.Length
    }

    /** The bytes put so far. */
    function Written(): seq<bv8>
      reads this, bytes
      requires Valid()
    {
      bytes[..position]
    }

    /** A zero-filled buffer of `capacity` bytes, positioned at its start. */
    constructor Allocate(capacity: nat)
      ensures Valid() && fresh(bytes)
      ensures bytes.Length == capacity && position == 0
    {
      bytes := new bv8[capacity](_ => 0);
      position := 0;
    }

    /** `put(x)`: write at the position and advance it. */
    method Put(x: bv8)
      requires Valid() && position < bytes.Length
      modifies this, bytes
      ensures Valid() && position == old(position) + 1
      ensures Written() == old(Written()) + [x]
    {
      bytes[position] := x;
      position := position + 1;
    }

    /** `rewind()`: back to the start; the contents stay. */
    method Rewind()
      requires Valid()
      modifies this
      ensures Valid() && position == 0
    {
      position := 0;
    }
  }

  /** Finishing a row (or a plane) of cells ends at the number the next row
      (or plane) starts with. */
  lemma CellNumberCarry(d: int, r: int, g: int)
    ensures CellNumber(d, r, g, d) == CellNumber(d, r, g + 1, 0)
    ensures CellNumber(d, r, d, 0) == CellNumber(d, r + 1, 0, 0)
  {
    Arith.MulStep(d, r * d + g + 1);
    Arith.MulStep(d, r + 1);
  }

  /** Four single-byte puts append the four bytes in order. */
  lemma AppendFour(before: seq<bv8>, x0: bv8, x1: bv8, x2: bv8, x3: bv8)
    ensures before + [x0] + [x1] + [x2] + [x3] == before + [x0, x1, x2, x3]
  {
  }

  /** The body of the innermost loop: compute the cell's position in the
      Hald image and put its four bytes, read from that pixel when the index
      is inside the image, the identity gradient otherwise. */
  method PutSample(cubeBuffer: ByteBuffer, lut: Image, d: int, r: int, g: int, b: int)
    requires lut.Valid() && InCube(d, r, g, b)
    requires cubeBuffer.Valid() && cubeBuffer.position + 4 <= cubeBuffer.bytes.Length
    modifies cubeBuffer, cubeBuffer.bytes
    ensures cubeBuffer.Valid() && cubeBuffer.position == old(cubeBuffer.position) + 4
    ensures cubeBuffer.Written() == old(cubeBuffer.Written()) + Sample(lut, d, r, g, b)
  {
    var x := HaldX(d, r, g, b);
    var y := HaldY(r, g);
    var index := y * lut.width + x;
    ghost var before := cubeBuffer.Written();
    if index < |lut.pixels| {
      SampleFromImage(lut, d, r, g, b);
      var lutColor := lut.pixels[index];
      cubeBuffer.Put(Red(lutColor));
      cubeBuffer.Put(Green(lutColor));
      cubeBuffer.Put(Blue(lutColor));
      cubeBuffer.Put(0xFF);
      AppendFour(before, Red(lutColor), Green(lutColor), Blue(lutColor), 0xFF);
    } else {
      SampleFallback(lut, d, r, g, b);
      cubeBuffer.Put(GradientLevel(r, d) as bv8);
      cubeBuffer.Put(GradientLevel(g, d) as bv8);
      cubeBuffer.Put(GradientLevel(b, d) as bv8);
      cubeBuffer.Put(0xFF);
      AppendFour(before, GradientLevel(r, d) as bv8, GradientLevel(g, d) as bv8, GradientLevel(b, d) as bv8, 0xFF);
    }
  }

  /** Visiting cell (r, g, b) extends the bytes of the cells before it by
      that cell's sample. */
  lemma CubePrefixStep(lut: Image, d: int, r: int, g: int, b: int)
    requires lut.Valid() && InCube(d, r, g, b)
    ensures CubePrefix(lut, d, CellNumber(d, r, g, b) + 1)
      == CubePrefix(lut, d, CellNumber(d, r, g, b)) + Sample(lut, d, r, g, b)
    ensures |CubePrefix(lut, d, CellNumber(d, r, g, b))| == 4 * CellNumber(d, r, g, b)
    ensures CellNumber(d, r, g, b) < d * d * d
  {
    var m := CellNumber(d, r, g, b);
    CellNumberDecode(d, r, g, b);
    HaldCellFourBytes(lut, d);
    CellsLength(HaldCell(lut, d), m);
    assert HaldCell(lut, d)(m) == Sample(lut, d, r, g, b);
  }

  /** The innermost loop, over blue, for one (r, g): it puts row (r, g) of
      the cube after the rows before it. */
  method PutRow(cubeBuffer: ByteBuffer, lut: Image, d: int, r: int, g: int)
    requires lut.Valid() && 0 <= r < d && 0 <= g < d
    requires cubeBuffer.Valid() && cubeBuffer.bytes.Length == d * d * d * 4
    requires cubeBuffer.Written() == CubePrefix(lut, d, CellNumber(d, r, g, 0))
    modifies cubeBuffer, cubeBuffer.bytes
    ensures cubeBuffer.Valid()
    ensures cubeBuffer.Written() == CubePrefix(lut, d, CellNumber(d, r, g + 1, 0))
  {
    for b := 0 to d
      invariant cubeBuffer.Valid()
      invariant cubeBuffer.Written() == CubePrefix(lut, d, CellNumber(d, r, g, b))
    {
      CubePrefixStep(lut, d, r, g, b);
      PutSample(cubeBuffer, lut, d, r, g, b);
    }
    CellNumberCarry(d, r, g);
  }

  /** The middle loop, over green, for one r: it puts plane r of the cube
      after the planes before it. */
  method PutPlane(cubeBuffer: ByteBuffer, lut: Image, d: int, r: int)
    requires lut.Valid() && 0 <= r < d
    requires cubeBuffer.Valid() && cubeBuffer.bytes.Length == d * d * d * 4
    requires cubeBuffer.Written() == CubePrefix(lut, d, CellNumber(d, r, 0, 0))
    modifies cubeBuffer, cubeBuffer.bytes
    ensures cubeBuffer.Valid()
    ensures cubeBuffer.Written() == CubePrefix(lut, d, CellNumber(d, r + 1, 0, 0))
  {
    for g := 0 to d
      invariant cubeBuffer.Valid()
      invariant cubeBuffer.Written() == CubePrefix(lut, d, CellNumber(d, r, g, 0))
    {
      PutRow(cubeBuffer, lut, d, r, g);
    }
    CellNumberCarry(d, r, d);
  }

  /** `createCubeDataFromHaldLut`: the outer loop, over red, puts the planes
      one after another, so the buffer ends up holding `Cube(lut, d)` and is
      rewound. A dimension above `MaxDimension` overflows the Kotlin size
      computation and a negative one is refused by `allocateDirect`. */
  method CreateCubeData(lut: Image, d: int) returns (cubeBuffer: ByteBuffer)
    requires lut.Valid() && 0 <= d <= MaxDimension
    ensures fresh(cubeBuffer) && fresh(cubeBuffer.bytes) && cubeBuffer.Valid()
    ensures cubeBuffer.position == 0
    ensures cubeBuffer.bytes[..] == Cube(lut, d)
  {
    cubeBuffer := new ByteBuffer.Allocate(d * d * d * 4);
    for r := 0 to d
      invariant cubeBuffer.Valid() && fresh(cubeBuffer.bytes)
      invariant cubeBuffer.Written() == CubePrefix(lut, d, CellNumber(d, r, 0, 0))
    {
      PutPlane(cubeBuffer, lut, d, r);
    }
    CubeLength(lut, d);
    assert cubeBuffer.Written() == cubeBuffer.bytes[..];
    cubeBuffer.Rewind();
  }
}
