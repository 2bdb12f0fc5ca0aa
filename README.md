# Hald LUT colour grading, modelled in Dafny

This project models the colour-grading core of a small Android app. The app
applies a 3D colour lookup table (LUT) to an ARGB_8888 bitmap. The LUT comes
as a Hald image, which is a 2D picture that packs a colour cube into its
pixels. The core has two parts.

- `HaldLutFilter.applyLut` grades in software. Each pixel word is split into
  alpha, red, green and blue. Each colour channel is mapped to a lower and an
  upper corner of a fixed 64-sided cube. The eight corner pixels are fetched
  from the Hald image, with red fastest and blue slowest. The double-precision
  trilinear blend gives three new colour bytes. They are packed back with the
  pixel's own alpha, in place in the pixel array.
- `ColorCubeFilter` prepares a cube for a hardware 3D-LUT unit.
  `createCubeDataFromHaldLut` walks a `D`-sided cube with red outermost and
  blue innermost. For each cell it computes a position in an 8 x 8 tiling of
  the Hald image and puts four bytes R, G, B, 0xFF into a byte buffer. When the
  position falls past the end of the image, it puts the identity gradient
  `c * 255 / (D - 1)` instead. `getCubeData` keeps the extracted buffers in a
  five-entry least-recently-used cache. The key is the decimal text of the
  LUT bitmap's hash code followed by the decimal text of `D`.

Modules:

- `Argb` (`argb.dfy`): pixel words as `bv32`, channels as `bv8`, and bitmaps
  as a width, a height and a row-major pixel sequence.
- `Arith` (`arith.dfy`): division and multiplication facts on naturals. Kotlin's
  truncating `/` and `%` agree with Dafny's operators on those.
- `HaldLutFilter` (`hald_lut_filter.dfy`): `applyLut`, its corner arithmetic,
  `getLutPixel` and the in-place pixel loop.
- `CubeExtraction` (`cube_extraction.dfy`): the cube layout, the Hald tiling,
  the `ByteBuffer` being filled, and `createCubeDataFromHaldLut` as three
  nested loops.
- `Decimal` (`decimal.dfy`): Kotlin's `Int.toString()` and the parse that reads
  it back.
- `CubeCache` (`cube_cache.dfy`): `android.util.LruCache` as used here, the
  cache key, and `getCubeData`.

Behaviour of the code that the proofs bring out:

- The cache key is not injective. Hash 12 with dimension 34 and hash 123 with
  dimension 4 share the key `"1234"`. A lookup for the second pair is then
  served the first pair's cube. For a fixed dimension, or a fixed hash code,
  the key is injective.
- The Hald tiling gives a column `x` that reaches `64 * D - 1`. An image at
  least `64 * D` wide (with `D <= 64`) holds every cell at its own pixel. A
  square Hald image `8 * D` wide, such as the usual 512 x 512 image of a
  64-sided cube, does not. Its rows wrap, so cells (0, 1, 0) and (0, 8, 0)
  read the same pixel once `D >= 9`.
- `createCubeDataFromHaldLut` never checks `dimension`. `D = 0` and `D = 1`
  are both harmless. A zero-sided cube allocates an empty buffer (line 87) and
  the loops do not run. A one-sided cube reads only index 0, which every bitmap
  has (lines 99-100), so the gradient's division by `D - 1` (line 110) is never
  reached. The model therefore admits `0 <= D <= 812`, where 812 is the largest
  `D` whose `D^3 * 4` fits a Kotlin `Int`.

## Model

| member | source | states |
|---|---|---|
| Argb.Alpha | app/src/main/java/com/blank/kotlinproject/HaldLutFilter.kt:143 | `pixel ushr 24 and 0xff` is exactly the byte in bits 24..31 of the word |
| Argb.Red | app/src/main/java/com/blank/kotlinproject/HaldLutFilter.kt:144 | `pixel ushr 16 and 0xff` is exactly the byte in bits 16..23 of the word |
| Argb.Green | app/src/main/java/com/blank/kotlinproject/HaldLutFilter.kt:145 | `pixel ushr 8 and 0xff` is exactly the byte in bits 8..15 of the word |
| Argb.Blue | app/src/main/java/com/blank/kotlinproject/HaldLutFilter.kt:146 | `pixel and 0xff` is exactly the byte in bits 0..7 of the word |
| Argb.Pack | app/src/main/java/com/blank/kotlinproject/HaldLutFilter.kt:195-196 | unpacking the packed word gives back the alpha and the low byte of each blended colour value |
| Argb.PackUnpack | app/src/main/java/com/blank/kotlinproject/HaldLutFilter.kt:143-146 | the four `ushr`/`and` extractions determine a word: packing them again gives the word back |
| HaldLutFilter.LowerCorner | app/src/main/java/com/blank/kotlinproject/HaldLutFilter.kt:149-156 | `floor(c * 63 / 255.0)` is a corner of the 64-sided cube, and it is the unique grid point whose scaled value does not pass `c * 63` |
| HaldLutFilter.UpperCorner | app/src/main/java/com/blank/kotlinproject/HaldLutFilter.kt:157-159 | `(lo + 1).coerceAtMost(63)` stays inside the cube and never drops below the lower corner |
| HaldLutFilter.CornerPair | app/src/main/java/com/blank/kotlinproject/HaldLutFilter.kt:149-159 | both corners lie in 0..63; the upper is the next grid point, and the two coincide exactly when the channel is 255 |
| HaldLutFilter.LutIndex | app/src/main/java/com/blank/kotlinproject/HaldLutFilter.kt:115-116 | `rr + gg * 64 + bb * 4096` lies below 262144, the entries of a 64-sided cube |
| HaldLutFilter.LutIndexDecode | app/src/main/java/com/blank/kotlinproject/HaldLutFilter.kt:130 | the flat index splits back into red (mod 64), green (next 64) and blue (div 4096) |
| HaldLutFilter.LutIndexInjective | app/src/main/java/com/blank/kotlinproject/HaldLutFilter.kt:130 | two corner triples share a LUT index if and only if they are the same triple |
| HaldLutFilter.LutPixel | app/src/main/java/com/blank/kotlinproject/HaldLutFilter.kt:129-136 | `getLutPixel` reads in bounds and returns the LUT pixel at the flat index itself, or 0 when the index is past the end of the LUT |
| HaldLutFilter.FetchCorners | app/src/main/java/com/blank/kotlinproject/HaldLutFilter.kt:168-176 | the eight `getLutPixel` calls at every lower/upper combination of the three channel corners, in the order `c000` .. `c111`; it has no contract of its own, and what the corners are is stated by `LargeLutNoFallback` and `ConstantCorners` |
| HaldLutFilter.GradePixel | app/src/main/java/com/blank/kotlinproject/HaldLutFilter.kt:140-196 | the graded pixel keeps the source alpha, and each colour is the low byte of the blend of that channel over the eight fetched corners |
| HaldLutFilter.LargeLutNoFallback | app/src/main/java/com/blank/kotlinproject/HaldLutFilter.kt:129-136 | with a LUT of at least 512 x 512 pixels, each of the eight corners is the LUT pixel at its own flat index and the 0 fallback is never taken |
| HaldLutFilter.ConstantCorners | app/src/main/java/com/blank/kotlinproject/HaldLutFilter.kt:168-176 | in a full-size LUT of a single colour, all eight fetched corners are that colour |
| HaldLutFilter.ConstantLut | app/src/main/java/com/blank/kotlinproject/HaldLutFilter.kt:139-197 | a single-colour LUT maps every pixel to that colour with the pixel's own alpha, under any blend that returns the common value of eight equal corners |
| HaldLutFilter.MapPixels | app/src/main/java/com/blank/kotlinproject/HaldLutFilter.kt:139-140 | the in-place loop rewrites every index exactly once, from its original value |
| HaldLutFilter.ApplyLutInPlace | app/src/main/java/com/blank/kotlinproject/HaldLutFilter.kt:139-197 | after the loop, every pixel is the graded version of the pixel that was there before |
| HaldLutFilter.ApplyLut | app/src/main/java/com/blank/kotlinproject/HaldLutFilter.kt:110-201 | the result has the source's width and height, and each of its pixels is the graded source pixel at the same index |
| CubeExtraction.HaldX | app/src/main/java/com/blank/kotlinproject/ColorCubeFilter.kt:95 | the tiling column `b + (r % 8) * D + (g % 8) * D * 8`; it has no contract of its own, and its range and its split into blue and tile are stated by `XBelow` and `TileColumn` |
| CubeExtraction.HaldY | app/src/main/java/com/blank/kotlinproject/ColorCubeFilter.kt:96 | the tiling row `(g / 8) + (r / 8) * 8`; it has no contract of its own, and how the row is read back is stated by `HaldIndexDecode` |
| CubeExtraction.HaldIndex | app/src/main/java/com/blank/kotlinproject/ColorCubeFilter.kt:99 | the flat index `y * width + x`; it has no contract of its own, and its bounds, injectivity and collision are stated by `HaldIndexBounds`, `HaldIndexInjective` and `TilingCollision` |
| CubeExtraction.HaldIndexBounds | app/src/main/java/com/blank/kotlinproject/ColorCubeFilter.kt:95-100 | the Hald index is never negative, so the single `index < size` test guards the read; a one-sided cube reads only index 0, which is always inside |
| CubeExtraction.GradientLevel | app/src/main/java/com/blank/kotlinproject/ColorCubeFilter.kt:110-112 | the fallback level fits one byte, is 0 for the first cell and 255 for the last |
| CubeExtraction.GradientFloor | app/src/main/java/com/blank/kotlinproject/ColorCubeFilter.kt:110-112 | the fallback level is the floor of the cell's scaled coordinate `c * 255 / (D - 1)` |
| CubeExtraction.GradientMonotone | app/src/main/java/com/blank/kotlinproject/ColorCubeFilter.kt:110-112 | a later cell never gets a lower fallback level |
| CubeExtraction.Sample | app/src/main/java/com/blank/kotlinproject/ColorCubeFilter.kt:99-113 | every cell contributes four bytes and the last is the opaque alpha 0xFF |
| CubeExtraction.SampleFromImage | app/src/main/java/com/blank/kotlinproject/ColorCubeFilter.kt:100-107 | a cell whose index is inside the image gets the red, green and blue bytes of that Hald pixel, then 0xFF |
| CubeExtraction.SampleFallback | app/src/main/java/com/blank/kotlinproject/ColorCubeFilter.kt:108-113 | a cell whose index is past the image exists only when `D >= 2` and gets the identity gradient of its coordinates, then 0xFF |
| CubeExtraction.CellNumberDecode | app/src/main/java/com/blank/kotlinproject/ColorCubeFilter.kt:91-93 | the loops number the cells 0 .. D^3 - 1 in r, g, b order, and each number decodes back to its cell |
| CubeExtraction.VisitInCube | app/src/main/java/com/blank/kotlinproject/ColorCubeFilter.kt:91-93 | every number below D^3 is the visit number of exactly one cell of the cube |
| CubeExtraction.CellsLength | app/src/main/java/com/blank/kotlinproject/ColorCubeFilter.kt:103-113 | when each visit puts four bytes, `n` visits put `4 * n` bytes |
| CubeExtraction.CellsAt | app/src/main/java/com/blank/kotlinproject/ColorCubeFilter.kt:103-113 | the `m`-th visit's bytes start at byte `4 * m` |
| CubeExtraction.HaldCellFourBytes | app/src/main/java/com/blank/kotlinproject/ColorCubeFilter.kt:91-114 | every visit of the three loops puts exactly four bytes |
| CubeExtraction.CubeLength | app/src/main/java/com/blank/kotlinproject/ColorCubeFilter.kt:87 | the loops fill the buffer exactly: `D^3 * 4` bytes, the size allocated |
| CubeExtraction.CubeLayout | app/src/main/java/com/blank/kotlinproject/ColorCubeFilter.kt:91-113 | byte `((r * D + g) * D + b) * 4 + k` of the buffer is byte `k` (R, G, B, A) of cell (r, g, b)'s sample |
| CubeExtraction.CubeAlpha | app/src/main/java/com/blank/kotlinproject/ColorCubeFilter.kt:107 | the alpha byte of every cell is 0xFF, whichever branch wrote it |
| CubeExtraction.XBelow | app/src/main/java/com/blank/kotlinproject/ColorCubeFilter.kt:95 | the tiling column `x` lies in 0 .. 64 * D - 1 |
| CubeExtraction.TileColumn | app/src/main/java/com/blank/kotlinproject/ColorCubeFilter.kt:95 | `x` splits into the blue coordinate (mod D) and the tile, which holds the low three bits of red and green |
| CubeExtraction.HaldIndexDecode | app/src/main/java/com/blank/kotlinproject/ColorCubeFilter.kt:95-99 | in an image at least `64 * D` wide with `D <= 64`, every coordinate of the cell can be read back from the flat index |
| CubeExtraction.HaldIndexInjective | app/src/main/java/com/blank/kotlinproject/ColorCubeFilter.kt:95-99 | under that width condition, two cells share a Hald pixel if and only if they are the same cell |
| CubeExtraction.TilingCollision | app/src/main/java/com/blank/kotlinproject/ColorCubeFilter.kt:95-99 | in an image only `8 * D` wide with `D >= 9`, cells (0, 1, 0) and (0, 8, 0) both index pixel `8 * D` |
| CubeExtraction.TilingCollisionSample | app/src/main/java/com/blank/kotlinproject/ColorCubeFilter.kt:99-107 | when that pixel exists, the two colliding cells get the same four bytes |
| CubeExtraction.ByteBuffer.Allocate | app/src/main/java/com/blank/kotlinproject/ColorCubeFilter.kt:87 | `allocateDirect(n)`: a new buffer of exactly `n` bytes, positioned at 0 |
| CubeExtraction.ByteBuffer.Put | app/src/main/java/com/blank/kotlinproject/ColorCubeFilter.kt:104-107 | `put(x)` appends `x` to the bytes written so far and advances the position by one |
| CubeExtraction.ByteBuffer.Rewind | app/src/main/java/com/blank/kotlinproject/ColorCubeFilter.kt:119 | `rewind()` sets the position back to 0 |
| CubeExtraction.CellNumberCarry | app/src/main/java/com/blank/kotlinproject/ColorCubeFilter.kt:91-93 | finishing a row continues with the next row's first cell, and finishing a plane with the next plane's |
| CubeExtraction.CubePrefixStep | app/src/main/java/com/blank/kotlinproject/ColorCubeFilter.kt:93-114 | visiting cell (r, g, b) extends the bytes of all earlier cells by that cell's sample |
| CubeExtraction.PutSample | app/src/main/java/com/blank/kotlinproject/ColorCubeFilter.kt:95-114 | the loop body appends exactly the cell's sample to the buffer, whichever branch it takes |
| CubeExtraction.PutRow | app/src/main/java/com/blank/kotlinproject/ColorCubeFilter.kt:93-115 | the blue loop takes the buffer from the cube's bytes up to row (r, g) to the bytes up to the next row |
| CubeExtraction.PutPlane | app/src/main/java/com/blank/kotlinproject/ColorCubeFilter.kt:92-116 | the green loop takes the buffer from the bytes up to plane r to the bytes up to the next plane |
| CubeExtraction.CreateCubeData | app/src/main/java/com/blank/kotlinproject/ColorCubeFilter.kt:82-121 | the result is a new, rewound buffer whose bytes are exactly the cube: every cell's sample in r, g, b order |
| Decimal.NatToString | app/src/main/java/com/blank/kotlinproject/ColorCubeFilter.kt:58 | the decimal text of a natural is non-empty, all digits, with no leading zero unless the number is 0 |
| Decimal.IntToString | app/src/main/java/com/blank/kotlinproject/ColorCubeFilter.kt:58 | `toString()` of an `Int` is non-empty and starts with `-` exactly when the number is negative |
| Decimal.ParseNatToString | app/src/main/java/com/blank/kotlinproject/ColorCubeFilter.kt:58 | reading the digits of a natural back gives the natural |
| Decimal.ParseIntToString | app/src/main/java/com/blank/kotlinproject/ColorCubeFilter.kt:58 | reading the text of an `Int` back gives the `Int` |
| Decimal.IntToStringInjective | app/src/main/java/com/blank/kotlinproject/ColorCubeFilter.kt:58 | two integers have the same text if and only if they are equal |
| CubeCache.CacheKey | app/src/main/java/com/blank/kotlinproject/ColorCubeFilter.kt:58 | the key is the hash code's text followed by the dimension's; cut where the hash code's text ends, each part reads back as its number |
| CubeCache.CacheKeyCollision | app/src/main/java/com/blank/kotlinproject/ColorCubeFilter.kt:58 | the key of hash 12 with dimension 34 and of hash 123 with dimension 4 is the same string, `"1234"` |
| CubeCache.CacheKeySameDimension | app/src/main/java/com/blank/kotlinproject/ColorCubeFilter.kt:58 | for one dimension, two hash codes give the same key if and only if they are equal |
| CubeCache.CacheKeySameHash | app/src/main/java/com/blank/kotlinproject/ColorCubeFilter.kt:58 | for one hash code, two dimensions give the same key if and only if they are equal |
| CubeCache.Without | app/src/main/java/com/blank/kotlinproject/ColorCubeFilter.kt:61 | removing a key from the recency list keeps exactly the other keys, shrinks the list by one when the key was present, and keeps it free of repeats |
| CubeCache.DistinctCard | app/src/main/java/com/blank/kotlinproject/ColorCubeFilter.kt:14 | a recency list without repeats has as many keys as its set |
| CubeCache.LruCache.SizeBound | app/src/main/java/com/blank/kotlinproject/ColorCubeFilter.kt:14 | a valid cache never holds more than `maxSize` entries |
| CubeCache.LruCache.constructor | app/src/main/java/com/blank/kotlinproject/ColorCubeFilter.kt:14 | `LruCache(maxSize)` starts empty with the given capacity |
| CubeCache.LruCache.Get | app/src/main/java/com/blank/kotlinproject/ColorCubeFilter.kt:61 | a hit returns the stored value and makes the key most recently used; a miss returns nothing and changes nothing; the entries never change |
| CubeCache.LruCache.Put | app/src/main/java/com/blank/kotlinproject/ColorCubeFilter.kt:66 | the key maps to the value and is most recently used; when that exceeds the capacity, exactly the least recently used key is evicted |
| CubeCache.ColorCubeFilter.constructor | app/src/main/java/com/blank/kotlinproject/ColorCubeFilter.kt:13-14 | a new filter owns a fresh, empty cache of five entries |
| CubeCache.ColorCubeFilter.GetCubeData | app/src/main/java/com/blank/kotlinproject/ColorCubeFilter.kt:56-67 | the key ends up cached, most recently used, and bound to the returned buffer. On a hit, that buffer is the stored one, the entries stay the same and only the key's recency changes. On a miss, it is a new buffer holding this LUT's cube; the key is appended as most recently used, and when that makes six entries, exactly the least recently used one is evicted and every other entry stays. The cache never exceeds five entries |

## Left out

- The trilinear weights and their double-precision sums (`HaldLutFilter.kt:161-166`, `179-192`) are floating point. `GradePixel` takes them as a parameter `blend` that maps the source red, green and blue and one channel of the eight corners to the `Int` before `and 0xff`. Any property of the interpolation beyond this interface is not modelled. `ConstantLut` assumes only that the blend returns the common value of eight equal corners.
- HaldLutFilter.ConstantLut: covers the source only when its double sum of eight equal corners `v` does not round to just below `v`. The weights `fr1 = 1 - fr` and so on are doubles, and `toInt()` truncates, so such a sum would give `v - 1`. Floating-point rounding is not modelled.
- `LowerCorner` computes `floor(c * 63 / 255.0)` as the integer quotient `c * 63 / 255`. The two agree because the double quotient is an integer only at 0, 85, 170 and 255 and lies at least 1/85 away from one otherwise. Double rounding itself is not modelled.
- Bitmap plumbing (`createBitmap`, `getPixels`, `setPixels`, `Allocation` copies) is reduced to the `Image` datatype and its pixel sequence.
- The RenderScript path of `ColorCubeFilter` (`applyFilter`, lines 16-54, and the allocation built in `getCubeData`, lines 69-79) runs on hardware this model cannot see. So `GetCubeData` returns the cube buffer itself rather than an `Allocation` copied from it.
- `blendBitmaps` (strength blending, lines 123-137) is floating-point compositing and is not part of this model.
- `MainActivity.kt` and `FilterAdapter.kt` are user-interface code and are not part of this model. Neither is the commented-out earlier `applyLut` at the top of `HaldLutFilter.kt`.
- `CubeCache.CacheKey`: `lutBitmap.hashCode()` is a foreign call. The model takes its value as the integer parameter `lutHash`, so equal hashes for different bitmaps are possible but not modelled.
- `CubeCache.LruCache`: only `get`, `put` and the constructor are modelled, with one unit of size per entry as in the default `sizeOf`. Other `LruCache` operations, statistics and its internal synchronisation are left out. Concurrent use of the cache from several threads is not modelled.
- `CubeExtraction.CreateCubeData` requires `0 <= D <= 812`. For a larger `D`, `D * D * D * 4` wraps around a 32-bit `Int`. For a negative one, `allocateDirect` throws. Both are outside the model.
- `CubeExtraction.HaldIndex` uses unbounded integers for `y * lutBitmap.width + x`. The Kotlin `Int` product could wrap around only for bitmaps far wider than any Hald image.
- `ByteOrder.nativeOrder()` (`ColorCubeFilter.kt:88`) has no effect on single-byte `put`s and is omitted. `ByteBuffer` is modelled only by its byte array and write position. The `toByte()` of a value in 0..255 keeps the same eight bits, so channels are written as `bv8`.
- `CubeExtraction.PutRow` and `CubeExtraction.PutPlane` hold the inner and middle loops of `createCubeDataFromHaldLut` as methods of their own. The loops, their order and their bodies are the source's; only the nesting is split.
- `HaldLutFilter.MapPixels` is the pixel loop with the per-pixel rewrite passed in. `ApplyLutInPlace` instantiates it with `GradePixel`.
