/** Canvas pixel buffers as `getImageData` returns them. */
module Pixels {
  import opened Numeric

  /** An RGBA buffer as `getImageData` returns it: four bytes per pixel, row after row. */
  datatype Raster = Raster(w: Pos, h: Pos, data: seq<Byte>)
  {
    predicate Valid() { |data| == 4 * (w * h) }
  }

  /** Channel `c` (0 red, 1 green, 2 blue, 3 alpha) of pixel `i`. */
  function Sample(img: Raster, i: int, c: int): real
    requires img.Valid() && 0 <= i < img.w * img.h && 0 <= c < 4
  {
    img.data[4 * i + c] as real
  }

  /** Squared Euclidean distance of pixel `i`'s colour from (r, g, b). */
  function DistSq(img: Raster, i: int, r: real, g: real, b: real): real
    requires img.Valid() && 0 <= i < img.w * img.h
  {
    SumOfSquares(Sample(img, i, 0) - r, Sample(img, i, 1) - g, Sample(img, i, 2) - b)
  }

  function SumOfSquares(a: real, b: real, c: real): real
  {
    a * a + b * b + c * c
  }
}
