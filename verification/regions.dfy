/** Rectangles handed to `cropToThumbFromCanvas`, the integer crop it cuts from the source
    canvas, and the size of the thumbnail it shows. */
module Regions {
  import opened Numeric

  /** A rectangle in canvas pixels, as the `{x, y, w, h}` objects of the program. */
  datatype Box = Box(x: real, y: real, w: real, h: real)

  /** A rectangle chosen for one element slot, with the confidence shown beside it. */
  datatype Pick = Pick(box: Box, score: real)

  /** The five image-element slots: background, main visual, logo, title image, auxiliary. */
  datatype Slots = Slots(bg: Pick, main: Pick, logo: Pick, title: Pick, aux: Pick)

  /** The box lies inside a `w`-by-`h` canvas. */
  predicate Within(b: Box, w: real, h: real)
  {
    0.0 <= b.x && 0.0 <= b.y && b.x + b.w <= w && b.y + b.h <= h
  }

  /** The integer source rectangle of a crop. */
  datatype Crop = Crop(x: nat, y: nat, w: Pos, h: Pos)

  /** Rounds the box, pulls its corner to non-negative coordinates and makes each side at
      least one pixel long. */
  function CropOf(b: Box): (c: Crop)
    ensures b.x >= -0.5 ==> -0.5 < c.x as real - b.x <= 0.5
    ensures b.y >= -0.5 ==> -0.5 < c.y as real - b.y <= 0.5
    ensures b.x < -0.5 ==> c.x == 0
    ensures b.y < -0.5 ==> c.y == 0
    ensures b.w >= 0.5 ==> -0.5 < c.w as real - b.w <= 0.5
    ensures b.h >= 0.5 ==> -0.5 < c.h as real - b.h <= 0.5
    ensures b.w < 0.5 ==> c.w == 1
    ensures b.h < 0.5 ==> c.h == 1
  {
    Crop(MaxInt(0, Round(b.x)), MaxInt(0, Round(b.y)), MaxInt(1, Round(b.w)), MaxInt(1, Round(b.h)))
  }

  /** A box inside the canvas gives a crop that overhangs the right or bottom edge by at
      most one pixel: each rounding may add half a pixel. */
  lemma CropOverhang(b: Box, w: nat, h: nat)
    requires Within(b, w as real, h as real) && b.w >= 0.5 && b.h >= 0.5
    ensures CropOf(b).x + CropOf(b).w <= w + 1
    ensures CropOf(b).y + CropOf(b).h <= h + 1
  {
  }

  /** The one-pixel overhang does occur: a 9.5-pixel-wide box at x = 0.5 inside a 10-pixel
      canvas becomes a crop from column 1 to column 11. */
  lemma CropOverhangHappens()
    ensures Within(Box(0.5, 0.0, 9.5, 10.0), 10.0, 10.0)
    ensures CropOf(Box(0.5, 0.0, 9.5, 10.0)).x + CropOf(Box(0.5, 0.0, 9.5, 10.0)).w == 11
  {
    assert Round(0.5) == 1 && Round(9.5) == 10;
  }

  /** The thumbnail's longest side. */
  const ThumbMax: int := 192

  /** Thumbnail width and height for an `sw`-by-`sh` crop: the longer side becomes 192 and
      the shorter one is scaled to keep the crop's aspect. */
  function ThumbSize(sw: Pos, sh: Pos): (r: (int, int))
    ensures sw >= sh ==> r.0 == ThumbMax && 0 <= r.1 <= ThumbMax
    ensures sw < sh ==> r.1 == ThumbMax && 0 <= r.0 <= ThumbMax
    ensures sw >= sh ==> -0.5 < r.1 as real - 192.0 * (sh as real / sw as real) <= 0.5
    ensures sw < sh ==> -0.5 < r.0 as real - 192.0 * (sw as real / sh as real) <= 0.5
  {
    var ratio := sw as real / sh as real;
    QuotientAtLeastOne(sw as real, sh as real);
    if ratio >= 1.0 then
      assert 192.0 / ratio == 192.0 * (sh as real / sw as real);
      (ThumbMax, Round(192.0 / ratio))
    else
      (Round(192.0 * ratio), ThumbMax)
  }

  /** The longest side of an export preview. */
  const PreviewMax: int := 800

  /** Width and height of the preview canvas drawn for each exported size: sizes within 800
      pixels are kept, larger ones shrink so that the longer side is exactly 800 and the
      shorter one keeps the aspect ratio up to rounding. */
  function PreviewSize(w: Pos, h: Pos): (r: (int, int))
    ensures w <= PreviewMax && h <= PreviewMax ==> r == (w, h)
    ensures w >= h && w > PreviewMax ==> r.0 == PreviewMax && -0.5 < r.1 as real - h as real * 800.0 / w as real <= 0.5
    ensures h >= w && h > PreviewMax ==> r.1 == PreviewMax && -0.5 < r.0 as real - w as real * 800.0 / h as real <= 0.5
    ensures 0 <= r.0 <= PreviewMax && 0 <= r.1 <= PreviewMax
  {
    var m := MaxInt(w, h) as real;
    var scale := Min(1.0, 800.0 / m);
    QuotientAtLeastOne(800.0, m);
    ShrunkSide(w, m, scale);
    ShrunkSide(h, m, scale);
    (Round(w as real * scale), Round(h as real * scale))
  }

  /** One side of the preview: `a` times the scale `min(1, 800 / m)` for the longer side `m`. */
  lemma ShrunkSide(a: Pos, m: real, scale: real)
    requires a as real <= m && scale == Min(1.0, 800.0 / m)
    ensures m <= 800.0 ==> Round(a as real * scale) == a
    ensures m > 800.0 ==> a as real * scale == a as real * 800.0 / m
    ensures m > 800.0 && a as real == m ==> Round(a as real * scale) == PreviewMax
    ensures 0 <= Round(a as real * scale) <= PreviewMax
  {
    QuotientAtLeastOne(800.0, m);
    if m > 800.0 {
      assert m * scale == 800.0;
      ScaleLe(a as real, m, scale);
      PositiveProduct(a as real, scale);
      RoundMonotone(a as real * scale, 800.0);
      RoundMonotone(0.0, a as real * scale);
    }
  }
}
