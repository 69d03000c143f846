/** The saliency fallback used when no object detector is available: a per-pixel saliency
    score, the box around the top 60% of scores, the busiest corner as the logo, a band for
    the auxiliary image, a strip for the title and a confidence for the main box.
    `Math.sqrt` is a parameter. */
module Saliency {
  import opened Numeric
  import opened Sorting
  import opened Pixels
  import opened Regions

  // ----- computeSaliencyMap -----

  /** Sum of channel `c` over the first `n` pixels. */
  function ChannelTotal(img: Raster, n: nat, c: int): real
    requires img.Valid() && n <= img.w * img.h && 0 <= c < 3
  {
    if n == 0 then 0.0 else ChannelTotal(img, n - 1, c) + Sample(img, n - 1, c)
  }

  /** Mean of channel `c` over the whole image. */
  function ChannelMean(img: Raster, c: int): real
    requires img.Valid() && 0 <= c < 3
  {
    ChannelTotal(img, img.w * img.h, c) / (img.w * img.h) as real
  }

  /** The colourfulness term `(max - min) / max * 80` of a pixel, zero for black. */
  function Chroma(r: real, g: real, b: real): (t: real)
    requires 0.0 <= r && 0.0 <= g && 0.0 <= b
    ensures 0.0 <= t <= 80.0
    ensures t == 0.0 <==> r == g == b
  {
    var mx, mn := Max(r, Max(g, b)), Min(r, Min(g, b));
    if mx == 0.0 then 0.0
    else
      var q := (mx - mn) / mx;
      assert 0.0 <= mn <= mx;
      QuotientInUnit(mx - mn, mx);
      assert q == 0.0 ==> mx - mn == 0.0 by {
        assert q * mx == mx - mn;
      }
      q * 80.0
  }

  /** Saliency of pixel `i`: its colour's distance from the image's mean colour plus its
      colourfulness. */
  function SaliencyAt(img: Raster, sqrt: real -> real, i: int): real
    requires img.Valid() && 0 <= i < img.w * img.h
  {
    sqrt(DistSq(img, i, ChannelMean(img, 0), ChannelMean(img, 1), ChannelMean(img, 2)))
    + Chroma(Sample(img, i, 0), Sample(img, i, 1), Sample(img, i, 2))
  }

  /** Every pixel of a single-colour image has colour equal to the mean. */
  lemma {:induction false} UniformTotal(img: Raster, n: nat, c: int)
    requires img.Valid() && n <= img.w * img.h && 0 <= c < 3
    requires forall i :: 0 <= i < img.w * img.h ==> Sample(img, i, c) == Sample(img, 0, c)
    ensures ChannelTotal(img, n, c) == n as real * Sample(img, 0, c)
  {
    if n > 0 {
      UniformTotal(img, n - 1, c);
    }
  }

  /** In a single-colour image the mean of every channel is that channel's value. */
  lemma UniformMean(img: Raster, c: int)
    requires img.Valid() && 0 <= c < 3
    requires forall i :: 0 <= i < img.w * img.h ==> Sample(img, i, c) == Sample(img, 0, c)
    ensures ChannelMean(img, c) == Sample(img, 0, c)
  {
    var n := img.w * img.h;
    UniformTotal(img, n, c);
    assert ChannelTotal(img, n, c) / n as real == n as real * Sample(img, 0, c) / n as real;
  }

  /** A single-colour image has one saliency everywhere: the distance part is the square root
      of zero and the colour part is the same for every pixel. */
  lemma UniformImageIsFlat(img: Raster, sqrt: real -> real)
    requires img.Valid()
    requires forall i, c :: 0 <= i < img.w * img.h && 0 <= c < 3 ==> Sample(img, i, c) == Sample(img, 0, c)
    ensures forall i :: 0 <= i < img.w * img.h ==>
      SaliencyAt(img, sqrt, i) == sqrt(0.0) + Chroma(Sample(img, 0, 0), Sample(img, 0, 1), Sample(img, 0, 2))
  {
    var n := img.w * img.h;
    UniformMean(img, 0);
    UniformMean(img, 1);
    UniformMean(img, 2);
    forall i | 0 <= i < n
      ensures SaliencyAt(img, sqrt, i) == sqrt(0.0) + Chroma(Sample(img, 0, 0), Sample(img, 0, 1), Sample(img, 0, 2))
    {
      assert Sample(img, i, 0) == Sample(img, 0, 0) && Sample(img, i, 1) == Sample(img, 0, 1);
      assert Sample(img, i, 2) == Sample(img, 0, 2);
      assert DistSq(img, i, Sample(img, 0, 0), Sample(img, 0, 1), Sample(img, 0, 2)) == SumOfSquares(0.0, 0.0, 0.0);
    }
  }

  /** With a square root that is never negative, every saliency score is at least the
      pixel's colourfulness, so never negative. */
  lemma SaliencyAtLeastChroma(img: Raster, sqrt: real -> real, i: int)
    requires img.Valid() && 0 <= i < img.w * img.h
    requires forall x: real :: x >= 0.0 ==> sqrt(x) >= 0.0
    ensures SaliencyAt(img, sqrt, i) >= Chroma(Sample(img, i, 0), Sample(img, i, 1), Sample(img, i, 2)) >= 0.0
  {
    var m0, m1, m2 := ChannelMean(img, 0), ChannelMean(img, 1), ChannelMean(img, 2);
    var a, b, c := Sample(img, i, 0) - m0, Sample(img, i, 1) - m1, Sample(img, i, 2) - m2;
    assert a * a >= 0.0 && b * b >= 0.0 && c * c >= 0.0;
    assert DistSq(img, i, m0, m1, m2) == SumOfSquares(a, b, c) >= 0.0;
  }

  /** The saliency of every pixel, in pixel order. */
  function SaliencyMap(img: Raster, sqrt: real -> real): (s: seq<real>)
    requires img.Valid()
    ensures |s| == img.w * img.h && |s| % img.w == 0
  {
    DivModOf(img.w, img.h, 0);
    seq(img.w * img.h, i requires 0 <= i < img.w * img.h => SaliencyAt(img, sqrt, i))
  }

  /** The first loop of `computeSaliencyMap`: the red, green and blue totals. */
  method ChannelSums(img: Raster) returns (rSum: real, gSum: real, bSum: real)
    requires img.Valid()
    ensures rSum == ChannelTotal(img, img.w * img.h, 0)
    ensures gSum == ChannelTotal(img, img.w * img.h, 1)
    ensures bSum == ChannelTotal(img, img.w * img.h, 2)
  {
    var total := img.w * img.h;
    rSum, gSum, bSum := 0.0, 0.0, 0.0;
    var i := 0;
    while i < total
      invariant 0 <= i <= total
      invariant rSum == ChannelTotal(img, i, 0) && gSum == ChannelTotal(img, i, 1) && bSum == ChannelTotal(img, i, 2)
    {
      rSum := rSum + img.data[i * 4] as real;
      gSum := gSum + img.data[i * 4 + 1] as real;
      bSum := bSum + img.data[i * 4 + 2] as real;
      i := i + 1;
    }
  }

  /** The body of the second loop of `computeSaliencyMap` for pixel `i`, given the mean
      colour. */
  method PixelSaliency(img: Raster, sqrt: real -> real, rM: real, gM: real, bM: real, i: int) returns (v: real)
    requires img.Valid() && 0 <= i < img.w * img.h
    requires rM == ChannelMean(img, 0) && gM == ChannelMean(img, 1) && bM == ChannelMean(img, 2)
    ensures v == SaliencyAt(img, sqrt, i)
  {
    var r, g, b := img.data[i * 4] as real, img.data[i * 4 + 1] as real, img.data[i * 4 + 2] as real;
    var dr, dg, db := r - rM, g - gM, b - bM;
    var mx, mn := Max(r, Max(g, b)), Min(r, Min(g, b));
    assert Chroma(r, g, b) == if mx == 0.0 then 0.0 else (mx - mn) / mx * 80.0;
    assert SumOfSquares(dr, dg, db) == DistSq(img, i, rM, gM, bM);
    v := sqrt(dr * dr + dg * dg + db * db) + (if mx == 0.0 then 0.0 else (mx - mn) / mx) * 80.0;
  }

  /** The saliency map: one pass summing the channels, one pass scoring every pixel. */
  method ComputeSaliencyMap(img: Raster, sqrt: real -> real) returns (sal: array<real>)
    requires img.Valid()
    ensures fresh(sal) && sal.Length == img.w * img.h
    ensures forall i :: 0 <= i < sal.Length ==> sal[i] == SaliencyAt(img, sqrt, i)
    ensures sal[..] == SaliencyMap(img, sqrt)
  {
    var total := img.w * img.h;
    sal := new real[total];
    var rSum, gSum, bSum := ChannelSums(img);
    var rM, gM, bM := rSum / total as real, gSum / total as real, bSum / total as real;
    var i := 0;
    while i < total
      invariant 0 <= i <= total
      invariant forall j :: 0 <= j < i ==> sal[j] == SaliencyAt(img, sqrt, j)
    {
      sal[i] := PixelSaliency(img, sqrt, rM, gM, bM, i);
      i := i + 1;
    }
  }

  // ----- findSalientRegion -----

  function Score(x: real): real { x }

  /** The score at position `floor(n * (1 - thr))` of the scores sorted from high to low, or
      0 when that position lies outside the list. */
  function SalientCut(sal: seq<real>, thr: real): (cut: real)
    ensures 0 <= Floor(|sal| as real * (1.0 - thr)) < |sal| ==> cut in sal
    ensures !(0 <= Floor(|sal| as real * (1.0 - thr)) < |sal|) ==> cut == 0.0
  {
    var sorted := SortDesc(sal, Score);
    var k := Floor(|sal| as real * (1.0 - thr));
    if 0 <= k < |sorted| then
      SortDescSameElements(sal, Score);
      sorted[k]
    else 0.0
  }

  /** Scores above the cut come first in the sorted list: at most `k` scores exceed the
      score at sorted position `k`. */
  lemma CutRank(sal: seq<real>, thr: real)
    requires 0 <= Floor(|sal| as real * (1.0 - thr)) < |sal|
    ensures forall j :: 0 <= j < |sal| && SortDesc(sal, Score)[j] > SalientCut(sal, thr) ==> j < Floor(|sal| as real * (1.0 - thr))
    ensures forall j :: 0 <= j <= Floor(|sal| as real * (1.0 - thr)) ==> SortDesc(sal, Score)[j] >= SalientCut(sal, thr)
  {
    var s, k := SortDesc(sal, Score), Floor(|sal| as real * (1.0 - thr));
    assert SalientCut(sal, thr) == s[k];
    forall j | k < j < |sal| ensures s[j] <= s[k] {
      assert Score(s[k]) >= Score(s[j]);
    }
    forall j | 0 <= j < k ensures s[j] >= s[k] {
      assert Score(s[j]) >= Score(s[k]);
    }
  }

  /** Pixel (x, y) scores at least `cut`. */
  predicate HotCell(sal: seq<real>, w: Pos, h: Pos, cut: real, x: int, y: int)
  {
    0 <= x < w && 0 <= y < h && |sal| == w * h && (CellIndex(w, h, x, y); sal[y * w + x] >= cut)
  }

  /** The cell (cx, cy) comes before (x, y) in row-major order. */
  predicate Scanned(w: Pos, x: int, y: int, cx: int, cy: int)
  {
    0 <= cx < w && 0 <= cy && (cy < y || (cy == y && cx < x))
  }

  /** The running bounds `x1, x2, y1, y2` of the hot cells scanned so far, with the cells
      that attain them; all four keep their initial values while none has been seen. */
  ghost predicate HullSoFar(sal: seq<real>, w: Pos, h: Pos, cut: real, x: int, y: int,
                            x1: int, x2: int, y1: int, y2: int, found: bool,
                            ax1: int, ax2: int, ay1: int, ay2: int)
  {
    (forall cx, cy :: Scanned(w, x, y, cx, cy) && HotCell(sal, w, h, cut, cx, cy) ==>
       found && x1 <= cx <= x2 && y1 <= cy <= y2)
    && (found ==> HotCell(sal, w, h, cut, x1, ax1) && HotCell(sal, w, h, cut, x2, ax2)
                  && HotCell(sal, w, h, cut, ay1, y1) && HotCell(sal, w, h, cut, ay2, y2))
    && (!found ==> x1 == w && x2 == 0 && y1 == h && y2 == 0)
  }

  /** The margin added around the hot cells: 3% of the shorter side. */
  function Pad(w: Pos, h: Pos): real { MinInt(w, h) as real * 0.03 }

  /** Scanning cell (x, y) keeps the running bounds. */
  lemma HullStep(sal: seq<real>, w: Pos, h: Pos, cut: real, x: int, y: int,
                 x1: int, x2: int, y1: int, y2: int, found: bool,
                 ax1: int, ax2: int, ay1: int, ay2: int)
    requires |sal| == w * h && 0 <= x < w && 0 <= y < h
    requires HullSoFar(sal, w, h, cut, x, y, x1, x2, y1, y2, found, ax1, ax2, ay1, ay2)
    ensures HotCell(sal, w, h, cut, x, y) ==>
      HullSoFar(sal, w, h, cut, x + 1, y,
                if x < x1 then x else x1, if x > x2 then x else x2,
                if y < y1 then y else y1, if y > y2 then y else y2, true,
                if x < x1 then y else ax1, if x >= x2 then y else ax2,
                if y < y1 then x else ay1, if y >= y2 then x else ay2)
    ensures !HotCell(sal, w, h, cut, x, y) ==>
      HullSoFar(sal, w, h, cut, x + 1, y, x1, x2, y1, y2, found, ax1, ax2, ay1, ay2)
  {
  }

  /** Finishing a row moves the scan to the start of the next one. */
  lemma HullNextRow(sal: seq<real>, w: Pos, h: Pos, cut: real, y: int,
                    x1: int, x2: int, y1: int, y2: int, found: bool,
                    ax1: int, ax2: int, ay1: int, ay2: int)
    requires HullSoFar(sal, w, h, cut, w, y, x1, x2, y1, y2, found, ax1, ax2, ay1, ay2)
    ensures HullSoFar(sal, w, h, cut, 0, y + 1, x1, x2, y1, y2, found, ax1, ax2, ay1, ay2)
  {
    forall cx, cy | Scanned(w, 0, y + 1, cx, cy) ensures Scanned(w, w, y, cx, cy) { }
  }

  /** The bounding box of the hot cells, grown by the margin and clipped to the image. */
  function PaddedBox(w: Pos, h: Pos, x1: int, x2: int, y1: int, y2: int): Box
  {
    var p := Pad(w, h);
    var x, y := Max(0.0, x1 as real - p), Max(0.0, y1 as real - p);
    Box(x, y, Min(w as real, x2 as real + p) - x, Min(h as real, y2 as real + p) - y)
  }

  /** The box lies inside the image and covers every pixel scoring at least `cut`. */
  ghost predicate CoversHotCells(sal: seq<real>, w: Pos, h: Pos, cut: real, b: Box)
  {
    Within(b, w as real, h as real)
    && forall cx, cy :: HotCell(sal, w, h, cut, cx, cy) ==>
         b.x <= cx as real <= b.x + b.w && b.y <= cy as real <= b.y + b.h
  }

  /** The box has positive size and each of its sides is the extreme coordinate of some pixel
      scoring at least `cut`, moved out by the margin and clipped to the image. */
  ghost predicate TightAroundHotCells(sal: seq<real>, w: Pos, h: Pos, cut: real, b: Box)
  {
    b.w > 0.0 && b.h > 0.0
    && (exists cx, cy :: HotCell(sal, w, h, cut, cx, cy) && b.x == Max(0.0, cx as real - Pad(w, h)))
    && (exists cx, cy :: HotCell(sal, w, h, cut, cx, cy) && b.y == Max(0.0, cy as real - Pad(w, h)))
    && (exists cx, cy :: HotCell(sal, w, h, cut, cx, cy) && b.x + b.w == Min(w as real, cx as real + Pad(w, h)))
    && (exists cx, cy :: HotCell(sal, w, h, cut, cx, cy) && b.y + b.h == Min(h as real, cy as real + Pad(w, h)))
  }

  /** One pass of the inner loop: scans row `y`, widening the running bounds. */
  method ScanRow(sal: seq<real>, w: Pos, h: Pos, cut: real, y: int,
                 x1: int, x2: int, y1: int, y2: int, ghost found: bool,
                 ghost ax1: int, ghost ax2: int, ghost ay1: int, ghost ay2: int)
    returns (x1': int, x2': int, y1': int, y2': int, ghost found': bool,
             ghost ax1': int, ghost ax2': int, ghost ay1': int, ghost ay2': int)
    requires |sal| == w * h && 0 <= y < h
    requires HullSoFar(sal, w, h, cut, 0, y, x1, x2, y1, y2, found, ax1, ax2, ay1, ay2)
    ensures HullSoFar(sal, w, h, cut, 0, y + 1, x1', x2', y1', y2', found', ax1', ax2', ay1', ay2')
  {
    x1', x2', y1', y2' := x1, x2, y1, y2;
    found', ax1', ax2', ay1', ay2' := found, ax1, ax2, ay1, ay2;
    var x := 0;
    while x < w
      invariant 0 <= x <= w
      invariant HullSoFar(sal, w, h, cut, x, y, x1', x2', y1', y2', found', ax1', ax2', ay1', ay2')
    {
      HullStep(sal, w, h, cut, x, y, x1', x2', y1', y2', found', ax1', ax2', ay1', ay2');
      CellIndex(w, h, x, y);
      if sal[y * w + x] >= cut {
        assert HotCell(sal, w, h, cut, x, y);
        ax1', ax2' := if x < x1' then y else ax1', if x >= x2' then y else ax2';
        ay1', ay2' := if y < y1' then x else ay1', if y >= y2' then x else ay2';
        found' := true;
        if x < x1' { x1' := x; }
        if x > x2' { x2' := x; }
        if y < y1' { y1' := y; }
        if y > y2' { y2' := y; }
      }
      x := x + 1;
    }
    HullNextRow(sal, w, h, cut, y, x1', x2', y1', y2', found', ax1', ax2', ay1', ay2');
  }

  /** The box around every pixel scoring at least the cut: scans the image row by row,
      tracking the extreme columns and rows of those pixels, then adds the margin. */
  method FindSalientRegion(sal: seq<real>, w: Pos, h: Pos, thr: real) returns (box: Box)
    requires |sal| == w * h
    ensures CoversHotCells(sal, w, h, SalientCut(sal, thr), box)
    ensures (exists cx, cy :: HotCell(sal, w, h, SalientCut(sal, thr), cx, cy)) ==>
      TightAroundHotCells(sal, w, h, SalientCut(sal, thr), box)
    ensures !(exists cx, cy :: HotCell(sal, w, h, SalientCut(sal, thr), cx, cy)) ==>
      box == PaddedBox(w, h, w, 0, h, 0)
  {
    var cut := SalientCut(sal, thr);
    var x1, x2, y1, y2 := w, 0, h, 0;
    ghost var found, ax1, ax2, ay1, ay2 := false, 0, 0, 0, 0;
    var y := 0;
    while y < h
      invariant 0 <= y <= h
      invariant HullSoFar(sal, w, h, cut, 0, y, x1, x2, y1, y2, found, ax1, ax2, ay1, ay2)
    {
      x1, x2, y1, y2, found, ax1, ax2, ay1, ay2 :=
        ScanRow(sal, w, h, cut, y, x1, x2, y1, y2, found, ax1, ax2, ay1, ay2);
      y := y + 1;
    }
    box := PaddedBox(w, h, x1, x2, y1, y2);
    HullBox(sal, w, h, cut, x1, x2, y1, y2, found, ax1, ax2, ay1, ay2);
  }

  /** What the finished scan says about the padded box. */
  lemma HullBox(sal: seq<real>, w: Pos, h: Pos, cut: real,
                x1: int, x2: int, y1: int, y2: int, found: bool,
                ax1: int, ax2: int, ay1: int, ay2: int)
    requires HullSoFar(sal, w, h, cut, 0, h, x1, x2, y1, y2, found, ax1, ax2, ay1, ay2)
    ensures CoversHotCells(sal, w, h, cut, PaddedBox(w, h, x1, x2, y1, y2))
    ensures (exists cx, cy :: HotCell(sal, w, h, cut, cx, cy)) ==>
      TightAroundHotCells(sal, w, h, cut, PaddedBox(w, h, x1, x2, y1, y2))
    ensures !(exists cx, cy :: HotCell(sal, w, h, cut, cx, cy)) ==>
      x1 == w && x2 == 0 && y1 == h && y2 == 0
  {
    forall cx, cy | HotCell(sal, w, h, cut, cx, cy) ensures Scanned(w, 0, h, cx, cy) { }
    var p := Pad(w, h);
    assert p > 0.0;
    if found {
      assert HotCell(sal, w, h, cut, x1, ax1) && HotCell(sal, w, h, cut, x2, ax2);
      assert HotCell(sal, w, h, cut, ay1, y1) && HotCell(sal, w, h, cut, ay2, y2);
    }
  }

  /** With the program's threshold 0.6 and at least one pixel, the cut is one of the scores,
      so some pixel scores at least the cut and the salient box has positive size. */
  lemma SalientPixelExists(sal: seq<real>, w: Pos, h: Pos)
    requires |sal| == w * h
    ensures exists cx, cy :: HotCell(sal, w, h, SalientCut(sal, 0.6), cx, cy)
  {
    var n := |sal|;
    MulLe(1, w, h);
    var k := Floor(n as real * (1.0 - 0.6));
    assert 0 <= k < n;
    var cut := SalientCut(sal, 0.6);
    var i :| 0 <= i < n && sal[i] == cut;
    CellBounds(w, h, i);
    assert HotCell(sal, w, h, cut, i % w, i / w);
  }

  // ----- strided sampling (calcConfidence, detectLogoRegion) -----

  /** Every listed pixel index lies below `n`. */
  predicate InRange(cells: seq<int>, n: int)
  {
    forall k :: 0 <= k < |cells| ==> 0 <= cells[k] < n
  }

  /** The pixels (x, y), (x + step, y), … of row `y` whose column stays below `xend`. */
  function StrideRow(w: Pos, step: Pos, y: int, x: int, xend: int): seq<int>
    decreases xend - x
  {
    if x < xend then [y * w + x] + StrideRow(w, step, y, x + step, xend) else []
  }

  /** The rows `y`, `y + step`, … below `yend` of the strided sample, each from column `x0`. */
  function StrideCells(w: Pos, step: Pos, x0: int, xend: int, y: int, yend: int): (r: seq<int>)
    ensures x0 < xend && y < yend ==> |r| > 0
    decreases yend - y
  {
    if y < yend then
      StrideRow(w, step, y, x0, xend) + StrideCells(w, step, x0, xend, y + step, yend)
    else []
  }

  /** Every sampled pixel of a row lies in that row, in columns `x` to `xend - 1`. */
  lemma {:induction false} StrideRowCoords(w: Pos, step: Pos, y: int, x: int, xend: int)
    requires 0 <= x && xend <= w && 0 <= y
    ensures forall c :: c in StrideRow(w, step, y, x, xend) ==> c / w == y && x <= c % w < xend
    decreases xend - x
  {
    if x < xend {
      DivModOf(w, y, x);
      StrideRowCoords(w, step, y, x + step, xend);
    }
  }

  /** Every sampled pixel lies in columns `x0` to `xend - 1` and rows `y` to `yend - 1`. */
  lemma {:induction false} StrideCellsCoords(w: Pos, step: Pos, x0: int, xend: int, y: int, yend: int)
    requires 0 <= x0 && xend <= w && 0 <= y
    ensures forall c :: c in StrideCells(w, step, x0, xend, y, yend) ==>
      y <= c / w < yend && x0 <= c % w < xend
    decreases yend - y
  {
    if y < yend {
      StrideRowCoords(w, step, y, x0, xend);
      StrideCellsCoords(w, step, x0, xend, y + step, yend);
    }
  }

  /** A sample whose rows stay below `rows` lies inside a `w`-by-`rows` image. */
  lemma StrideCellsInRange(w: Pos, rows: int, step: Pos, x0: int, xend: int, y: int, yend: int)
    requires 0 <= x0 && xend <= w && 0 <= y && yend <= rows
    ensures InRange(StrideCells(w, step, x0, xend, y, yend), w * rows)
  {
    var r := StrideCells(w, step, x0, xend, y, yend);
    StrideCellsCoords(w, step, x0, xend, y, yend);
    forall k | 0 <= k < |r| ensures 0 <= r[k] < w * rows {
      var c := r[k];
      assert c in r;
      var cy, cx := c / w, c % w;
      assert c == cy * w + cx;
      CellIndex(w, rows, cx, cy);
    }
  }

  lemma InRangeSplit(a: seq<int>, b: seq<int>, n: int)
    requires InRange(a + b, n)
    ensures InRange(a, n) && InRange(b, n)
  {
    forall k | 0 <= k < |a| ensures 0 <= a[k] < n {
      assert a[k] == (a + b)[k];
    }
    forall k | 0 <= k < |b| ensures 0 <= b[k] < n {
      assert b[k] == (a + b)[|a| + k];
    }
  }

  /** Sum of the scores of the listed pixels. */
  function ScoreSum(sal: seq<real>, cells: seq<int>): real
    requires InRange(cells, |sal|)
  {
    if cells == [] then 0.0 else sal[cells[0]] + ScoreSum(sal, cells[1..])
  }

  lemma {:induction false} ScoreSumAppend(sal: seq<real>, a: seq<int>, b: seq<int>)
    requires InRange(a, |sal|) && InRange(b, |sal|)
    ensures InRange(a + b, |sal|)
    ensures ScoreSum(sal, a + b) == ScoreSum(sal, a) + ScoreSum(sal, b)
  {
    if a == [] {
      assert a + b == b;
    } else {
      assert (a + b)[1..] == a[1..] + b;
      ScoreSumAppend(sal, a[1..], b);
    }
  }

  /** A sample that has a row left splits into that row and the rows after it. */
  lemma StrideStep(sal: seq<real>, w: Pos, step: Pos, x0: int, xend: int, y: int, yend: int)
    requires y < yend
    requires InRange(StrideCells(w, step, x0, xend, y, yend), |sal|)
    ensures InRange(StrideRow(w, step, y, x0, xend), |sal|)
    ensures InRange(StrideCells(w, step, x0, xend, y + step, yend), |sal|)
    ensures ScoreSum(sal, StrideCells(w, step, x0, xend, y, yend))
      == ScoreSum(sal, StrideRow(w, step, y, x0, xend)) + ScoreSum(sal, StrideCells(w, step, x0, xend, y + step, yend))
    ensures |StrideCells(w, step, x0, xend, y, yend)|
      == |StrideRow(w, step, y, x0, xend)| + |StrideCells(w, step, x0, xend, y + step, yend)|
  {
    var row, rest := StrideRow(w, step, y, x0, xend), StrideCells(w, step, x0, xend, y + step, yend);
    assert StrideCells(w, step, x0, xend, y, yend) == row + rest;
    InRangeSplit(row, rest, |sal|);
    ScoreSumAppend(sal, row, rest);
  }

  // ----- calcConfidence -----

  /** The pixels `calcConfidence` reads: every second column of every second row of the
      box, from its rounded-down corner, while the column stays below both `box.x + box.w`
      and `w` and the row below both `box.y + box.h` and the number of rows. */
  function ConfidenceCells(sal: seq<real>, box: Box, w: Pos): (r: seq<int>)
    requires |sal| % w == 0 && box.x >= 0.0 && box.y >= 0.0
    ensures InRange(r, |sal|)
  {
    var rows := |sal| / w;
    var xend, yend := Ceil(Min(box.x + box.w, w as real)), Ceil(Min(box.y + box.h, rows as real));
    StrideCellsInRange(w, rows, 2, Floor(box.x), xend, Floor(box.y), yend);
    StrideCells(w, 2, Floor(box.x), xend, Floor(box.y), yend)
  }

  /** Every pixel `calcConfidence` reads passes both of its loop tests: the column lies
      below `box.x + box.w` and `w`, the row below `box.y + box.h` and `|sal| / w`, and
      neither lies before the box's rounded-down corner. */
  lemma ConfidenceCellsInBox(sal: seq<real>, box: Box, w: Pos)
    requires |sal| % w == 0 && box.x >= 0.0 && box.y >= 0.0
    ensures forall c :: c in ConfidenceCells(sal, box, w) ==>
      Floor(box.x) <= c % w < w && (c % w) as real < box.x + box.w &&
      Floor(box.y) <= c / w && (c / w) as real < box.y + box.h && (c / w) as real < |sal| as real / w as real
  {
    var rows := |sal| / w;
    assert |sal| == rows * w;
    assert |sal| as real / w as real == rows as real;
    var xlim, ylim := Min(box.x + box.w, w as real), Min(box.y + box.h, rows as real);
    StrideCellsCoords(w, 2, Floor(box.x), Ceil(xlim), Floor(box.y), Ceil(ylim));
    forall c | c in ConfidenceCells(sal, box, w)
      ensures (c % w) as real < xlim && (c / w) as real < ylim
    {
      BelowCeil(c % w, xlim);
      BelowCeil(c / w, ylim);
    }
  }

  /** The mean score of the sampled pixels divided by 150, clamped to [0.3, 0.95]; no value
      (JavaScript's `NaN`) when no pixel is sampled. */
  function Confidence(sal: seq<real>, cells: seq<int>): (r: Option<real>)
    requires InRange(cells, |sal|)
    ensures r.Some? <==> |cells| > 0
    ensures r.Some? ==> 0.3 <= r.value <= 0.95
    ensures r.Some? && 0.3 <= ScoreSum(sal, cells) / |cells| as real / 150.0 <= 0.95 ==>
      r.value == ScoreSum(sal, cells) / |cells| as real / 150.0
  {
    if |cells| == 0 then None
    else Some(Min(0.95, Max(0.3, ScoreSum(sal, cells) / |cells| as real / 150.0)))
  }

  /** The inner loop of `calcConfidence`: the scores of every second pixel of row `y`
      from column `x0` while the column stays below `xend`. */
  method RowScores(sal: seq<real>, w: Pos, y: int, x0: int, xend: int) returns (s: real, n: int)
    requires InRange(StrideRow(w, 2, y, x0, xend), |sal|)
    ensures s == ScoreSum(sal, StrideRow(w, 2, y, x0, xend))
    ensures n == |StrideRow(w, 2, y, x0, xend)|
  {
    s, n := 0.0, 0;
    var x := x0;
    while x < xend
      invariant InRange(StrideRow(w, 2, y, x, xend), |sal|)
      invariant s + ScoreSum(sal, StrideRow(w, 2, y, x, xend)) == ScoreSum(sal, StrideRow(w, 2, y, x0, xend))
      invariant n + |StrideRow(w, 2, y, x, xend)| == |StrideRow(w, 2, y, x0, xend)|
      decreases xend - x
    {
      assert StrideRow(w, 2, y, x, xend) == [y * w + x] + StrideRow(w, 2, y, x + 2, xend);
      s := s + sal[y * w + x];
      n := n + 1;
      x := x + 2;
    }
  }

  /** Confidence of a box: averages the scores of every second pixel of every second row.
      The two loop bounds of each axis are folded into one integer end, as `BelowCeil`
      justifies. */
  method CalcConfidence(sal: seq<real>, box: Box, w: Pos) returns (conf: Option<real>)
    requires |sal| % w == 0 && box.x >= 0.0 && box.y >= 0.0
    ensures conf == Confidence(sal, ConfidenceCells(sal, box, w))
  {
    var rows := |sal| / w;
    var x0, y0 := Floor(box.x), Floor(box.y);
    var xend, yend := Ceil(Min(box.x + box.w, w as real)), Ceil(Min(box.y + box.h, rows as real));
    ghost var all := ConfidenceCells(sal, box, w);
    var s, n := 0.0, 0;
    var y := y0;
    while y < yend
      invariant InRange(StrideCells(w, 2, x0, xend, y, yend), |sal|)
      invariant s + ScoreSum(sal, StrideCells(w, 2, x0, xend, y, yend)) == ScoreSum(sal, all)
      invariant n + |StrideCells(w, 2, x0, xend, y, yend)| == |all|
      decreases yend - y
    {
      StrideStep(sal, w, 2, x0, xend, y, yend);
      var rs, rn := RowScores(sal, w, y, x0, xend);
      s, n := s + rs, n + rn;
      y := y + 2;
    }
    conf := if n == 0 then None else Some(Min(0.95, Max(0.3, (s / n as real) / 150.0)));
  }

  /** A box returned by `FindSalientRegion` around at least one pixel gets at least one
      sample, so its confidence is a number. */
  lemma SalientBoxSampled(sal: seq<real>, w: Pos, h: Pos, cut: real, box: Box)
    requires |sal| == w * h
    requires CoversHotCells(sal, w, h, cut, box) && TightAroundHotCells(sal, w, h, cut, box)
    ensures |sal| % w == 0 && box.x >= 0.0 && box.y >= 0.0
    ensures |ConfidenceCells(sal, box, w)| > 0
  {
    DivModOf(w, h, 0);
    assert |sal| / w == h;
    var cx, cy :| HotCell(sal, w, h, cut, cx, cy);
    assert box.x <= cx as real && box.y <= cy as real;
  }

  // ----- detectLogoRegion -----

  /** Brightness of pixel `i`: 0.299 red + 0.587 green + 0.114 blue. */
  function Luma(img: Raster, i: int): real
    requires img.Valid() && 0 <= i < img.w * img.h
  {
    Sample(img, i, 0) * 0.299 + Sample(img, i, 1) * 0.587 + Sample(img, i, 2) * 0.114
  }

  /** `x ** 2`. */
  function Square(x: real): real { x * x }

  /** The brightness of pixels 0 to `n - 1`, and its square, built one pixel at a time. */
  function LumaPrefix(img: Raster, n: nat): (m: seq<real>)
    requires img.Valid() && n <= img.w * img.h
    ensures |m| == n
  {
    if n == 0 then [] else LumaPrefix(img, n - 1) + [Luma(img, n - 1)]
  }

  function LumaSqPrefix(img: Raster, n: nat): (m: seq<real>)
    requires img.Valid() && n <= img.w * img.h
    ensures |m| == n
  {
    if n == 0 then [] else LumaSqPrefix(img, n - 1) + [Square(Luma(img, n - 1))]
  }

  /** Entry `i` of the prefix maps is the brightness of pixel `i` and its square. */
  lemma {:induction false} LumaPrefixAt(img: Raster, n: nat, i: int)
    requires img.Valid() && n <= img.w * img.h && 0 <= i < n
    ensures LumaPrefix(img, n)[i] == Luma(img, i) && LumaSqPrefix(img, n)[i] == Square(Luma(img, i))
  {
    if i < n - 1 {
      LumaPrefixAt(img, n - 1, i);
    }
  }

  /** The brightness of every pixel, and its square. */
  function LumaMap(img: Raster): (m: seq<real>)
    requires img.Valid()
    ensures |m| == img.w * img.h
  {
    LumaPrefix(img, img.w * img.h)
  }

  function LumaSqMap(img: Raster): (m: seq<real>)
    requires img.Valid()
    ensures |m| == img.w * img.h
  {
    LumaSqPrefix(img, img.w * img.h)
  }

  /** Corner `k` of the four the detector tries: top-left, top-right, bottom-left,
      bottom-right; each spans 30% of the width and of the height. */
  function CornerBox(w: Pos, h: Pos, k: int): (b: Box)
    ensures Within(b, w as real, h as real)
    ensures b.w == w as real * 0.3 && b.h == h as real * 0.3
    ensures b.x == 0.0 || b.x + b.w == w as real
    ensures b.y == 0.0 || b.y + b.h == h as real
  {
    Box(if k % 2 == 1 then w as real * 0.7 else 0.0, if k >= 2 then h as real * 0.7 else 0.0,
        w as real * 0.3, h as real * 0.3)
  }

  /** The pixels sampled in corner `k`: every third column of every third row. */
  function CornerCells(img: Raster, k: int): (r: seq<int>)
    requires img.Valid()
    ensures InRange(r, img.w * img.h) && |r| > 0
  {
    var b := CornerBox(img.w, img.h, k);
    var xend, yend := Ceil(Min(b.x + b.w, img.w as real)), Ceil(Min(b.y + b.h, img.h as real));
    StrideCellsInRange(img.w, img.h, 3, Floor(b.x), xend, Floor(b.y), yend);
    StrideCells(img.w, 3, Floor(b.x), xend, Floor(b.y), yend)
  }

  /** Variance of the sampled brightness of corner `k`: mean of squares minus square of
      the mean. */
  function CornerVariance(img: Raster, k: int): real
    requires img.Valid()
  {
    var cells := CornerCells(img, k);
    var n := |cells| as real;
    var mean := ScoreSum(LumaMap(img), cells) / n;
    ScoreSum(LumaSqMap(img), cells) / n - Square(mean)
  }

  /** The variances of the four corners, in the order the detector tries them. */
  function CornerVariances(img: Raster): (vs: seq<real>)
    requires img.Valid()
    ensures |vs| == 4
  {
    seq(4, j => CornerVariance(img, j))
  }

  /** Entry `b` is the one a scan keeps that starts from entry 0 with best value 0 and
      moves only to a strictly larger value: no entry is larger (and none positive when
      `b`'s is not positive), every earlier entry is smaller, and an entry other than the
      first is kept only when it is positive. */
  predicate IsBest(vs: seq<real>, b: int)
  {
    0 <= b < |vs|
    && (forall j :: 0 <= j < |vs| ==> vs[j] <= Max(0.0, vs[b]))
    && (forall j :: 0 <= j < b ==> vs[j] < vs[b])
    && (b > 0 ==> vs[b] > 0.0)
  }

  /** Only one entry satisfies the rule. */
  lemma BestUnique(vs: seq<real>, b1: int, b2: int)
    requires IsBest(vs, b1) && IsBest(vs, b2)
    ensures b1 == b2
  {
  }

  /** `lm` and `lsq` are the brightness map of `img` and its square. */
  ghost predicate LumaMaps(img: Raster, lm: seq<real>, lsq: seq<real>)
    requires img.Valid()
  {
    lm == LumaMap(img) && lsq == LumaSqMap(img)
  }

  /** The innermost loop of `detectLogoRegion`: brightness sums over every third pixel of
      row `y` from column `x0` while the column stays below `xend`. */
  method LumaRow(img: Raster, ghost lm: seq<real>, ghost lsq: seq<real>, y: int, x0: int, xend: int) returns (s: real, sq: real, n: int)
    requires img.Valid() && LumaMaps(img, lm, lsq)
    requires InRange(StrideRow(img.w, 3, y, x0, xend), |lm|)
    ensures s == ScoreSum(lm, StrideRow(img.w, 3, y, x0, xend))
    ensures sq == ScoreSum(lsq, StrideRow(img.w, 3, y, x0, xend))
    ensures n == |StrideRow(img.w, 3, y, x0, xend)|
  {
    var w := img.w;
    s, sq, n := 0.0, 0.0, 0;
    var x := x0;
    while x < xend
      invariant InRange(StrideRow(w, 3, y, x, xend), |lm|)
      invariant s + ScoreSum(lm, StrideRow(w, 3, y, x, xend)) == ScoreSum(lm, StrideRow(w, 3, y, x0, xend))
      invariant sq + ScoreSum(lsq, StrideRow(w, 3, y, x, xend)) == ScoreSum(lsq, StrideRow(w, 3, y, x0, xend))
      invariant n + |StrideRow(w, 3, y, x, xend)| == |StrideRow(w, 3, y, x0, xend)|
      decreases xend - x
    {
      assert StrideRow(w, 3, y, x, xend) == [y * w + x] + StrideRow(w, 3, y, x + 3, xend);
      var l := Luma(img, y * w + x);
      LumaPrefixAt(img, w * img.h, y * w + x);
      s := s + l;
      sq := sq + Square(l);
      n := n + 1;
      x := x + 3;
    }
  }

  /** One corner of `detectLogoRegion`: the brightness variance of its strided sample. Each
      loop's test `n < Math.min(c + r, side)` is folded into one integer end. */
  method SampleCorner(img: Raster, k: int) returns (v: real)
    requires img.Valid()
    ensures v == CornerVariance(img, k)
    ensures 0 <= k < 4 ==> v == CornerVariances(img)[k]
  {
    var w, h := img.w, img.h;
    var c := CornerBox(w, h, k);
    var rw, rh := w as real * 0.3, h as real * 0.3;
    var x0, y0 := Floor(c.x), Floor(c.y);
    var xend, yend := Ceil(Min(c.x + rw, w as real)), Ceil(Min(c.y + rh, h as real));
    assert CornerCells(img, k) == StrideCells(w, 3, x0, xend, y0, yend);
    var s, sq, n := StrideLumaSums(img, LumaMap(img), LumaSqMap(img), x0, xend, y0, yend);
    v := sq / n as real - Square(s / n as real);
  }

  /** One pass of the outer loop of a corner: adds row `y`'s sums to the running sums,
      which keeps "running sums plus the sums of the rows left equal the totals". */
  method LumaRowStep(img: Raster, ghost lm: seq<real>, ghost lsq: seq<real>, x0: int, xend: int, y: int, yend: int,
                     s: real, sq: real, n: int) returns (s': real, sq': real, n': int)
    requires img.Valid() && LumaMaps(img, lm, lsq) && y < yend
    requires InRange(StrideCells(img.w, 3, x0, xend, y, yend), |lm|)
    ensures InRange(StrideCells(img.w, 3, x0, xend, y + 3, yend), |lm|)
    ensures s' + ScoreSum(lm, StrideCells(img.w, 3, x0, xend, y + 3, yend)) == s + ScoreSum(lm, StrideCells(img.w, 3, x0, xend, y, yend))
    ensures sq' + ScoreSum(lsq, StrideCells(img.w, 3, x0, xend, y + 3, yend)) == sq + ScoreSum(lsq, StrideCells(img.w, 3, x0, xend, y, yend))
    ensures n' + |StrideCells(img.w, 3, x0, xend, y + 3, yend)| == n + |StrideCells(img.w, 3, x0, xend, y, yend)|
  {
    StrideStep(lm, img.w, 3, x0, xend, y, yend);
    StrideStep(lsq, img.w, 3, x0, xend, y, yend);
    var rs, rsq, rn := LumaRow(img, lm, lsq, y, x0, xend);
    s', sq', n' := s + rs, sq + rsq, n + rn;
  }

  /** The two nested loops of one corner: brightness sums over every third pixel of every
      third row of a rectangle. */
  method StrideLumaSums(img: Raster, ghost lm: seq<real>, ghost lsq: seq<real>, x0: int, xend: int, y0: int, yend: int) returns (s: real, sq: real, n: int)
    requires img.Valid() && LumaMaps(img, lm, lsq) && 0 <= x0 && xend <= img.w && 0 <= y0 && yend <= img.h
    ensures InRange(StrideCells(img.w, 3, x0, xend, y0, yend), |lm|)
    ensures s == ScoreSum(lm, StrideCells(img.w, 3, x0, xend, y0, yend))
    ensures sq == ScoreSum(lsq, StrideCells(img.w, 3, x0, xend, y0, yend))
    ensures n == |StrideCells(img.w, 3, x0, xend, y0, yend)|
  {
    StrideCellsInRange(img.w, img.h, 3, x0, xend, y0, yend);
    ghost var all := StrideCells(img.w, 3, x0, xend, y0, yend);
    s, sq, n := 0.0, 0.0, 0;
    var y := y0;
    while y < yend
      invariant InRange(StrideCells(img.w, 3, x0, xend, y, yend), |lm|)
      invariant s + ScoreSum(lm, StrideCells(img.w, 3, x0, xend, y, yend)) == ScoreSum(lm, all)
      invariant sq + ScoreSum(lsq, StrideCells(img.w, 3, x0, xend, y, yend)) == ScoreSum(lsq, all)
      invariant n + |StrideCells(img.w, 3, x0, xend, y, yend)| == |all|
      decreases yend - y
    {
      s, sq, n := LumaRowStep(img, lm, lsq, x0, xend, y, yend, s, sq, n);
      y := y + 3;
    }
  }

  /** The corner with the most varied brightness, where a later corner must beat an earlier
      one strictly and the top-left corner is kept when no variance is positive. */
  method DetectLogoRegion(img: Raster) returns (box: Box)
    requires img.Valid()
    ensures exists b :: IsBest(CornerVariances(img), b) && box == CornerBox(img.w, img.h, b)
  {
    var best, bv := 0, 0.0;
    ghost var vs: seq<real> := [];
    var k := 0;
    while k < 4
      invariant 0 <= k <= 4 && 0 <= best < 4 && bv >= 0.0
      invariant |vs| == k && forall j :: 0 <= j < k ==> vs[j] == CornerVariances(img)[j]
      invariant forall j :: 0 <= j < k ==> vs[j] <= bv
      invariant bv > 0.0 ==> best < k && vs[best] == bv && forall j :: 0 <= j < best ==> vs[j] < bv
      invariant bv == 0.0 ==> best == 0
    {
      var v := SampleCorner(img, k);
      vs := vs + [v];
      if v > bv {
        bv, best := v, k;
      }
      k := k + 1;
    }
    assert vs == CornerVariances(img);
    box := CornerBox(img.w, img.h, best);
    assert IsBest(vs, best);
  }

  // ----- findAuxRegion and the title strip -----

  /** The auxiliary band: 80% of the width, placed in the half of the image that does not
      hold the main box's centre. */
  function AuxRegion(main: Box, w: Pos, h: Pos): (b: Box)
    ensures Within(b, w as real, h as real)
    ensures b.x == w as real * 0.1 && b.w == w as real * 0.8
    ensures main.y + main.h / 2.0 < h as real * 0.5 ==> b.y >= h as real * 0.5
    ensures main.y + main.h / 2.0 >= h as real * 0.5 ==> b.y + b.h <= h as real * 0.5
  {
    if main.y + main.h / 2.0 < h as real * 0.5 then Box(w as real * 0.1, h as real * 0.6, w as real * 0.8, h as real * 0.35)
    else Box(w as real * 0.1, h as real * 0.05, w as real * 0.8, h as real * 0.3)
  }

  /** Height of the title strip: the part of the image above the main box, at most 30% of
      the height, with 20% in place of a zero height (`min(y, 0.3 h) || 0.2 h`). */
  function TitleHeight(mainY: real, h: Pos): (r: real)
    ensures r != 0.0
    ensures mainY >= 0.0 ==> 0.0 < r <= h as real * 0.3
    ensures mainY > 0.0 ==> r <= mainY
    ensures mainY == 0.0 ==> r == h as real * 0.2
  {
    var m := Min(mainY, h as real * 0.3);
    if m == 0.0 then h as real * 0.2 else m
  }

  // ----- extractImageElementsFallback -----

  /** The five slots chosen without a detector. */
  method ExtractFallback(img: Raster, sqrt: real -> real) returns (slots: Slots)
    requires img.Valid()
    ensures var sal := SaliencyMap(img, sqrt);
      CoversHotCells(sal, img.w, img.h, SalientCut(sal, 0.6), slots.main.box)
      && TightAroundHotCells(sal, img.w, img.h, SalientCut(sal, 0.6), slots.main.box)
      && Confidence(sal, ConfidenceCells(sal, slots.main.box, img.w)) == Some(slots.main.score)
    ensures 0.3 <= slots.main.score <= 0.95
    ensures exists b :: IsBest(CornerVariances(img), b) && slots.logo == Pick(CornerBox(img.w, img.h, b), 0.55)
    ensures slots.title == Pick(Box(0.0, 0.0, img.w as real, TitleHeight(slots.main.box.y, img.h)), 0.5)
    ensures 0.0 < slots.title.box.h <= img.h as real * 0.3
    ensures slots.bg == Pick(Box(0.0, 0.0, img.w as real, img.h as real), 0.9)
    ensures slots.aux == Pick(AuxRegion(slots.main.box, img.w, img.h), 0.4)
  {
    var w, h := img.w, img.h;
    var salArr := ComputeSaliencyMap(img, sqrt);
    var sal := salArr[..];
    var mainBox := FindSalientRegion(sal, w, h, 0.6);
    SalientPixelExists(sal, w, h);
    SalientBoxSampled(sal, w, h, SalientCut(sal, 0.6), mainBox);
    var conf := CalcConfidence(sal, mainBox, w);
    var logoBox := DetectLogoRegion(img);
    slots := Slots(
      bg := Pick(Box(0.0, 0.0, w as real, h as real), 0.9),
      main := Pick(mainBox, conf.value),
      logo := Pick(logoBox, 0.55),
      title := Pick(Box(0.0, 0.0, w as real, TitleHeight(mainBox.y, h)), 0.5),
      aux := Pick(AuxRegion(mainBox, w, h), 0.4));
  }
}
