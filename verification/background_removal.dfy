/** The edge-seeded flood-fill background remover (`removeBackground`): the colour of the
    one-pixel border is taken as the background colour, a breadth-first fill from the
    border marks every pixel joined to it through pixels of similar colour, and the
    alpha channel is rewritten in place. `Math.sqrt` is a parameter throughout. */
module BackgroundRemoval {
  import opened Numeric
  import opened Pixels

  /** The alpha byte of pixel `i` of a buffer. */
  function Alpha(data: seq<Byte>, i: int): Byte
    requires 0 <= 4 * i + 3 < |data|
  {
    data[4 * i + 3]
  }

  predicate InGrid(w: Pos, h: Pos, idx: seq<int>)
  {
    forall k :: 0 <= k < |idx| ==> 0 <= idx[k] < w * h
  }

  predicate Distinct(s: seq<int>)
  {
    forall a, b :: 0 <= a < b < |s| ==> s[a] != s[b]
  }

  // ----- the border list -----

  /** Entry `j` of the first loop: pixel `j / 2` of the top row, then of the bottom row. */
  function TopBottomAt(w: Pos, h: Pos, j: int): int
  {
    if j % 2 == 0 then j / 2 else (h - 1) * w + j / 2
  }

  /** Entry `j` of the second loop: the left, then the right pixel of row `j / 2 + 1`. */
  function SideAt(w: Pos, j: int): int
  {
    (j / 2 + 1) * w + (if j % 2 == 0 then 0 else w - 1)
  }

  /** The number of rows strictly between the top and the bottom row. */
  function InnerRows(h: Pos): nat { if h >= 2 then h - 2 else 0 }

  /** The border pixels in the order the source pushes them (with repeats when the image
      is a single row or a single column). */
  function BorderList(w: Pos, h: Pos): (r: seq<int>)
    ensures |r| == 2 * w + 2 * InnerRows(h)
    ensures InGrid(w, h, r)
  {
    var r := seq(2 * w, j => TopBottomAt(w, h, j)) + seq(2 * InnerRows(h), j => SideAt(w, j));
    assert InGrid(w, h, r) by {
      forall k | 0 <= k < |r| ensures 0 <= r[k] < w * h {
        if k < 2 * w {
          CellIndex(w, h, k / 2, if k % 2 == 0 then 0 else h - 1);
        } else {
          var j := k - 2 * w;
          CellIndex(w, h, if j % 2 == 0 then 0 else w - 1, j / 2 + 1);
        }
      }
    }
    r
  }

  /** A pixel on the outermost ring of the grid. */
  predicate OnBorder(w: Pos, h: Pos, i: int)
  {
    var x, y := i % w, i / w;
    x == 0 || x == w - 1 || y == 0 || y == h - 1
  }

  /** Column and row of border entry `k`. */
  function BorderCell(w: Pos, h: Pos, k: int): (int, int)
  {
    if k < 2 * w then (k / 2, if k % 2 == 0 then 0 else h - 1)
    else
      var j := k - 2 * w;
      (if j % 2 == 0 then 0 else w - 1, j / 2 + 1)
  }

  lemma BorderCellIndex(w: Pos, h: Pos, k: int)
    requires 0 <= k < |BorderList(w, h)|
    ensures var (x, y) := BorderCell(w, h, k);
      0 <= x < w && 0 <= y < h && BorderList(w, h)[k] == y * w + x
  {
  }

  /** Column and row of border entry `k`, recovered from its index. */
  lemma BorderEntryCell(w: Pos, h: Pos, k: int)
    requires 0 <= k < |BorderList(w, h)|
    ensures var (x, y) := BorderCell(w, h, k); var i := BorderList(w, h)[k];
      0 <= i < w * h && i % w == x && i / w == y
  {
    BorderCellIndex(w, h, k);
    var (x, y) := BorderCell(w, h, k);
    CellIndex(w, h, x, y);
  }

  lemma BorderListDistinct(w: Pos, h: Pos)
    requires w >= 2 && h >= 2
    ensures Distinct(BorderList(w, h))
  {
    var e := BorderList(w, h);
    forall a, b | 0 <= a < b < |e| ensures e[a] != e[b] {
      BorderEntryCell(w, h, a);
      BorderEntryCell(w, h, b);
    }
  }

  lemma BorderListOnBorder(w: Pos, h: Pos, i: int)
    requires i in BorderList(w, h)
    ensures 0 <= i < w * h && OnBorder(w, h, i)
  {
    var e := BorderList(w, h);
    var k :| 0 <= k < |e| && e[k] == i;
    BorderEntryCell(w, h, k);
  }

  lemma BorderListComplete(w: Pos, h: Pos, i: int)
    requires 0 <= i < w * h && OnBorder(w, h, i)
    ensures i in BorderList(w, h)
  {
    CellBounds(w, h, i);
    var x, y := i % w, i / w;
    var k := if y == 0 then 2 * x
             else if y == h - 1 then 2 * x + 1
             else if x == 0 then 2 * w + 2 * (y - 1)
             else 2 * w + 2 * (y - 1) + 1;
    BorderCellIndex(w, h, k);
  }

  /** For images of at least two rows and two columns the border list holds each border
      pixel exactly once: 2w + 2(h - 2) distinct indices, and an index is listed exactly
      when it is a pixel of the outermost ring. */
  lemma BorderListExact(w: Pos, h: Pos)
    requires w >= 2 && h >= 2
    ensures |BorderList(w, h)| == 2 * w + 2 * (h - 2)
    ensures Distinct(BorderList(w, h))
    ensures forall i :: i in BorderList(w, h) <==> 0 <= i < w * h && OnBorder(w, h, i)
  {
    BorderListDistinct(w, h);
    forall i ensures i in BorderList(w, h) <==> 0 <= i < w * h && OnBorder(w, h, i) {
      if i in BorderList(w, h) {
        BorderListOnBorder(w, h, i);
      }
      if 0 <= i < w * h && OnBorder(w, h, i) {
        BorderListComplete(w, h, i);
      }
    }
  }

  /** The two loops that list the border, as the source writes them. */
  method ListBorder(w: Pos, h: Pos) returns (edge: seq<int>)
    ensures edge == BorderList(w, h)
  {
    edge := [];
    for x := 0 to w
      invariant edge == seq(2 * x, j => TopBottomAt(w, h, j))
    {
      edge := edge + [x, (h - 1) * w + x];
    }
    ghost var top := edge;
    var y := 1;
    while y < h - 1
      invariant 1 <= y <= InnerRows(h) + 1
      invariant edge == top + seq(2 * (y - 1), j => SideAt(w, j))
    {
      assert seq(2 * y, j => SideAt(w, j))
          == seq(2 * (y - 1), j => SideAt(w, j)) + [y * w, y * w + (w - 1)];
      edge := edge + [y * w, y * w + (w - 1)];
      y := y + 1;
    }
  }

  // ----- the background colour and the threshold -----

  /** Sum of channel `c` over the listed pixels. */
  function ChannelSum(img: Raster, idx: seq<int>, c: int): real
    requires img.Valid() && InGrid(img.w, img.h, idx) && 0 <= c < 3
  {
    if idx == [] then 0.0
    else ChannelSum(img, idx[..|idx| - 1], c) + Sample(img, idx[|idx| - 1], c)
  }

  /** Sum of the squared distances of the listed pixels from (r, g, b). */
  function DistSqSum(img: Raster, idx: seq<int>, r: real, g: real, b: real): real
    requires img.Valid() && InGrid(img.w, img.h, idx)
  {
    if idx == [] then 0.0
    else DistSqSum(img, idx[..|idx| - 1], r, g, b) + DistSq(img, idx[|idx| - 1], r, g, b)
  }

  /** The mean border colour and the adaptive colour-distance threshold. */
  datatype EdgeModel = EdgeModel(r: real, g: real, b: real, threshold: real)

  /** `max(30, min(80, 1.5 * sigma + 25))`. */
  function AdaptiveThreshold(sigma: real): (t: real)
    ensures 30.0 <= t <= 80.0
    ensures 30.0 < t < 80.0 ==> t == sigma * 1.5 + 25.0
  {
    Max(30.0, Min(80.0, sigma * 1.5 + 25.0))
  }

  /** The border mean colour and threshold the source derives from the border list, with
      sigma the square root (as `sqrt` computes it) of the mean squared distance. */
  function EdgeModelOf(img: Raster, sqrt: real -> real): (m: EdgeModel)
    requires img.Valid()
    ensures 30.0 <= m.threshold <= 80.0
  {
    var e := BorderList(img.w, img.h);
    var n := |e| as real;
    var r, g, b := ChannelSum(img, e, 0) / n, ChannelSum(img, e, 1) / n, ChannelSum(img, e, 2) / n;
    EdgeModel(r, g, b, AdaptiveThreshold(sqrt(DistSqSum(img, e, r, g, b) / n)))
  }

  /** The loop that sums the border colour channels. */
  method EdgeSums(d: array<Byte>, ghost img: Raster, edge: seq<int>) returns (rSum: real, gSum: real, bSum: real)
    requires img.Valid() && img.data == d[..] && InGrid(img.w, img.h, edge)
    ensures rSum == ChannelSum(img, edge, 0) && gSum == ChannelSum(img, edge, 1) && bSum == ChannelSum(img, edge, 2)
  {
    rSum, gSum, bSum := 0.0, 0.0, 0.0;
    for k := 0 to |edge|
      invariant rSum == ChannelSum(img, edge[..k], 0)
      invariant gSum == ChannelSum(img, edge[..k], 1)
      invariant bSum == ChannelSum(img, edge[..k], 2)
    {
      var idx := edge[k];
      assert edge[..k + 1][..k] == edge[..k];
      rSum := rSum + d[idx * 4] as real;
      gSum := gSum + d[idx * 4 + 1] as real;
      bSum := bSum + d[idx * 4 + 2] as real;
    }
    assert edge[..|edge|] == edge;
  }

  /** The loop that sums the squared distances of the border pixels from the mean. */
  method EdgeSpread(d: array<Byte>, ghost img: Raster, edge: seq<int>, bgR: real, bgG: real, bgB: real)
    returns (variance: real)
    requires img.Valid() && img.data == d[..] && InGrid(img.w, img.h, edge)
    ensures variance == DistSqSum(img, edge, bgR, bgG, bgB)
  {
    variance := 0.0;
    for k := 0 to |edge|
      invariant variance == DistSqSum(img, edge[..k], bgR, bgG, bgB)
    {
      var idx := edge[k];
      assert edge[..k + 1][..k] == edge[..k];
      var dr, dg, db := d[idx * 4] as real - bgR, d[idx * 4 + 1] as real - bgG, d[idx * 4 + 2] as real - bgB;
      variance := variance + SumOfSquares(dr, dg, db);
    }
    assert edge[..|edge|] == edge;
  }

  /** The statistics part of the source: mean border colour, spread and threshold. */
  method EdgeStats(d: array<Byte>, w: Pos, h: Pos, edge: seq<int>, sqrt: real -> real)
    returns (m: EdgeModel)
    requires d.Length == 4 * (w * h)
    requires edge == BorderList(w, h)
    ensures m == EdgeModelOf(Raster(w, h, d[..]), sqrt)
  {
    ghost var img := Raster(w, h, d[..]);
    var rSum, gSum, bSum := EdgeSums(d, img, edge);
    var n := |edge| as real;
    var bgR, bgG, bgB := rSum / n, gSum / n, bSum / n;
    var variance := EdgeSpread(d, img, edge, bgR, bgG, bgB);
    variance := sqrt(variance / n);
    var threshold := Max(30.0, Min(80.0, variance * 1.5 + 25.0));
    m := EdgeModel(bgR, bgG, bgB, threshold);
  }

  // ----- connectivity -----

  /** A pixel whose colour distance to the border mean is below the threshold. */
  predicate Like(img: Raster, m: EdgeModel, sqrt: real -> real, i: int)
    requires img.Valid() && 0 <= i < img.w * img.h
  {
    sqrt(DistSq(img, i, m.r, m.g, m.b)) < m.threshold
  }

  /** For a genuine square root, the test `sqrt(d) < threshold` is the comparison of the
      squared distance with the squared threshold. */
  lemma LikeBySquares(img: Raster, m: EdgeModel, sqrt: real -> real, i: int)
    requires img.Valid() && 0 <= i < img.w * img.h && m.threshold >= 0.0
    requires forall x: real :: x >= 0.0 ==> sqrt(x) >= 0.0 && sqrt(x) * sqrt(x) == x
    ensures Like(img, m, sqrt, i) <==> DistSq(img, i, m.r, m.g, m.b) < m.threshold * m.threshold
  {
    var q := DistSq(img, i, m.r, m.g, m.b);
    assert q >= 0.0;
    var r, t := sqrt(q), m.threshold;
    assert r >= 0.0 && r * r == q;
    if r < t {
      SquareLess(r, t);
    } else if t < r {
      SquareLess(t, r);
    }
  }

  /** Squaring is strictly increasing on the non-negative reals. */
  lemma SquareLess(a: real, b: real)
    requires 0.0 <= a < b
    ensures a * a < b * b
  {
    var d := b - a;
    assert a * d >= 0.0;
    assert d * d > 0.0;
    calc {
      b * b;
    ==
      (a + d) * (a + d);
    ==
      a * a + 2.0 * (a * d) + d * d;
    >
      a * a;
    }
  }

  /** `j` is one of the neighbours the fill enumerates for `i`. */
  predicate Adjacent(w: Pos, h: Pos, i: int, j: int)
  {
    0 <= i < w * h &&
    var x, y := i % w, i / w;
    (x > 0 && j == i - 1) || (x < w - 1 && j == i + 1) || (y > 0 && j == i - w) || (y < h - 1 && j == i + w)
  }

  /** Two cells of the grid whose columns and rows differ by one in total. */
  predicate GridNeighbours(w: Pos, h: Pos, i: int, j: int)
  {
    0 <= i < w * h && 0 <= j < w * h &&
    var dx, dy := i % w - j % w, i / w - j / w;
    ((dx == 1 || dx == -1) && dy == 0) || (dx == 0 && (dy == 1 || dy == -1))
  }

  /** Moving within a row changes only the column. */
  lemma ColumnStep(w: Pos, i: int, dx: int)
    requires 0 <= i && 0 <= i % w + dx < w
    ensures (i + dx) / w == i / w && (i + dx) % w == i % w + dx
  {
    DivModOf(w, i / w, i % w + dx);
  }

  /** Moving one row down keeps the column. */
  lemma RowDown(w: Pos, i: int)
    requires 0 <= i
    ensures (i + w) / w == i / w + 1 && (i + w) % w == i % w
  {
    assert (i / w + 1) * w + i % w == i + w;
    DivModOf(w, i / w + 1, i % w);
  }

  lemma AdjacentToGrid(w: Pos, h: Pos, i: int, j: int)
    requires Adjacent(w, h, i, j)
    ensures GridNeighbours(w, h, i, j)
  {
    CellBounds(w, h, i);
    var x, y := i % w, i / w;
    if x > 0 && j == i - 1 {
      ColumnStep(w, i, -1);
    } else if x < w - 1 && j == i + 1 {
      ColumnStep(w, i, 1);
    } else if y > 0 && j == i - w {
      RowDown(w, j);
    } else {
      RowDown(w, i);
    }
  }

  lemma GridToAdjacent(w: Pos, h: Pos, i: int, j: int)
    requires GridNeighbours(w, h, i, j)
    ensures Adjacent(w, h, i, j)
  {
    CellBounds(w, h, i);
    CellBounds(w, h, j);
    var x, y, yj := i % w, i / w, j / w;
    if yj == y + 1 {
      assert (y + 1) * w == y * w + w;
    } else if yj == y - 1 {
      assert (y - 1) * w == y * w - w;
    }
  }

  /** The neighbours the fill enumerates are exactly the 4-connected grid neighbours. */
  lemma AdjacentIsGridNeighbour(w: Pos, h: Pos, i: int, j: int)
    ensures Adjacent(w, h, i, j) <==> GridNeighbours(w, h, i, j)
  {
    if Adjacent(w, h, i, j) {
      AdjacentToGrid(w, h, i, j);
    }
    if GridNeighbours(w, h, i, j) {
      GridToAdjacent(w, h, i, j);
    }
  }

  lemma AdjacentInGrid(w: Pos, h: Pos, i: int, j: int)
    requires Adjacent(w, h, i, j)
    ensures 0 <= j < w * h
  {
    CellBounds(w, h, i);
  }

  /** A path the fill can follow: it starts at a listed border pixel, every pixel on it is
      within the threshold, and consecutive pixels are 4-neighbours. */
  ghost predicate IsFillPath(img: Raster, m: EdgeModel, sqrt: real -> real, p: seq<int>)
    requires img.Valid()
  {
    && |p| > 0
    && p[0] in BorderList(img.w, img.h)
    && (forall k :: 0 <= k < |p| ==> 0 <= p[k] < img.w * img.h && Like(img, m, sqrt, p[k]))
    && (forall k :: 0 < k < |p| ==> Adjacent(img.w, img.h, p[k - 1], p[k]))
  }

  /** Pixel `i` is joined to a seed by a fill path. */
  ghost predicate Reached(img: Raster, m: EdgeModel, sqrt: real -> real, i: int)
    requires img.Valid()
  {
    exists p :: IsFillPath(img, m, sqrt, p) && p[|p| - 1] == i
  }

  /** The background of the source: pixels reached from the border under the model the
      source derives from the border. */
  ghost predicate Background(img: Raster, sqrt: real -> real, i: int)
    requires img.Valid()
  {
    Reached(img, EdgeModelOf(img, sqrt), sqrt, i)
  }

  lemma SeedReached(img: Raster, m: EdgeModel, sqrt: real -> real, i: int)
    requires img.Valid() && i in BorderList(img.w, img.h)
    requires Like(img, m, sqrt, i)
    ensures Reached(img, m, sqrt, i)
  {
    assert IsFillPath(img, m, sqrt, [i]);
  }

  lemma ReachedStep(img: Raster, m: EdgeModel, sqrt: real -> real, i: int, j: int)
    requires img.Valid() && Reached(img, m, sqrt, i)
    requires Adjacent(img.w, img.h, i, j) && 0 <= j < img.w * img.h && Like(img, m, sqrt, j)
    ensures Reached(img, m, sqrt, j)
  {
    var p :| IsFillPath(img, m, sqrt, p) && p[|p| - 1] == i;
    var q := p + [j];
    assert IsFillPath(img, m, sqrt, q);
  }

  // ----- the fill -----

  /** A pixel is marked exactly when it was visited and is within the threshold. */
  ghost predicate MarksAgree(img: Raster, m: EdgeModel, sqrt: real -> real, vis: seq<bool>, bg: seq<bool>)
  {
    && img.Valid() && |vis| == img.w * img.h && |bg| == img.w * img.h
    && forall i :: 0 <= i < |bg| ==> (bg[i] <==> vis[i] && Like(img, m, sqrt, i))
  }

  /** Every marked pixel is reached by a fill path. */
  ghost predicate MarksReached(img: Raster, m: EdgeModel, sqrt: real -> real, bg: seq<bool>)
  {
    img.Valid() && forall i :: 0 <= i < |bg| && i < img.w * img.h && bg[i] ==> Reached(img, m, sqrt, i)
  }

  /** The queue is the unprocessed tail of everything ever queued (`log`); every queued
      pixel is marked and was visited, and when `unique` holds nothing was queued twice. */
  predicate QueueShape(vis: seq<bool>, bg: seq<bool>, queue: seq<int>, log: seq<int>, steps: int, unique: bool)
  {
    && 0 <= steps <= |log| && queue == log[steps..]
    && (forall q :: q in queue ==> 0 <= q < |bg| && bg[q])
    && (forall q :: q in log ==> 0 <= q < |vis| && vis[q])
    && (unique ==> Distinct(log))
  }

  /** The first `upTo` border entries that are within the threshold are marked. */
  ghost predicate SeedsMarked(img: Raster, m: EdgeModel, sqrt: real -> real, edge: seq<int>, bg: seq<bool>, upTo: int)
  {
    img.Valid() && InGrid(img.w, img.h, edge) && forall k :: 0 <= k < upTo && k < |edge| && Like(img, m, sqrt, edge[k]) ==> 0 <= edge[k] < |bg| && bg[edge[k]]
  }

  /** Every marked pixel that is not queued, `except` aside, has all its neighbours visited. */
  ghost predicate ClosedExcept(w: Pos, h: Pos, vis: seq<bool>, bg: seq<bool>, queue: seq<int>, except: int)
  {
    forall i, j :: 0 <= i < |bg| && bg[i] && i !in queue && i != except && 0 <= j < |vis| && Adjacent(w, h, i, j) ==> vis[j]
  }

  /** Marking a pixel within the threshold that a fill path reaches keeps the marks sound. */
  lemma MarkReached(img: Raster, m: EdgeModel, sqrt: real -> real, vis: seq<bool>, bg: seq<bool>, i: int)
    requires img.Valid() && MarksAgree(img, m, sqrt, vis, bg) && MarksReached(img, m, sqrt, bg)
    requires 0 <= i < |bg| && Like(img, m, sqrt, i) && Reached(img, m, sqrt, i)
    ensures MarksAgree(img, m, sqrt, vis[i := true], bg[i := true])
    ensures MarksReached(img, m, sqrt, bg[i := true])
  {
  }

  /** Visiting a pixel outside the threshold changes no mark. */
  lemma VisitUnlike(img: Raster, m: EdgeModel, sqrt: real -> real, vis: seq<bool>, bg: seq<bool>, i: int)
    requires img.Valid() && MarksAgree(img, m, sqrt, vis, bg)
    requires 0 <= i < |bg| && !Like(img, m, sqrt, i)
    ensures MarksAgree(img, m, sqrt, vis[i := true], bg)
  {
  }

  lemma QueueVisit(vis: seq<bool>, bg: seq<bool>, queue: seq<int>, log: seq<int>, steps: int, unique: bool, i: int, like: bool)
    requires QueueShape(vis, bg, queue, log, steps, unique)
    requires 0 <= i < |vis| == |bg| && !vis[i]
    ensures like ==> QueueShape(vis[i := true], bg[i := true], queue + [i], log + [i], steps, unique)
    ensures !like ==> QueueShape(vis[i := true], bg, queue, log, steps, unique)
  {
    if like {
      assert i !in log;
      assert (log + [i])[steps..] == log[steps..] + [i];
    }
  }

  lemma ClosedVisit(w: Pos, h: Pos, vis: seq<bool>, bg: seq<bool>, queue: seq<int>, idx: int, i: int, like: bool)
    requires ClosedExcept(w, h, vis, bg, queue, idx) && 0 <= i < |vis| == |bg|
    ensures like ==> ClosedExcept(w, h, vis[i := true], bg[i := true], queue + [i], idx)
    ensures !like ==> ClosedExcept(w, h, vis[i := true], bg, queue, idx)
  {
  }

  lemma SeedsKept(img: Raster, m: EdgeModel, sqrt: real -> real, edge: seq<int>, bg: seq<bool>, upTo: int, i: int)
    requires img.Valid() && InGrid(img.w, img.h, edge) && SeedsMarked(img, m, sqrt, edge, bg, upTo)
    requires 0 <= i < |bg|
    ensures SeedsMarked(img, m, sqrt, edge, bg[i := true], upTo)
  {
  }

  /** Once every neighbour of `idx` is visited, `idx` needs no exception. */
  lemma CloseOff(w: Pos, h: Pos, vis: seq<bool>, bg: seq<bool>, queue: seq<int>, idx: int)
    requires ClosedExcept(w, h, vis, bg, queue, idx)
    requires forall j :: 0 <= j < |vis| && Adjacent(w, h, idx, j) ==> vis[j]
    ensures ClosedExcept(w, h, vis, bg, queue, -1)
  {
  }

  /** Taking the head off the queue leaves only that pixel open. */
  lemma PopStep(w: Pos, h: Pos, vis: seq<bool>, bg: seq<bool>, queue: seq<int>, log: seq<int>, steps: int, unique: bool)
    requires QueueShape(vis, bg, queue, log, steps, unique) && queue != []
    requires ClosedExcept(w, h, vis, bg, queue, -1)
    ensures QueueShape(vis, bg, queue[1..], log, steps + 1, unique)
    ensures ClosedExcept(w, h, vis, bg, queue[1..], queue[0])
    ensures 0 <= queue[0] < |bg| && bg[queue[0]]
  {
    assert queue[0] in queue;
    assert forall q :: q in queue[1..] ==> q in queue;
    assert queue[1..] == log[steps + 1..];
  }

  /** One turn of the seeding loop keeps the queue's shape. */
  lemma SeedQueueStep(vis: seq<bool>, bg: seq<bool>, log: seq<int>, edge: seq<int>, k: int, unique: bool)
    requires QueueShape(vis, bg, log, log, 0, unique) && (unique ==> Distinct(edge))
    requires 0 <= k < |edge| && 0 <= edge[k] < |vis| == |bg|
    requires forall q :: q in log ==> q in edge[..k]
    ensures QueueShape(vis[edge[k] := true], bg[edge[k] := true], log + [edge[k]], log + [edge[k]], 0, unique)
    ensures forall q :: q in log + [edge[k]] ==> q in edge[..k + 1]
  {
    var i := edge[k];
    assert edge[..k + 1] == edge[..k] + [i];
    if unique {
      assert i !in edge[..k];
      assert Distinct(log + [i]);
    }
  }

  lemma SeedsProgress(img: Raster, m: EdgeModel, sqrt: real -> real, edge: seq<int>, bg: seq<bool>, k: int)
    requires img.Valid() && InGrid(img.w, img.h, edge) && |bg| == img.w * img.h && 0 <= k < |edge|
    requires SeedsMarked(img, m, sqrt, edge, bg, k)
    ensures Like(img, m, sqrt, edge[k]) ==> SeedsMarked(img, m, sqrt, edge, bg[edge[k] := true], k + 1)
    ensures !Like(img, m, sqrt, edge[k]) ==> SeedsMarked(img, m, sqrt, edge, bg, k + 1)
  {
  }

  /** A set of marks that holds every seed within the threshold and that, with each mark,
      has visited all its neighbours, holds the end of every fill path. */
  lemma {:induction false} ClosedMarksContainPath(img: Raster, m: EdgeModel, sqrt: real -> real,
                                                  vis: seq<bool>, bg: seq<bool>, p: seq<int>)
    requires img.Valid() && MarksAgree(img, m, sqrt, vis, bg)
    requires SeedsMarked(img, m, sqrt, BorderList(img.w, img.h), bg, |BorderList(img.w, img.h)|)
    requires ClosedExcept(img.w, img.h, vis, bg, [], -1)
    requires IsFillPath(img, m, sqrt, p)
    ensures bg[p[|p| - 1]]
  {
    if |p| == 1 {
      var e := BorderList(img.w, img.h);
      var k :| 0 <= k < |e| && e[k] == p[0];
    } else {
      var q := p[..|p| - 1];
      assert IsFillPath(img, m, sqrt, q);
      ClosedMarksContainPath(img, m, sqrt, vis, bg, q);
      assert Adjacent(img.w, img.h, q[|q| - 1], p[|p| - 1]);
    }
  }

  // ----- counting -----

  lemma {:induction false} DistinctElements(s: seq<int>)
    requires Distinct(s)
    ensures |set x | x in s :: x| == |s|
  {
    if s != [] {
      var t, last := s[..|s| - 1], s[|s| - 1];
      assert Distinct(t);
      DistinctElements(t);
      assert s == t + [last];
      assert last !in t by {
        forall k | 0 <= k < |t| ensures t[k] != last {
          assert t[k] == s[k];
        }
      }
      assert (set x | x in s :: x) == (set x | x in t :: x) + {last} by {
        assert forall x :: x in s <==> x in t || x == last;
      }
    }
  }

  lemma {:induction false} RangeSubsetSize(S: set<int>, n: nat)
    requires forall x :: x in S ==> 0 <= x < n
    ensures |S| <= n
  {
    if n > 0 {
      RangeSubsetSize(S - {n - 1}, n - 1);
    } else {
      assert forall x :: x !in S;
      assert S == {};
    }
  }

  /** A sequence of distinct indices below `n` has at most `n` entries. */
  lemma DistinctBound(s: seq<int>, n: nat)
    requires Distinct(s) && forall q :: q in s ==> 0 <= q < n
    ensures |s| <= n
  {
    DistinctElements(s);
    RangeSubsetSize(set x | x in s :: x, n);
  }

  // ----- the loops of the fill -----

  /** The invariant of the breadth-first loop, bar the closure condition. */
  ghost predicate FillInvariant(img: Raster, m: EdgeModel, sqrt: real -> real, edge: seq<int>,
                                vis: seq<bool>, bg: seq<bool>, queue: seq<int>, log: seq<int>, steps: int, unique: bool)
  {
    && MarksAgree(img, m, sqrt, vis, bg) && MarksReached(img, m, sqrt, bg)
    && QueueShape(vis, bg, queue, log, steps, unique)
    && SeedsMarked(img, m, sqrt, edge, bg, |edge|)
  }

  /** The invariant of the seeding loop after `k` turns. */
  ghost predicate SeedInvariant(img: Raster, m: EdgeModel, sqrt: real -> real, edge: seq<int>,
                                vis: seq<bool>, bg: seq<bool>, queue: seq<int>, k: int, unique: bool)
  {
    && 0 <= k <= |edge|
    && MarksAgree(img, m, sqrt, vis, bg) && MarksReached(img, m, sqrt, bg)
    && QueueShape(vis, bg, queue, queue, 0, unique)
    && SeedsMarked(img, m, sqrt, edge, bg, k)
    && (forall q :: q in queue ==> q in edge[..k])
    && (forall i :: 0 <= i < |vis| && vis[i] ==> i in queue)
  }

  /** One turn of the seeding loop keeps its invariant. */
  lemma SeedTurn(img: Raster, m: EdgeModel, sqrt: real -> real, edge: seq<int>,
                 vis: seq<bool>, bg: seq<bool>, queue: seq<int>, k: int, unique: bool)
    requires img.Valid() && edge == BorderList(img.w, img.h) && (unique ==> Distinct(edge))
    requires SeedInvariant(img, m, sqrt, edge, vis, bg, queue, k, unique) && k < |edge|
    ensures var i := edge[k];
      Like(img, m, sqrt, i) ==> SeedInvariant(img, m, sqrt, edge, vis[i := true], bg[i := true], queue + [i], k + 1, unique)
    ensures !Like(img, m, sqrt, edge[k]) ==> SeedInvariant(img, m, sqrt, edge, vis, bg, queue, k + 1, unique)
  {
    var i := edge[k];
    SeedsProgress(img, m, sqrt, edge, bg, k);
    if Like(img, m, sqrt, i) {
      SeedReached(img, m, sqrt, i);
      MarkReached(img, m, sqrt, vis, bg, i);
      SeedQueueStep(vis, bg, queue, edge, k, unique);
    } else {
      assert edge[..k + 1] == edge[..k] + [i];
    }
  }

  /** After seeding, every marked pixel is still queued. */
  lemma SeedDone(img: Raster, m: EdgeModel, sqrt: real -> real, edge: seq<int>,
                 vis: seq<bool>, bg: seq<bool>, queue: seq<int>, unique: bool)
    requires img.Valid() && InGrid(img.w, img.h, edge)
    requires SeedInvariant(img, m, sqrt, edge, vis, bg, queue, |edge|, unique)
    ensures FillInvariant(img, m, sqrt, edge, vis, bg, queue, queue, 0, unique)
    ensures ClosedExcept(img.w, img.h, vis, bg, queue, -1)
    ensures forall i :: 0 <= i < |bg| ==> (bg[i] <==> i in edge && Like(img, m, sqrt, i))
  {
    assert edge[..|edge|] == edge;
    forall i | 0 <= i < |bg| && i in edge && Like(img, m, sqrt, i) ensures bg[i] {
      var k :| 0 <= k < |edge| && edge[k] == i;
    }
  }

  /** The seeding loop: every border entry within the threshold is marked, visited and
      queued (a repeated entry is queued again, as the source does). */
  method SeedFromBorder(d: array<Byte>, ghost img: Raster, edge: seq<int>, m: EdgeModel, sqrt: real -> real,
                        visited: array<bool>, isBg: array<bool>, ghost unique: bool)
    returns (queue: seq<int>)
    requires img.Valid() && d[..] == img.data && edge == BorderList(img.w, img.h)
    requires unique ==> Distinct(edge)
    requires visited != isBg && visited.Length == img.w * img.h && isBg.Length == img.w * img.h
    requires forall i :: 0 <= i < visited.Length ==> !visited[i] && !isBg[i]
    modifies visited, isBg
    ensures FillInvariant(img, m, sqrt, edge, visited[..], isBg[..], queue, queue, 0, unique)
    ensures ClosedExcept(img.w, img.h, visited[..], isBg[..], queue, -1)
    ensures forall i :: 0 <= i < isBg.Length ==> (isBg[i] <==> i in edge && Like(img, m, sqrt, i))
  {
    queue := [];
    for k := 0 to |edge|
      invariant SeedInvariant(img, m, sqrt, edge, visited[..], isBg[..], queue, k, unique)
    {
      var idx := edge[k];
      var dr, dg, db := d[idx * 4] as real - m.r, d[idx * 4 + 1] as real - m.g, d[idx * 4 + 2] as real - m.b;
      assert SumOfSquares(dr, dg, db) == DistSq(img, idx, m.r, m.g, m.b);
      var dist := sqrt(SumOfSquares(dr, dg, db));
      assert dist < m.threshold <==> Like(img, m, sqrt, idx);
      SeedTurn(img, m, sqrt, edge, visited[..], isBg[..], queue, k, unique);
      if dist < m.threshold {
        ghost var vis0, bg0 := visited[..], isBg[..];
        queue := queue + [idx];
        visited[idx] := true;
        isBg[idx] := true;
        assert visited[..] == vis0[idx := true] && isBg[..] == bg0[idx := true];
      }
    }
    SeedDone(img, m, sqrt, edge, visited[..], isBg[..], queue, unique);
  }

  /** The neighbour list the source builds for pixel `i`: left, right, up, down, each
      only when it exists. */
  function Neighbours(w: Pos, h: Pos, i: int): (r: seq<int>)
    requires 0 <= i < w * h
    ensures forall j :: j in r <==> Adjacent(w, h, i, j)
    ensures |r| <= 4
  {
    var x, y := i % w, i / w;
    (if x > 0 then [i - 1] else []) + (if x < w - 1 then [i + 1] else [])
      + (if y > 0 then [i - w] else []) + (if y < h - 1 then [i + w] else [])
  }

  /** The pixels not yet visited. */
  ghost function Unvisited(vis: seq<bool>): set<int>
  {
    set i | 0 <= i < |vis| && !vis[i]
  }

  /** One neighbour of the pixel being processed: when not yet visited it is visited, and
      marked and queued when its colour is within the threshold. */
  method VisitOne(d: array<Byte>, w: Pos, h: Pos, ghost img: Raster, ghost edge: seq<int>, m: EdgeModel, sqrt: real -> real,
                  visited: array<bool>, isBg: array<bool>, queue0: seq<int>,
                  ghost log0: seq<int>, ghost steps: int, ghost unique: bool, idx: int, ni: int)
    returns (queue: seq<int>, ghost log: seq<int>)
    requires img == Raster(w, h, d[..]) && img.Valid() && InGrid(w, h, edge)
    requires visited != isBg && visited.Length == w * h && isBg.Length == w * h
    requires FillInvariant(img, m, sqrt, edge, visited[..], isBg[..], queue0, log0, steps, unique)
    requires ClosedExcept(w, h, visited[..], isBg[..], queue0, idx)
    requires 0 <= idx < isBg.Length && isBg[idx] && Adjacent(w, h, idx, ni)
    modifies visited, isBg
    ensures FillInvariant(img, m, sqrt, edge, visited[..], isBg[..], queue, log, steps, unique)
    ensures ClosedExcept(w, h, visited[..], isBg[..], queue, idx)
    ensures 0 <= ni < visited.Length && visited[..] == old(visited[..])[ni := true] && isBg[idx]
    ensures 2 * |Unvisited(visited[..])| + |queue| <= 2 * |Unvisited(old(visited[..]))| + |queue0|
  {
    queue, log := queue0, log0;
    AdjacentInGrid(w, h, idx, ni);
    if !visited[ni] {
      var dr, dg, db := d[ni * 4] as real - m.r, d[ni * 4 + 1] as real - m.g, d[ni * 4 + 2] as real - m.b;
      assert SumOfSquares(dr, dg, db) == DistSq(img, ni, m.r, m.g, m.b);
      var dist := sqrt(SumOfSquares(dr, dg, db));
      var like := dist < m.threshold;
      assert like == Like(img, m, sqrt, ni);
      VisitCount(visited[..], ni);
      QueueVisit(visited[..], isBg[..], queue, log, steps, unique, ni, like);
      ClosedVisit(w, h, visited[..], isBg[..], queue, idx, ni, like);
      if like {
        ReachedStep(img, m, sqrt, idx, ni);
        MarkReached(img, m, sqrt, visited[..], isBg[..], ni);
        SeedsKept(img, m, sqrt, edge, isBg[..], |edge|, ni);
        ghost var vis0, bg0 := visited[..], isBg[..];
        visited[ni] := true;
        isBg[ni] := true;
        assert visited[..] == vis0[ni := true] && isBg[..] == bg0[ni := true];
        queue := queue + [ni];
        log := log + [ni];
      } else {
        VisitUnlike(img, m, sqrt, visited[..], isBg[..], ni);
        ghost var vis0, bg0 := visited[..], isBg[..];
        visited[ni] := true;
        assert visited[..] == vis0[ni := true] && isBg[..] == bg0;
      }
    }
  }

  /** The body of the breadth-first loop after the pop: every neighbour of `idx` is visited. */
  method VisitNeighbours(d: array<Byte>, w: Pos, h: Pos, ghost img: Raster, ghost edge: seq<int>, m: EdgeModel, sqrt: real -> real,
                         visited: array<bool>, isBg: array<bool>, queue0: seq<int>,
                         ghost log0: seq<int>, ghost steps: int, ghost unique: bool, idx: int)
    returns (queue: seq<int>, ghost log: seq<int>)
    requires img == Raster(w, h, d[..]) && img.Valid() && InGrid(w, h, edge)
    requires visited != isBg && visited.Length == w * h && isBg.Length == w * h
    requires FillInvariant(img, m, sqrt, edge, visited[..], isBg[..], queue0, log0, steps, unique)
    requires ClosedExcept(w, h, visited[..], isBg[..], queue0, idx)
    requires 0 <= idx < isBg.Length && isBg[idx]
    modifies visited, isBg
    ensures FillInvariant(img, m, sqrt, edge, visited[..], isBg[..], queue, log, steps, unique)
    ensures ClosedExcept(w, h, visited[..], isBg[..], queue, -1)
    ensures 2 * |Unvisited(visited[..])| + |queue| <= 2 * |Unvisited(old(visited[..]))| + |queue0|
  {
    queue, log := queue0, log0;
    var neighbors := Neighbours(w, h, idx);
    for n := 0 to |neighbors|
      invariant FillInvariant(img, m, sqrt, edge, visited[..], isBg[..], queue, log, steps, unique)
      invariant ClosedExcept(w, h, visited[..], isBg[..], queue, idx)
      invariant isBg[idx]
      invariant forall j :: j in neighbors[..n] ==> 0 <= j < visited.Length && visited[j]
      invariant 2 * |Unvisited(visited[..])| + |queue| <= 2 * |Unvisited(old(visited[..]))| + |queue0|
    {
      assert neighbors[..n + 1] == neighbors[..n] + [neighbors[n]];
      queue, log := VisitOne(d, w, h, img, edge, m, sqrt, visited, isBg, queue, log, steps, unique, idx, neighbors[n]);
    }
    assert neighbors[..|neighbors|] == neighbors;
    CloseOff(w, h, visited[..], isBg[..], queue, idx);
  }

  /** With the queue empty, the marks hold every pixel a fill path reaches. */
  lemma FillComplete(img: Raster, m: EdgeModel, sqrt: real -> real, vis: seq<bool>, bg: seq<bool>)
    requires img.Valid() && MarksAgree(img, m, sqrt, vis, bg)
    requires SeedsMarked(img, m, sqrt, BorderList(img.w, img.h), bg, |BorderList(img.w, img.h)|)
    requires ClosedExcept(img.w, img.h, vis, bg, [], -1)
    ensures forall i :: 0 <= i < |bg| && Reached(img, m, sqrt, i) ==> bg[i]
  {
    forall i | 0 <= i < |bg| && Reached(img, m, sqrt, i) ensures bg[i] {
      var p :| IsFillPath(img, m, sqrt, p) && p[|p| - 1] == i;
      ClosedMarksContainPath(img, m, sqrt, vis, bg, p);
    }
  }

  /** Visiting a pixel removes exactly that pixel from the unvisited ones. */
  lemma VisitCount(vis: seq<bool>, i: int)
    requires 0 <= i < |vis| && !vis[i]
    ensures |Unvisited(vis[i := true])| == |Unvisited(vis)| - 1
  {
    assert Unvisited(vis[i := true]) == Unvisited(vis) - {i};
  }

  /** The seeding loop and the breadth-first loop of the source. Afterwards a pixel is
      marked exactly when a fill path reaches it; for images of at least 2 x 2 pixels no
      index is queued twice, so the loop runs at most w * h times. */
  method FloodFill(d: array<Byte>, w: Pos, h: Pos, edge: seq<int>, m: EdgeModel, sqrt: real -> real)
    returns (isBg: array<bool>, ghost steps: nat)
    requires d.Length == 4 * (w * h)
    requires edge == BorderList(w, h)
    ensures fresh(isBg) && isBg.Length == w * h
    ensures forall i :: 0 <= i < w * h ==> (isBg[i] <==> Reached(Raster(w, h, d[..]), m, sqrt, i))
    ensures w >= 2 && h >= 2 ==> steps <= w * h
  {
    ghost var img := Raster(w, h, d[..]);
    ghost var unique := w >= 2 && h >= 2;
    if unique {
      BorderListExact(w, h);
    }
    var total := w * h;
    var visited := new bool[total](_ => false);
    isBg := new bool[total](_ => false);
    var queue: seq<int>;
    ghost var log: seq<int>;
    queue := SeedFromBorder(d, img, edge, m, sqrt, visited, isBg, unique);
    log := queue;

    steps := 0;
    while queue != []
      invariant FillInvariant(img, m, sqrt, edge, visited[..], isBg[..], queue, log, steps, unique)
      invariant ClosedExcept(w, h, visited[..], isBg[..], queue, -1)
      decreases 2 * |Unvisited(visited[..])| + |queue|
    {
      PopStep(w, h, visited[..], isBg[..], queue, log, steps, unique);
      var idx := queue[0];
      queue := queue[1..];
      steps := steps + 1;
      queue, log := VisitNeighbours(d, w, h, img, edge, m, sqrt, visited, isBg, queue, log, steps, unique, idx);
    }

    FillComplete(img, m, sqrt, visited[..], isBg[..]);
    if unique {
      DistinctBound(log, total);
    }
  }

  // ----- the alpha pass -----

  /** A non-background pixel's alpha after the soft edge: `Math.round(alpha * 0.6)`. */
  function SoftEdge(a: Byte): (r: Byte)
    ensures r <= a
    ensures a as real * 0.6 - 0.5 < r as real <= a as real * 0.6 + 0.5
  {
    Round(a as real * 0.6)
  }

  /** Pixel `i` has a 4-neighbour that is marked as background. */
  ghost predicate NextToBackground(w: Pos, h: Pos, bg: seq<bool>, i: int)
    requires |bg| == w * h
  {
    exists j :: 0 <= j < |bg| && Adjacent(w, h, i, j) && bg[j]
  }

  /** The four neighbour tests of the alpha loop. */
  function HasBackgroundNeighbour(w: Pos, h: Pos, bg: seq<bool>, i: int): (r: bool)
    requires |bg| == w * h && 0 <= i < w * h
    ensures r <==> NextToBackground(w, h, bg, i)
  {
    CellBounds(w, h, i);
    var x, y := i % w, i / w;
    var r := (x > 0 && bg[i - 1]) || (x < w - 1 && bg[i + 1]) || (y > 0 && bg[i - w]) || (y < h - 1 && bg[i + w]);
    assert NextToBackground(w, h, bg, i) ==> r by {
      if NextToBackground(w, h, bg, i) {
        var j :| 0 <= j < |bg| && Adjacent(w, h, i, j) && bg[j];
      }
    }
    r
  }

  /** The alpha the pass gives a pixel with old alpha `a`. */
  function NewAlpha(a: Byte, background: bool, nearBackground: bool): Byte
  {
    if background then 0 else if nearBackground then SoftEdge(a) else a
  }

  lemma AlphaWrite(s: seq<Byte>, t: seq<Byte>, i: int, v: Byte)
    requires 0 <= 4 * i + 3 < |s| && t == s[4 * i + 3 := v]
    ensures Alpha(t, i) == v
    ensures forall j :: 0 <= 4 * j + 3 < |s| && j != i ==> Alpha(t, j) == Alpha(s, j)
    ensures forall k :: 0 <= k < |s| && k % 4 != 3 ==> t[k] == s[k]
  {
  }

  /** The final loop of the source: background pixels become transparent, pixels next
      to the background keep 60% of their alpha, and no colour byte changes. */
  method ApplyAlpha(d: array<Byte>, w: Pos, h: Pos, isBg: array<bool>)
    requires d.Length == 4 * (w * h) && isBg.Length == w * h
    modifies d
    ensures forall k :: 0 <= k < d.Length && k % 4 != 3 ==> d[k] == old(d[k])
    ensures forall i :: 0 <= i < w * h ==>
      Alpha(d[..], i) == NewAlpha(Alpha(old(d[..]), i), isBg[i], NextToBackground(w, h, isBg[..], i))
  {
    var total := w * h;
    for i := 0 to total
      invariant forall k :: 0 <= k < d.Length && k % 4 != 3 ==> d[k] == old(d[k])
      invariant forall j :: 0 <= j < total ==>
        Alpha(d[..], j) == (if j < i then NewAlpha(Alpha(old(d[..]), j), isBg[j], NextToBackground(w, h, isBg[..], j))
                            else Alpha(old(d[..]), j))
    {
      var a := d[i * 4 + 3];
      var v := a;
      if isBg[i] {
        v := 0;
      } else if HasBackgroundNeighbour(w, h, isBg[..], i) {
        v := SoftEdge(a);
      }
      ghost var before := d[..];
      d[i * 4 + 3] := v;
      AlphaWrite(before, d[..], i, v);
    }
  }

  /** The background mask of the source, as a sequence of flags. */
  ghost function BackgroundMask(img: Raster, sqrt: real -> real): (bg: seq<bool>)
    requires img.Valid()
    ensures |bg| == img.w * img.h
  {
    seq(img.w * img.h, i => Background(img, sqrt, i))
  }

  /** `removeBackground`: every pixel that a fill path from the border reaches becomes
      transparent, every other pixel with such a 4-neighbour keeps round(0.6 * alpha),
      all other alpha bytes and every red, green and blue byte stay as they were. */
  method RemoveBackground(d: array<Byte>, w: Pos, h: Pos, sqrt: real -> real)
    requires d.Length == 4 * (w * h)
    modifies d
    ensures forall k :: 0 <= k < d.Length && k % 4 != 3 ==> d[k] == old(d[k])
    ensures forall i :: 0 <= i < w * h ==>
      var mask := BackgroundMask(Raster(w, h, old(d[..])), sqrt);
      Alpha(d[..], i) == NewAlpha(Alpha(old(d[..]), i), mask[i], NextToBackground(w, h, mask, i))
  {
    ghost var img := Raster(w, h, d[..]);
    var edge := ListBorder(w, h);
    var m := EdgeStats(d, w, h, edge, sqrt);
    var isBg, _ := FloodFill(d, w, h, edge, m, sqrt);
    assert isBg[..] == BackgroundMask(img, sqrt);
    ApplyAlpha(d, w, h, isBg);
  }
}
