/** The 1024-by-1024 collage of element crops that `createReferenceCollage` hands to the vision model:
    the crops that exist are laid out on a near-square grid, one cell each. */
module Collage {
  import opened Numeric
  import opened Regions

  /** The side of the collage canvas. */
  const Side: int := 1024

  /** The crops considered, in the order they are placed. */
  const CollageOrder: seq<string> := ["thumbBg", "thumbMain", "thumbTitle", "thumbAux", "thumbLogo"]

  /** The ids, in order, whose crop exists and whose slot is not marked empty. */
  function Elements(ready: set<string>): (r: seq<string>)
    ensures forall id | id in r :: id in ready && id in CollageOrder
    ensures forall id | id in CollageOrder && id in ready :: id in r
    ensures forall i, j | 0 <= i < j < |r| :: Before(CollageOrder, r[i], r[j])
    ensures |r| <= 5
  {
    Keep(CollageOrder, ready)
  }

  /** `a` stands at some position of `ids` earlier than a position of `b`. */
  predicate Before(ids: seq<string>, a: string, b: string)
  {
    exists p, q | 0 <= p < q < |ids| :: ids[p] == a && ids[q] == b
  }

  /** The ids that are ready, in the order of `ids`. */
  function Keep(ids: seq<string>, ready: set<string>): (r: seq<string>)
    ensures forall id | id in r :: id in ready && id in ids
    ensures forall id | id in ids && id in ready :: id in r
    ensures forall i, j | 0 <= i < j < |r| :: Before(ids, r[i], r[j])
    ensures |r| <= |ids|
  {
    if ids == [] then []
    else
      var head, rest := if ids[0] in ready then [ids[0]] else [], Keep(ids[1..], ready);
      var r := head + rest;
      assert forall i, j | 0 <= i < j < |r| :: Before(ids, r[i], r[j]) by {
        forall i, j | 0 <= i < j < |r| ensures Before(ids, r[i], r[j]) {
          var x, y := r[i], r[j];
          assert y == rest[j - |head|] && y in ids[1..];
          var q :| 0 <= q < |ids[1..]| && ids[1..][q] == y;
          if i < |head| {
            assert ids[0] == x && ids[q + 1] == y;
          } else {
            assert Before(ids[1..], rest[i - |head|], rest[j - |head|]);
            var p', q' :| 0 <= p' < q' < |ids[1..]| && ids[1..][p'] == x && ids[1..][q'] == y;
            assert ids[p' + 1] == x && ids[q' + 1] == y;
          }
        }
      }
      r
  }

  /** `Math.ceil(Math.sqrt(n))` for a whole `n`: the least `c` with `c * c >= n`. A correctly
      rounded square root is exact on perfect squares, so the double computation agrees. */
  function CeilSqrt(n: nat): (c: nat)
    ensures c * c >= n
    ensures c > 0 ==> (c - 1) * (c - 1) < n
  {
    LeastSquareFrom(n, 0)
  }

  function LeastSquareFrom(n: nat, c: nat): (r: nat)
    requires c == 0 || (c - 1) * (c - 1) < n
    ensures r * r >= n
    ensures r > 0 ==> (r - 1) * (r - 1) < n
    decreases n - c * c
  {
    if c * c >= n then c
    else
      assert (c + 1) * (c + 1) == c * c + 2 * c + 1;
      LeastSquareFrom(n, c + 1)
  }

  /** Grid columns, rows and the cell size for `n` elements. */
  datatype Grid = Grid(cols: Pos, rows: Pos, cellW: int, cellH: int)

  /** Every one of `n` elements has a cell, and the cells, at least five pixels a side, fit
      the canvas. */
  predicate Fits(g: Grid, n: nat)
  {
    g.cols * g.rows >= n && g.cols * g.cellW <= Side && g.rows * g.cellH <= Side && g.cellW > 4 && g.cellH > 4
  }

  /** The grid for each possible number of elements, worked out once. */
  lemma SmallGrids(n: Pos)
    requires n <= 5
    ensures CeilSqrt(n) == (if n == 1 then 1 else if n <= 4 then 2 else 3)
    ensures Ceil(n as real / CeilSqrt(n) as real) == (if n <= 2 then 1 else 2)
  {
    assert LeastSquareFrom(n, 0) == LeastSquareFrom(n, 1);
    if n > 1 {
      assert LeastSquareFrom(n, 1) == LeastSquareFrom(n, 2);
      if n > 4 {
        assert LeastSquareFrom(n, 2) == LeastSquareFrom(n, 3);
      }
    }
  }

  /** The grid `createReferenceCollage` lays out for its at most five elements: `ceil(sqrt n)`
      columns, as many rows as needed, and cells that fit the canvas; every element gets a
      cell and no row is left empty. */
  function GridFor(n: Pos): (g: Grid)
    requires n <= 5
    ensures Fits(g, n)
    ensures (g.rows - 1) * g.cols < n
  {
    SmallGrids(n);
    var cols := CeilSqrt(n);
    var rows := Ceil(n as real / cols as real);
    Grid(cols, rows, Floor(1024.0 / cols as real), Floor(1024.0 / rows as real))
  }

  /** The destination of element `i`: its cell, inset by two pixels on every side. */
  function CellOf(g: Grid, i: nat): Box
  {
    var col, row := i % g.cols, i / g.cols;
    Box((col * g.cellW + 2) as real, (row * g.cellH + 2) as real, (g.cellW - 4) as real, (g.cellH - 4) as real)
  }

  /** On a fitting grid every cell lies inside the collage canvas. */
  lemma CellInside(g: Grid, n: nat, i: nat)
    requires Fits(g, n) && i < n
    ensures Within(CellOf(g, i), Side as real, Side as real)
    ensures CellOf(g, i).w > 0.0 && CellOf(g, i).h > 0.0
  {
    CellBounds(g.cols, g.rows, i);
    Span(i % g.cols, g.cols, g.cellW);
    Span(i / g.cols, g.rows, g.cellH);
  }

  /** The inset cell in column (or row) `k` of `count` lies inside the canvas side. */
  lemma Span(k: int, count: int, size: int)
    requires 0 <= k < count && count * size <= Side && size > 4
    ensures 0 <= k * size && k * size + 2 + (size - 4) <= Side
  {
    MulLe(k + 1, count, size);
    MulLe(0, k, size);
  }

  /** On a fitting grid different elements get cells that do not overlap. */
  lemma CellsDisjoint(g: Grid, n: nat, i: nat, j: nat)
    requires Fits(g, n) && i < n && j < n && i != j
    ensures var a, b := CellOf(g, i), CellOf(g, j);
      a.x + a.w < b.x || b.x + b.w < a.x || a.y + a.h < b.y || b.y + b.h < a.y
  {
    CellBounds(g.cols, g.rows, i);
    CellBounds(g.cols, g.rows, j);
    var ci, ri, cj, rj := i % g.cols, i / g.cols, j % g.cols, j / g.cols;
    if ci < cj {
      Apart(ci, cj, g.cellW);
    } else if cj < ci {
      Apart(cj, ci, g.cellW);
    } else if ri < rj {
      Apart(ri, rj, g.cellH);
    } else if rj < ri {
      Apart(rj, ri, g.cellH);
    } else {
      assert false;
    }
  }

  /** Cells in different columns (or rows) are at least four pixels apart. */
  lemma Apart(k1: int, k2: int, size: nat)
    requires k1 < k2
    ensures k1 * size + 2 + (size - 4) < k2 * size + 2
  {
    MulLe(k1 + 1, k2, size);
  }

  /** The destinations of the `forEach` over the elements, in order. */
  method CollageCells(n: Pos) returns (cells: seq<Box>)
    requires n <= 5
    ensures |cells| == n
    ensures forall i | 0 <= i < n :: cells[i] == CellOf(GridFor(n), i)
  {
    var g := GridFor(n);
    cells := [];
    var i := 0;
    while i < n
      invariant 0 <= i <= n && |cells| == i
      invariant forall k | 0 <= k < i :: cells[k] == CellOf(g, k)
    {
      cells := cells + [CellOf(g, i)];
      i := i + 1;
    }
  }
}
