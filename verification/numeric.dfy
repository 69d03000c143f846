/** Numbers as the program uses them: JavaScript doubles become `real`, pixel bytes a
    subset of `int`, and the few `Math` functions it calls are written out. */
module Numeric {

  /** A canvas dimension or pixel count that is at least one. */
  type Pos = n: int | 1 <= n witness 1

  /** One 8-bit channel sample of an RGBA canvas buffer. */
  type Byte = x: int | 0 <= x < 256

  datatype Option<+T> = None | Some(value: T)

  /** `Math.round`: the nearest integer, halves rounded up. */
  function Round(x: real): (r: int)
    ensures x - 0.5 < r as real <= x + 0.5
  {
    (x + 0.5).Floor
  }

  /** `Math.floor`. */
  function Floor(x: real): (r: int)
    ensures r as real <= x < r as real + 1.0
  {
    x.Floor
  }

  /** The least integer not below `x`. */
  function Ceil(x: real): (r: int)
    ensures r as real - 1.0 < x <= r as real
  {
    -((-x).Floor)
  }

  /** An integer lies below `x` exactly when it lies below `Ceil(x)`: a loop
      `for (n = a; n < x; n++)` over a real bound `x` stops at `Ceil(x)`. */
  lemma BelowCeil(n: int, x: real)
    ensures n as real < x <==> n < Ceil(x)
  {
  }

  lemma PositiveProduct(a: real, b: real)
    requires a > 0.0 && b > 0.0
    ensures a * b > 0.0
  {
  }

  /** A part divided by the whole lies between 0 and 1. */
  lemma QuotientInUnit(a: real, m: real)
    requires 0.0 <= a <= m && m > 0.0
    ensures 0.0 <= a / m <= 1.0
  {
    var q := a / m;
    assert q * m == a;
    assert (-q) * m == -a && (q - 1.0) * m == a - m;
    if q < 0.0 {
      PositiveProduct(-q, m);
    }
    if q > 1.0 {
      PositiveProduct(q - 1.0, m);
    }
  }

  /** `a / b` reaches 1 exactly when `a` reaches `b`. */
  lemma QuotientAtLeastOne(a: real, b: real)
    requires b > 0.0
    ensures a / b >= 1.0 <==> a >= b
  {
    var q := a / b;
    assert q * b == a;
    if q > 1.0 {
      PositiveProduct(q - 1.0, b);
      assert (q - 1.0) * b == a - b;
    } else if q < 1.0 {
      PositiveProduct(1.0 - q, b);
      assert (1.0 - q) * b == b - a;
    }
  }

  /** Comparing a quotient with `c` is comparing the dividend with `c` times the divisor. */
  lemma QuotientAbove(a: real, b: real, c: real)
    requires b > 0.0
    ensures a / b > c <==> a > c * b
  {
    var q := a / b;
    assert q * b == a;
    if q > c {
      PositiveProduct(q - c, b);
      assert (q - c) * b == a - c * b;
    } else if q < c {
      PositiveProduct(c - q, b);
      assert (c - q) * b == c * b - a;
    }
  }

  /** Multiplying by a non-negative factor keeps an order. */
  lemma ScaleLe(a: real, b: real, c: real)
    requires a <= b && c >= 0.0
    ensures a * c <= b * c
  {
    if a < b && c > 0.0 {
      PositiveProduct(b - a, c);
      assert (b - a) * c == b * c - a * c;
    }
  }

  function Min(a: real, b: real): real { if a <= b then a else b }

  function Max(a: real, b: real): real { if a >= b then a else b }

  function MinInt(a: int, b: int): int { if a <= b then a else b }

  function MaxInt(a: int, b: int): int { if a >= b then a else b }

  /** `Math.round` never reverses an order. */
  lemma RoundMonotone(a: real, b: real)
    requires a <= b
    ensures Round(a) <= Round(b)
  {
  }

  lemma {:induction false} MulLe(a: int, b: int, c: nat)
    requires a <= b
    ensures a * c <= b * c
  {
    if c > 0 {
      MulLe(a, b, c - 1);
      assert a * c == a * (c - 1) + a;
      assert b * c == b * (c - 1) + b;
    }
  }

  /** Quotient and remainder of `q * w + r` by `w` are `q` and `r`. */
  lemma DivModOf(w: Pos, q: int, r: int)
    requires 0 <= r < w
    ensures (q * w + r) / w == q && (q * w + r) % w == r
  {
    var n := q * w + r;
    var q', r' := n / w, n % w;
    assert n == q' * w + r';
    assert (q - q') * w == r' - r;
    if q' < q {
      MulLe(1, q - q', w);
    } else if q' > q {
      MulLe(1, q' - q, w);
    }
  }

  /** Column `i % w` and row `i / w` of a pixel index inside a `w`-by-`h` grid. */
  lemma CellBounds(w: Pos, h: Pos, i: int)
    requires 0 <= i < w * h
    ensures 0 <= i / w < h && 0 <= i % w < w && i == (i / w) * w + i % w
    ensures i / w > 0 ==> i >= w
    ensures i / w < h - 1 ==> i + w < w * h
    ensures i % w < w - 1 ==> i + 1 < w * h
  {
    var y, x := i / w, i % w;
    assert i == y * w + x;
    if y >= h { MulLe(h, y, w); }
    if y < 0 { MulLe(y, -1, w); }
    if y > 0 { MulLe(1, y, w); }
    if y < h - 1 { MulLe(y + 2, h, w); assert (y + 2) * w == y * w + 2 * w; }
    MulLe(y + 1, h, w);
    assert (y + 1) * w == y * w + w;
  }

  /** The index `y * w + x` of a cell inside the grid lies inside the buffer. */
  lemma CellIndex(w: Pos, h: Pos, x: int, y: int)
    requires 0 <= x < w && 0 <= y < h
    ensures 0 <= y * w + x < w * h
    ensures (y * w + x) / w == y && (y * w + x) % w == x
  {
    MulLe(0, y, w);
    MulLe(y + 1, h, w);
    assert (y + 1) * w == y * w + w;
    DivModOf(w, y, x);
  }

  /** A non-empty sequence is its front followed by its last element. */
  lemma SplitLast<T>(s: seq<T>)
    requires s != []
    ensures s[..|s| - 1] + [s[|s| - 1]] == s
  {
  }
}
