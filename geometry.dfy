/**
 * The geometry shared by both checkers: an N×N grid with N == b*b is cut
 * into b*b aligned boxes of b×b cells. Box `i` (0 <= i < N) has its top-left
 * corner at row `(i / b) * b` and column `(i % b) * b`; the cell (r, c)
 * belongs to the box of row band `r / b` and column band `c / b`.
 */
module Geometry {

  /** (r1, c1) and (r2, c2) lie in the same aligned b×b box. */
  predicate SameBox(b: nat, r1: int, c1: int, r2: int, c2: int)
    requires b > 0
  {
    r1 / b == r2 / b && c1 / b == c2 / b
  }

  /** Top-left row of box `i`. */
  function CornerRow(b: nat, i: int): int
    requires b > 0
  {
    (i / b) * b
  }

  /** Top-left column of box `i`. */
  function CornerCol(b: nat, i: int): int
    requires b > 0
  {
    (i % b) * b
  }

  /** The index of the box that holds cell (r, c). */
  function BoxIndex(b: nat, r: int, c: int): int
    requires b > 0
  {
    (r / b) * b + c / b
  }

  /** Row-major position within a band of width b: q*b + m splits back into q and m. */
  lemma DivModRowMajor(q: int, m: int, b: int)
    requires b > 0 && 0 <= m < b
    ensures (q * b + m) / b == q
    ensures (q * b + m) % b == m
  {
    var x := q * b + m;
    var d, e := x / b, x % b;
    assert x == d * b + e && 0 <= e < b;
    if d > q {
      MulMonotone(q, d, b);
    } else if d < q {
      MulMonotone(d, q, b);
    }
  }

  /** A number is determined by its quotient and remainder. */
  lemma DivModInjective(x: int, y: int, b: int)
    requires b > 0 && x != y
    ensures x / b != y / b || x % b != y % b
  {
    assert x == (x / b) * b + x % b;
    assert y == (y / b) * b + y % b;
  }

  /** Multiplying by a positive b keeps distinct factors at least b apart. */
  lemma MulMonotone(k1: int, k2: int, b: int)
    requires b > 0 && k1 < k2
    ensures k1 * b + b <= k2 * b
  {
    var k := k2 - k1;
    assert k2 * b == k1 * b + k * b;
    assert k * b == (k - 1) * b + b;
    assert (k - 1) * b >= 0;
  }

  /** x lies in row band k exactly when k*b <= x < k*b + b. */
  lemma BandBounds(x: int, k: int, b: int)
    requires b > 0
    ensures x / b == k <==> k * b <= x < k * b + b
  {
    if k * b <= x < k * b + b {
      DivModRowMajor(k, x - k * b, b);
    }
    if x / b == k {
      assert x == (x / b) * b + x % b;
    }
  }

  /** A row or column index on the grid lies in one of the b bands. */
  lemma BandLimit(x: int, b: int)
    requires b > 0 && 0 <= x < b * b
    ensures 0 <= x / b < b
  {
    var q := x / b;
    BandBounds(x, q, b);
    assert (b - 1) * b + b == b * b;
    if q > b - 1 {
      MulMonotone(b - 1, q, b);
    } else if q < 0 {
      MulMonotone(q, 0, b);
    }
  }

  /** One more band of n is n more. */
  lemma MulSucc(k: int, n: int)
    ensures k * n + n == (k + 1) * n
  {
  }

  /** Stepping a corner by b over a grid of b * b lines: the k-th band starts inside the grid exactly when k < b. */
  lemma BandStep(k: int, b: int)
    requires b > 0 && 0 <= k <= b
    ensures k * b < b * b <==> k < b
  {
    if k < b {
      RowMajorBound(k, b);
    }
  }

  /** The b cells of band q start at q*b and end inside the grid. */
  lemma RowMajorBound(q: int, b: int)
    requires b > 0 && 0 <= q < b
    ensures 0 <= q * b && q * b + b <= b * b
  {
    MulMonotone(q, b, b);
    if q > 0 {
      MulMonotone(0, q, b);
    }
  }

  /** The corner of every box lies on the grid with its whole box. */
  lemma CornerInGrid(b: nat, i: int)
    requires b > 0 && 0 <= i < b * b
    ensures 0 <= CornerRow(b, i) && CornerRow(b, i) + b <= b * b
    ensures 0 <= CornerCol(b, i) && CornerCol(b, i) + b <= b * b
  {
    BandLimit(i, b);
    RowMajorBound(i / b, b);
    RowMajorBound(i % b, b);
  }

  /**
   * The corners of boxes 0 .. b*b-1 are pairwise distinct: no box is checked
   * twice under two indices.
   */
  lemma {:induction false} CornersDistinct(b: nat, i: int, j: int)
    requires b > 0 && 0 <= i < b * b && 0 <= j < b * b
    requires CornerRow(b, i) == CornerRow(b, j) && CornerCol(b, i) == CornerCol(b, j)
    ensures i == j
  {
    DivModRowMajor(i / b, 0, b);
    DivModRowMajor(j / b, 0, b);
    DivModRowMajor(i % b, 0, b);
    DivModRowMajor(j % b, 0, b);
    assert i / b == j / b && i % b == j % b;
    assert i == (i / b) * b + i % b;
    assert j == (j / b) * b + j % b;
  }

  /**
   * Every aligned box, the one whose corner is (q*b, m*b) for q, m < b, is
   * box number q*b + m: together with CornersDistinct, indices 0 .. b*b-1 visit
   * each aligned box exactly once.
   */
  lemma CornersCover(b: nat, q: int, m: int)
    requires b > 0 && 0 <= q < b && 0 <= m < b
    ensures 0 <= q * b + m < b * b
    ensures CornerRow(b, q * b + m) == q * b && CornerCol(b, q * b + m) == m * b
  {
    RowMajorBound(q, b);
    DivModRowMajor(q, m, b);
  }

  /**
   * Cell (r, c) lies in box BoxIndex(b, r, c), and it shares an aligned box
   * with another cell exactly when both lie inside that box's b×b square.
   */
  lemma InBoxIffSameBox(b: nat, r: int, c: int, r2: int, c2: int)
    requires b > 0 && 0 <= r < b * b && 0 <= c < b * b
    ensures var i := BoxIndex(b, r, c);
      0 <= i < b * b &&
      (SameBox(b, r, c, r2, c2) <==>
        CornerRow(b, i) <= r2 < CornerRow(b, i) + b &&
        CornerCol(b, i) <= c2 < CornerCol(b, i) + b)
  {
    var q, m := r / b, c / b;
    BandLimit(r, b);
    BandLimit(c, b);
    CornersCover(b, q, m);
    BandBounds(r2, q, b);
    BandBounds(c2, m, b);
  }

  /** Cell (r, c) lies in the b×b square whose top-left corner is (sr, sc). */
  predicate InBox(sr: int, sc: int, b: nat, r: int, c: int)
  {
    sr <= r < sr + b && sc <= c < sc + b
  }

  /** The row of the t-th cell, in row-major order, of the b×b square at row sr. */
  function CellRow(sr: int, b: nat, t: int): (r: int)
    requires b > 0 && 0 <= t < b * b
    ensures sr <= r < sr + b
  {
    BandLimit(t, b);
    sr + t / b
  }

  /** The column of the t-th cell, in row-major order, of the b×b square at column sc. */
  function CellCol(sc: int, b: nat, t: int): (c: int)
    requires b > 0
    ensures sc <= c < sc + b
  {
    sc + t % b
  }

  /** Where cell (r, c) comes in the row-major order of the b×b square at (sr, sc). */
  function Pos(sr: int, sc: int, b: nat, r: int, c: int): (t: int)
    requires b > 0 && InBox(sr, sc, b, r, c)
    ensures 0 <= t < b * b
  {
    RowMajorBound(r - sr, b);
    (r - sr) * b + (c - sc)
  }

  /** Row-major order numbers the cells of a square one to one: Pos and (CellRow, CellCol) are inverse. */
  lemma PosCell(sr: int, sc: int, b: nat, r: int, c: int, t: int)
    requires b > 0 && InBox(sr, sc, b, r, c) && 0 <= t < b * b
    ensures (CellRow(sr, b, t), CellCol(sc, b, t)) == (r, c) <==> t == Pos(sr, sc, b, r, c)
  {
    DivModRowMajor(r - sr, c - sc, b);
    if (CellRow(sr, b, t), CellCol(sc, b, t)) == (r, c) {
      assert t == (t / b) * b + t % b;
    }
  }
}
