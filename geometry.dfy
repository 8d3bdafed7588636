/** Integer grid addresses, the 8-neighbourhood, and the world-to-cell conversion shared by every board. */
module Geometry {

  /** A grid address: column `x`, row `y`. */
  datatype Pos = Pos(x: int, y: int)

  /** `Math.trunc` on a finite number: the integer part, rounding toward zero. */
  function Trunc(r: real): (t: int)
    ensures r >= 0.0 ==> t >= 0 && t as real <= r < t as real + 1.0
    ensures r < 0.0 ==> t <= 0 && t as real - 1.0 < r <= t as real
  {
    if r >= 0.0 then r.Floor else -((-r).Floor)
  }

  /**
   * One coordinate of `getBoxPositionByDimensions`: `w === 0 ? 0 : Math.trunc(w / size)`.
   */
  function CellCoordinate(w: real, size: real): int
    requires size != 0.0
  {
    if w == 0.0 then 0 else Trunc(w / size)
  }

  /** The cell holding world point `(wx, wy)` on a board whose cells are `size` wide. */
  function CellOf(wx: real, wy: real, size: real): Pos
    requires size != 0.0
  {
    Pos(CellCoordinate(wx, size), CellCoordinate(wy, size))
  }

  /** The `w === 0` special case is ordinary truncating division. */
  lemma CellCoordinateIsTrunc(w: real, size: real)
    requires size != 0.0
    ensures CellCoordinate(w, size) == Trunc(w / size)
  {
  }

  /**
   * For a non-negative coordinate the cell is floor division: the point lies inside
   * the span `[c * size, (c + 1) * size)` of the cell `c` it is mapped to.
   */
  lemma CellCoordinateContains(w: real, size: real)
    requires size > 0.0 && w >= 0.0
    ensures var c := CellCoordinate(w, size);
      c >= 0 && c as real * size <= w < (c as real + 1.0) * size
  {
    var q := w / size;
    var c := CellCoordinate(w, size);
    var C := c as real;
    QuotientTimes(w, size);
    NonNegativeQuotient(w, size);
    assert C <= q < C + 1.0;
    Bracket(w, q, C, size);
  }

  /** A point `w = q * size` with `C <= q < C + 1` lies in the span of cell `C`. */
  lemma Bracket(w: real, q: real, C: real, size: real)
    requires size > 0.0 && w == q * size && C <= q < C + 1.0
    ensures C * size <= w < (C + 1.0) * size
  {
    ProductMonotone(C, q, size);
    assert C * size <= q * size;
    ProductMonotone(q, C + 1.0, size);
    assert q * size < (C + 1.0) * size;
    assert w == q * size;
    assert C * size <= w;
    assert w < (C + 1.0) * size;
  }

  lemma QuotientTimes(w: real, k: real)
    requires k != 0.0
    ensures w / k * k == w
  {
  }

  lemma NonNegativeQuotient(w: real, size: real)
    requires size > 0.0 && w >= 0.0
    ensures w / size >= 0.0
  {
  }

  lemma ProductMonotone(a: real, b: real, k: real)
    requires a <= b && k > 0.0
    ensures a * k <= b * k
    ensures a < b ==> a * k < b * k
  {
    if a < b {
      PositiveProduct(b - a, k);
    }
  }

  lemma PositiveProduct(a: real, b: real)
    requires a > 0.0 && b > 0.0
    ensures a * b > 0.0
  {
  }

  /** The centre coordinate of cell `c` (`c * size + size * 0.5`), as a Box stores it. */
  function CenterCoordinate(c: int, size: real): real {
    c as real * size + size * 0.5
  }

  /** The centre of a cell with non-negative coordinate lies in that cell: it converts back to `c`. */
  lemma CenterInCell(c: int, size: real)
    requires c >= 0
    requires size > 0.0
    ensures CellCoordinate(CenterCoordinate(c, size), size) == c
  {
    var w := CenterCoordinate(c, size);
    var h := c as real + 0.5;
    assert w == h * size;
    PositiveProduct(h, size);
    assert w / size == h by {
      QuotientOfProduct(h, size);
    }
    assert h.Floor == c;
  }

  lemma QuotientOfProduct(a: real, k: real)
    requires k != 0.0
    ensures a * k / k == a
  {
  }

  /** Two distinct addresses whose columns and rows differ by at most one (Chebyshev distance 1). */
  predicate Adjacent(p: Pos, q: Pos) {
    p != q && -1 <= p.x - q.x <= 1 && -1 <= p.y - q.y <= 1
  }

  /**
   * The eight neighbour addresses in the order `getBoxChildrens` lists them:
   * left, right, top, bottom, top-left, bottom-left, top-right, bottom-right.
   */
  function Neighbours(p: Pos): (ns: seq<Pos>)
    ensures |ns| == 8
    ensures forall q :: q in ns <==> Adjacent(p, q)
  {
    var ns := [Pos(p.x - 1, p.y), Pos(p.x + 1, p.y), Pos(p.x, p.y - 1), Pos(p.x, p.y + 1),
               Pos(p.x - 1, p.y - 1), Pos(p.x - 1, p.y + 1), Pos(p.x + 1, p.y - 1), Pos(p.x + 1, p.y + 1)];
    assert forall q :: Adjacent(p, q) ==> q in ns by {
      forall q | Adjacent(p, q) ensures q in ns {
        var dx, dy := q.x - p.x, q.y - p.y;
        if dx == -1 && dy == 0 { assert q == ns[0]; }
        else if dx == 1 && dy == 0 { assert q == ns[1]; }
        else if dx == 0 && dy == -1 { assert q == ns[2]; }
        else if dx == 0 && dy == 1 { assert q == ns[3]; }
        else if dx == -1 && dy == -1 { assert q == ns[4]; }
        else if dx == -1 && dy == 1 { assert q == ns[5]; }
        else if dx == 1 && dy == -1 { assert q == ns[6]; }
        else { assert q == ns[7]; }
      }
    }
    ns
  }

  lemma AdjacentSymmetric(p: Pos, q: Pos)
    ensures Adjacent(p, q) <==> Adjacent(q, p)
  {
  }
}
