/** The mutable 2-D point of `src/objects/point.ts`. */
module Points {

  class Point {
    var x: real
    var y: real

    constructor (x: real, y: real)
      ensures this.x == x && this.y == y
    {
      this.x := x;
      this.y := y;
    }

    /** The `x` setter: only `x` changes. */
    method SetX(value: real)
      modifies this
      ensures x == value && y == old(y)
    {
      x := value;
    }

    /** The `y` setter: only `y` changes. */
    method SetY(value: real)
      modifies this
      ensures y == value && x == old(x)
    {
      y := value;
    }

    /** `equals`: coordinate-wise equality (the two objects need not be the same). */
    predicate Equals(p: Point): (r: bool)
      reads this, p
      ensures r <==> HorizontalPosition(p) == 0.0 && VerticalPosition(p) == 0.0
    {
      x == p.x && y == p.y
    }

    /** `verticalPosition`: how far this point lies below `p` (screen rows grow downward). */
    function VerticalPosition(p: Point): (r: real)
      reads this, p
      ensures r > 0.0 <==> y > p.y
      ensures r == 0.0 <==> y == p.y
    {
      y - p.y
    }

    /** `horizontalPosition`: how far `p` lies to the right of this point. */
    function HorizontalPosition(p: Point): (r: real)
      reads this, p
      ensures r > 0.0 <==> p.x > x
      ensures r == 0.0 <==> p.x == x
    {
      p.x - x
    }
  }

  /** `equals` is an equivalence on coordinates: reflexive, symmetric and transitive. */
  lemma EqualsIsEquivalence(a: Point, b: Point, c: Point)
    ensures a.Equals(a)
    ensures a.Equals(b) <==> b.Equals(a)
    ensures a.Equals(b) && b.Equals(c) ==> a.Equals(c)
  {
  }

  /**
   * The two offsets have opposite orientation: `horizontalPosition` measures from this point
   * to the argument, `verticalPosition` from the argument to this point. Both vanish exactly
   * when the points are equal.
   */
  lemma OffsetsOrientation(a: Point, b: Point)
    ensures a.HorizontalPosition(b) == -b.HorizontalPosition(a)
    ensures a.VerticalPosition(b) == -b.VerticalPosition(a)
    ensures a.HorizontalPosition(b) == b.x - a.x && a.VerticalPosition(b) == a.y - b.y
    ensures a.Equals(b) <==> a.HorizontalPosition(b) == 0.0 && a.VerticalPosition(b) == 0.0
  {
  }
}
