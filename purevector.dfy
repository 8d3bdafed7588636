/**
 * Force vectors as values: the immutable `ForceVector` of `src/boilerplate/objects/forceVector.ts`,
 * whose every operation returns a new vector. The in-place class of `src/objects/forceVector.ts`
 * is specified through these functions.
 */
module PureVectors {

  /**
   * `sqrt` behaves as the real square root on non-negative arguments. `Math.sqrt` is never
   * computed: the model is stated for every function with these properties.
   */
  ghost predicate IsSqrt(sqrt: real -> real) {
    forall r :: r >= 0.0 ==> sqrt(r) >= 0.0 && sqrt(r) * sqrt(r) == r && (r > 0.0 ==> sqrt(r) > 0.0)
  }

  datatype Vec = Vec(x: real, y: real) {

    /** `add`; subtracting `v` again gives back the receiver. */
    function Add(v: Vec): (r: Vec)
      ensures r.Sub(v) == this
    {
      Vec(x + v.x, y + v.y)
    }

    /** `sub`; adding `v` back restores the receiver. */
    function Sub(v: Vec): (r: Vec)
      ensures Vec(r.x + v.x, r.y + v.y) == this
    {
      Vec(x - v.x, y - v.y)
    }

    /** `multiplyBy`; `MultiplyThenDevide` shows that `devide` by a non-zero factor undoes it. */
    function MultiplyBy(k: real): Vec {
      Vec(x * k, y * k)
    }

    /** `devide` (the source's spelling); division by zero is excluded. Scaling back by `k` restores the receiver. */
    function Devide(k: real): (r: Vec)
      requires k != 0.0
      ensures r.MultiplyBy(k) == this
    {
      Vec(x / k, y / k)
    }

    /** The length `Math.sqrt(x * x + y * y)`. */
    function Length(sqrt: real -> real): real {
      sqrt(x * x + y * y)
    }

    /**
     * `normalize`: a zero component stays exactly zero, any other component is divided by the
     * length (which is then positive). So every component keeps its sign.
     */
    function Normalize(sqrt: real -> real): (r: Vec)
      requires IsSqrt(sqrt)
      ensures (x == 0.0 <==> r.x == 0.0) && (y == 0.0 <==> r.y == 0.0)
      ensures (x > 0.0 <==> r.x > 0.0) && (y > 0.0 <==> r.y > 0.0)
    {
      var len := Length(sqrt);
      LengthPositive(x, y, sqrt);
      NormalizedComponent(x, len, Scaled(x, len));
      NormalizedComponent(y, len, Scaled(y, len));
      Vec(Scaled(x, len), Scaled(y, len))
    }

    /**
     * `truncate(m)`: normalise, then scale by `m`. The zero vector stays zero and, for `m >= 0`,
     * each component of the result lies in `[-m, m]` whatever the input.
     */
    function Truncate(sqrt: real -> real, m: real): (r: Vec)
      requires IsSqrt(sqrt)
      ensures this == Zero ==> r == Zero
      ensures m >= 0.0 ==> -m <= r.x <= m && -m <= r.y <= m
    {
      var n := Normalize(sqrt);
      NormalizeBounded(this, sqrt);
      ScaledVecBound(n, m);
      ScaledZero(m);
      n.MultiplyBy(m)
    }
  }

  const Zero := Vec(0.0, 0.0)

  lemma SumOfSquaresPositive(a: real, b: real)
    requires a != 0.0
    ensures a * a + b * b > 0.0
    ensures b * b + a * a > 0.0
  {
    SquarePositive(a);
    SquareNonNegative(b);
  }

  lemma SquareNonNegative(a: real)
    ensures a * a >= 0.0
  {
    if a != 0.0 {
      SquarePositive(a);
    }
  }

  lemma SquarePositive(a: real)
    requires a != 0.0
    ensures a * a > 0.0
  {
    if a > 0.0 {
      PositiveProduct(a, a);
    } else {
      var b := -a;
      PositiveProduct(b, b);
      assert b * b == a * a;
    }
  }

  lemma PositiveProduct(a: real, b: real)
    requires a > 0.0
    requires b > 0.0
    ensures a * b > 0.0
  {
  }

  /** For a non-zero factor, `multiplyBy(k)` followed by `devide(k)` restores the components. */
  lemma MultiplyThenDevide(v: Vec, k: real)
    requires k != 0.0
    ensures v.MultiplyBy(k).Devide(k) == v
  {
    QuotientOfProduct(v.x, k);
    QuotientOfProduct(v.y, k);
  }

  lemma QuotientOfProduct(a: real, k: real)
    requires k != 0.0
    ensures a * k / k == a
  {
  }

  /** One component of `normalize`: zero stays zero, anything else is divided by the length. */
  function Scaled(a: real, len: real): real
    requires a != 0.0 ==> len > 0.0
  {
    if a == 0.0 then 0.0 else a / len
  }

  /** The length of a vector with a non-zero component is positive. */
  lemma LengthPositive(a: real, b: real, sqrt: real -> real)
    requires IsSqrt(sqrt)
    ensures a != 0.0 || b != 0.0 ==> Vec(a, b).Length(sqrt) > 0.0
  {
    if a != 0.0 {
      SumOfSquaresPositive(a, b);
    } else if b != 0.0 {
      SumOfSquaresPositive(b, a);
    }
  }

  /** Scaling the result of `normalize` back by the length restores the vector: the direction is unchanged. */
  lemma NormalizeScalesBack(v: Vec, sqrt: real -> real)
    requires IsSqrt(sqrt)
    ensures v.Normalize(sqrt).MultiplyBy(v.Length(sqrt)) == v
  {
    var len := v.Length(sqrt);
    LengthPositive(v.x, v.y, sqrt);
    NormalizedComponent(v.x, len, Scaled(v.x, len));
    NormalizedComponent(v.y, len, Scaled(v.y, len));
  }

  /** One component of `normalize`, with `len` the vector's length. */
  lemma NormalizedComponent(a: real, len: real, c: real)
    requires a == 0.0 ==> c == 0.0
    requires a != 0.0 ==> len > 0.0 && c == a / len
    ensures (a == 0.0 <==> c == 0.0) && (a > 0.0 <==> c > 0.0) && c * len == a
  {
    if a != 0.0 {
      QuotientComponent(a, len);
    }
  }

  lemma QuotientComponent(a: real, len: real)
    requires a != 0.0
    requires len > 0.0
    ensures (a > 0.0 <==> a / len > 0.0) && a / len != 0.0 && (a / len) * len == a
  {
    var q := a / len;
    assert q * len == a;
    if q > 0.0 {
      PositiveProduct(q, len);
    } else if q < 0.0 {
      PositiveProduct(-q, len);
      assert (-q) * len == -a;
    }
  }

  /**
   * `truncate(m)` keeps the zero vector zero and zero components zero, and for `m > 0` keeps
   * the sign of each component.
   */
  lemma TruncateProperties(v: Vec, sqrt: real -> real, m: real)
    requires IsSqrt(sqrt)
    ensures var t := v.Truncate(sqrt, m);
      (v == Zero ==> t == Zero) &&
      (v.x == 0.0 ==> t.x == 0.0) && (v.y == 0.0 ==> t.y == 0.0) &&
      (m > 0.0 ==> (v.x > 0.0 <==> t.x > 0.0) && (v.y > 0.0 <==> t.y > 0.0))
  {
    var n := v.Normalize(sqrt);
    if m > 0.0 {
      ScaledSign(n.x, m);
      ScaledSign(n.y, m);
    }
  }

  lemma ScaledSign(a: real, m: real)
    requires m > 0.0
    ensures a > 0.0 <==> a * m > 0.0
  {
    if a > 0.0 {
      PositiveProduct(a, m);
    } else {
      var b := -a;
      assert b * m == -(a * m);
      if b > 0.0 {
        PositiveProduct(b, m);
      }
    }
  }

  /** A normalised component never exceeds 1 in size. */
  lemma NormalizeBounded(v: Vec, sqrt: real -> real)
    requires IsSqrt(sqrt)
    ensures var n := v.Normalize(sqrt); -1.0 <= n.x <= 1.0 && -1.0 <= n.y <= 1.0
  {
    var n, len := v.Normalize(sqrt), v.Length(sqrt);
    assert n.x == Scaled(v.x, len) && n.y == Scaled(v.y, len);
    if v.x != 0.0 {
      SumOfSquaresPositive(v.x, v.y);
      SquareNonNegative(v.y);
      ComponentBound(v.x, sqrt(v.x * v.x + v.y * v.y));
    }
    if v.y != 0.0 {
      SumOfSquaresPositive(v.y, v.x);
      SquareNonNegative(v.x);
      ComponentBound(v.y, sqrt(v.x * v.x + v.y * v.y));
    }
  }

  /** A component divided by a length at least as large lies in `[-1, 1]`. */
  lemma ComponentBound(a: real, len: real)
    requires len > 0.0 && a * a <= len * len
    ensures -1.0 <= a / len <= 1.0
  {
    var q := a / len;
    assert a == q * len;
    if q > 1.0 {
      assert a - len == (q - 1.0) * len;
      PositiveProduct(q - 1.0, len);
      assert a * a - len * len == (a - len) * (a + len);
      PositiveProduct(a - len, a + len);
    } else if q < -1.0 {
      assert -a - len == (-q - 1.0) * len;
      PositiveProduct(-q - 1.0, len);
      assert a * a - len * len == (-a - len) * (-a + len);
      PositiveProduct(-a - len, -a + len);
    }
  }

  /** Scaling a vector with components in `[-1, 1]` by `m >= 0` gives components in `[-m, m]`. */
  lemma ScaledVecBound(n: Vec, m: real)
    requires -1.0 <= n.x <= 1.0 && -1.0 <= n.y <= 1.0
    ensures m >= 0.0 ==> -m <= n.MultiplyBy(m).x <= m && -m <= n.MultiplyBy(m).y <= m
  {
    if m >= 0.0 {
      var r := n.MultiplyBy(m);
      assert r.x == n.x * m && r.y == n.y * m;
      ScaledBound(n.x, m);
      ScaledBound(n.y, m);
    }
  }

  /** Scaling the zero vector gives the zero vector. */
  lemma ScaledZero(m: real)
    ensures Zero.MultiplyBy(m) == Zero
  {
    assert 0.0 * m == 0.0;
  }

  lemma ScaledBound(c: real, m: real)
    requires -1.0 <= c <= 1.0 && m >= 0.0
    ensures -m <= c * m <= m
  {
    if m > 0.0 {
      if c < 1.0 {
        PositiveProduct(1.0 - c, m);
      }
      if c > -1.0 {
        PositiveProduct(1.0 + c, m);
      }
    }
  }
}
