/**
 * The mutable `ForceVector` of `src/objects/forceVector.ts`: every operation updates the receiver
 * in place and returns the receiver itself, so calls can be chained. Each method is specified by
 * the matching operation on values from `PureVectors`.
 */
module ForceVectors {
  import opened PureVectors

  class ForceVector {
    var x: real
    var y: real

    /** The components as a value. */
    function Value(): Vec
      reads this
    {
      Vec(x, y)
    }

    constructor (x: real, y: real)
      ensures Value() == Vec(x, y)
    {
      this.x := x;
      this.y := y;
    }

    /**
     * `sub`: the receiver becomes the difference. When `v` is another object it is left alone;
     * when it is the receiver itself the result is the zero vector.
     */
    method Sub(v: ForceVector) returns (r: ForceVector)
      modifies this
      ensures r == this
      ensures Value() == old(Value()).Sub(old(v.Value()))
      ensures v != this ==> v.Value() == old(v.Value())
    {
      x := x - v.x;
      y := y - v.y;
      r := this;
    }

    /** `add`: the receiver becomes the component-wise sum (twice itself when `v` is the receiver). */
    method Add(v: ForceVector) returns (r: ForceVector)
      modifies this
      ensures r == this
      ensures Value() == old(Value()).Add(old(v.Value()))
      ensures v != this ==> v.Value() == old(v.Value())
    {
      x := x + v.x;
      y := y + v.y;
      r := this;
    }

    /** `copy`: a new object with the same components; later updates of either leave the other alone. */
    method Copy() returns (c: ForceVector)
      ensures fresh(c)
      ensures c.Value() == Value()
    {
      c := new ForceVector(x, y);
    }

    method MultiplyBy(k: real) returns (r: ForceVector)
      modifies this
      ensures r == this
      ensures Value() == old(Value()).MultiplyBy(k)
    {
      x := x * k;
      y := y * k;
      r := this;
    }

    method Devide(k: real) returns (r: ForceVector)
      requires k != 0.0
      modifies this
      ensures r == this
      ensures Value() == old(Value()).Devide(k)
    {
      x := x / k;
      y := y / k;
      r := this;
    }

    /** `normalize` in place: both components are read before either is written. */
    method Normalize(sqrt: real -> real) returns (r: ForceVector)
      requires IsSqrt(sqrt)
      modifies this
      ensures r == this
      ensures Value() == old(Value()).Normalize(sqrt)
    {
      var x0, y0 := x, y;
      var len := Vec(x0, y0).Length(sqrt);
      LengthPositive(x0, y0, sqrt);
      x := if x0 == 0.0 then 0.0 else x0 / len;
      y := if y0 == 0.0 then 0.0 else y0 / len;
      r := this;
    }

    /** `truncate(m)`: `normalize()` followed by `multiplyBy(m)` on the same object. */
    method Truncate(sqrt: real -> real, m: real) returns (r: ForceVector)
      requires IsSqrt(sqrt)
      modifies this
      ensures r == this
      ensures Value() == old(Value()).Truncate(sqrt, m)
    {
      r := Normalize(sqrt);
      r := r.MultiplyBy(m);
    }
  }
}
