/**
 * The collision response shared by `ShallowParticle.checkColisions` (worker side) and
 * `ParticleManager.checkColisions` (main thread): the particle looks at the four orthogonal
 * neighbours of the cell under its centre and applies at most one correction, tried in the order
 * bottom, top, left, right. A correction pushes the particle back off the obstacle and reflects the
 * velocity component across that axis, keeping 80% of it.
 */
module Collisions {
  import opened Wrappers
  import opened PureVectors

  const ForcePercentageAfterCollision := 0.8
  const ParticleDistanceAfterColision := 2.0

  /** A particle's top-left corner and its velocity. */
  datatype Motion = Motion(x: real, y: real, velocity: Vec)

  /** The centre of an obstacle cell. */
  datatype Centre = Centre(x: real, y: real)

  /** The centres of the obstacle cells right, left, below and above the particle's cell, where there are any. */
  datatype Obstacles = Obstacles(right: Option<Centre>, left: Option<Centre>, bottom: Option<Centre>, top: Option<Centre>)

  const NoObstacles := Obstacles(None, None, None, None)

  /** The bottom rule's trigger: the particle's lower edge has reached the line 0.65 cells above the obstacle's centre. */
  predicate HitsBottom(m: Motion, o: Obstacles, boxSize: real, size: real) {
    o.bottom.Some? && m.y + size >= o.bottom.value.y - boxSize * 0.65
  }

  predicate HitsTop(m: Motion, o: Obstacles, boxSize: real, size: real) {
    o.top.Some? && m.y - size <= o.top.value.y + boxSize * 0.45
  }

  predicate HitsLeft(m: Motion, o: Obstacles, boxSize: real, size: real) {
    o.left.Some? && m.x - size <= o.left.value.x + boxSize * 0.45
  }

  predicate HitsRight(m: Motion, o: Obstacles, boxSize: real, size: real) {
    o.right.Some? && m.x + size >= o.right.value.x - boxSize * 0.65
  }

  /**
   * The velocity after bouncing off a floor or a ceiling: the horizontal component is kept, the
   * vertical one changes direction and loses speed, and a zero one stays zero.
   */
  function BounceVertical(v: Vec): (r: Vec)
    ensures r.x == v.x
    ensures v.y > 0.0 ==> -v.y < r.y < 0.0
    ensures v.y < 0.0 ==> 0.0 < r.y < -v.y
    ensures v.y == 0.0 ==> r.y == 0.0
  {
    Vec(v.x, -v.y * ForcePercentageAfterCollision)
  }

  /**
   * The velocity after bouncing off a wall: the vertical component is kept, the horizontal one
   * changes direction and loses speed, and a zero one stays zero.
   */
  function BounceHorizontal(v: Vec): (r: Vec)
    ensures r.y == v.y
    ensures v.x > 0.0 ==> -v.x < r.x < 0.0
    ensures v.x < 0.0 ==> 0.0 < r.x < -v.x
    ensures v.x == 0.0 ==> r.x == 0.0
  {
    Vec(-v.x * ForcePercentageAfterCollision, v.y)
  }

  /**
   * One collision check. The first rule whose trigger holds fires and no other; a vertical rule
   * changes only `y` and the vertical velocity, a horizontal rule only `x` and the horizontal
   * velocity; when no rule fires nothing changes. A corrected particle is left 2 units clear of
   * the trigger line that fired, so that rule does not fire again from the new position.
   */
  function Collide(m: Motion, o: Obstacles, boxSize: real, size: real): (r: Motion)
    ensures HitsBottom(m, o, boxSize, size) ==>
      r.x == m.x && r.velocity == BounceVertical(m.velocity) && !HitsBottom(r, o, boxSize, size) &&
      r.y + size + ParticleDistanceAfterColision == o.bottom.value.y - boxSize * 0.65
    ensures !HitsBottom(m, o, boxSize, size) && HitsTop(m, o, boxSize, size) ==>
      r.x == m.x && r.velocity == BounceVertical(m.velocity) && !HitsTop(r, o, boxSize, size) &&
      r.y - size - ParticleDistanceAfterColision == o.top.value.y + boxSize * 0.45
    ensures !HitsBottom(m, o, boxSize, size) && !HitsTop(m, o, boxSize, size) && HitsLeft(m, o, boxSize, size) ==>
      r.y == m.y && r.velocity == BounceHorizontal(m.velocity) && !HitsLeft(r, o, boxSize, size) &&
      r.x - size - ParticleDistanceAfterColision == o.left.value.x + boxSize * 0.45
    ensures (!HitsBottom(m, o, boxSize, size) && !HitsTop(m, o, boxSize, size) && !HitsLeft(m, o, boxSize, size) &&
             HitsRight(m, o, boxSize, size)) ==>
      r.y == m.y && r.velocity == BounceHorizontal(m.velocity) && !HitsRight(r, o, boxSize, size) &&
      r.x + size + ParticleDistanceAfterColision == o.right.value.x - boxSize * 0.65
    ensures (!HitsBottom(m, o, boxSize, size) && !HitsTop(m, o, boxSize, size) && !HitsLeft(m, o, boxSize, size) &&
             !HitsRight(m, o, boxSize, size)) ==> r == m
  {
    if HitsBottom(m, o, boxSize, size) then
      Motion(m.x, o.bottom.value.y - boxSize * 0.65 - size - ParticleDistanceAfterColision, BounceVertical(m.velocity))
    else if HitsTop(m, o, boxSize, size) then
      Motion(m.x, o.top.value.y + boxSize * 0.45 + size + ParticleDistanceAfterColision, BounceVertical(m.velocity))
    else if HitsLeft(m, o, boxSize, size) then
      Motion(o.left.value.x + boxSize * 0.45 + size + ParticleDistanceAfterColision, m.y, BounceHorizontal(m.velocity))
    else if HitsRight(m, o, boxSize, size) then
      Motion(o.right.value.x - boxSize * 0.65 - size - ParticleDistanceAfterColision, m.y, BounceHorizontal(m.velocity))
    else
      m
  }

  /**
   * At most one correction: the result is the particle itself, a vertical bounce that keeps `x`,
   * or a horizontal bounce that keeps `y`, never both.
   */
  lemma AtMostOneCorrection(m: Motion, o: Obstacles, boxSize: real, size: real)
    ensures var r := Collide(m, o, boxSize, size);
      r == m ||
      (r.x == m.x && r.velocity == BounceVertical(m.velocity)) ||
      (r.y == m.y && r.velocity == BounceHorizontal(m.velocity))
  {
  }

  /** Without obstacle neighbours the check changes nothing. */
  lemma NoObstacleNoChange(m: Motion, boxSize: real, size: real)
    ensures Collide(m, NoObstacles, boxSize, size) == m
  {
  }

  /**
   * Priority: a bottom hit decides the outcome whatever the other three neighbours are, and the
   * left and right neighbours matter only when neither vertical rule fires.
   */
  lemma CollisionPriority(m: Motion, o: Obstacles, o': Obstacles, boxSize: real, size: real)
    requires o.bottom == o'.bottom
    ensures HitsBottom(m, o, boxSize, size) ==> Collide(m, o, boxSize, size) == Collide(m, o', boxSize, size)
    ensures o.top == o'.top && !HitsBottom(m, o, boxSize, size) && HitsTop(m, o, boxSize, size) ==>
      Collide(m, o, boxSize, size) == Collide(m, o', boxSize, size)
  {
  }

  /** Bouncing twice off the same kind of obstacle reverses the component twice, damping it to 64%. */
  lemma BounceTwice(v: Vec)
    ensures BounceVertical(BounceVertical(v)) == Vec(v.x, v.y * 0.64)
    ensures BounceHorizontal(BounceHorizontal(v)) == Vec(v.x * 0.64, v.y)
  {
  }
}
