/**
 * The worker-side particle (`ShallowParticle` in `src/workersObjects/shallowParticle.ts`): a
 * position updated in place, a size and a mass fixed at construction, and a velocity held in a
 * mutable `ForceVector` that steering updates in place and collisions replace.
 */
module ShallowParticles {
  import opened Wrappers
  import opened PureVectors
  import opened ForceVectors
  import opened Geometry
  import opened BoardCodec
  import opened ShallowBoards
  import opened Collisions

  const MaxVelocity := 10.0
  const MaxForce := 0.2
  const MaxSpeed := 2.0
  const DefaultMass := 1.5
  const DefaultSize := 5.0

  /**
   * The steering force `setVelocity` computes from the current velocity `v` and the requested
   * velocity `target`: the target capped at `MaxVelocity`, plus `v`, capped at `MaxForce`, divided
   * by the mass.
   */
  function Steering(sqrt: real -> real, v: Vec, target: Vec, mass: real): Vec
    requires IsSqrt(sqrt) && mass != 0.0
  {
    target.Truncate(sqrt, MaxVelocity).Add(v).Truncate(sqrt, MaxForce).Devide(mass)
  }

  /**
   * The velocity after `setVelocity`: the old one plus the steering force, capped at `MaxSpeed`.
   * Whatever the field asks for, it never exceeds `MaxSpeed` in either component.
   */
  function SteeredVelocity(sqrt: real -> real, v: Vec, target: Vec, mass: real): (r: Vec)
    requires IsSqrt(sqrt) && mass != 0.0
    ensures -MaxSpeed <= r.x <= MaxSpeed && -MaxSpeed <= r.y <= MaxSpeed
  {
    v.Add(Steering(sqrt, v, target, mass)).Truncate(sqrt, MaxSpeed)
  }

  /** A particle at rest that the field asks to stay at rest stays at rest. */
  lemma RestStaysAtRest(sqrt: real -> real, mass: real)
    requires IsSqrt(sqrt) && mass != 0.0
    ensures SteeredVelocity(sqrt, Zero, Zero, mass) == Zero
  {
    var steered := Zero.Add(Steering(sqrt, Zero, Zero, mass));
    assert steered == Zero by {
      SteeringAtRest(sqrt, mass);
    }
    TruncateZero(sqrt, MaxSpeed);
  }

  lemma SteeringAtRest(sqrt: real -> real, mass: real)
    requires IsSqrt(sqrt) && mass != 0.0
    ensures Steering(sqrt, Zero, Zero, mass) == Zero
  {
    TruncateZero(sqrt, MaxVelocity);
    assert Zero.Truncate(sqrt, MaxVelocity).Add(Zero) == Zero;
    TruncateZero(sqrt, MaxForce);
    DevideZero(mass);
  }

  lemma DevideZero(k: real)
    requires k != 0.0
    ensures Zero.Devide(k) == Zero
  {
  }

  lemma TruncateZero(sqrt: real -> real, m: real)
    requires IsSqrt(sqrt)
    ensures Zero.Truncate(sqrt, m) == Zero
  {
    TruncateProperties(Zero, sqrt, m);
  }

  /** The obstacle centres of a worker-side neighbourhood; the diagonal neighbours are not looked at. */
  function ObstaclesOf(n: ShallowNamedChildrens): Obstacles {
    Obstacles(CentreOf(n.right), CentreOf(n.left), CentreOf(n.bottom), CentreOf(n.top))
  }

  function CentreOf(b: Option<ShallowBox>): Option<Centre> {
    if b.Some? then Some(Centre(b.value.centerPositionX, b.value.centerPositionY)) else None
  }

  /**
   * The obstacles a particle with top-left corner `(x, y)` and size `size` meets on the map `m` of
   * a worker-side collision board with cells of side `boxSize`: the orthogonal neighbours of the cell under its centre.
   */
  function ShallowObstacles(m: ShallowMap, boxSize: real, x: real, y: real, size: real): Obstacles
    requires boxSize > 0.0
  {
    var p := CellOf(x + size * 0.5, y + size * 0.5, boxSize);
    ObstaclesOf(ShallowNeighbours(m, p.x, p.y))
  }

  /** The movement of one particle by its velocity, scaled by the two draws when an inaccuracy is set. */
  function MoveStep(m: Motion, inaccurate: bool, draw: (real, real)): (r: Motion)
    ensures r.velocity == m.velocity
    ensures !inaccurate ==> r.x - m.x == m.velocity.x && r.y - m.y == m.velocity.y
    ensures inaccurate ==> r.x - m.x == m.velocity.x * draw.0 && r.y - m.y == m.velocity.y * draw.1
  {
    if inaccurate then Collisions.Motion(m.x + m.velocity.x * draw.0, m.y + m.velocity.y * draw.1, m.velocity)
    else Collisions.Motion(m.x + m.velocity.x, m.y + m.velocity.y, m.velocity)
  }

  class ShallowParticle {
    var x: real
    var y: real
    const size: real
    const mass: real
    var steering: ForceVector?
    var velocity: ForceVector

    function Position(): Coords
      reads this
    {
      Coords(x, y)
    }

    function Motion(): Motion
      reads this, velocity
    {
      Collisions.Motion(x, y, velocity.Value())
    }

    /** A new particle: at `initialPosition`, at rest, of size 5 and mass 1.5 unless told otherwise. */
    constructor (initialPosition: Coords := Coords(0.0, 0.0), size: real := DefaultSize, mass: real := DefaultMass)
      ensures Position() == initialPosition && this.size == size && this.mass == mass
      ensures fresh(velocity) && velocity.Value() == Zero && steering == null
    {
      this.size := size;
      this.mass := mass;
      x := initialPosition.x;
      y := initialPosition.y;
      velocity := new ForceVector(0.0, 0.0);
      steering := null;
    }

    /**
     * `setVelocity`: the steering force is computed on a copy of `newVelocity`, then added to the
     * particle's own velocity object in place, which is capped at `MaxSpeed`. The argument is left
     * untouched unless it is that very velocity object.
     */
    method SetVelocity(sqrt: real -> real, newVelocity: ForceVector) returns (r: ShallowParticle)
      requires IsSqrt(sqrt) && mass != 0.0
      modifies this, velocity
      ensures r == this && velocity == old(velocity) && Position() == old(Position())
      ensures velocity.Value() == SteeredVelocity(sqrt, old(velocity.Value()), old(newVelocity.Value()), mass)
      ensures steering != null && fresh(steering) && steering.Value() == Steering(sqrt, old(velocity.Value()), old(newVelocity.Value()), mass)
      ensures newVelocity != velocity ==> newVelocity.Value() == old(newVelocity.Value())
    {
      var s := newVelocity.Copy();
      s := s.Truncate(sqrt, MaxVelocity);
      s := s.Add(velocity);
      s := s.Truncate(sqrt, MaxForce);
      s := s.Devide(mass);
      assert x == old(x) && y == old(y);
      assert newVelocity.Value() == old(newVelocity.Value());
      steering := s;
      var v := velocity.Add(s);
      v := v.Truncate(sqrt, MaxSpeed);
      r := this;
    }

    /** `moveByVelocity`: the velocity is added to the position and is itself unchanged. */
    method MoveByVelocity() returns (r: ShallowParticle)
      modifies this
      ensures r == this && velocity == old(velocity) && steering == old(steering)
      ensures Position() == Coords(old(x) + velocity.x, old(y) + velocity.y)
    {
      x := x + velocity.x;
      y := y + velocity.y;
      r := this;
    }

    /**
     * `moveWithInaccuracyByVelocity`: each velocity component is scaled by its own random factor
     * before being added; the two draws are parameters here.
     */
    method MoveWithInaccuracyByVelocity(fx: real, fy: real) returns (r: ShallowParticle)
      modifies this
      ensures r == this && velocity == old(velocity) && steering == old(steering)
      ensures Position() == Coords(old(x) + velocity.x * fx, old(y) + velocity.y * fy)
      ensures Motion() == MoveStep(old(Motion()), true, (fx, fy))
    {
      x := x + velocity.x * fx;
      y := y + velocity.y * fy;
      r := this;
    }

    /** `absoluteMoveTo`: the position becomes the point given; nothing else changes. */
    method AbsoluteMoveTo(p: Coords) returns (r: ShallowParticle)
      modifies this
      ensures r == this && Position() == p && velocity == old(velocity) && steering == old(steering)
    {
      x := p.x;
      y := p.y;
      r := this;
    }

    /** `toParticlePositionObject`. */
    function ToParticlePositionObject(): (c: Coords)
      reads this
      ensures c.x == x && c.y == y
    {
      Coords(x, y)
    }

    /** `getCenterPosition`: the top-left corner moved by half the size on both axes. */
    function GetCenterPosition(): (c: Coords)
      reads this
      ensures c.x - x == size * 0.5 && c.y - y == size * 0.5
    {
      Coords(x + size * 0.5, y + size * 0.5)
    }

    /**
     * `checkColisions`: one check of the collision rule against the collision board; a fired
     * rule installs a new velocity object.
     */
    method CheckColisions(board: WorkerShallowBoard) returns (r: ShallowParticle)
      requires board.boxSize > 0.0
      modifies this
      ensures r == this && steering == old(steering)
      ensures Motion() == Collide(old(Motion()), ShallowObstacles(board.shallowBoxMap, board.boxSize, old(x), old(y), size), board.boxSize, size)
      ensures velocity == old(velocity) || fresh(velocity)
    {
      var boxSize := board.boxSize;
      var c := GetCenterPosition();
      var p := board.GetBoxPositionByDimensions(c.x, c.y);
      var n := board.GetShallowNamedChildrens(p.x, p.y);
      ghost var m := Motion();
      ghost var o := ObstaclesOf(n);
      assert o == ShallowObstacles(board.shallowBoxMap, boxSize, m.x, m.y, size);
      if n.bottom.Some? && y + size >= n.bottom.value.centerPositionY - boxSize * 0.65 {
        assert HitsBottom(m, o, boxSize, size);
        y := n.bottom.value.centerPositionY - boxSize * 0.65 - size - ParticleDistanceAfterColision;
        velocity := new ForceVector(velocity.x, -velocity.y * ForcePercentageAfterCollision);
      } else if n.top.Some? && y - size <= n.top.value.centerPositionY + boxSize * 0.45 {
        assert !HitsBottom(m, o, boxSize, size) && HitsTop(m, o, boxSize, size);
        y := n.top.value.centerPositionY + boxSize * 0.45 + size + ParticleDistanceAfterColision;
        velocity := new ForceVector(velocity.x, -velocity.y * ForcePercentageAfterCollision);
      } else if n.left.Some? && x - size <= n.left.value.centerPositionX + boxSize * 0.45 {
        assert !HitsBottom(m, o, boxSize, size) && !HitsTop(m, o, boxSize, size) && HitsLeft(m, o, boxSize, size);
        x := n.left.value.centerPositionX + boxSize * 0.45 + size + ParticleDistanceAfterColision;
        velocity := new ForceVector(-velocity.x * ForcePercentageAfterCollision, velocity.y);
      } else if n.right.Some? && x + size >= n.right.value.centerPositionX - boxSize * 0.65 {
        assert !HitsBottom(m, o, boxSize, size) && !HitsTop(m, o, boxSize, size) && !HitsLeft(m, o, boxSize, size) && HitsRight(m, o, boxSize, size);
        x := n.right.value.centerPositionX - boxSize * 0.65 - size - ParticleDistanceAfterColision;
        velocity := new ForceVector(-velocity.x * ForcePercentageAfterCollision, velocity.y);
      }
      assert Motion() == Collide(m, o, boxSize, size);
      r := this;
    }
  }

  /**
   * A particle whose four orthogonal neighbours are free is not corrected, whatever the diagonal
   * neighbours hold.
   */
  lemma FreeNeighbourhoodNoCorrection(m: Motion, n: ShallowNamedChildrens, boxSize: real, size: real)
    requires n.left.None? && n.right.None? && n.top.None? && n.bottom.None?
    ensures Collide(m, ObstaclesOf(n), boxSize, size) == m
  {
    assert ObstaclesOf(n) == NoObstacles;
    NoObstacleNoChange(m, boxSize, size);
  }
}
