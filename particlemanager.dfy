/**
 * The main-thread particles (`Particle` in `src/objects/particle.ts`, without its sprite) and their
 * manager (`ParticleManager` in `src/objects/particleManager.ts`): creation of `amount` particles,
 * and `moveByPath`, which steers every particle by the force of the cell under it, then checks
 * every particle for collisions, then moves every particle.
 *
 * `initManager` passes the particle configuration as the first argument of `new Particle(scene,
 * params)`, so the configuration lands in `scene` and every particle takes the defaults: it starts
 * at `(0, 0)` with size 5 and mass 1.5, whatever the manager was given. The model follows that.
 */
module ParticleManagers {
  import opened Wrappers
  import opened PureVectors
  import opened Geometry
  import opened Boxes
  import opened Grids
  import opened Boards
  import opened BoardCodec
  import opened Collisions
  import opened ShallowParticles

  /** A configuration value: a number, or anything that is not (`typeof v != "number"`). */
  datatype Num = Number(value: real) | NotNumber

  datatype Inaccuracy = Inaccuracy(min: Num, max: Num)

  /** The constructor's check: no inaccuracy, or two numbers with `max >= min`. */
  predicate AcceptedInaccuracy(i: Option<Inaccuracy>) {
    i.None? || (i.value.max.Number? && i.value.min.Number? && !(i.value.max.value < i.value.min.value))
  }

  /** A main-thread particle: a position, a size and a mass, and a velocity. */
  class Particle {
    var x: real
    var y: real
    const size: real
    const mass: real
    var velocity: Vec
    var steering: Vec

    function Motion(): Motion
      reads this
    {
      Collisions.Motion(x, y, velocity)
    }

    /** `new Particle(scene, params)`: the position, size and mass given in `params`, at rest. */
    constructor (initialPosition: Coords, size: real := DefaultSize, mass: real := DefaultMass)
      ensures Motion() == Collisions.Motion(initialPosition.x, initialPosition.y, Zero)
      ensures this.size == size && this.mass == mass
    {
      x := initialPosition.x;
      y := initialPosition.y;
      this.size := size;
      this.mass := mass;
      velocity := Zero;
      steering := Zero;
    }

    /** `setVelocity`: the same steering as the worker-side particle. */
    method SetVelocity(sqrt: real -> real, target: Vec)
      requires IsSqrt(sqrt) && mass != 0.0
      modifies this
      ensures Motion() == Collisions.Motion(old(x), old(y), SteeredVelocity(sqrt, old(velocity), target, mass))
    {
      steering := Steering(sqrt, velocity, target, mass);
      velocity := velocity.Add(steering).Truncate(sqrt, MaxSpeed);
    }

    method MoveByVelocity()
      modifies this
      ensures Motion() == Collisions.Motion(old(x) + velocity.x, old(y) + velocity.y, old(velocity))
    {
      x := x + velocity.x;
      y := y + velocity.y;
    }

    /** `moveWithInaccuracyByVelocity`, with its two random factors as parameters. */
    method MoveWithInaccuracyByVelocity(fx: real, fy: real)
      modifies this
      ensures Motion() == Collisions.Motion(old(x) + velocity.x * fx, old(y) + velocity.y * fy, old(velocity))
    {
      x := x + velocity.x * fx;
      y := y + velocity.y * fy;
    }
  }

  /** The centre of an obstacle cell of the main board. */
  function BoxCentre(b: Option<BoxState>): Option<Centre> {
    if b.Some? then Some(Centre(b.value.CenterX(), b.value.CenterY())) else None
  }

  /**
   * The orthogonal obstacle neighbours on grid `g` of the cell under the centre of a particle of
   * size `size` whose corner is at `m`.
   */
  function BoardObstacles(g: Grid, boxSize: real, m: Motion, size: real): Obstacles
    requires boxSize > 0.0
  {
    var p := CellOf(m.x + size * 0.5, m.y + size * 0.5, boxSize);
    var n := GetNamedChildrens(g, p);
    Obstacles(BoxCentre(n.right), BoxCentre(n.left), BoxCentre(n.bottom), BoxCentre(n.top))
  }

  /**
   * The steering pass's lookup `getBoxByDimensions(x, y)` throws for the point `(x, y)`: its
   * column is negative.
   */
  predicate LookupThrows(x: real, y: real, boxSize: real)
    requires boxSize > 0.0
  {
    CellOf(x, y, boxSize).x < 0
  }

  /** The lookup throws exactly for the points at least one cell-width left of the board. */
  lemma LookupThrowsLeftOfBoard(x: real, y: real, boxSize: real)
    requires boxSize > 0.0
    ensures LookupThrows(x, y, boxSize) <==> x <= -boxSize
  {
    CellCoordinateIsTrunc(x, boxSize);
    assert x / boxSize * boxSize == x;
    if x <= -boxSize {
      assert x / boxSize <= -1.0;
    }
  }

  /** The unguarded main-board lookup throws exactly when `LookupThrows`, and otherwise yields the cell `SteerStep` looks at. */
  lemma CellOfIsPosition(board: Board, x: real, y: real)
    requires board.boxSize > 0.0
    ensures board.GetBoxByDimensions(x, y).Fault? <==> LookupThrows(x, y, board.boxSize)
    ensures board.GetBoxByDimensions(x, y).Fault? ==> board.GetBoxByDimensions(x, y).message == MissingColumnError
    ensures board.GetBoxByDimensions(x, y).Ok? ==>
      board.GetBoxByDimensions(x, y).value == GetBoxByPosition(board.boxMap, CellOf(x, y, board.boxSize))
  {
  }

  /**
   * The steering pass for one particle whose lookup does not throw: with no cell of `g` under its
   * corner it moves by its velocity; otherwise its velocity is steered toward the cell's force and
   * it does not move.
   */
  function SteerStep(sqrt: real -> real, g: Grid, boxSize: real, m: Motion, mass: real): Motion
    requires IsSqrt(sqrt) && mass != 0.0 && boxSize > 0.0
  {
    var cell := GetBoxByPosition(g, CellOf(m.x, m.y, boxSize));
    if cell.None? then Collisions.Motion(m.x + m.velocity.x, m.y + m.velocity.y, m.velocity)
    else Collisions.Motion(m.x, m.y, SteeredVelocity(sqrt, m.velocity, cell.value.force, mass))
  }

  /**
   * Without inaccuracy, a particle with no cell under it and no obstacle next to it moves by twice
   * its velocity in one `moveByPath` (once in the steering pass and once in the movement pass),
   * unless it is a cell-width or more left of the board, where the steering lookup throws instead.
   */
  lemma LostParticleMovesTwice(sqrt: real -> real, g: Grid, boxSize: real, m: Motion, mass: real, o: Obstacles, size: real, draw: (real, real))
    requires IsSqrt(sqrt) && mass != 0.0 && boxSize > 0.0
    requires GetBoxByPosition(g, CellOf(m.x, m.y, boxSize)).None? && o == NoObstacles
    ensures m.x <= -boxSize ==> LookupThrows(m.x, m.y, boxSize)
    ensures m.x > -boxSize ==>
      !LookupThrows(m.x, m.y, boxSize) &&
      MoveStep(Collide(SteerStep(sqrt, g, boxSize, m, mass), o, boxSize, size), false, draw) ==
      Collisions.Motion(m.x + 2.0 * m.velocity.x, m.y + 2.0 * m.velocity.y, m.velocity)
  {
    LookupThrowsLeftOfBoard(m.x, m.y, boxSize);
    NoObstacleNoChange(SteerStep(sqrt, g, boxSize, m, mass), boxSize, size);
  }

  lemma QuotientBelowOne(a: real, b: real)
    requires 0.0 <= a < b
    ensures 0.0 <= a / b < 1.0
  {
  }

  /** The motions of particles `ps`, in order. */
  ghost function MotionsOf(ps: seq<Particle>): (ms: seq<Motion>)
    reads set p | p in ps
    ensures |ms| == |ps| && forall i :: 0 <= i < |ps| ==> ms[i] == ps[i].Motion()
  {
    if ps == [] then [] else [ps[0].Motion()] + MotionsOf(ps[1..])
  }

  /**
   * The index of the first particle in `ms` whose steering lookup throws, or `|ms|` when none does:
   * the lookups of all particles before it succeed.
   */
  function FirstThrowing(ms: seq<Motion>, boxSize: real): (k: nat)
    requires boxSize > 0.0
    ensures k <= |ms|
    ensures forall i :: 0 <= i < k ==> !LookupThrows(ms[i].x, ms[i].y, boxSize)
    ensures k < |ms| ==> LookupThrows(ms[k].x, ms[k].y, boxSize)
  {
    if ms == [] then 0
    else if LookupThrows(ms[0].x, ms[0].y, boxSize) then 0
    else 1 + FirstThrowing(ms[1..], boxSize)
  }

  class ParticleManager {
    var particles: seq<Particle>
    const amount: int
    const size: real
    const initialPosition: Coords
    const inaccuracy: Option<Inaccuracy>
    const colisionBoard: Board

    /** The particles are distinct objects, all of the default mass. */
    ghost predicate Valid()
      reads this
    {
      (forall i, j :: 0 <= i < j < |particles| ==> particles[i] != particles[j]) &&
      forall i :: 0 <= i < |particles| ==> particles[i].mass == DefaultMass
    }

    /** The configuration the constructor accepts; it throws "bad inaccuracy value" for any other. */
    static method Create(amount: int, colisionBoard: Board, size: real := DefaultSize,
                         initialPosition: Coords := Coords(0.0, 0.0), inaccuracy: Option<Inaccuracy> := None)
      returns (r: Result<ParticleManager>)
      ensures r.Fault? <==> !AcceptedInaccuracy(inaccuracy)
      ensures r.Fault? ==> r.message == "bad inaccuracy value"
      ensures r.Ok? ==> fresh(r.value) && r.value.Valid() && |r.value.particles| == if amount > 0 then amount else 0
    {
      if !AcceptedInaccuracy(inaccuracy) {
        return Fault("bad inaccuracy value");
      }
      var m := new ParticleManager(amount, colisionBoard, size, initialPosition, inaccuracy);
      r := Ok(m);
    }

    /**
     * `new ParticleManager(scene, config)` with an accepted configuration: exactly `amount` new
     * particles (none when `amount <= 0`), all at rest at `(0, 0)` with the default size, whatever
     * `initialPosition` and `size` are.
     */
    constructor (amount: int, colisionBoard: Board, size: real := DefaultSize,
                 initialPosition: Coords := Coords(0.0, 0.0), inaccuracy: Option<Inaccuracy> := None)
      requires AcceptedInaccuracy(inaccuracy)
      ensures Valid()
      ensures this.amount == amount && this.size == size && this.initialPosition == initialPosition
      ensures this.inaccuracy == inaccuracy && this.colisionBoard == colisionBoard
      ensures |particles| == if amount > 0 then amount else 0
      ensures forall i :: 0 <= i < |particles| ==>
        fresh(particles[i]) && particles[i].size == DefaultSize &&
        particles[i].Motion() == Collisions.Motion(0.0, 0.0, Zero)
    {
      this.amount := amount;
      this.size := size;
      this.initialPosition := initialPosition;
      this.inaccuracy := inaccuracy;
      this.colisionBoard := colisionBoard;
      particles := [];
      new;
      InitManager();
    }

    /**
     * `initManager` as written: appends `amount` new particles made by `new Particle(config)`,
     * which are at rest at `(0, 0)` with the default size and mass.
     */
    method InitManager()
      requires Valid()
      modifies this
      ensures Valid()
      ensures |particles| == |old(particles)| + if amount > 0 then amount else 0
      ensures particles[..|old(particles)|] == old(particles)
      ensures forall i :: |old(particles)| <= i < |particles| ==>
        fresh(particles[i]) && particles[i].size == DefaultSize &&
        particles[i].Motion() == Collisions.Motion(0.0, 0.0, Zero)
    {
      var n := |particles|;
      var i := 0;
      while i < amount
        invariant 0 <= i && (amount > 0 ==> i <= amount) && (amount <= 0 ==> i == 0)
        invariant |particles| == n + i && particles[..n] == old(particles)
        invariant Valid()
        invariant forall k :: n <= k < |particles| ==>
          fresh(particles[k]) && particles[k].size == DefaultSize &&
          particles[k].Motion() == Collisions.Motion(0.0, 0.0, Zero)
      {
        var p := new Particle(Coords(0.0, 0.0));
        particles := particles + [p];
        i := i + 1;
      }
    }

    /**
     * `initManager` as evidently intended, with `new Particle(scene, config)`: appends `amount` new
     * particles at rest at `initialPosition`, of the manager's size.
     */
    method InitManagerConfigured()
      requires Valid()
      modifies this
      ensures Valid()
      ensures |particles| == |old(particles)| + if amount > 0 then amount else 0
      ensures particles[..|old(particles)|] == old(particles)
      ensures forall i :: |old(particles)| <= i < |particles| ==>
        fresh(particles[i]) && particles[i].size == size &&
        particles[i].Motion() == Collisions.Motion(initialPosition.x, initialPosition.y, Zero)
    {
      var n := |particles|;
      var i := 0;
      while i < amount
        invariant 0 <= i && (amount > 0 ==> i <= amount) && (amount <= 0 ==> i == 0)
        invariant |particles| == n + i && particles[..n] == old(particles)
        invariant Valid()
        invariant forall k :: n <= k < |particles| ==>
          fresh(particles[k]) && particles[k].size == size &&
          particles[k].Motion() == Collisions.Motion(initialPosition.x, initialPosition.y, Zero)
      {
        var p := new Particle(initialPosition, size);
        particles := particles + [p];
        i := i + 1;
      }
    }

    /**
     * The obstacles the collision pass sees for a particle of size `particleSize` in state `m`:
     * the neighbours of the cell under the particle's own centre.
     */
    function ObstaclesFor(m: Motion, particleSize: real): Obstacles
      reads this, colisionBoard
      requires colisionBoard.boxSize > 0.0
    {
      BoardObstacles(colisionBoard.boxMap, colisionBoard.boxSize, m, particleSize)
    }

    /** One particle's full `moveByPath` step when no steering lookup throws. */
    function PathStep(sqrt: real -> real, board: Board, m: Motion, particleSize: real, draw: (real, real)): Motion
      reads this, board, colisionBoard
      requires IsSqrt(sqrt) && board.boxSize > 0.0 && colisionBoard.boxSize > 0.0
    {
      var steered := SteerStep(sqrt, board.boxMap, board.boxSize, m, DefaultMass);
      MoveStep(Collide(steered, ObstaclesFor(steered, particleSize), colisionBoard.boxSize, size), inaccuracy.Some?, draw)
    }

    /**
     * `moveByPath(board)`: every particle goes through the steering pass, then the collision pass,
     * then the movement pass; each particle ends where those three steps take it. When the steering
     * lookup of some particle throws, the particles before it have been steered, it and the rest
     * are untouched, and the collision and movement passes do not run. The boards are not written.
     */
    method MoveByPath(sqrt: real -> real, board: Board, draws: seq<(real, real)>) returns (r: Result<()>)
      requires Valid() && IsSqrt(sqrt) && board.boxSize > 0.0 && colisionBoard.boxSize > 0.0
      requires |draws| == |particles|
      modifies set p | p in particles
      ensures Valid()
      ensures r.Fault? <==> FirstThrowing(old(MotionsOf(particles)), board.boxSize) < |particles|
      ensures r.Fault? ==> r.message == MissingColumnError
      ensures r.Fault? ==>
        (forall i :: 0 <= i < FirstThrowing(old(MotionsOf(particles)), board.boxSize) ==>
          particles[i].Motion() == SteerStep(sqrt, board.boxMap, board.boxSize, old(particles[i].Motion()), DefaultMass)) &&
        (forall i :: FirstThrowing(old(MotionsOf(particles)), board.boxSize) <= i < |particles| ==>
          particles[i].Motion() == old(particles[i].Motion()))
      ensures r.Ok? ==> forall i :: 0 <= i < |particles| ==>
        particles[i].Motion() == PathStep(sqrt, board, old(particles[i].Motion()), particles[i].size, draws[i])
    {
      r := SteerPass(sqrt, board);
      if r.Fault? {
        return;
      }
      CheckColisions();
      MovePass(draws);
    }

    /**
     * The first `forEach` of `moveByPath`: every particle steered by the cell under its corner, or
     * moved when there is none, up to the first particle whose lookup throws.
     */
    method SteerPass(sqrt: real -> real, board: Board) returns (r: Result<()>)
      requires Valid() && IsSqrt(sqrt) && board.boxSize > 0.0
      modifies set p | p in particles
      ensures Valid()
      ensures r.Fault? <==> FirstThrowing(old(MotionsOf(particles)), board.boxSize) < |particles|
      ensures r.Fault? ==> r.message == MissingColumnError
      ensures forall i :: 0 <= i < FirstThrowing(old(MotionsOf(particles)), board.boxSize) ==>
        particles[i].Motion() == SteerStep(sqrt, board.boxMap, board.boxSize, old(particles[i].Motion()), DefaultMass)
      ensures forall i :: FirstThrowing(old(MotionsOf(particles)), board.boxSize) <= i < |particles| ==>
        particles[i].Motion() == old(particles[i].Motion())
    {
      ghost var ms := MotionsOf(particles);
      ghost var k := FirstThrowing(ms, board.boxSize);
      var i := 0;
      while i < |particles|
        invariant 0 <= i <= |particles| && i <= k
        invariant forall j :: 0 <= j < i ==>
          particles[j].Motion() == SteerStep(sqrt, board.boxMap, board.boxSize, old(particles[j].Motion()), DefaultMass)
        invariant forall j :: i <= j < |particles| ==> particles[j].Motion() == old(particles[j].Motion())
      {
        r := SteerParticle(sqrt, board, particles[i]);
        if r.Fault? {
          assert ms[i] == old(particles[i].Motion());
          assert k == i;
          return;
        }
        assert ms[i] == old(particles[i].Motion());
        i := i + 1;
      }
      r := Ok(());
    }

    /** The body of the steering `forEach` for particle `p`; when the lookup throws, `p` is untouched. */
    method SteerParticle(sqrt: real -> real, board: Board, p: Particle) returns (r: Result<()>)
      requires IsSqrt(sqrt) && board.boxSize > 0.0 && p.mass == DefaultMass
      modifies p
      ensures r.Fault? <==> old(LookupThrows(p.x, p.y, board.boxSize))
      ensures r.Fault? ==> r.message == MissingColumnError && p.Motion() == old(p.Motion())
      ensures r.Ok? ==> p.Motion() == SteerStep(sqrt, board.boxMap, board.boxSize, old(p.Motion()), DefaultMass)
    {
      var cell := board.GetBoxByDimensions(p.x, p.y);
      CellOfIsPosition(board, p.x, p.y);
      if cell.Fault? {
        return Fault(cell.message);
      }
      if cell.value.None? {
        p.MoveByVelocity();
      } else {
        p.SetVelocity(sqrt, cell.value.value.force);
      }
      r := Ok(());
    }

    /** The last `forEach` of `moveByPath`: every particle moved by its velocity, scaled by its draws when an inaccuracy is set. */
    method MovePass(draws: seq<(real, real)>)
      requires Valid() && |draws| == |particles|
      modifies set p | p in particles
      ensures Valid()
      ensures forall i :: 0 <= i < |particles| ==>
        particles[i].Motion() == MoveStep(old(particles[i].Motion()), inaccuracy.Some?, draws[i])
    {
      var i := 0;
      while i < |particles|
        invariant 0 <= i <= |particles|
        invariant forall k :: 0 <= k < i ==>
          particles[k].Motion() == MoveStep(old(particles[k].Motion()), inaccuracy.Some?, draws[k])
        invariant forall k :: i <= k < |particles| ==> particles[k].Motion() == old(particles[k].Motion())
      {
        var p := particles[i];
        if inaccuracy.Some? {
          p.MoveWithInaccuracyByVelocity(draws[i].0, draws[i].1);
        } else {
          p.MoveByVelocity();
        }
        i := i + 1;
      }
    }

    /**
     * `checkColisions`: the collision rule for every particle against the collision board, the
     * cell taken under the particle's own centre and the triggers measured with the manager's size.
     */
    method CheckColisions()
      requires Valid() && colisionBoard.boxSize > 0.0
      modifies set p | p in particles
      ensures Valid()
      ensures forall i :: 0 <= i < |particles| ==>
        particles[i].Motion() ==
          Collide(old(particles[i].Motion()), ObstaclesFor(old(particles[i].Motion()), particles[i].size), colisionBoard.boxSize, size)
    {
      var boxSize := colisionBoard.boxSize;
      var i := 0;
      while i < |particles|
        invariant 0 <= i <= |particles|
        invariant forall k :: 0 <= k < i ==>
          particles[k].Motion() ==
            Collide(old(particles[k].Motion()), ObstaclesFor(old(particles[k].Motion()), particles[k].size), boxSize, size)
        invariant forall k :: i <= k < |particles| ==> particles[k].Motion() == old(particles[k].Motion())
      {
        CollideParticle(particles[i]);
        i := i + 1;
      }
    }

    /** The body of `checkColisions`'s `forEach`: at most one correction of particle `p`. */
    method CollideParticle(p: Particle)
      requires colisionBoard.boxSize > 0.0
      modifies p
      ensures p.Motion() == Collide(old(p.Motion()), ObstaclesFor(old(p.Motion()), p.size), colisionBoard.boxSize, size)
    {
      var boxSize := colisionBoard.boxSize;
      var centre := Coords(p.x + p.size * 0.5, p.y + p.size * 0.5);
      var position := colisionBoard.GetBoxPositionByDimensions(centre.x, centre.y);
      var n := GetNamedChildrens(colisionBoard.boxMap, position);
      ghost var m := p.Motion();
      assert position == CellOf(m.x + p.size * 0.5, m.y + p.size * 0.5, boxSize);
      ghost var o := Obstacles(BoxCentre(n.right), BoxCentre(n.left), BoxCentre(n.bottom), BoxCentre(n.top));
      assert ObstaclesFor(m, p.size) == BoardObstacles(colisionBoard.boxMap, boxSize, m, p.size) == o;
      if n.bottom.Some? && p.y + size >= n.bottom.value.CenterY() - boxSize * 0.65 {
        assert HitsBottom(m, o, boxSize, size);
        p.y := n.bottom.value.CenterY() - boxSize * 0.65 - size - ParticleDistanceAfterColision;
        p.velocity := Vec(p.velocity.x, -p.velocity.y * ForcePercentageAfterCollision);
      } else if n.top.Some? && p.y - size <= n.top.value.CenterY() + boxSize * 0.45 {
        assert !HitsBottom(m, o, boxSize, size) && HitsTop(m, o, boxSize, size);
        p.y := n.top.value.CenterY() + boxSize * 0.45 + size + ParticleDistanceAfterColision;
        p.velocity := Vec(p.velocity.x, -p.velocity.y * ForcePercentageAfterCollision);
      } else if n.left.Some? && p.x - size <= n.left.value.CenterX() + boxSize * 0.45 {
        assert !HitsBottom(m, o, boxSize, size) && !HitsTop(m, o, boxSize, size) && HitsLeft(m, o, boxSize, size);
        p.x := n.left.value.CenterX() + boxSize * 0.45 + size + ParticleDistanceAfterColision;
        p.velocity := Vec(-p.velocity.x * ForcePercentageAfterCollision, p.velocity.y);
      } else if n.right.Some? && p.x + size >= n.right.value.CenterX() - boxSize * 0.65 {
        assert !HitsBottom(m, o, boxSize, size) && !HitsTop(m, o, boxSize, size) && !HitsLeft(m, o, boxSize, size) && HitsRight(m, o, boxSize, size);
        p.x := n.right.value.CenterX() - boxSize * 0.65 - size - ParticleDistanceAfterColision;
        p.velocity := Vec(-p.velocity.x * ForcePercentageAfterCollision, p.velocity.y);
      }
      assert p.Motion() == Collide(m, o, boxSize, size);
    }
  }

  /**
   * A particle at rest at `(0, 0)` stays where it is in one `moveByPath` over a board without cell
   * `(0, 0)`, as long as its centre is in the corner cell of the collision board and the manager's
   * size is under 0.85 cells: the only possible obstacle neighbours, right of and below the corner
   * cell, are then out of reach, and a zero velocity moves it nowhere.
   */
  lemma RestingCornerParticleStaysPut(manager: ParticleManager, sqrt: real -> real, board: Board, particleSize: real, draw: (real, real))
    requires IsSqrt(sqrt) && board.boxSize > 0.0 && manager.colisionBoard.boxSize > 0.0
    requires !Exist(board.boxMap, Pos(0, 0))
    requires WellPlaced(manager.colisionBoard.boxMap) && SizedCells(manager.colisionBoard.boxMap, manager.colisionBoard.boxSize)
    requires 0.0 <= particleSize < 2.0 * manager.colisionBoard.boxSize && manager.size < 0.85 * manager.colisionBoard.boxSize
    ensures !LookupThrows(0.0, 0.0, board.boxSize)
    ensures manager.PathStep(sqrt, board, Collisions.Motion(0.0, 0.0, Zero), particleSize, draw) == Collisions.Motion(0.0, 0.0, Zero)
  {
    var m := Collisions.Motion(0.0, 0.0, Zero);
    assert CellOf(0.0, 0.0, board.boxSize) == Pos(0, 0);
    assert SteerStep(sqrt, board.boxMap, board.boxSize, m, DefaultMass) == m;
    CornerCollisionNone(manager.colisionBoard.boxMap, manager.colisionBoard.boxSize, particleSize, manager.size);
  }

  /**
   * A particle at rest at `(0, 0)` whose centre lies in the corner cell triggers no collision rule
   * when the trigger size is under 0.85 cells: the corner cell has no neighbour above or to the
   * left, and the ones right of and below it are out of reach.
   */
  lemma CornerCollisionNone(cg: Grid, colisionSize: real, particleSize: real, size: real)
    requires colisionSize > 0.0 && WellPlaced(cg) && SizedCells(cg, colisionSize)
    requires 0.0 <= particleSize < 2.0 * colisionSize && size < 0.85 * colisionSize
    ensures var m := Collisions.Motion(0.0, 0.0, Zero);
      Collide(m, BoardObstacles(cg, colisionSize, m, particleSize), colisionSize, size) == m
  {
    var m := Collisions.Motion(0.0, 0.0, Zero);
    assert CellOf(particleSize * 0.5, particleSize * 0.5, colisionSize) == Pos(0, 0) by {
      CellCoordinateIsTrunc(particleSize * 0.5, colisionSize);
      QuotientBelowOne(particleSize * 0.5, colisionSize);
    }
    var n := GetNamedChildrens(cg, Pos(0, 0));
    assert n.right.Some? ==> n.right.value == At(cg, Pos(1, 0));
    assert n.bottom.Some? ==> n.bottom.value == At(cg, Pos(0, 1));
    var o := BoardObstacles(cg, colisionSize, m, particleSize);
    assert o.top.None? && o.left.None?;
    assert o.right.Some? ==> o.right.value.x == 1.5 * colisionSize;
    assert o.bottom.Some? ==> o.bottom.value.y == 1.5 * colisionSize;
  }
}
