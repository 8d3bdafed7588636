/**
 * The discrete part of `MainScene` (`src/scenes/mainScene.ts`): the scene constants, the collision
 * board built from the border ring and the wall list, the valid board as its complement, and the
 * per-frame goal update that re-solves the field when the hovered cell changes.
 */
module MainScenes {
  import opened Wrappers
  import opened Geometry
  import opened Grids
  import opened Boards
  import opened BoardCodec
  import opened Collisions
  import opened PureVectors
  import opened ShallowParticles
  import opened ParticleManagers
  import opened TileMaps

  const FieldSize := 40.0
  const SceneBoxes := 21
  const ParticleCount := 500
  const SceneInaccuracy := Inaccuracy(Number(0.5), Number(1.0))
  const StartPosition := Coords(100.0, 100.0)

  /** The wall cells listed after the border, in order; `(13, 6)` appears twice and `(13, 20)` is also a border cell. */
  function Walls(): (r: seq<Pos>)
    ensures |r| == 43
  {
    seq(17, i => Pos(9, i + 1)) +
    seq(18, i => Pos(13, i + 3)) +
    [Pos(16, 3), Pos(17, 3), Pos(18, 3), Pos(19, 3)] +
    [Pos(13, 6), Pos(14, 6), Pos(15, 6), Pos(16, 6)]
  }

  /** The `positionsToFill` of the collision board. */
  function ColisionPositions(): seq<Pos> {
    BorderRing(SceneBoxes, SceneBoxes) + Walls()
  }

  /** `initBoardBorders`: the ring pushed in the same order as `TileMap.initMapBorder` writes it. */
  method InitBoardBorders(horizontalBoxes: nat, verticalBoxes: nat) returns (tileMap: seq<Pos>)
    ensures tileMap == BorderRing(horizontalBoxes, verticalBoxes)
  {
    tileMap := [];
    for i := 0 to horizontalBoxes
      invariant tileMap == TopAndBottom(i, verticalBoxes)
    {
      tileMap := tileMap + [Pos(i, 0)];
      tileMap := tileMap + [Pos(i, verticalBoxes - 1)];
      assert tileMap == TopAndBottom(i, verticalBoxes) + [Pos(i, 0), Pos(i, verticalBoxes - 1)];
    }
    var i := 1;
    while i < verticalBoxes - 1
      invariant 1 <= i && (verticalBoxes >= 2 ==> i <= verticalBoxes - 1) && (verticalBoxes < 2 ==> i == 1)
      invariant tileMap == TopAndBottom(horizontalBoxes, verticalBoxes) + LeftAndRight(horizontalBoxes, i + 1)
    {
      tileMap := tileMap + [Pos(0, i)];
      tileMap := tileMap + [Pos(horizontalBoxes - 1, i)];
      assert LeftAndRight(horizontalBoxes, i + 2) == LeftAndRight(horizontalBoxes, i + 1) + [Pos(0, i), Pos(horizontalBoxes - 1, i)];
      i := i + 1;
    }
    if verticalBoxes >= 2 {
      assert i + 1 == verticalBoxes;
    } else {
      assert LeftAndRight(horizontalBoxes, i + 1) == [] == LeftAndRight(horizontalBoxes, verticalBoxes);
    }
  }

  /** Every listed collision cell lies inside the 21 by 21 grid. */
  lemma ColisionPositionsInGrid()
    ensures forall p :: p in ColisionPositions() ==> 0 <= p.x < SceneBoxes && 0 <= p.y < SceneBoxes
  {
    WallsInGrid();
    forall p | p in ColisionPositions()
      ensures 0 <= p.x < SceneBoxes && 0 <= p.y < SceneBoxes
    {
      if p in BorderRing(SceneBoxes, SceneBoxes) {
        BorderRingOnEdge(SceneBoxes, SceneBoxes, p);
      } else {
        assert p in Walls();
      }
    }
  }

  /** The wall cells lie strictly inside the border, except `(13, 20)`, which is on it. */
  lemma WallsInGrid()
    ensures forall p :: p in Walls() ==> 1 <= p.x < SceneBoxes - 1 && 1 <= p.y < SceneBoxes
  {
    var a := seq(17, i => Pos(9, i + 1));
    var b := seq(18, i => Pos(13, i + 3));
    var c := [Pos(16, 3), Pos(17, 3), Pos(18, 3), Pos(19, 3)];
    var d := [Pos(13, 6), Pos(14, 6), Pos(15, 6), Pos(16, 6)];
    assert Walls() == a + b + c + d;
    forall p | p in Walls()
      ensures 1 <= p.x < SceneBoxes - 1 && 1 <= p.y < SceneBoxes
    {
      if p in a {
        var i :| 0 <= i < 17 && a[i] == p;
      } else if p in b {
        var i :| 0 <= i < 18 && b[i] == p;
      }
    }
  }

  /** The number of distinct entries of a list is at most its length. */
  lemma {:induction false} DistinctAtMostLength(s: seq<Pos>)
    ensures |set p | p in s| <= |s|
  {
    if s != [] {
      var init := s[..|s| - 1];
      DistinctAtMostLength(init);
      assert (set p | p in s) == (set p | p in init) + {s[|s| - 1]};
    }
  }

  /** A list with an entry repeated at two indices has fewer distinct entries than its length. */
  lemma Duplicated(s: seq<Pos>, i: nat, j: nat)
    requires i < j < |s| && s[i] == s[j]
    ensures |set p | p in s| < |s|
  {
    var rest := s[..j] + s[j + 1..];
    assert s[i] == rest[i];
    forall p | p in s
      ensures p in rest
    {
      var k :| 0 <= k < |s| && s[k] == p;
      if k < j {
        assert rest[k] == p;
      } else if k > j {
        assert rest[k - 1] == p;
      }
    }
    assert (set p | p in s) == (set p | p in rest);
    DistinctAtMostLength(rest);
  }

  /**
   * The repeated obstacle collapses: `(13, 6)` is listed twice, so the collision board, whose
   * cell count is the number of distinct listed cells, has fewer cells than the list has entries.
   */
  lemma ColisionDuplicatesCollapse()
    ensures ColisionPositions()[80 + 20] == ColisionPositions()[80 + 39] == Pos(13, 6)
    ensures |set p | p in ColisionPositions()| < |ColisionPositions()|
  {
    BorderRingExact(SceneBoxes, SceneBoxes);
    assert |BorderRing(SceneBoxes, SceneBoxes)| == 80;
    assert Walls()[20] == Walls()[39] == Pos(13, 6);
    Duplicated(ColisionPositions(), 80 + 20, 80 + 39);
  }

  /** The collision board of `create`: new cells at the border ring and the walls, nothing else. */
  method CreateColisionBoard() returns (colision: Board)
    ensures fresh(colision) && colision.Valid() && colision.boxSize == FieldSize
    ensures colision.horizontalBoxes == SceneBoxes && colision.verticalBoxes == SceneBoxes
    ensures forall p :: Exist(colision.boxMap, p) <==> p in ColisionPositions()
    ensures colision.boxCount == |set p | p in ColisionPositions()|
  {
    var borders := InitBoardBorders(SceneBoxes, SceneBoxes);
    ColisionPositionsInGrid();
    colision := new Board(SceneBoxes, SceneBoxes, FieldSize, false, Some(borders + Walls()));
    FilledGridSpec(colision.boxMap, SceneBoxes, SceneBoxes, FieldSize, ColisionPositions());
  }

  /** The valid board of `create`: a full board with the collision board's cells removed. */
  method CreateValidBoard(colision: Board) returns (valid: Board)
    requires colision.Valid()
    ensures fresh(valid) && valid.Valid() && valid.boxSize == FieldSize
    ensures forall p :: Exist(valid.boxMap, p) <==> 0 <= p.x < SceneBoxes && 0 <= p.y < SceneBoxes && !Exist(colision.boxMap, p)
    ensures valid.goalPosition == Pos(-1, -1)
  {
    var full := new Board(SceneBoxes, SceneBoxes, FieldSize);
    FullGridSpec(full.boxMap, SceneBoxes, SceneBoxes, FieldSize);
    valid := full.RemoveFromBoard(colision);
  }

  /**
   * The particle manager of `create`: asked for 500 particles at `(100, 100)` with inaccuracy
   * between 0.5 and 1, it holds 500 particles at rest at `(0, 0)` (see `ParticleManager.InitManager`).
   */
  method CreateParticleManager(colision: Board) returns (m: ParticleManager)
    ensures fresh(m) && m.Valid() && m.colisionBoard == colision
    ensures |m.particles| == ParticleCount
    ensures m.inaccuracy == Some(SceneInaccuracy) && m.initialPosition == StartPosition && m.size == DefaultSize
    ensures forall i :: 0 <= i < |m.particles| ==>
      m.particles[i].size == DefaultSize && m.particles[i].Motion() == Collisions.Motion(0.0, 0.0, Zero)
  {
    m := new ParticleManager(ParticleCount, colision, DefaultSize, StartPosition, Some(SceneInaccuracy));
  }

  /** The two boards of the scene: both well formed and distinct, the valid one the complement of the other in the grid. */
  ghost predicate SceneBoards(colision: Board, valid: Board)
    reads colision, valid
  {
    colision.Valid() && valid.Valid() && colision != valid &&
    forall p :: Exist(valid.boxMap, p) <==> 0 <= p.x < SceneBoxes && 0 <= p.y < SceneBoxes && !Exist(colision.boxMap, p)
  }

  /** Both boards of `create`. */
  method CreateBoards() returns (colision: Board, valid: Board)
    ensures fresh(colision) && fresh(valid) && SceneBoards(colision, valid)
    ensures valid.goalPosition == Pos(-1, -1) && valid.boxSize == FieldSize && colision.boxSize == FieldSize
    ensures forall p :: Exist(colision.boxMap, p) <==> p in ColisionPositions()
  {
    colision := CreateColisionBoard();
    valid := CreateValidBoard(colision);
  }

  /**
   * Everything `create` builds: the two boards, the collision board holding exactly the border
   * ring and the walls and the valid board the other cells with no goal yet, and 500 particles
   * colliding against the collision board.
   */
  ghost predicate Created(colision: Board, valid: Board, manager: ParticleManager)
    reads colision, valid, manager
  {
    SceneBoards(colision, valid) && SceneLayout(colision, valid) && SceneManager(manager, colision)
  }

  /** The collision board holds exactly the listed cells, both boards have 40-unit cells, and there is no goal yet. */
  ghost predicate SceneLayout(colision: Board, valid: Board)
    reads colision, valid
  {
    (forall p :: Exist(colision.boxMap, p) <==> p in ColisionPositions()) &&
    valid.goalPosition == Pos(-1, -1) && valid.boxSize == FieldSize && colision.boxSize == FieldSize
  }

  /** The manager `create` configures: 500 particles, inaccuracy between 0.5 and 1, colliding against `colision`. */
  ghost predicate SceneManager(manager: ParticleManager, colision: Board)
    reads manager
  {
    manager.Valid() && manager.colisionBoard == colision &&
    |manager.particles| == ParticleCount &&
    manager.inaccuracy == Some(SceneInaccuracy) && manager.initialPosition == StartPosition &&
    manager.size == DefaultSize
  }

  /** Every particle of `manager` is at rest at `(0, 0)`, of size 5. */
  ghost predicate ParticlesAtOrigin(manager: ParticleManager)
    reads manager, set p | p in manager.particles
  {
    forall i :: 0 <= i < |manager.particles| ==>
      manager.particles[i].size == DefaultSize && manager.particles[i].Motion() == Collisions.Motion(0.0, 0.0, Zero)
  }

  /** The boards and the particle manager of `create`. */
  method CreateScene() returns (colision: Board, valid: Board, manager: ParticleManager)
    ensures fresh(colision) && fresh(valid) && fresh(manager)
    ensures Created(colision, valid, manager) && ParticlesAtOrigin(manager)
  {
    colision, valid := CreateBoards();
    manager := CreateParticleManager(colision);
  }

  /**
   * As built, the scene's particles never move: each one (`ParticlesAtOrigin`) sits at rest at `(0, 0)` with
   * size 5, and a particle in that state stays there. `(0, 0)` is a border cell
   * the valid board lacks, so the steering pass leaves it where it is (its lookup does not throw);
   * the only obstacle neighbours of that cell, right of and below it, are too far for a trigger to
   * fire; and a zero velocity moves it nowhere.
   */
  lemma SceneParticlesStayAtOrigin(sqrt: real -> real, colision: Board, valid: Board, manager: ParticleManager, draw: (real, real))
    requires IsSqrt(sqrt) && Created(colision, valid, manager)
    ensures !LookupThrows(0.0, 0.0, valid.boxSize)
    ensures manager.PathStep(sqrt, valid, Collisions.Motion(0.0, 0.0, Zero), DefaultSize, draw) == Collisions.Motion(0.0, 0.0, Zero)
  {
    CreatedCorner(colision, valid, manager);
    RestingCornerParticleStaysPut(manager, sqrt, valid, DefaultSize, draw);
  }

  /** What `SceneParticlesStayAtOrigin` needs of the scene: the corner cell is only a collision cell, and the sizes. */
  lemma CreatedCorner(colision: Board, valid: Board, manager: ParticleManager)
    requires Created(colision, valid, manager)
    ensures Exist(colision.boxMap, Pos(0, 0)) && !Exist(valid.boxMap, Pos(0, 0))
    ensures WellPlaced(colision.boxMap) && SizedCells(colision.boxMap, colision.boxSize)
    ensures manager.colisionBoard == colision && valid.boxSize == colision.boxSize == FieldSize && manager.size == DefaultSize
  {
    OriginIsColisionCell();
  }

  /** The corner cell `(0, 0)` is on the border ring, hence a collision cell. */
  lemma OriginIsColisionCell()
    ensures Pos(0, 0) in ColisionPositions()
  {
    BorderRingExact(SceneBoxes, SceneBoxes);
    assert OnBorder(Pos(0, 0), SceneBoxes, SceneBoxes);
    assert Pos(0, 0) in BorderRing(SceneBoxes, SceneBoxes);
  }

  class MainScene {
    var isTrackingPaused: bool
    const fieldSize: real
    const horizontalBoxes: nat
    const verticalBoxes: nat
    var validBoard: Board
    const colisionBoard: Board
    const particleManager: ParticleManager

    /** Both boards are well formed and distinct, and the manager collides against the collision board. */
    ghost predicate Valid()
      reads this, validBoard, colisionBoard, particleManager
    {
      SceneBoards(colisionBoard, validBoard) &&
      particleManager.Valid() && particleManager.colisionBoard == colisionBoard
    }

    /**
     * `init` then `create`: a 21 by 21 scene of 40-unit cells; the collision board holds exactly
     * the border ring and the walls, the valid board exactly the other cells and no goal, and 500
     * particles wait at `(0, 0)`.
     */
    static method Create() returns (s: MainScene)
      ensures fresh(s) && s.Valid()
      ensures Created(s.colisionBoard, s.validBoard, s.particleManager) && ParticlesAtOrigin(s.particleManager)
      ensures !s.isTrackingPaused
      ensures s.fieldSize == FieldSize && s.horizontalBoxes == SceneBoxes && s.verticalBoxes == SceneBoxes
    {
      var colision, valid, manager := CreateScene();
      s := new MainScene(colision, valid, manager);
    }

    /** The scene's fields, tracking on; the particles are left where they are. */
    constructor (colision: Board, valid: Board, manager: ParticleManager)
      requires ParticlesAtOrigin(manager)
      ensures ParticlesAtOrigin(particleManager)
      ensures colisionBoard == colision && validBoard == valid && particleManager == manager
      ensures !isTrackingPaused
      ensures fieldSize == FieldSize && horizontalBoxes == SceneBoxes && verticalBoxes == SceneBoxes
    {
      isTrackingPaused, fieldSize, horizontalBoxes, verticalBoxes := false, FieldSize, SceneBoxes, SceneBoxes;
      colisionBoard, validBoard, particleManager := colision, valid, manager;
    }

    /** The cell under the mouse. */
    function HoverCell(mouseX: real, mouseY: real): Pos
      reads this, validBoard
      requires validBoard.boxSize > 0.0
    {
      validBoard.GetBoxPositionByDimensions(mouseX, mouseY)
    }

    /** The guard of `update`: tracking is on, the hovered cell exists and it is not already the goal. */
    predicate ShouldResolve(mouseX: real, mouseY: real)
      reads this, validBoard
      requires validBoard.boxSize > 0.0
    {
      !isTrackingPaused && Exist(validBoard.boxMap, HoverCell(mouseX, mouseY)) &&
      validBoard.goalPosition != HoverCell(mouseX, mouseY)
    }

    /**
     * The goal part of `update`: when the guard holds the valid board is re-solved for the hovered
     * cell, otherwise it is left alone. Either way the guard is false afterwards, so a mouse that
     * stays put triggers no second solve.
     */
    method UpdateGoal(mouseX: real, mouseY: real)
      requires Valid()
      modifies this, validBoard
      ensures Valid() && validBoard == old(validBoard) && isTrackingPaused == old(isTrackingPaused)
      ensures old(ShouldResolve(mouseX, mouseY)) ==>
        validBoard.goalPosition == old(HoverCell(mouseX, mouseY)) &&
        SameTopology(old(validBoard.boxMap), validBoard.boxMap) &&
        DistancesFrom(validBoard.boxMap, validBoard.goalPosition)
      ensures !old(ShouldResolve(mouseX, mouseY)) ==> unchanged(validBoard)
      ensures !ShouldResolve(mouseX, mouseY)
    {
      if !isTrackingPaused {
        var hoverBoxPosition := validBoard.GetBoxPositionByDimensions(mouseX, mouseY);
        var boxExist := Exist(validBoard.boxMap, hoverBoxPosition);
        if boxExist && validBoard.goalPosition != hoverBoxPosition {
          ghost var g0 := validBoard.boxMap;
          validBoard := validBoard.CalculateBoxesDistance(hoverBoxPosition);
          SameTopologyPopulated(g0, validBoard.boxMap);
          assert Exist(validBoard.boxMap, hoverBoxPosition);
        }
      }
    }

    /**
     * `update`: the goal update, then one `moveByPath` of every particle over the (possibly
     * re-solved) valid board, which throws when the steering lookup of a particle does.
     */
    method Update(mouseX: real, mouseY: real, sqrt: real -> real, draws: seq<(real, real)>) returns (r: Result<()>)
      requires Valid() && IsSqrt(sqrt) && |draws| == |particleManager.particles|
      modifies this, validBoard, set p | p in particleManager.particles
      ensures Valid() && validBoard == old(validBoard)
      ensures old(ShouldResolve(mouseX, mouseY)) ==> validBoard.goalPosition == old(HoverCell(mouseX, mouseY))
      ensures !old(ShouldResolve(mouseX, mouseY)) ==> unchanged(validBoard)
      ensures !ShouldResolve(mouseX, mouseY)
      ensures r.Fault? <==> FirstThrowing(old(MotionsOf(particleManager.particles)), validBoard.boxSize) < |particleManager.particles|
      ensures r.Ok? ==> forall i :: 0 <= i < |particleManager.particles| ==>
        particleManager.particles[i].Motion() ==
          particleManager.PathStep(sqrt, validBoard, old(particleManager.particles[i].Motion()), particleManager.particles[i].size, draws[i])
    {
      ghost var before := MotionsOf(particleManager.particles);
      UpdateGoal(mouseX, mouseY);
      assert MotionsOf(particleManager.particles) == before;
      r := particleManager.MoveByPath(sqrt, validBoard, draws);
    }
  }
}
