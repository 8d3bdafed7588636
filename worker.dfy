/**
 * The particle worker (`src/workers/particleWorker.ts`): a share of the particles as
 * `ShallowParticle`s, and two worker-side boards decoded from the buffers the main thread sends.
 * Each message is a buffer whose first entry is a `PTMsgType` tag; the worker answers with buffers
 * of its own. Posting a reply is modelled as returning it: `OnMessage` returns the replies it posts,
 * in order, or a fault where the source throws.
 */
module ParticleWorkers {
  import opened Wrappers
  import opened PureVectors
  import opened ForceVectors
  import opened Geometry
  import opened BoardCodec
  import opened ShallowBoards
  import opened Collisions
  import opened ShallowParticles
  import opened Boxes
  import opened Grids
  import opened Boards
  import opened ParticleManagers

  /**
   * One particle's share of `updateParticlesPositions`: with no cell of the valid board under its
   * corner it moves by its velocity; otherwise it is steered by the cell's force, checked once for
   * collisions against the collision board, and moved by its velocity scaled by the two draws.
   */
  function WorkerStep(sqrt: real -> real, valid: ShallowMap, validSize: real, colision: ShallowMap, colisionSize: real,
                      m: Motion, size: real, mass: real, draw: (real, real)): Motion
    requires IsSqrt(sqrt) && mass != 0.0 && validSize > 0.0 && colisionSize > 0.0
  {
    var c := CellOf(m.x, m.y, validSize);
    var cell := ShallowLookup(valid, c.x, c.y);
    if cell.None? then MoveStep(m, false, draw)
    else
      var steered := Collisions.Motion(m.x, m.y, SteeredVelocity(sqrt, m.velocity, cell.value.force, mass));
      var collided := Collide(steered, ShallowObstacles(colision, colisionSize, steered.x, steered.y, size), colisionSize, size);
      MoveStep(collided, true, draw)
  }

  /** The positions of a list of particles, in order. */
  function ParticlePositions(ps: seq<ShallowParticle>): (r: seq<Coords>)
    reads set p | p in ps
    ensures |r| == |ps|
    ensures forall i :: 0 <= i < |ps| ==> r[i] == ps[i].Position()
  {
    if ps == [] then [] else ParticlePositions(ps[..|ps| - 1]) + [ps[|ps| - 1].Position()]
  }

  /** The coordinates of one more particle: those of the particles before it, then its own. */
  lemma PositionsStep(ps: seq<ShallowParticle>, i: nat)
    requires i < |ps|
    ensures Coordinates(ParticlePositions(ps[..i + 1])) == Coordinates(ParticlePositions(ps[..i])) + [ps[i].x, ps[i].y]
  {
    assert ps[..i + 1][..i] == ps[..i];
    CoordinatesAppend(ParticlePositions(ps[..i]), ps[i].Position());
  }

  /** A message posted to the worker: the tagged buffer, and the board buffers where the message carries them. */
  datatype WorkerMessage = WorkerMessage(buff: seq<real>, validBoardBuffer: seq<real>, colisionBoardBuffer: seq<real>)

  /** The tag of a message's buffer, `None` when the buffer is empty or its first entry is no tag. */
  function MessageTag(buff: seq<real>): Option<MsgType> {
    if |buff| == 0 then None else TagOf(buff[0])
  }

  /**
   * What an `init` message must carry: a count of particles that is a natural number, that many
   * coordinate pairs after it, and two board buffers.
   */
  predicate InitMessage(data: WorkerMessage) {
    |data.buff| >= 2 && IsNat(data.buff[1]) && 2 * data.buff[1].Floor <= |data.buff| - 2 &&
    IsBoardBuffer(data.validBoardBuffer) && IsBoardBuffer(data.colisionBoardBuffer)
  }

  class ParticleWorker {
    var particles: seq<ShallowParticle>
    var board: WorkerShallowBoard?
    var colisionBoard: WorkerShallowBoard?

    /**
     * The particles and their velocity objects are pairwise distinct and of the default size and
     * mass; both boards are set or neither is, they are distinct, and their cells have positive size.
     */
    ghost predicate Valid()
      reads this, set p | p in particles
    {
      (forall i, j :: 0 <= i < j < |particles| ==> particles[i] != particles[j] && particles[i].velocity != particles[j].velocity) &&
      (forall i :: 0 <= i < |particles| ==> particles[i].size == DefaultSize && particles[i].mass == DefaultMass) &&
      (board == null <==> colisionBoard == null) &&
      (board != null ==> board != colisionBoard && board.boxSize > 0.0 && colisionBoard.boxSize > 0.0)
    }

    /** A worker with no particles and no boards yet. */
    constructor ()
      ensures Valid() && particles == [] && board == null && colisionBoard == null
    {
      particles := [];
      board := null;
      colisionBoard := null;
    }

    /**
     * `initParticles(array, length)`: appends `length` new particles at rest, the `i`-th at
     * `(values[2i], values[2i + 1])`.
     */
    method InitParticles(values: seq<real>, length: nat)
      requires Valid() && 2 * length <= |values|
      modifies this
      ensures Valid() && board == old(board) && colisionBoard == old(colisionBoard)
      ensures |particles| == |old(particles)| + length && particles[..|old(particles)|] == old(particles)
      ensures ParticlePositions(particles[|old(particles)|..]) == DecodeCoords(values, length)
      ensures forall i :: |old(particles)| <= i < |particles| ==>
        fresh(particles[i]) && fresh(particles[i].velocity) && particles[i].velocity.Value() == Zero
    {
      var n := |particles|;
      for i := 0 to length
        invariant |particles| == n + i && particles[..n] == old(particles)
        invariant board == old(board) && colisionBoard == old(colisionBoard)
        invariant Valid()
        invariant forall k :: n <= k < |particles| ==>
          fresh(particles[k]) && fresh(particles[k].velocity) && particles[k].velocity.Value() == Zero &&
          particles[k].Position() == Coords(values[2 * (k - n)], values[2 * (k - n) + 1])
      {
        PushParticle(Coords(values[i * 2], values[i * 2 + 1]));
      }
      assert ParticlePositions(particles[n..]) == DecodeCoords(values, length);
    }

    /** One `particles.push(new ShallowParticle(position))` of `initParticles`. */
    method PushParticle(position: Coords)
      requires Valid()
      modifies this
      ensures Valid() && board == old(board) && colisionBoard == old(colisionBoard)
      ensures |particles| == |old(particles)| + 1 && particles[..|old(particles)|] == old(particles)
      ensures var p := particles[|old(particles)|];
        fresh(p) && fresh(p.velocity) && p.velocity.Value() == Zero && p.Position() == position
    {
      var p := new ShallowParticle(position);
      particles := particles + [p];
    }

    /** `initValidBoard`: a new board decoded from `buffer`. */
    method InitValidBoard(buffer: seq<real>)
      requires IsBoardBuffer(buffer)
      modifies this
      ensures fresh(board) && board.DecodedFrom(buffer)
      ensures particles == old(particles) && colisionBoard == old(colisionBoard)
    {
      board := new WorkerShallowBoard(buffer);
    }

    /** `initColisionBoard`: a new collision board decoded from `buffer`. */
    method InitColisionBoard(buffer: seq<real>)
      requires IsBoardBuffer(buffer)
      modifies this
      ensures fresh(colisionBoard) && colisionBoard.DecodedFrom(buffer)
      ensures particles == old(particles) && board == old(board)
    {
      colisionBoard := new WorkerShallowBoard(buffer);
    }

    /**
     * `setVectors(buffer)`: the four header entries are dropped and the records after them are
     * written into the valid board; calling it before the boards exist throws.
     */
    method SetVectors(buffer: seq<real>) returns (r: Result<()>)
      requires Valid()
      requires board != null ==> |buffer| >= 4 && RecordsFit(board.shallowBoxMap, buffer[4..], board.boxCount)
      modifies board
      ensures r.Fault? <==> board == null
      ensures board != null ==> board.shallowBoxMap == PlaceRecords(old(board.shallowBoxMap), buffer[4..], board.boxCount, board.boxSize)
    {
      if board == null {
        return Fault("TypeError: Cannot read property 'setShallowBoxMap' of undefined");
      }
      board.SetShallowBoxMap(buffer[4..]);
      r := Ok(());
    }

    /** `serializeParticles`: the tag `updatedPositions`, the number of particles, and their positions. */
    method SerializeParticles() returns (r: seq<real>)
      ensures r == EncodeParticles(UpdatedPositions, ParticlePositions(particles))
    {
      r := [TagCode(UpdatedPositions), |particles| as real];
      for i := 0 to |particles|
        invariant r == [TagCode(UpdatedPositions), |particles| as real] + Coordinates(ParticlePositions(particles[..i]))
      {
        var p := particles[i];
        PositionsStep(particles, i);
        r := r + [p.x, p.y];
      }
      assert particles[..|particles|] == particles;
    }

    /**
     * `updateParticlesPositions`: nothing happens and nothing is returned before the boards exist;
     * otherwise every particle takes its `WorkerStep`, independently of the others, and the new
     * positions are serialized.
     */
    method UpdateParticlesPositions(sqrt: real -> real, draws: seq<(real, real)>) returns (r: Option<seq<real>>)
      requires Valid() && IsSqrt(sqrt) && |draws| == |particles|
      modifies set p | p in particles, set p | p in particles :: p.velocity
      ensures Valid()
      ensures r.None? <==> board == null
      ensures board == null ==> forall i :: 0 <= i < |particles| ==> particles[i].Motion() == old(particles[i].Motion())
      ensures board != null ==> forall i :: 0 <= i < |particles| ==>
        particles[i].Motion() == WorkerStep(sqrt, board.shallowBoxMap, board.boxSize, colisionBoard.shallowBoxMap, colisionBoard.boxSize, old(particles[i].Motion()), DefaultSize, DefaultMass, draws[i])
      ensures r.Some? ==> r.value == EncodeParticles(UpdatedPositions, ParticlePositions(particles))
    {
      if board == null {
        return None;
      }
      StepAll(sqrt, draws);
      var s := SerializeParticles();
      r := Some(s);
    }

    /**
     * The `onmessage` handler. `init` creates the particles and both boards and answers `initDone`.
     * `setVectors` refreshes the valid board's forces and answers `setVectorsDone`, and then, as its
     * `case` has no `return`, goes on into `updatePositions`, which moves the particles and answers
     * with their new positions once the boards exist. Any other buffer gets no answer.
     */
    method OnMessage(data: WorkerMessage, sqrt: real -> real, draws: seq<(real, real)>) returns (r: Result<seq<seq<real>>>)
      requires Valid() && IsSqrt(sqrt) && |draws| == |particles|
      requires MessageTag(data.buff) == Some(Init) ==> InitMessage(data)
      requires MessageTag(data.buff) == Some(MsgType.SetVectors) && board != null ==>
        |data.validBoardBuffer| >= 4 && RecordsFit(board.shallowBoxMap, data.validBoardBuffer[4..], board.boxCount)
      modifies this, board, set p | p in particles, set p | p in particles :: p.velocity
      ensures MessageTag(data.buff) == Some(Init) ==>
        r == Ok([[TagCode(InitDone)]]) && Valid() &&
        |particles| == |old(particles)| + data.buff[1].Floor && particles[..|old(particles)|] == old(particles) &&
        ParticlePositions(particles[|old(particles)|..]) == DecodeCoords(data.buff[2..], data.buff[1].Floor) &&
        fresh(board) && board.DecodedFrom(data.validBoardBuffer) &&
        fresh(colisionBoard) && colisionBoard.DecodedFrom(data.colisionBoardBuffer)
      ensures MessageTag(data.buff) == Some(MsgType.SetVectors) && old(board) == null ==> r.Fault?
      ensures MessageTag(data.buff) == Some(MsgType.SetVectors) && old(board) != null ==>
        r == Ok([[TagCode(SetVectorsDone)]] + [EncodeParticles(UpdatedPositions, ParticlePositions(particles))]) &&
        Valid() && particles == old(particles) && board == old(board) &&
        board.shallowBoxMap == PlaceRecords(old(board.shallowBoxMap), data.validBoardBuffer[4..], board.boxCount, board.boxSize) &&
        forall i :: 0 <= i < |particles| ==>
          particles[i].Motion() == WorkerStep(sqrt, board.shallowBoxMap, board.boxSize, colisionBoard.shallowBoxMap, colisionBoard.boxSize, old(particles[i].Motion()), DefaultSize, DefaultMass, draws[i])
      ensures MessageTag(data.buff) == Some(UpdatePositions) && old(board) != null ==>
        r == Ok([EncodeParticles(UpdatedPositions, ParticlePositions(particles))]) &&
        Valid() && particles == old(particles) && board == old(board) &&
        forall i :: 0 <= i < |particles| ==>
          particles[i].Motion() == WorkerStep(sqrt, board.shallowBoxMap, board.boxSize, colisionBoard.shallowBoxMap, colisionBoard.boxSize, old(particles[i].Motion()), DefaultSize, DefaultMass, draws[i])
      ensures (MessageTag(data.buff) !in {Some(Init), Some(MsgType.SetVectors), Some(UpdatePositions)} ||
               (MessageTag(data.buff) == Some(UpdatePositions) && old(board) == null)) ==>
        r == Ok([]) && Valid() && particles == old(particles) && board == old(board) &&
        forall i :: 0 <= i < |particles| ==> particles[i].Motion() == old(particles[i].Motion())
    {
      var tag := MessageTag(data.buff);
      if tag == Some(Init) {
        r := InitCase(data);
      } else if tag == Some(MsgType.SetVectors) {
        r := SetVectorsCase(data, sqrt, draws);
      } else if tag == Some(UpdatePositions) {
        r := UpdatePositionsCase([], sqrt, draws);
      } else {
        r := Ok([]);
      }
    }

    /** The `init` case: particles, then the valid board, then the collision board; answers `initDone`. */
    method InitCase(data: WorkerMessage) returns (r: Result<seq<seq<real>>>)
      requires Valid() && InitMessage(data)
      modifies this
      ensures r == Ok([[TagCode(InitDone)]]) && Valid()
      ensures |particles| == |old(particles)| + data.buff[1].Floor && particles[..|old(particles)|] == old(particles)
      ensures ParticlePositions(particles[|old(particles)|..]) == DecodeCoords(data.buff[2..], data.buff[1].Floor)
      ensures fresh(board) && board.DecodedFrom(data.validBoardBuffer)
      ensures fresh(colisionBoard) && colisionBoard.DecodedFrom(data.colisionBoardBuffer)
    {
      InitParticles(data.buff[2..], data.buff[1].Floor);
      InitBoards(data.validBoardBuffer, data.colisionBoardBuffer);
      r := Ok([[TagCode(InitDone)]]);
    }

    /** The two board initialisations of the `init` case. */
    method InitBoards(validBoardBuffer: seq<real>, colisionBoardBuffer: seq<real>)
      requires Valid() && IsBoardBuffer(validBoardBuffer) && IsBoardBuffer(colisionBoardBuffer)
      modifies this
      ensures Valid() && particles == old(particles)
      ensures fresh(board) && board.DecodedFrom(validBoardBuffer)
      ensures fresh(colisionBoard) && colisionBoard.DecodedFrom(colisionBoardBuffer)
    {
      InitValidBoard(validBoardBuffer);
      InitColisionBoard(colisionBoardBuffer);
    }

    /** The `setVectors` case: the forces are refreshed, `setVectorsDone` is posted, and control falls into `updatePositions`. */
    method SetVectorsCase(data: WorkerMessage, sqrt: real -> real, draws: seq<(real, real)>) returns (r: Result<seq<seq<real>>>)
      requires Valid() && IsSqrt(sqrt) && |draws| == |particles|
      requires board != null ==> |data.validBoardBuffer| >= 4 && RecordsFit(board.shallowBoxMap, data.validBoardBuffer[4..], board.boxCount)
      modifies board, set p | p in particles, set p | p in particles :: p.velocity
      ensures old(board) == null ==> r.Fault?
      ensures board != null ==>
        r == Ok([[TagCode(SetVectorsDone)]] + [EncodeParticles(UpdatedPositions, ParticlePositions(particles))]) && Valid() &&
        board.shallowBoxMap == PlaceRecords(old(board.shallowBoxMap), data.validBoardBuffer[4..], board.boxCount, board.boxSize) &&
        forall i :: 0 <= i < |particles| ==>
          particles[i].Motion() == WorkerStep(sqrt, board.shallowBoxMap, board.boxSize, colisionBoard.shallowBoxMap, colisionBoard.boxSize, old(particles[i].Motion()), DefaultSize, DefaultMass, draws[i])
    {
      var done := SetVectors(data.validBoardBuffer);
      if done.Fault? {
        return Fault(done.message);
      }
      r := UpdatePositionsCase([[TagCode(SetVectorsDone)]], sqrt, draws);
    }

    /**
     * The `updatePositions` case, entered with the answers already posted: the new positions are
     * posted after them once the boards exist; before that the handler returns.
     */
    method UpdatePositionsCase(posted: seq<seq<real>>, sqrt: real -> real, draws: seq<(real, real)>) returns (r: Result<seq<seq<real>>>)
      requires Valid() && IsSqrt(sqrt) && |draws| == |particles|
      modifies set p | p in particles, set p | p in particles :: p.velocity
      ensures Valid()
      ensures board == null ==> r == Ok(posted) && forall i :: 0 <= i < |particles| ==> particles[i].Motion() == old(particles[i].Motion())
      ensures board != null ==> posted == [] ==> r == Ok([EncodeParticles(UpdatedPositions, ParticlePositions(particles))])
      ensures board != null ==>
        r == Ok(posted + [EncodeParticles(UpdatedPositions, ParticlePositions(particles))]) &&
        forall i :: 0 <= i < |particles| ==>
          particles[i].Motion() == WorkerStep(sqrt, board.shallowBoxMap, board.boxSize, colisionBoard.shallowBoxMap, colisionBoard.boxSize, old(particles[i].Motion()), DefaultSize, DefaultMass, draws[i])
    {
      var positions := UpdateParticlesPositions(sqrt, draws);
      if positions.None? {
        return Ok(posted);
      }
      assert posted == [] ==> posted + [positions.value] == [positions.value];
      r := Ok(posted + [positions.value]);
    }

    /** The loop of `updateParticlesPositions`: every particle takes its `WorkerStep`, in order. */
    method StepAll(sqrt: real -> real, draws: seq<(real, real)>)
      requires Valid() && IsSqrt(sqrt) && |draws| == |particles| && board != null
      modifies set p | p in particles, set p | p in particles :: p.velocity
      ensures Valid()
      ensures forall i :: 0 <= i < |particles| ==>
        particles[i].Motion() == WorkerStep(sqrt, board.shallowBoxMap, board.boxSize, colisionBoard.shallowBoxMap, colisionBoard.boxSize, old(particles[i].Motion()), DefaultSize, DefaultMass, draws[i])
    {
      for i := 0 to |particles|
        invariant Valid()
        invariant forall k :: 0 <= k < i ==>
          particles[k].Motion() == WorkerStep(sqrt, board.shallowBoxMap, board.boxSize, colisionBoard.shallowBoxMap, colisionBoard.boxSize, old(particles[k].Motion()), DefaultSize, DefaultMass, draws[k])
        invariant forall k :: i <= k < |particles| ==>
          particles[k].Motion() == old(particles[k].Motion()) && particles[k].velocity == old(particles[k].velocity)
      {
        StepAt(i, sqrt, draws[i]);
      }
    }

    /** One iteration of `updateParticlesPositions`'s loop: particle `i` steps and every other particle is left alone. */
    method StepAt(i: nat, sqrt: real -> real, draw: (real, real))
      requires Valid() && IsSqrt(sqrt) && i < |particles| && board != null
      modifies particles[i], particles[i].velocity
      ensures Valid()
      ensures particles[i].Motion() == WorkerStep(sqrt, board.shallowBoxMap, board.boxSize, colisionBoard.shallowBoxMap, colisionBoard.boxSize, old(particles[i].Motion()), DefaultSize, DefaultMass, draw)
      ensures forall k :: 0 <= k < |particles| && k != i ==>
        particles[k].Motion() == old(particles[k].Motion()) && particles[k].velocity == old(particles[k].velocity)
    {
      StepParticle(particles[i], sqrt, draw);
    }

    /** The body of `updateParticlesPositions`'s loop for one particle. */
    method StepParticle(p: ShallowParticle, sqrt: real -> real, draw: (real, real))
      requires IsSqrt(sqrt) && p.mass == DefaultMass && p.size == DefaultSize
      requires board != null && colisionBoard != null && board.boxSize > 0.0 && colisionBoard.boxSize > 0.0
      modifies p, p.velocity
      ensures p.Motion() == WorkerStep(sqrt, board.shallowBoxMap, board.boxSize, colisionBoard.shallowBoxMap, colisionBoard.boxSize, old(p.Motion()), DefaultSize, DefaultMass, draw)
      ensures p.velocity == old(p.velocity) || fresh(p.velocity)
    {
      ghost var m0 := p.Motion();
      var cell := board.GetBoxByDimensions(p.x, p.y);
      if cell.None? {
        var _ := p.MoveByVelocity();
      } else {
        var target := new ForceVector(cell.value.force.x, cell.value.force.y);
        var q := p.SetVelocity(sqrt, target);
        ghost var m1 := p.Motion();
        assert m1 == Collisions.Motion(m0.x, m0.y, SteeredVelocity(sqrt, m0.velocity, cell.value.force, DefaultMass));
        assert q == p;
        q := q.CheckColisions(colisionBoard);
        ghost var m2 := p.Motion();
        assert m2 == Collide(m1, ShallowObstacles(colisionBoard.shallowBoxMap, colisionBoard.boxSize, m1.x, m1.y, DefaultSize), colisionBoard.boxSize, DefaultSize);
        assert q == p;
        q := q.MoveWithInaccuracyByVelocity(draw.0, draw.1);
        assert p.Motion() == MoveStep(m2, true, draw);
      }
    }
  }

  /** The centre a worker reads from a light cell is the centre of the board cell it copies. */
  lemma CentreOfCopy(o: Option<BoxState>, size: real)
    requires o.Some? ==> o.value.size == size
    ensures CentreOf(ShallowOpt(o, size)) == BoxCentre(o)
  {
  }

  /**
   * Over a collision board decoded from a valid board's encoding, a particle meets the obstacles
   * the main thread's collision pass finds for it on that board.
   */
  lemma ObstaclesAgree(cb: Board, cs: WorkerShallowBoard, m: Motion, size: real)
    requires cb.Valid()
    requires cs.DecodedFrom(EncodeBoard(cb.horizontalBoxes, cb.verticalBoxes, cb.boxSize, cb.boxCount, Flat(cb.boxMap)))
    ensures cs.boxSize == cb.boxSize
    ensures ShallowObstacles(cs.shallowBoxMap, cs.boxSize, m.x, m.y, size) == BoardObstacles(cb.boxMap, cb.boxSize, m, size)
  {
    BoardRoundTrip(cb, cs);
    MirroredObstacles(cs.shallowBoxMap, cb.boxMap, cb.boxSize, m, size);
  }

  /** A map that mirrors a grid whose cells have side `boxSize` shows a particle the grid's obstacles. */
  lemma MirroredObstacles(sm: ShallowMap, g: Grid, boxSize: real, m: Motion, size: real)
    requires Mirrors(sm, g, boxSize) && SizedCells(g, boxSize) && boxSize > 0.0
    ensures ShallowObstacles(sm, boxSize, m.x, m.y, size) == BoardObstacles(g, boxSize, m, size)
  {
    var p := CellOf(m.x + size * 0.5, m.y + size * 0.5, boxSize);
    NeighbourAgrees(sm, g, boxSize, Pos(p.x + 1, p.y));
    NeighbourAgrees(sm, g, boxSize, Pos(p.x - 1, p.y));
    NeighbourAgrees(sm, g, boxSize, Pos(p.x, p.y + 1));
    NeighbourAgrees(sm, g, boxSize, Pos(p.x, p.y - 1));
    ShallowObstaclesAround(sm, boxSize, m, size);
    BoardObstaclesAround(g, boxSize, m, size);
  }

  /** Both kinds of obstacles are read from the four orthogonal neighbours of the same cell. */
  lemma ShallowObstaclesAround(sm: ShallowMap, boxSize: real, m: Motion, size: real)
    requires boxSize > 0.0
    ensures var p := CellOf(m.x + size * 0.5, m.y + size * 0.5, boxSize);
      ShallowObstacles(sm, boxSize, m.x, m.y, size) ==
        Obstacles(CentreOf(ShallowLookup(sm, p.x + 1, p.y)), CentreOf(ShallowLookup(sm, p.x - 1, p.y)),
                  CentreOf(ShallowLookup(sm, p.x, p.y + 1)), CentreOf(ShallowLookup(sm, p.x, p.y - 1)))
  {
  }

  lemma BoardObstaclesAround(g: Grid, boxSize: real, m: Motion, size: real)
    requires boxSize > 0.0
    ensures var p := CellOf(m.x + size * 0.5, m.y + size * 0.5, boxSize);
      BoardObstacles(g, boxSize, m, size) ==
        Obstacles(BoxCentre(GetBoxByPosition(g, Pos(p.x + 1, p.y))), BoxCentre(GetBoxByPosition(g, Pos(p.x - 1, p.y))),
                  BoxCentre(GetBoxByPosition(g, Pos(p.x, p.y + 1))), BoxCentre(GetBoxByPosition(g, Pos(p.x, p.y - 1))))
  {
  }

  /** One slot of a mirroring map, seen through the centre a collision check reads. */
  lemma NeighbourAgrees(sm: ShallowMap, g: Grid, boxSize: real, q: Pos)
    requires Mirrors(sm, g, boxSize) && SizedCells(g, boxSize)
    ensures CentreOf(ShallowLookup(sm, q.x, q.y)) == BoxCentre(GetBoxByPosition(g, q))
  {
    assert ShallowLookup(sm, q.x, q.y) == ShallowOpt(GetBoxByPosition(g, Pos(q.x, q.y)), boxSize);
    var o := GetBoxByPosition(g, q);
    assert o.Some? ==> Exist(g, q);
    CentreOfCopy(o, boxSize);
  }

  /**
   * The worker and the main thread move a particle over a cell alike: over boards decoded from
   * valid boards' encodings, `WorkerStep` is the main thread's steering, collision and inaccurate
   * movement steps applied in turn to that one particle.
   */
  lemma WorkerStepAgreesWithManager(sqrt: real -> real, b: Board, cb: Board, s: WorkerShallowBoard, cs: WorkerShallowBoard,
                                    m: Motion, draw: (real, real))
    requires IsSqrt(sqrt) && b.Valid() && cb.Valid()
    requires s.DecodedFrom(EncodeBoard(b.horizontalBoxes, b.verticalBoxes, b.boxSize, b.boxCount, Flat(b.boxMap)))
    requires cs.DecodedFrom(EncodeBoard(cb.horizontalBoxes, cb.verticalBoxes, cb.boxSize, cb.boxCount, Flat(cb.boxMap)))
    requires GetBoxByPosition(b.boxMap, CellOf(m.x, m.y, b.boxSize)).Some?
    ensures WorkerStep(sqrt, s.shallowBoxMap, s.boxSize, cs.shallowBoxMap, cs.boxSize, m, DefaultSize, DefaultMass, draw) ==
      MoveStep(Collide(SteerStep(sqrt, b.boxMap, b.boxSize, m, DefaultMass),
                       BoardObstacles(cb.boxMap, cb.boxSize, SteerStep(sqrt, b.boxMap, b.boxSize, m, DefaultMass), DefaultSize),
                       cb.boxSize, DefaultSize),
               true, draw)
  {
    var c := CellOf(m.x, m.y, b.boxSize);
    BoardRoundTrip(b, s);
    assert s.GetBoxByPosition(c.x, c.y) == ShallowOpt(GetBoxByPosition(b.boxMap, c), b.boxSize);
    var steered := SteerStep(sqrt, b.boxMap, b.boxSize, m, DefaultMass);
    ObstaclesAgree(cb, cs, steered, DefaultSize);
  }

  /**
   * A particle with no cell under it is moved once, by its velocity, with no collision check; the
   * main thread's `moveByPath` moves such a particle twice (`LostParticleMovesTwice`).
   */
  lemma LostParticleMovesOnce(sqrt: real -> real, valid: ShallowMap, validSize: real, colision: ShallowMap, colisionSize: real,
                              m: Motion, draw: (real, real))
    requires IsSqrt(sqrt) && validSize > 0.0 && colisionSize > 0.0
    requires !ShallowExist(valid, CellOf(m.x, m.y, validSize).x, CellOf(m.x, m.y, validSize).y)
    ensures WorkerStep(sqrt, valid, validSize, colision, colisionSize, m, DefaultSize, DefaultMass, draw) ==
      Collisions.Motion(m.x + m.velocity.x, m.y + m.velocity.y, m.velocity)
  {
  }

  lemma CoordinatesAppend(ps: seq<Coords>, c: Coords)
    ensures Coordinates(ps + [c]) == Coordinates(ps) + [c.x, c.y]
  {
    var l := Coordinates(ps + [c]);
    assert |l| == |Coordinates(ps) + [c.x, c.y]|;
    forall k | 0 <= k < |l|
      ensures l[k] == (Coordinates(ps) + [c.x, c.y])[k]
    {
      if k < 2 * |ps| {
        assert (ps + [c])[k / 2] == ps[k / 2];
      } else {
        assert (ps + [c])[|ps|] == c;
      }
    }
  }
}
