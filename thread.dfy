/**
 * The main-thread end of one particle worker (`ParticleThread` in `src/objects/particleThread.ts`):
 * a share of the main-thread particles, the two boards, and the messages posted to the worker.
 * Posting is modelled by appending to `posted`; the worker's answers arrive through
 * `HandleMessage`.
 */
module ParticleThreads {
  import opened Wrappers
  import opened Geometry
  import opened BoardCodec
  import opened Boards
  import opened Grids
  import opened ShallowBoards
  import opened Collisions
  import opened ParticleManagers
  import opened ParticleWorkers

  /** The positions of a list of main-thread particles, in order. */
  function Locations(ps: seq<Particle>): (r: seq<Coords>)
    reads set p | p in ps
    ensures |r| == |ps|
    ensures forall i :: 0 <= i < |ps| ==> r[i] == Coords(ps[i].x, ps[i].y)
  {
    seq(|ps|, i requires 0 <= i < |ps| reads set p | p in ps => Coords(ps[i].x, ps[i].y))
  }

  /**
   * A positions reply, without its tag, that the thread can apply to `count` particles: a count
   * that is a natural number no larger than `count`, followed by that many pairs.
   */
  predicate SerializedFits(s: seq<real>, count: nat) {
    |s| >= 1 && IsNat(s[0]) && s[0].Floor <= count && 1 + 2 * s[0].Floor <= |s|
  }

  /** The positions such a reply carries. */
  function SerializedPositions(s: seq<real>, count: nat): (r: seq<Coords>)
    requires SerializedFits(s, count)
    ensures |r| == s[0].Floor
  {
    DecodeCoords(s[1..], s[0].Floor)
  }

  /** The `init` message of a thread whose particles are at `ps`. */
  function InitMessageOf(ps: seq<Coords>, validBoard: Board, colisionBoard: Board): WorkerMessage
    reads validBoard, colisionBoard
  {
    WorkerMessage(EncodeParticles(MsgType.Init, ps),
                  EncodeBoard(validBoard.horizontalBoxes, validBoard.verticalBoxes, validBoard.boxSize, validBoard.boxCount, Flat(validBoard.boxMap)),
                  EncodeBoard(colisionBoard.horizontalBoxes, colisionBoard.verticalBoxes, colisionBoard.boxSize, colisionBoard.boxCount, Flat(colisionBoard.boxMap)))
  }

  class ParticleThread {
    var particles: seq<Particle>
    const colisionBoard: Board
    const validBoard: Board
    var posted: seq<WorkerMessage>

    /** The thread's particles are distinct objects. */
    ghost predicate Valid()
      reads this
    {
      forall i, j :: 0 <= i < j < |particles| ==> particles[i] != particles[j]
    }

    constructor (particles: seq<Particle>, colisionBoard: Board, validBoard: Board)
      ensures this.particles == particles && this.colisionBoard == colisionBoard && this.validBoard == validBoard
      ensures posted == []
    {
      this.particles := particles;
      this.colisionBoard := colisionBoard;
      this.validBoard := validBoard;
      posted := [];
    }

    /** `init`: posts the particles' positions and both boards' encodings in one `init` message. */
    method Init()
      requires validBoard.Valid() && colisionBoard.Valid()
      modifies this
      ensures particles == old(particles)
      ensures posted == old(posted) + [InitMessageOf(Locations(particles), validBoard, colisionBoard)]
    {
      var validBoardBuffer := validBoard.ToArrayBuffer();
      var colisionBoardBuffer := colisionBoard.ToArrayBuffer();
      var particlesArrayBuffer := ParticlesToArrayBuffer();
      posted := posted + [WorkerMessage(particlesArrayBuffer, validBoardBuffer, colisionBoardBuffer)];
    }

    /**
     * `handleMessage`: an `updatedPositions` answer moves the particles it names; `initDone`,
     * `setVectorsDone` and anything else change nothing.
     */
    method HandleMessage(buff: seq<real>)
      requires Valid()
      requires MessageTag(buff) == Some(UpdatedPositions) ==> SerializedFits(buff[1..], |particles|)
      modifies set p | p in particles
      ensures MessageTag(buff) == Some(UpdatedPositions) ==>
        forall i :: 0 <= i < |particles| ==>
          particles[i].Motion() ==
            if i < buff[1].Floor then Collisions.Motion(SerializedPositions(buff[1..], |particles|)[i].x, SerializedPositions(buff[1..], |particles|)[i].y, old(particles[i].velocity))
            else old(particles[i].Motion())
      ensures MessageTag(buff) != Some(UpdatedPositions) ==>
        forall i :: 0 <= i < |particles| ==> particles[i].Motion() == old(particles[i].Motion())
    {
      if MessageTag(buff) == Some(UpdatedPositions) {
        UpdateParticleGameObjectsPositons(buff[1..]);
      }
    }

    /** `updateParticleGameObjectsPositons`: the first `serialized[0]` particles are moved to the pairs that follow. */
    method UpdateParticleGameObjectsPositons(serialized: seq<real>)
      requires Valid() && SerializedFits(serialized, |particles|)
      modifies set p | p in particles
      ensures forall i :: 0 <= i < |particles| ==>
        particles[i].Motion() ==
          if i < serialized[0].Floor then Collisions.Motion(SerializedPositions(serialized, |particles|)[i].x, SerializedPositions(serialized, |particles|)[i].y, old(particles[i].velocity))
          else old(particles[i].Motion())
    {
      var length := serialized[0].Floor;
      var offset := 1;
      for i := 0 to length
        invariant forall k :: 0 <= k < |particles| ==>
          particles[k].Motion() ==
            if k < i then Collisions.Motion(serialized[2 * k + offset], serialized[2 * k + offset + 1], old(particles[k].velocity))
            else old(particles[k].Motion())
      {
        var firstElement := i * 2 + offset;
        particles[i].x := serialized[firstElement];
        particles[i].y := serialized[firstElement + 1];
      }
    }

    /** `updateBoardVectors`: posts a `setVectors` message carrying the valid board's new encoding. */
    method UpdateBoardVectors()
      requires validBoard.Valid()
      modifies this
      ensures particles == old(particles)
      ensures posted == old(posted) + [WorkerMessage([TagCode(MsgType.SetVectors)],
        EncodeBoard(validBoard.horizontalBoxes, validBoard.verticalBoxes, validBoard.boxSize, validBoard.boxCount, Flat(validBoard.boxMap)), [])]
    {
      var validBoardBuffer := validBoard.ToArrayBuffer();
      posted := posted + [WorkerMessage([TagCode(MsgType.SetVectors)], validBoardBuffer, [])];
    }

    /** `updateParticlesPositions`: posts a bare `updatePositions` message. */
    method UpdateParticlesPositions()
      modifies this
      ensures particles == old(particles)
      ensures posted == old(posted) + [WorkerMessage([TagCode(UpdatePositions)], [], [])]
    {
      posted := posted + [WorkerMessage([TagCode(UpdatePositions)], [], [])];
    }

    /** `particlesToArrayBuffer`: the tag `init`, the number of particles, and their positions. */
    method ParticlesToArrayBuffer() returns (r: seq<real>)
      ensures r == EncodeParticles(MsgType.Init, Locations(particles))
    {
      var a := new real[|particles| * 2 + 2];
      var offset := 2;
      a[0] := TagCode(MsgType.Init);
      a[1] := |particles| as real;
      for i := 0 to |particles|
        invariant a[0] == TagCode(MsgType.Init) && a[1] == |particles| as real
        invariant forall k :: 0 <= k < i ==> a[2 * k + offset] == particles[k].x && a[2 * k + offset + 1] == particles[k].y
      {
        var particle := particles[i];
        var targetArrayFirstPosition := i * 2 + offset;
        a[targetArrayFirstPosition] := particle.x;
        a[targetArrayFirstPosition + 1] := particle.y;
      }
      r := a[..];
      PairsAreCoordinates(r[2..], Locations(particles));
      assert r == [r[0], r[1]] + r[2..];
    }
  }

  /** A sequence holding the pairs of `ps` in order is their `Coordinates`. */
  lemma PairsAreCoordinates(s: seq<real>, ps: seq<Coords>)
    requires |s| == 2 * |ps|
    requires forall k :: 0 <= k < |ps| ==> s[2 * k] == ps[k].x && s[2 * k + 1] == ps[k].y
    ensures s == Coordinates(ps)
  {
    var c := Coordinates(ps);
    forall j | 0 <= j < |s|
      ensures s[j] == c[j]
    {
      var k := j / 2;
      if j == 2 * k {
        assert s[2 * k] == ps[k].x;
      } else {
        assert j == 2 * k + 1;
        assert s[2 * k + 1] == ps[k].y;
      }
    }
  }

  /**
   * The `init` round trip: the message a thread posts is one the worker accepts, and the worker
   * reads back exactly the thread's particle positions and the two boards' encodings.
   */
  lemma InitRoundTrip(ps: seq<Coords>, validBoard: Board, colisionBoard: Board)
    requires validBoard.Valid() && colisionBoard.Valid()
    ensures var m := InitMessageOf(ps, validBoard, colisionBoard);
      MessageTag(m.buff) == Some(MsgType.Init) && InitMessage(m) &&
      m.buff[1].Floor == |ps| && DecodeCoords(m.buff[2..], |ps|) == ps
  {
    ParticlesRoundTrip(MsgType.Init, ps);
    NatIsNat(|ps|);
    EncodingIsBoardBuffer(validBoard);
    EncodingIsBoardBuffer(colisionBoard);
  }

  /**
   * The positions round trip: a worker's `updatedPositions` answer for `ps` fits a thread with at
   * least `|ps|` particles, is dispatched to the update, and carries back exactly `ps`.
   */
  lemma PositionsRoundTrip(ps: seq<Coords>, count: nat)
    requires |ps| <= count
    ensures var buff := EncodeParticles(UpdatedPositions, ps);
      MessageTag(buff) == Some(UpdatedPositions) && SerializedFits(buff[1..], count) &&
      buff[1].Floor == |ps| && SerializedPositions(buff[1..], count) == ps
  {
    var buff := EncodeParticles(UpdatedPositions, ps);
    ParticlesRoundTrip(UpdatedPositions, ps);
    NatIsNat(|ps|);
    assert buff[1..][1..] == buff[2..];
  }
}
