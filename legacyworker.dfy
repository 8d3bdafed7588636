/**
 * The older particle worker (`src/boilerplate/workers/particleWorker.ts`): particles kept as bare
 * positions, two older worker-side boards, and a message `switch` whose `setVectors` case falls
 * into an `updatePosition` case that does nothing. Posting a reply is modelled as returning it.
 */
module LegacyParticleWorkers {
  import opened Wrappers
  import opened BoardCodec
  import opened LegacyShallowBoards
  import opened ParticleWorkers

  /** What `setVectors` throws when the valid board does not exist yet. */
  const NoBoardError := "TypeError: Cannot read property 'setShallowBoxMap' of undefined"

  /**
   * What the older `init` message must carry: a count of particles that is a natural number, that
   * many coordinate pairs after it, and two buffers the older board can be built from.
   */
  predicate LegacyInitMessage(data: WorkerMessage) {
    |data.buff| >= 2 && IsNat(data.buff[1]) && 2 * data.buff[1].Floor <= |data.buff| - 2 &&
    IsLegacyBuffer(data.validBoardBuffer) && IsLegacyBuffer(data.colisionBoardBuffer)
  }

  /**
   * The replies the older `onmessage` posts for a message with the given tag, depending on whether
   * the valid board exists; the `setVectors` case throws before replying when it does not.
   */
  function LegacyReplies(tag: Option<MsgType>, hasBoard: bool): (r: Result<seq<seq<real>>>)
    ensures r.Fault? <==> tag == Some(MsgType.SetVectors) && !hasBoard
    ensures r.Ok? && |r.value| > 0 <==> tag == Some(Init) || (tag == Some(MsgType.SetVectors) && hasBoard)
    ensures r.Ok? ==> |r.value| <= 1
    ensures r.Ok? ==> forall k :: 0 <= k < |r.value| ==>
      |r.value[k]| == 1 && MessageTag(r.value[k]) != Some(UpdatedPositions)
  {
    TagRoundTrip(InitDone);
    TagRoundTrip(SetVectorsDone);
    if tag == Some(Init) then Ok([[TagCode(InitDone)]])
    else if tag == Some(MsgType.SetVectors) then
      if hasBoard then Ok([[TagCode(SetVectorsDone)]]) else Fault(NoBoardError)
    else Ok([])
  }

  class LegacyParticleWorker {
    var particles: seq<Coords>
    var board: LegacyShallowBoard?
    var colisionBoard: LegacyShallowBoard?

    /** The two boards are distinct objects. */
    ghost predicate Valid()
      reads this
    {
      board != null ==> board != colisionBoard
    }

    /** A worker with no particles and no boards yet. */
    constructor ()
      ensures Valid() && particles == [] && board == null && colisionBoard == null
    {
      particles := [];
      board := null;
      colisionBoard := null;
    }

    /** `initParticles(array, length)`: appends `length` particles, the `i`-th at `(array[2i], array[2i + 1])`. */
    method InitParticles(values: seq<real>, length: nat)
      requires 2 * length <= |values|
      modifies this
      ensures board == old(board) && colisionBoard == old(colisionBoard)
      ensures particles == old(particles) + DecodeCoords(values, length)
    {
      ghost var added: seq<Coords> := [];
      for i := 0 to length
        invariant board == old(board) && colisionBoard == old(colisionBoard)
        invariant |added| == i && particles == old(particles) + added
        invariant forall k :: 0 <= k < i ==> added[k] == Coords(values[2 * k], values[2 * k + 1])
      {
        var x := values[i * 2];
        var y := values[i * 2 + 1];
        particles := particles + [Coords(x, y)];
        added := added + [Coords(x, y)];
      }
      assert added == DecodeCoords(values, length);
    }

    /** `initValidBoard`: a new older board decoded from `buffer`. */
    method InitValidBoard(buffer: seq<real>)
      requires IsLegacyBuffer(buffer)
      modifies this
      ensures fresh(board) && board.DecodedFrom(buffer)
      ensures particles == old(particles) && colisionBoard == old(colisionBoard)
    {
      board := new LegacyShallowBoard(buffer);
    }

    /** `initColisionBoard`: a new older collision board decoded from `buffer`. */
    method InitColisionBoard(buffer: seq<real>)
      requires IsLegacyBuffer(buffer)
      modifies this
      ensures fresh(colisionBoard) && colisionBoard.DecodedFrom(buffer)
      ensures particles == old(particles) && board == old(board)
    {
      colisionBoard := new LegacyShallowBoard(buffer);
    }

    /**
     * `setVectors(buffer)`: the four header entries are dropped and the records after them are
     * written into the valid board, as many as the older loop visits; before the boards exist it
     * throws.
     */
    method SetVectors(buffer: seq<real>) returns (r: Result<()>)
      requires board != null ==> |buffer| >= 4 && LegacyFit(board.shallowBoxMap, buffer[4..], LoopCount(|buffer| - 4))
      modifies board
      ensures r.Fault? <==> board == null
      ensures board != null ==> board.shallowBoxMap == LegacyPlace(old(board.shallowBoxMap), buffer[4..], LoopCount(|buffer| - 4))
    {
      if board == null {
        return Fault(NoBoardError);
      }
      board.SetShallowBoxMap(buffer[4..]);
      r := Ok(());
    }

    /**
     * The older `onmessage` handler. `init` creates the particles and both boards and answers
     * `initDone`. `setVectors` refreshes the valid board and answers `setVectorsDone`, then falls
     * into `updatePosition`, which does nothing. Any other buffer gets no answer and changes
     * nothing. The replies are `LegacyReplies` of the tag.
     */
    method OnMessage(data: WorkerMessage) returns (r: Result<seq<seq<real>>>)
      requires Valid()
      requires MessageTag(data.buff) == Some(Init) ==> LegacyInitMessage(data)
      requires MessageTag(data.buff) == Some(MsgType.SetVectors) && board != null ==>
        |data.validBoardBuffer| >= 4 && LegacyFit(board.shallowBoxMap, data.validBoardBuffer[4..], LoopCount(|data.validBoardBuffer| - 4))
      modifies this, board
      ensures Valid()
      ensures r == LegacyReplies(MessageTag(data.buff), old(board) != null)
      ensures MessageTag(data.buff) == Some(Init) ==>
        particles == old(particles) + DecodeCoords(data.buff[2..], data.buff[1].Floor) &&
        fresh(board) && board.DecodedFrom(data.validBoardBuffer) &&
        fresh(colisionBoard) && colisionBoard.DecodedFrom(data.colisionBoardBuffer)
      ensures MessageTag(data.buff) == Some(MsgType.SetVectors) && old(board) != null ==>
        particles == old(particles) && board == old(board) && colisionBoard == old(colisionBoard) &&
        board.shallowBoxMap == LegacyPlace(old(board.shallowBoxMap), data.validBoardBuffer[4..], LoopCount(|data.validBoardBuffer| - 4))
      ensures MessageTag(data.buff) != Some(Init) && MessageTag(data.buff) != Some(MsgType.SetVectors) ==>
        particles == old(particles) && board == old(board) && colisionBoard == old(colisionBoard) &&
        (board != null ==> board.shallowBoxMap == old(board.shallowBoxMap))
    {
      var tag := MessageTag(data.buff);
      if tag == Some(Init) {
        InitParticles(data.buff[2..], data.buff[1].Floor);
        InitValidBoard(data.validBoardBuffer);
        InitColisionBoard(data.colisionBoardBuffer);
        return Ok([[TagCode(InitDone)]]);
      }
      var posted: seq<seq<real>> := [];
      if tag == Some(MsgType.SetVectors) {
        var done := SetVectors(data.validBoardBuffer);
        if done.Fault? {
          return Fault(NoBoardError);
        }
        posted := [[TagCode(SetVectorsDone)]];
      }
      if tag == Some(MsgType.SetVectors) || tag == Some(UpdatePositions) {
        UpdateParticlesPositions();
      }
      r := Ok(posted);
    }

    /** `updateParticlesPositions`: an empty body; the worker's state is as it was. */
    method UpdateParticlesPositions()
    {
    }
  }

  /**
   * Where the two workers differ on `setVectors`: once the boards exist, the older one answers
   * `setVectorsDone` alone, while the current one's fall-through adds a positions answer.
   */
  lemma SetVectorsRepliesDiffer(hasBoard: bool, positions: seq<real>)
    requires hasBoard
    ensures LegacyReplies(Some(MsgType.SetVectors), hasBoard) == Ok([[TagCode(SetVectorsDone)]])
    ensures LegacyReplies(Some(MsgType.SetVectors), hasBoard) != Ok([[TagCode(SetVectorsDone)]] + [positions])
  {
    var a := [[TagCode(SetVectorsDone)]];
    assert |a + [positions]| == 2;
  }
}
