/**
 * One cell of a board (`Box` in `src/objects/box.ts`) without its drawing: its address, its size,
 * the distance and visited flag written by the breadth-first fill, and its force vector.
 */
module Boxes {
  import opened Geometry
  import opened PureVectors
  import opened ForceVectors
  import opened Wrappers
  import opened Points
  import opened Utils

  /** The state of a Box as a value, as the boards store and compare it. */
  datatype BoxState = BoxState(position: Pos, size: real, distance: int, visited: bool, force: Vec) {
    /** The centre of the cell, as the constructor computes `_boxCenterPosition`. */
    function CenterX(): real {
      CenterCoordinate(position.x, size)
    }

    function CenterY(): real {
      CenterCoordinate(position.y, size)
    }

    /** `reset`: unvisited, distance 0, force (0, 0). */
    function Reset(): BoxState {
      this.(distance := 0, visited := false, force := Zero)
    }
  }

  /** `new Box({ position, size })`: the constructor's defaults are distance 0, unvisited, force (0, 0). */
  function NewBox(position: Pos, size: real): (b: BoxState)
    ensures b.position == position && b.size == size
  {
    BoxState(position, size, 0, false, Zero)
  }

  /** `reset` returns any cell to the state it had when it was built, whatever the fill wrote into it. */
  lemma ResetIsFresh(b: BoxState)
    ensures b.Reset() == NewBox(b.position, b.size)
    ensures b.Reset().Reset() == b.Reset()
    ensures b.Reset().position == b.position && b.Reset().CenterX() == b.CenterX() && b.Reset().CenterY() == b.CenterY()
  {
  }

  /** The centre of a cell with non-negative address lies in that cell: converting it back yields the address. */
  lemma CenterIsInsideCell(b: BoxState)
    requires b.position.x >= 0 && b.position.y >= 0 && b.size > 0.0
    ensures CellOf(b.CenterX(), b.CenterY(), b.size) == b.position
  {
    CenterInCell(b.position.x, b.size);
    CenterInCell(b.position.y, b.size);
  }

  function PositionOf(b: BoxState): Pos {
    b.position
  }

  function Positions(bs: seq<BoxState>): (ps: seq<Pos>)
    ensures |ps| == |bs|
    ensures forall i :: 0 <= i < |bs| ==> ps[i] == bs[i].position
  {
    if bs == [] then [] else [bs[0].position] + Positions(bs[1..])
  }

  /** `uniqueBoxArray`: first-occurrence deduplication keyed on the box's position. */
  function UniqueBoxArray(bs: seq<BoxState>): seq<BoxState> {
    UniqueBy(bs, PositionOf)
  }

  /**
   * The output of `uniqueBoxArray` keeps the first box of every position, in input order, and no
   * two of its boxes share a position; deduplicating again changes nothing.
   */
  lemma UniqueBoxArraySpec(bs: seq<BoxState>)
    ensures FirstOccurrences(UniqueBoxArray(bs), bs, PositionOf)
    ensures forall j, j' :: 0 <= j < j' < |UniqueBoxArray(bs)| ==> UniqueBoxArray(bs)[j].position != UniqueBoxArray(bs)[j'].position
    ensures forall b :: b in UniqueBoxArray(bs) ==> b in bs
    ensures forall b :: b in bs ==> exists b' :: b' in UniqueBoxArray(bs) && b'.position == b.position
    ensures UniqueBoxArray(UniqueBoxArray(bs)) == UniqueBoxArray(bs)
  {
    UniqueBySpec(bs, PositionOf);
    var u := UniqueBoxArray(bs);
    assert forall j, j' :: 0 <= j < j' < |u| ==> PositionOf(u[j]) != PositionOf(u[j']);
    UniqueByElements(bs, PositionOf);
    forall b | b in bs
      ensures exists b' :: b' in u && b'.position == b.position
    {
      var b' :| b' in u && PositionOf(b') == PositionOf(b);
    }
    UniqueByIdempotent(bs, PositionOf);
  }

  /**
   * Deduplicating boxes by position and then taking their positions is deduplicating the positions:
   * a list of boxes can be followed through `uniqueBoxArray` by their addresses alone.
   */
  lemma UniqueBoxArrayPositions(bs: seq<BoxState>)
    ensures Positions(UniqueBoxArray(bs)) == UniquePointArray(Positions(bs))
  {
    KeepFirstsPositions(bs, |bs|);
  }

  lemma {:induction false} FindIndexPositions(bs: seq<BoxState>, k: Pos)
    ensures FindIndex(bs, PositionOf, k) == FindIndex(Positions(bs), PointKey, k)
  {
    if bs != [] {
      FindIndexPositions(bs[1..], k);
      assert Positions(bs)[1..] == Positions(bs[1..]);
    }
  }

  lemma {:induction false} KeepFirstsPositions(bs: seq<BoxState>, n: nat)
    requires n <= |bs|
    ensures Positions(KeepFirsts(bs, PositionOf, n)) == KeepFirsts(Positions(bs), PointKey, n)
  {
    if n > 0 {
      var ps := Positions(bs);
      KeepFirstsPositions(bs, n - 1);
      var kb := KeepFirsts(bs, PositionOf, n - 1);
      var tb: seq<BoxState> := if FindIndex(bs, PositionOf, PositionOf(bs[n - 1])) == n - 1 then [bs[n - 1]] else [];
      assert KeepFirsts(bs, PositionOf, n) == kb + tb;
      KeptTail(bs, n);
      assert KeepFirsts(ps, PointKey, n) == KeepFirsts(ps, PointKey, n - 1) + Positions(tb);
      PositionsAppend(kb, tb);
    }
  }

  /** Whether the `n`-th cell is kept does not depend on whether cells or their addresses are deduplicated. */
  lemma KeptTail(bs: seq<BoxState>, n: nat)
    requires 0 < n <= |bs|
    ensures var ps := Positions(bs);
      Positions(if FindIndex(bs, PositionOf, PositionOf(bs[n - 1])) == n - 1 then [bs[n - 1]] else []) ==
      if FindIndex(ps, PointKey, PointKey(ps[n - 1])) == n - 1 then [ps[n - 1]] else []
  {
    FindIndexPositions(bs, bs[n - 1].position);
  }

  lemma {:induction false} PositionsAppend(a: seq<BoxState>, b: seq<BoxState>)
    ensures Positions(a + b) == Positions(a) + Positions(b)
  {
    if a != [] {
      PositionsAppend(a[1..], b);
      assert (a + b)[1..] == a[1..] + b;
    }
  }

  /** A Box object: its fields are updated by the setters, `reset` and `resetForce`. */
  class Box {
    var distance: int
    var visited: bool
    const position: Pos
    var forceVector: ForceVector
    const size: real

    /** The cell as a value. */
    function State(): BoxState
      reads this, forceVector
    {
      BoxState(position, size, distance, visited, forceVector.Value())
    }

    /**
     * `new Box(config)`: distance 0, unvisited and a new zero force vector unless the config gives
     * them; a force vector given in the config is shared, not copied.
     */
    constructor (position: Pos, size: real, distance: int := 0, visited: bool := false, forceVector: Option<ForceVector> := None)
      ensures this.position == position && this.size == size
      ensures this.distance == distance && this.visited == visited
      ensures forceVector.Some? ==> this.forceVector == forceVector.value
      ensures forceVector.None? ==> fresh(this.forceVector) && this.forceVector.Value() == Zero
    {
      this.position := position;
      this.size := size;
      this.distance := distance;
      this.visited := visited;
      if forceVector.Some? {
        this.forceVector := forceVector.value;
      } else {
        this.forceVector := new ForceVector(0.0, 0.0);
      }
    }

    /** The `boxCenterPosition` getter: a new point each time, so the caller cannot move the cell's centre. */
    method BoxCenterPosition() returns (p: Point)
      ensures fresh(p)
      ensures p.x == position.x as real * size + size * 0.5 && p.y == position.y as real * size + size * 0.5
    {
      p := new Point(position.x as real * size + size * 0.5, position.y as real * size + size * 0.5);
    }

    method SetDistance(value: int)
      modifies this
      ensures distance == value
      ensures visited == old(visited) && forceVector == old(forceVector)
    {
      distance := value;
    }

    method SetVisited(value: bool)
      modifies this
      ensures visited == value
      ensures distance == old(distance) && forceVector == old(forceVector)
    {
      visited := value;
    }

    /** The `forceVector` setter replaces the vector object itself. */
    method SetForceVector(value: ForceVector)
      modifies this
      ensures forceVector == value
      ensures distance == old(distance) && visited == old(visited)
    {
      forceVector := value;
    }

    /** `resetForce`: zeroes the components of the same vector object. */
    method ResetForce()
      modifies forceVector
      ensures forceVector.Value() == Zero
    {
      forceVector.x := 0.0;
      forceVector.y := 0.0;
    }

    /** `reset`: the state becomes `BoxState.Reset`, and the force vector object is kept. */
    method Reset()
      modifies this, forceVector
      ensures forceVector == old(forceVector)
      ensures State() == old(State()).Reset()
    {
      visited := false;
      distance := 0;
      ResetForce();
    }
  }
}
