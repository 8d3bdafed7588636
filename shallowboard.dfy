/**
 * The worker-side copy of a board (`WorkerShallowBoard` in
 * `src/workersObjects/workerShallowBoard.ts`): decoded from the board encoding into a sparse grid
 * of light cells, re-filled by `setShallowBoxMap` when new vectors arrive, and queried by address
 * or by world point.
 */
module ShallowBoards {
  import opened Geometry
  import opened Wrappers
  import opened PureVectors
  import opened Boxes
  import opened Grids
  import opened BoardCodec
  import opened Boards

  /** A decoded cell: its address, its centre and its force. */
  datatype ShallowBox = ShallowBox(positionX: int, positionY: int, centerPositionX: real, centerPositionY: real, force: Vec)

  type ShallowMap = seq<seq<Option<ShallowBox>>>

  /** The light cell the worker holds for a board cell of the given size. */
  function ShallowOf(b: BoxState, size: real): ShallowBox {
    ShallowBox(b.position.x, b.position.y, CenterCoordinate(b.position.x, size), CenterCoordinate(b.position.y, size), b.force)
  }

  function ShallowOpt(o: Option<BoxState>, size: real): Option<ShallowBox> {
    if o.Some? then Some(ShallowOf(o.value, size)) else None
  }

  predicate InMap(m: ShallowMap, p: Pos) {
    0 <= p.x < |m| && 0 <= p.y < |m[p.x]|
  }

  /** `h` columns of `v` slots. */
  predicate Shaped(m: ShallowMap, h: int, v: int) {
    |m| == h && forall c :: 0 <= c < |m| ==> |m[c]| == v
  }

  /** `exist` on a map: both coordinates non-negative, inside the arrays, and a cell in the slot. */
  predicate ShallowExist(m: ShallowMap, x: int, y: int) {
    x >= 0 && y >= 0 && |m| > x && |m[x]| > y && m[x][y].Some?
  }

  /** `getBoxByPosition` on a map: the cell when `exist` holds, otherwise `undefined`. */
  function ShallowLookup(m: ShallowMap, x: int, y: int): (r: Option<ShallowBox>)
    ensures r.Some? <==> ShallowExist(m, x, y)
  {
    if ShallowExist(m, x, y) then m[x][y] else None
  }

  /** `initShallowBoxMap`'s first step: `h` columns of `v` empty slots. */
  function EmptyShallowMap(h: nat, v: nat): (m: ShallowMap)
    ensures Shaped(m, h, v)
    ensures forall c, r :: 0 <= c < h && 0 <= r < v ==> m[c][r].None?
  {
    seq(h, c => seq(v, r => None))
  }

  /** The address record `i` of `data` names. */
  function RecordAddress(data: seq<real>, i: nat): Pos
    requires 4 * i + 3 < |data|
  {
    Pos(data[4 * i].Floor, data[4 * i + 1].Floor)
  }

  /** The cell `setShallowBoxMap` builds from record `i`. */
  function RecordBox(data: seq<real>, i: nat, size: real): ShallowBox
    requires 4 * i + 3 < |data|
  {
    ShallowBox(data[4 * i].Floor, data[4 * i + 1].Floor,
      data[4 * i] * size + size * 0.5, data[4 * i + 1] * size + size * 0.5,
      Vec(data[4 * i + 2], data[4 * i + 3]))
  }

  /**
   * The first `n` records are present and each names, by two natural numbers, a slot of `m`. A
   * record outside the map makes `setShallowBoxMap` throw or grow a column; see README.
   */
  predicate RecordsFit(m: ShallowMap, data: seq<real>, n: nat) {
    4 * n <= |data| &&
    forall i :: 0 <= i < n ==> IsNat(data[4 * i]) && IsNat(data[4 * i + 1]) && InMap(m, RecordAddress(data, i))
  }

  /** The map after writing records `0 .. n - 1` into `m`, in order. */
  function PlaceRecords(m: ShallowMap, data: seq<real>, n: nat, size: real): (r: ShallowMap)
    requires RecordsFit(m, data, n)
    ensures |r| == |m| && forall c :: 0 <= c < |m| ==> |r[c]| == |m[c]|
  {
    if n == 0 then m
    else
      var prev := PlaceRecords(m, data, n - 1, size);
      var p := RecordAddress(data, n - 1);
      prev[p.x := prev[p.x][p.y := Some(RecordBox(data, n - 1, size))]]
  }

  /** The last of the first `n` records that names `p`, or -1 when none does. */
  function LastNaming(data: seq<real>, n: nat, p: Pos): (r: int)
    requires 4 * n <= |data|
    ensures -1 <= r < n
    ensures r >= 0 ==> RecordAddress(data, r) == p
    ensures forall i :: r < i < n ==> RecordAddress(data, i) != p
  {
    if n == 0 then -1
    else if RecordAddress(data, n - 1) == p then n - 1
    else LastNaming(data, n - 1, p)
  }

  /**
   * After the records are written, a slot holds the cell of the last record naming it, and a slot
   * no record names keeps its old content.
   */
  lemma {:induction false} PlaceRecordsAt(m: ShallowMap, data: seq<real>, n: nat, size: real, p: Pos)
    requires RecordsFit(m, data, n) && InMap(m, p)
    ensures PlaceRecords(m, data, n, size)[p.x][p.y] ==
      if LastNaming(data, n, p) < 0 then m[p.x][p.y] else Some(RecordBox(data, LastNaming(data, n, p), size))
  {
    if n > 0 {
      PlaceSlot(m, data, n, size, p);
      PlaceRecordsAt(m, data, n - 1, size, p);
    }
  }

  /** The slot at `p` after `n` records: record `n - 1`'s cell if it names `p`, else what was there before it. */
  lemma PlaceSlot(m: ShallowMap, data: seq<real>, n: nat, size: real, p: Pos)
    requires 0 < n && RecordsFit(m, data, n) && InMap(m, p)
    ensures RecordsFit(m, data, n - 1)
    ensures PlaceRecords(m, data, n, size)[p.x][p.y] ==
      if RecordAddress(data, n - 1) == p then Some(RecordBox(data, n - 1, size)) else PlaceRecords(m, data, n - 1, size)[p.x][p.y]
  {
  }

  /** Writing record `i` after the first `i`, for `i` below a count of records that fit. */
  lemma PlaceOneMore(m: ShallowMap, data: seq<real>, n: nat, i: nat, size: real)
    requires RecordsFit(m, data, n) && i < n
    ensures RecordsFit(m, data, i) && RecordsFit(m, data, i + 1)
    ensures var p := RecordAddress(data, i);
      InMap(PlaceRecords(m, data, i, size), p) &&
      PlaceRecords(m, data, i + 1, size) ==
        PlaceRecords(m, data, i, size)[p.x := PlaceRecords(m, data, i, size)[p.x][p.y := Some(RecordBox(data, i, size))]]
  {
  }

  /** The buffer a worker-side board can be built from: a header of natural numbers and a positive size, then fitting records. */
  predicate IsBoardBuffer(buffer: seq<real>) {
    |buffer| >= 4 && IsNat(buffer[0]) && IsNat(buffer[1]) && buffer[2] > 0.0 && IsNat(buffer[3]) &&
    RecordsFit(EmptyShallowMap(buffer[0].Floor, buffer[1].Floor), buffer[4..], buffer[3].Floor)
  }

  /** The records of a well-placed grid's listing name its cells: record `i` is the `i`-th cell. */
  lemma RecordsOfFlat(g: Grid, h: nat, v: nat, size: real, i: nat)
    requires (g == [] || Rectangular(g, h, v)) && WellPlaced(g)
    requires i < |Flat(g)|
    ensures 4 * i + 3 < |Records(Flat(g))|
    ensures RecordAddress(Records(Flat(g)), i) == Flat(g)[i].position
    ensures RecordBox(Records(Flat(g)), i, size) == ShallowOf(Flat(g)[i], size)
    ensures Exist(g, Flat(g)[i].position) && At(g, Flat(g)[i].position) == Flat(g)[i]
    ensures 0 <= Flat(g)[i].position.x < h && 0 <= Flat(g)[i].position.y < v
    ensures IsNat(Records(Flat(g))[4 * i]) && IsNat(Records(Flat(g))[4 * i + 1])
  {
    var bs := Flat(g);
    var rs := Records(bs);
    RecordEntries(bs, i);
    FlatAt(g, i);
    RecordOfBox(rs, i, bs[i], size);
  }

  /** A record holding a cell's position and force reads back as that cell's light copy. */
  lemma RecordOfBox(rs: seq<real>, i: nat, b: BoxState, size: real)
    requires 4 * i + 3 < |rs|
    requires rs[4 * i] == b.position.x as real && rs[4 * i + 1] == b.position.y as real
    requires rs[4 * i + 2] == b.force.x && rs[4 * i + 3] == b.force.y
    ensures RecordAddress(rs, i) == b.position
    ensures RecordBox(rs, i, size) == ShallowOf(b, size)
  {
    assert (b.position.x as real).Floor == b.position.x && (b.position.y as real).Floor == b.position.y;
  }

  /**
   * Round trip: decoding the records of a valid board's cells into an empty `h` by `v` map puts,
   * at every address, the light copy of that board's cell, and leaves every empty address empty.
   */
  lemma DecodeRecords(g: Grid, h: nat, v: nat, size: real)
    requires (g == [] || Rectangular(g, h, v)) && WellPlaced(g)
    ensures RecordsFit(EmptyShallowMap(h, v), Records(Flat(g)), |Flat(g)|)
    ensures forall p :: InMap(EmptyShallowMap(h, v), p) ==>
      PlaceRecords(EmptyShallowMap(h, v), Records(Flat(g)), |Flat(g)|, size)[p.x][p.y] == ShallowOpt(GetBoxByPosition(g, p), size)
  {
    var bs := Flat(g);
    var data := Records(bs);
    var m := EmptyShallowMap(h, v);
    forall i | 0 <= i < |bs|
      ensures IsNat(data[4 * i]) && IsNat(data[4 * i + 1]) && InMap(m, RecordAddress(data, i))
    {
      RecordsOfFlat(g, h, v, size, i);
    }
    forall p | InMap(m, p)
      ensures PlaceRecords(m, data, |bs|, size)[p.x][p.y] == ShallowOpt(GetBoxByPosition(g, p), size)
    {
      if Exist(g, p) {
        FlatMembers(g, At(g, p));
        var b :| b in bs && b == At(g, p);
        var k :| 0 <= k < |bs| && bs[k] == b;
        RecordsOfFlat(g, h, v, size, k);
        PlaceRecordsAt(m, data, |bs|, size, p);
        var i := LastNaming(data, |bs|, p);
        assert i >= k;
        RecordsOfFlat(g, h, v, size, i);
      } else {
        forall i | 0 <= i < |bs|
          ensures RecordAddress(data, i) != p
        {
          RecordsOfFlat(g, h, v, size, i);
        }
        PlaceRecordsAt(m, data, |bs|, size, p);
      }
    }
  }

  /** A valid board's encoding is a buffer a worker-side board can be built from, with the board's header. */
  lemma EncodingIsBoardBuffer(b: Board)
    requires b.Valid()
    ensures var buffer := EncodeBoard(b.horizontalBoxes, b.verticalBoxes, b.boxSize, b.boxCount, Flat(b.boxMap));
      IsBoardBuffer(buffer) &&
      buffer[0].Floor == b.horizontalBoxes && buffer[1].Floor == b.verticalBoxes &&
      buffer[2] == b.boxSize && buffer[3].Floor == b.boxCount && buffer[4..] == Records(Flat(b.boxMap))
  {
    var buffer := EncodeBoard(b.horizontalBoxes, b.verticalBoxes, b.boxSize, b.boxCount, Flat(b.boxMap));
    NatIsNat(b.horizontalBoxes);
    NatIsNat(b.verticalBoxes);
    NatIsNat(b.boxCount);
    DecodeRecords(b.boxMap, b.horizontalBoxes, b.verticalBoxes, b.boxSize);
  }

  class WorkerShallowBoard {
    const boxSize: real
    const boxCount: nat
    const verticalBoxes: nat
    const horizontalBoxes: nat
    var shallowBoxMap: ShallowMap

    /** The state the constructor leaves for `buffer`: its header, and its records written into an empty map. */
    ghost predicate DecodedFrom(buffer: seq<real>)
      reads this
    {
      IsBoardBuffer(buffer) &&
      horizontalBoxes == buffer[0].Floor && verticalBoxes == buffer[1].Floor &&
      boxSize == buffer[2] && boxCount == buffer[3].Floor &&
      shallowBoxMap == PlaceRecords(EmptyShallowMap(horizontalBoxes, verticalBoxes), buffer[4..], boxCount, boxSize)
    }

    /** `new WorkerShallowBoard(buffer)`: the header, then `initShallowBoxMap` on the rest. */
    constructor (buffer: seq<real>)
      requires IsBoardBuffer(buffer)
      ensures DecodedFrom(buffer)
    {
      horizontalBoxes := buffer[0].Floor;
      boxCount := buffer[3].Floor;
      verticalBoxes := buffer[1].Floor;
      boxSize := buffer[2];
      shallowBoxMap := [];
      new;
      InitShallowBoxMap(buffer[4..]);
    }

    /** `initShallowBoxMap`: `h` empty columns of `v` slots, then the records. */
    method InitShallowBoxMap(boxMap: seq<real>)
      requires RecordsFit(EmptyShallowMap(horizontalBoxes, verticalBoxes), boxMap, boxCount)
      modifies this
      ensures shallowBoxMap == PlaceRecords(EmptyShallowMap(horizontalBoxes, verticalBoxes), boxMap, boxCount, boxSize)
    {
      var m: ShallowMap := [];
      var col := 0;
      while col < horizontalBoxes
        invariant 0 <= col <= horizontalBoxes && |m| == col
        invariant forall c :: 0 <= c < col ==> m[c] == seq(verticalBoxes, r => None)
      {
        m := m + [seq(verticalBoxes, r => None)];
        col := col + 1;
      }
      assert m == EmptyShallowMap(horizontalBoxes, verticalBoxes);
      shallowBoxMap := m;
      SetShallowBoxMap(boxMap);
    }

    /**
     * `setShallowBoxMap`: writes `boxCount` records (the count read at construction, whatever the
     * length of `boxMap`), each at the address it names; every other slot keeps its content.
     */
    method SetShallowBoxMap(boxMap: seq<real>)
      requires RecordsFit(shallowBoxMap, boxMap, boxCount)
      modifies this
      ensures shallowBoxMap == PlaceRecords(old(shallowBoxMap), boxMap, boxCount, boxSize)
    {
      ghost var m0 := shallowBoxMap;
      var i := 0;
      while i < boxCount
        invariant 0 <= i <= boxCount
        invariant shallowBoxMap == PlaceRecords(m0, boxMap, i, boxSize)
      {
        PlaceOneMore(m0, boxMap, boxCount, i, boxSize);
        var p := RecordAddress(boxMap, i);
        var cell := RecordBox(boxMap, i, boxSize);
        assert InMap(shallowBoxMap, p);
        shallowBoxMap := shallowBoxMap[p.x := shallowBoxMap[p.x][p.y := Some(cell)]];
        i := i + 1;
      }
    }

    /**
     * `getBoxPositionByDimensions`: truncating division, as on the main board. The source repeats the
     * method in this class; it is `Geometry.CellOf`, as on the main board.
     */
    function GetBoxPositionByDimensions(x: real, y: real): (p: Pos)
      reads this
      requires boxSize > 0.0
      ensures p == Pos(Trunc(x / boxSize), Trunc(y / boxSize))
    {
      CellCoordinateIsTrunc(x, boxSize);
      CellCoordinateIsTrunc(y, boxSize);
      CellOf(x, y, boxSize)
    }

    predicate Exist(x: int, y: int)
      reads this
    {
      ShallowExist(shallowBoxMap, x, y)
    }

    function GetBoxByPosition(x: int, y: int): Option<ShallowBox>
      reads this
    {
      ShallowLookup(shallowBoxMap, x, y)
    }

    /**
     * `getBoxByDimensions`: the column is bounded by the number of columns and must hold an array,
     * so unlike the main board a negative column yields `undefined`; a negative row reads a missing
     * index, also `undefined`. It is lookup by address of the cell under the point.
     */
    function GetBoxByDimensions(dimX: real, dimY: real): (r: Option<ShallowBox>)
      reads this
      requires boxSize > 0.0
      ensures r == GetBoxByPosition(GetBoxPositionByDimensions(dimX, dimY).x, GetBoxPositionByDimensions(dimX, dimY).y)
      ensures Shaped(shallowBoxMap, horizontalBoxes, verticalBoxes) ==>
        (GetBoxPositionByDimensions(dimX, dimY).x >= horizontalBoxes || GetBoxPositionByDimensions(dimX, dimY).y >= verticalBoxes) ==> r.None?
    {
      var p := GetBoxPositionByDimensions(dimX, dimY);
      if |shallowBoxMap| > p.x && 0 <= p.x && |shallowBoxMap[p.x]| > p.y then
        if p.y >= 0 then shallowBoxMap[p.x][p.y] else None
      else None
    }

    /** `getShallowNamedChildrens`: each neighbour by its direction, as on the main board. */
    function GetShallowNamedChildrens(x: int, y: int): ShallowNamedChildrens
      reads this
    {
      ShallowNeighbours(shallowBoxMap, x, y)
    }
  }

  /** The eight neighbours of slot `(x, y)` of a worker-side map, by direction. */
  function ShallowNeighbours(m: ShallowMap, x: int, y: int): ShallowNamedChildrens {
    ShallowNamedChildrens(
      ShallowLookup(m, x - 1, y), ShallowLookup(m, x + 1, y),
      ShallowLookup(m, x, y - 1), ShallowLookup(m, x, y + 1),
      ShallowLookup(m, x - 1, y - 1), ShallowLookup(m, x + 1, y - 1),
      ShallowLookup(m, x + 1, y + 1), ShallowLookup(m, x - 1, y + 1))
  }

  datatype ShallowNamedChildrens = ShallowNamedChildrens(
    left: Option<ShallowBox>, right: Option<ShallowBox>, top: Option<ShallowBox>, bottom: Option<ShallowBox>,
    topLeft: Option<ShallowBox>, topRight: Option<ShallowBox>, bottomRight: Option<ShallowBox>, bottomLeft: Option<ShallowBox>)

  /** The light copy of a neighbourhood of the main board. */
  function ShallowNamed(n: NamedChildrens, size: real): ShallowNamedChildrens {
    ShallowNamedChildrens(
      ShallowOpt(n.left, size), ShallowOpt(n.right, size), ShallowOpt(n.top, size), ShallowOpt(n.bottom, size),
      ShallowOpt(n.topLeft, size), ShallowOpt(n.topRight, size), ShallowOpt(n.bottomRight, size), ShallowOpt(n.bottomLeft, size))
  }

  /** Every address of `m` holds the light copy of what grid `g` holds there. */
  ghost predicate Mirrors(m: ShallowMap, g: Grid, size: real) {
    forall x, y :: ShallowLookup(m, x, y) == ShallowOpt(GetBoxByPosition(g, Pos(x, y)), size)
  }

  /** Decoding a valid grid's records and looking up an address finds the light copy of the grid's cell there. */
  lemma DecodedMapLookup(g: Grid, h: nat, v: nat, size: real, x: int, y: int)
    requires (g == [] || Rectangular(g, h, v)) && WellPlaced(g)
    ensures RecordsFit(EmptyShallowMap(h, v), Records(Flat(g)), |Flat(g)|)
    ensures ShallowLookup(PlaceRecords(EmptyShallowMap(h, v), Records(Flat(g)), |Flat(g)|, size), x, y) ==
      ShallowOpt(GetBoxByPosition(g, Pos(x, y)), size)
  {
    DecodeRecords(g, h, v, size);
    var m := EmptyShallowMap(h, v);
    if !InMap(m, Pos(x, y)) && Exist(g, Pos(x, y)) {
      assert g != [];
    }
  }

  /** The map a worker-side board decodes from a valid board's encoding. */
  lemma DecodedMapOfBoard(b: Board, s: WorkerShallowBoard)
    requires b.Valid()
    requires s.DecodedFrom(EncodeBoard(b.horizontalBoxes, b.verticalBoxes, b.boxSize, b.boxCount, Flat(b.boxMap)))
    ensures RecordsFit(EmptyShallowMap(b.horizontalBoxes, b.verticalBoxes), Records(Flat(b.boxMap)), |Flat(b.boxMap)|)
    ensures s.shallowBoxMap ==
      PlaceRecords(EmptyShallowMap(b.horizontalBoxes, b.verticalBoxes), Records(Flat(b.boxMap)), |Flat(b.boxMap)|, b.boxSize)
  {
    EncodingIsBoardBuffer(b);
  }

  /**
   * Round trip of the board encoding: a worker-side board built from a valid board's
   * `toArrayBuffer` holds, at every address, the light copy of the board's cell there (same
   * address, centre and force), and nothing where the board has no cell.
   */
  lemma BoardRoundTrip(b: Board, s: WorkerShallowBoard)
    requires b.Valid()
    requires s.DecodedFrom(EncodeBoard(b.horizontalBoxes, b.verticalBoxes, b.boxSize, b.boxCount, Flat(b.boxMap)))
    ensures forall x, y :: s.GetBoxByPosition(x, y) == ShallowOpt(GetBoxByPosition(b.boxMap, Pos(x, y)), b.boxSize)
    ensures Mirrors(s.shallowBoxMap, b.boxMap, b.boxSize) && s.boxSize == b.boxSize
  {
    DecodedMapOfBoard(b, s);
    forall x, y
      ensures s.GetBoxByPosition(x, y) == ShallowOpt(GetBoxByPosition(b.boxMap, Pos(x, y)), b.boxSize)
    {
      DecodedMapLookup(b.boxMap, b.horizontalBoxes, b.verticalBoxes, b.boxSize, x, y);
    }
  }

  /** After the round trip, `exist` agrees with the board's at every address. */
  lemma BoardRoundTripExist(b: Board, s: WorkerShallowBoard)
    requires b.Valid()
    requires s.DecodedFrom(EncodeBoard(b.horizontalBoxes, b.verticalBoxes, b.boxSize, b.boxCount, Flat(b.boxMap)))
    ensures forall x, y :: s.Exist(x, y) <==> Exist(b.boxMap, Pos(x, y))
  {
    BoardRoundTrip(b, s);
    forall x, y
      ensures s.Exist(x, y) <==> Exist(b.boxMap, Pos(x, y))
    {
      assert s.GetBoxByPosition(x, y) == ShallowOpt(GetBoxByPosition(b.boxMap, Pos(x, y)), b.boxSize);
    }
  }

  /** After the round trip, every neighbourhood a worker reads is the light copy of the board's. */
  lemma BoardRoundTripNeighbours(b: Board, s: WorkerShallowBoard)
    requires b.Valid()
    requires s.DecodedFrom(EncodeBoard(b.horizontalBoxes, b.verticalBoxes, b.boxSize, b.boxCount, Flat(b.boxMap)))
    ensures forall x, y :: s.GetShallowNamedChildrens(x, y) == ShallowNamed(GetNamedChildrens(b.boxMap, Pos(x, y)), b.boxSize)
  {
    BoardRoundTrip(b, s);
    forall x, y
      ensures s.GetShallowNamedChildrens(x, y) == ShallowNamed(GetNamedChildrens(b.boxMap, Pos(x, y)), b.boxSize)
    {
      NeighboursAt(b.boxMap, s, b.boxSize, x, y);
    }
  }

  /** The neighbourhood at one address, when every single lookup agrees. */
  lemma NeighboursAt(g: Grid, s: WorkerShallowBoard, size: real, x: int, y: int)
    requires forall x, y :: s.GetBoxByPosition(x, y) == ShallowOpt(GetBoxByPosition(g, Pos(x, y)), size)
    ensures s.GetShallowNamedChildrens(x, y) == ShallowNamed(GetNamedChildrens(g, Pos(x, y)), size)
  {
    assert s.GetBoxByPosition(x - 1, y) == ShallowOpt(GetBoxByPosition(g, Pos(x - 1, y)), size);
    assert s.GetBoxByPosition(x + 1, y) == ShallowOpt(GetBoxByPosition(g, Pos(x + 1, y)), size);
    assert s.GetBoxByPosition(x, y - 1) == ShallowOpt(GetBoxByPosition(g, Pos(x, y - 1)), size);
    assert s.GetBoxByPosition(x, y + 1) == ShallowOpt(GetBoxByPosition(g, Pos(x, y + 1)), size);
    assert s.GetBoxByPosition(x - 1, y - 1) == ShallowOpt(GetBoxByPosition(g, Pos(x - 1, y - 1)), size);
    assert s.GetBoxByPosition(x + 1, y - 1) == ShallowOpt(GetBoxByPosition(g, Pos(x + 1, y - 1)), size);
    assert s.GetBoxByPosition(x + 1, y + 1) == ShallowOpt(GetBoxByPosition(g, Pos(x + 1, y + 1)), size);
    assert s.GetBoxByPosition(x - 1, y + 1) == ShallowOpt(GetBoxByPosition(g, Pos(x - 1, y + 1)), size);
  }
}
