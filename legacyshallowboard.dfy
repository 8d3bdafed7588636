/**
 * The older worker-side board (`WorkerShallowBoard` in
 * `src/boilerplate/workersObjects/workerShallowBoard.ts`): the same record layout as the current
 * one, but cells without a centre, a record loop bounded by the buffer's length rather than the
 * cell count, and a lookup by world point without a guard on the column's sign.
 */
module LegacyShallowBoards {
  import opened Geometry
  import opened Wrappers
  import opened PureVectors
  import opened BoardCodec
  import opened ShallowBoards

  /** A decoded cell of the older board: its address and its force. */
  datatype LegacyBox = LegacyBox(positionX: int, positionY: int, force: Vec)

  type LegacyMap = seq<seq<Option<LegacyBox>>>

  /** The older board's view of a current cell: the centre dropped. */
  function Strip(b: ShallowBox): LegacyBox {
    LegacyBox(b.positionX, b.positionY, b.force)
  }

  function StripOpt(o: Option<ShallowBox>): Option<LegacyBox> {
    if o.Some? then Some(Strip(o.value)) else None
  }

  function StripMap(m: ShallowMap): (r: LegacyMap)
    ensures |r| == |m| && forall c :: 0 <= c < |m| ==> |r[c]| == |m[c]|
  {
    seq(|m|, c requires 0 <= c < |m| => seq(|m[c]|, r requires 0 <= r < |m[c]| => StripOpt(m[c][r])))
  }

  predicate InLegacyMap(m: LegacyMap, p: Pos) {
    0 <= p.x < |m| && 0 <= p.y < |m[p.x]|
  }

  /** `h` columns of `v` empty slots. */
  function EmptyLegacyMap(h: nat, v: nat): (m: LegacyMap)
    ensures |m| == h && forall c :: 0 <= c < h ==> |m[c]| == v
    ensures forall c, r :: 0 <= c < h && 0 <= r < v ==> m[c][r].None?
  {
    seq(h, c => seq(v, r => None))
  }

  /**
   * The number of rounds of `for (i = 0; i < length / 4; i++)`: `length / 4` is a real quotient,
   * so a trailing partial record gets a round of its own.
   */
  function LoopCount(length: nat): nat {
    (length + 3) / 4
  }

  /** Round `i` runs exactly when `i` is below the count. */
  lemma LoopCountBound(length: nat, i: nat)
    ensures i < LoopCount(length) <==> (i as real) < (length as real) / 4.0
  {
    assert i < LoopCount(length) <==> 4 * i < length;
    assert (i as real) < (length as real) / 4.0 <==> (4 * i) as real < length as real;
  }

  /** The first `n` records are whole, and each names a slot of `m` by two natural numbers. */
  predicate LegacyFit(m: LegacyMap, data: seq<real>, n: nat) {
    4 * n <= |data| &&
    forall i :: 0 <= i < n ==> IsNat(data[4 * i]) && IsNat(data[4 * i + 1]) && InLegacyMap(m, RecordAddress(data, i))
  }

  /** The cell the older `setShallowBoxMap` builds from record `i`. */
  function LegacyRecordBox(data: seq<real>, i: nat): LegacyBox
    requires 4 * i + 3 < |data|
  {
    LegacyBox(data[4 * i].Floor, data[4 * i + 1].Floor, Vec(data[4 * i + 2], data[4 * i + 3]))
  }

  /** The map after writing records `0 .. n - 1` into `m`, in order. */
  function LegacyPlace(m: LegacyMap, data: seq<real>, n: nat): (r: LegacyMap)
    requires LegacyFit(m, data, n)
    ensures |r| == |m| && forall c :: 0 <= c < |m| ==> |r[c]| == |m[c]|
  {
    if n == 0 then m
    else
      var prev := LegacyPlace(m, data, n - 1);
      var p := RecordAddress(data, n - 1);
      prev[p.x := prev[p.x][p.y := Some(LegacyRecordBox(data, n - 1))]]
  }

  /** Fitting records are fitting records of every shorter prefix. */
  lemma LegacyFitPrefix(m: LegacyMap, data: seq<real>, n: nat, k: nat)
    requires LegacyFit(m, data, n) && k <= n
    ensures LegacyFit(m, data, k)
  {
  }

  /** Writing record `n` after the first `n`. */
  lemma LegacyPlaceOneMore(m: LegacyMap, data: seq<real>, n: nat)
    requires LegacyFit(m, data, n + 1)
    ensures LegacyFit(m, data, n)
    ensures var p := RecordAddress(data, n);
      InLegacyMap(LegacyPlace(m, data, n), p) &&
      LegacyPlace(m, data, n + 1) == LegacyPlace(m, data, n)[p.x := LegacyPlace(m, data, n)[p.x][p.y := Some(LegacyRecordBox(data, n))]]
  {
  }

  /**
   * The records fit the older map exactly when they fit the current one, since the two maps have
   * the same shape.
   */
  lemma StripFits(m: ShallowMap, data: seq<real>, n: nat)
    ensures LegacyFit(StripMap(m), data, n) <==> RecordsFit(m, data, n)
  {
  }

  /**
   * After the records are written, a slot of the older map holds the cell of the last record
   * naming it, and a slot no record names keeps its old content.
   */
  lemma {:induction false} LegacyPlaceAt(m: LegacyMap, data: seq<real>, n: nat, p: Pos)
    requires LegacyFit(m, data, n) && InLegacyMap(m, p)
    ensures LegacyPlace(m, data, n)[p.x][p.y] ==
      if LastNaming(data, n, p) < 0 then m[p.x][p.y] else Some(LegacyRecordBox(data, LastNaming(data, n, p)))
  {
    if n > 0 {
      LegacySlot(m, data, n, p);
      LegacyPlaceAt(m, data, n - 1, p);
    }
  }

  /** The slot at `p` after `n` records: record `n - 1`'s cell if it names `p`, else what was there before it. */
  lemma LegacySlot(m: LegacyMap, data: seq<real>, n: nat, p: Pos)
    requires 0 < n && LegacyFit(m, data, n) && InLegacyMap(m, p)
    ensures LegacyFit(m, data, n - 1)
    ensures LegacyPlace(m, data, n)[p.x][p.y] ==
      if RecordAddress(data, n - 1) == p then Some(LegacyRecordBox(data, n - 1)) else LegacyPlace(m, data, n - 1)[p.x][p.y]
  {
  }

  /**
   * Both boards decode the same records into the same slots: the older map is the current map
   * with the centres dropped, whatever the cell size.
   */
  lemma LegacyPlaceIsStripped(m: ShallowMap, data: seq<real>, n: nat, size: real)
    requires RecordsFit(m, data, n)
    ensures LegacyFit(StripMap(m), data, n)
    ensures LegacyPlace(StripMap(m), data, n) == StripMap(PlaceRecords(m, data, n, size))
  {
    StripFits(m, data, n);
    var a := LegacyPlace(StripMap(m), data, n);
    var b := StripMap(PlaceRecords(m, data, n, size));
    forall c | 0 <= c < |a|
      ensures a[c] == b[c]
    {
      forall r | 0 <= r < |a[c]|
        ensures a[c][r] == b[c][r]
      {
        StripSlot(m, data, n, size, Pos(c, r));
      }
    }
  }

  /** One slot of the two decoded maps. */
  lemma StripSlot(m: ShallowMap, data: seq<real>, n: nat, size: real, p: Pos)
    requires RecordsFit(m, data, n) && InMap(m, p)
    ensures LegacyFit(StripMap(m), data, n)
    ensures LegacyPlace(StripMap(m), data, n)[p.x][p.y] == StripOpt(PlaceRecords(m, data, n, size)[p.x][p.y])
  {
    StripFits(m, data, n);
    LegacyPlaceAt(StripMap(m), data, n, p);
    PlaceRecordsAt(m, data, n, size, p);
  }

  /**
   * The buffer the older board can be built from: a header of natural numbers and a positive
   * size, then records that are whole and fit the `h` by `v` map, as many as the loop visits.
   */
  predicate IsLegacyBuffer(buffer: seq<real>) {
    |buffer| >= 4 && IsNat(buffer[0]) && IsNat(buffer[1]) && buffer[2] > 0.0 && IsNat(buffer[3]) &&
    LegacyFit(EmptyLegacyMap(buffer[0].Floor, buffer[1].Floor), buffer[4..], LoopCount(|buffer| - 4))
  }

  /** Lookup by address with `undefined` outside the map or at an empty slot. */
  function LegacyLookup(m: LegacyMap, x: int, y: int): (r: Option<LegacyBox>)
    ensures r.Some? ==> InLegacyMap(m, Pos(x, y))
  {
    if InLegacyMap(m, Pos(x, y)) then m[x][y] else None
  }

  /** Looking up the older map is looking up the current one and dropping the centre. */
  lemma LegacyLookupStripped(m: ShallowMap, x: int, y: int)
    ensures LegacyLookup(StripMap(m), x, y) == StripOpt(ShallowLookup(m, x, y))
  {
  }

  class LegacyShallowBoard {
    const boxSize: real
    const boxCount: nat
    const verticalBoxes: nat
    const horizontalBoxes: nat
    var shallowBoxMap: LegacyMap

    /** The state the constructor leaves for `buffer`: its header, and its records written into an empty map. */
    ghost predicate DecodedFrom(buffer: seq<real>)
      reads this
    {
      IsLegacyBuffer(buffer) &&
      horizontalBoxes == buffer[0].Floor && verticalBoxes == buffer[1].Floor &&
      boxSize == buffer[2] && boxCount == buffer[3].Floor &&
      shallowBoxMap == LegacyPlace(EmptyLegacyMap(horizontalBoxes, verticalBoxes), buffer[4..], LoopCount(|buffer| - 4))
    }

    /** `new WorkerShallowBoard(buffer)`: the header, then `initShallowBoxMap` on the rest. */
    constructor (buffer: seq<real>)
      requires IsLegacyBuffer(buffer)
      ensures DecodedFrom(buffer)
    {
      horizontalBoxes := buffer[0].Floor;
      boxCount := buffer[3].Floor;
      verticalBoxes := buffer[1].Floor;
      boxSize := buffer[2];
      shallowBoxMap := [];
      new;
      InitShallowBoxMap(buffer[4..]);
    }

    /** `initShallowBoxMap`: `h` empty columns of `v` slots, then every record of `boxMap`. */
    method InitShallowBoxMap(boxMap: seq<real>)
      requires LegacyFit(EmptyLegacyMap(horizontalBoxes, verticalBoxes), boxMap, LoopCount(|boxMap|))
      modifies this
      ensures shallowBoxMap == LegacyPlace(EmptyLegacyMap(horizontalBoxes, verticalBoxes), boxMap, LoopCount(|boxMap|))
    {
      var m: LegacyMap := [];
      for col := 0 to horizontalBoxes
        invariant |m| == col
        invariant forall c :: 0 <= c < col ==> m[c] == seq(verticalBoxes, r => None)
      {
        m := m + [seq(verticalBoxes, r => None)];
      }
      assert m == EmptyLegacyMap(horizontalBoxes, verticalBoxes);
      shallowBoxMap := m;
      SetShallowBoxMap(boxMap);
    }

    /**
     * `setShallowBoxMap`: writes the records while `i < length / 4`, each at the address it names;
     * every other slot keeps its content. Unlike the current board, the cell count in the header
     * plays no part.
     */
    method SetShallowBoxMap(boxMap: seq<real>)
      requires LegacyFit(shallowBoxMap, boxMap, LoopCount(|boxMap|))
      modifies this
      ensures shallowBoxMap == LegacyPlace(old(shallowBoxMap), boxMap, LoopCount(|boxMap|))
    {
      ghost var m0 := shallowBoxMap;
      var i := 0;
      LoopCountBound(|boxMap|, i);
      while (i as real) < (|boxMap| as real) / 4.0
        invariant 0 <= i <= LoopCount(|boxMap|)
        invariant i < LoopCount(|boxMap|) <==> (i as real) < (|boxMap| as real) / 4.0
        invariant LegacyFit(m0, boxMap, i)
        invariant shallowBoxMap == LegacyPlace(m0, boxMap, i)
        decreases LoopCount(|boxMap|) - i
      {
        LegacyFitPrefix(m0, boxMap, LoopCount(|boxMap|), i + 1);
        LegacyPlaceOneMore(m0, boxMap, i);
        var p := RecordAddress(boxMap, i);
        var cell := LegacyRecordBox(boxMap, i);
        shallowBoxMap := shallowBoxMap[p.x := shallowBoxMap[p.x][p.y := Some(cell)]];
        i := i + 1;
        LoopCountBound(|boxMap|, i);
      }
    }

    /**
     * `getBoxPositionByDimensions`: truncating division, with the same zero guard. The source repeats
     * the method in this class; it is `Geometry.CellOf`, as on the main board.
     */
    function GetBoxPositionByDimensions(x: real, y: real): (p: Pos)
      reads this
      requires boxSize > 0.0
      ensures p == Pos(Trunc(x / boxSize), Trunc(y / boxSize))
    {
      CellCoordinateIsTrunc(x, boxSize);
      CellCoordinateIsTrunc(y, boxSize);
      CellOf(x, y, boxSize)
    }

    /**
     * `getBoxByDimensions`, as written: `length > x` holds for every negative column, and reading
     * `length` of the missing column then throws. Otherwise it is lookup by address of the cell
     * under the point.
     */
    function GetBoxByDimensions(dimX: real, dimY: real): (r: Result<Option<LegacyBox>>)
      reads this
      requires boxSize > 0.0
      ensures r.Fault? <==> dimX / boxSize <= -1.0
      ensures r.Ok? ==> r.value == LegacyLookup(shallowBoxMap, Trunc(dimX / boxSize), Trunc(dimY / boxSize))
    {
      var p := GetBoxPositionByDimensions(dimX, dimY);
      if |shallowBoxMap| > p.x then
        if p.x < 0 then Fault("TypeError: Cannot read properties of undefined (reading 'length')")
        else if |shallowBoxMap[p.x]| > p.y then (if p.y >= 0 then Ok(shallowBoxMap[p.x][p.y]) else Ok(None))
        else Ok(None)
      else Ok(None)
    }
  }
}
