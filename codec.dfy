/**
 * The number buffers exchanged between the main thread and the particle workers: the board encoding
 * `[h, v, size, count, (x, y, fx, fy)*]`, the particle encoding `[tag, n, (x, y)*]` and the message
 * tags of `PTMsgType`.
 */
module BoardCodec {
  import opened Geometry
  import opened Wrappers
  import opened PureVectors
  import opened Boxes

  /**
   * The tags of `PTMsgType`. Their numeric values are not part of this model; only the fact that
   * distinct tags have distinct codes is used.
   */
  datatype MsgType = Init | InitDone | SetVectors | SetVectorsDone | UpdatePositions | UpdatedPositions

  function TagCode(t: MsgType): real {
    match t
    case Init => 0.0
    case InitDone => 1.0
    case SetVectors => 2.0
    case SetVectorsDone => 3.0
    case UpdatePositions => 4.0
    case UpdatedPositions => 5.0
  }

  /** The tag a leading buffer entry stands for, if any: the `case` a `switch` on it selects. */
  function TagOf(r: real): (t: Option<MsgType>)
    ensures t.Some? ==> TagCode(t.value) == r
    ensures t.None? ==> forall m :: TagCode(m) != r
  {
    if r == 0.0 then Some(Init)
    else if r == 1.0 then Some(InitDone)
    else if r == 2.0 then Some(SetVectors)
    else if r == 3.0 then Some(SetVectorsDone)
    else if r == 4.0 then Some(UpdatePositions)
    else if r == 5.0 then Some(UpdatedPositions)
    else None
  }

  /** Every tag is recognised from its code, so distinct tags have distinct codes. */
  lemma TagRoundTrip(t: MsgType)
    ensures TagOf(TagCode(t)) == Some(t)
  {
  }

  lemma TagCodesDistinct(s: MsgType, t: MsgType)
    requires s != t
    ensures TagCode(s) != TagCode(t)
  {
    TagRoundTrip(s);
    TagRoundTrip(t);
  }

  /** The four numbers `toArrayBuffer` writes for one cell. */
  function Record(b: BoxState): seq<real> {
    [b.position.x as real, b.position.y as real, b.force.x, b.force.y]
  }

  /** The records of a listing of cells, in order. */
  function Records(bs: seq<BoxState>): (r: seq<real>)
    ensures |r| == 4 * |bs|
    ensures forall i :: 0 <= i < |bs| ==> r[4 * i .. 4 * i + 4] == Record(bs[i])
  {
    if bs == [] then []
    else
      var n := |bs| - 1;
      var prefix := Records(bs[..n]);
      assert forall i :: 0 <= i < n ==> (prefix + Record(bs[n]))[4 * i .. 4 * i + 4] == prefix[4 * i .. 4 * i + 4];
      prefix + Record(bs[n])
  }

  lemma RecordsAppend(bs: seq<BoxState>, b: BoxState)
    ensures Records(bs + [b]) == Records(bs) + Record(b)
  {
    assert (bs + [b])[..|bs|] == bs;
  }

  /** The four entries of record `i` are the position and the force of cell `i`. */
  lemma RecordEntries(bs: seq<BoxState>, i: nat)
    requires i < |bs|
    ensures 4 * i + 3 < |Records(bs)|
    ensures Records(bs)[4 * i] == bs[i].position.x as real && Records(bs)[4 * i + 1] == bs[i].position.y as real
    ensures Records(bs)[4 * i + 2] == bs[i].force.x && Records(bs)[4 * i + 3] == bs[i].force.y
  {
    assert Records(bs)[4 * i .. 4 * i + 4] == Record(bs[i]);
  }

  /** `toArrayBuffer`: the header `[h, v, size, count]` followed by the records. */
  function EncodeBoard(h: int, v: int, size: real, count: int, bs: seq<BoxState>): (r: seq<real>)
    ensures |r| == 4 + 4 * |bs|
    ensures r[..4] == [h as real, v as real, size, count as real]
    ensures r[4..] == Records(bs)
  {
    [h as real, v as real, size, count as real] + Records(bs)
  }

  /** A particle's position as it travels in a buffer. */
  datatype Coords = Coords(x: real, y: real)

  /** The pairs `(x, y)` of a list of positions, in order. */
  function Coordinates(ps: seq<Coords>): (r: seq<real>)
    ensures |r| == 2 * |ps|
    ensures forall i :: 0 <= i < |ps| ==> r[2 * i] == ps[i].x && r[2 * i + 1] == ps[i].y
  {
    if ps == [] then [] else [ps[0].x, ps[0].y] + Coordinates(ps[1..])
  }

  /** `[tag, n, x_0, y_0, ...]`: `particlesToArrayBuffer` and `serializeParticles`. */
  function EncodeParticles(tag: MsgType, ps: seq<Coords>): (r: seq<real>)
    ensures |r| == 2 * |ps| + 2
    ensures r[0] == TagCode(tag) && r[1] == |ps| as real
    ensures r[2..] == Coordinates(ps)
  {
    [TagCode(tag), |ps| as real] + Coordinates(ps)
  }

  /** The `n` pairs at the start of `data`, read as `(data[2i], data[2i + 1])`. */
  function DecodeCoords(data: seq<real>, n: nat): (ps: seq<Coords>)
    requires 2 * n <= |data|
    ensures |ps| == n
    ensures forall i :: 0 <= i < n ==> ps[i] == Coords(data[2 * i], data[2 * i + 1])
  {
    seq(n, i requires 0 <= i < n => Coords(data[2 * i], data[2 * i + 1]))
  }

  /** Reading back the pairs of an encoding gives the positions that were encoded, in order. */
  lemma CoordinatesRoundTrip(ps: seq<Coords>)
    ensures DecodeCoords(Coordinates(ps), |ps|) == ps
  {
  }

  /**
   * The count written into a particle buffer is a natural number, and the pairs after it decode
   * to the encoded positions.
   */
  lemma ParticlesRoundTrip(tag: MsgType, ps: seq<Coords>)
    ensures var r := EncodeParticles(tag, ps);
      TagOf(r[0]) == Some(tag) && r[1] == |ps| as real && DecodeCoords(r[2..], |ps|) == ps
  {
    TagRoundTrip(tag);
    CoordinatesRoundTrip(ps);
  }

  /** A buffer entry holding a natural number, as a count or an address read from a buffer must. */
  predicate IsNat(r: real) {
    r >= 0.0 && r.Floor as real == r
  }

  lemma NatIsNat(n: nat)
    ensures IsNat(n as real) && (n as real).Floor == n
  {
  }
}
