/**
 * The grid of `src/objects/board.ts` as a value: a column-major sequence of columns whose slots
 * are empty or hold a cell, with the bounds-checked lookups, the neighbourhood, the force formula
 * and the column-major listing that `forEachBox` and `toArrayBuffer` follow.
 */
module Grids {
  import opened Geometry
  import opened Wrappers
  import opened PureVectors
  import opened Boxes
  import opened Hops

  /** `boxMap[col][row]`: `None` is an `undefined` slot. */
  type Grid = seq<seq<Option<BoxState>>>

  predicate InGrid(g: Grid, p: Pos) {
    0 <= p.x < |g| && 0 <= p.y < |g[p.x]|
  }

  /** `exist`: the address is inside the arrays and its slot holds a cell. */
  predicate Exist(g: Grid, p: Pos) {
    InGrid(g, p) && g[p.x][p.y].Some?
  }

  function At(g: Grid, p: Pos): BoxState
    requires Exist(g, p)
  {
    g[p.x][p.y].value
  }

  /**
   * `getBoxByPosition`: `undefined` exactly where `exist` fails; on a grid whose cells sit at their
   * own addresses, the cell found is the one at `p`.
   */
  function GetBoxByPosition(g: Grid, p: Pos): (r: Option<BoxState>)
    ensures r.None? <==> !Exist(g, p)
    ensures r.Some? && WellPlaced(g) ==> r.value.position == p
  {
    if Exist(g, p) then g[p.x][p.y] else None
  }

  /** The populated addresses. */
  ghost function Populated(g: Grid): set<Pos> {
    set x, y | 0 <= x < |g| && 0 <= y < |g[x]| && g[x][y].Some? :: Pos(x, y)
  }

  /** Every column has `v` slots and there are `h` columns. */
  ghost predicate Rectangular(g: Grid, h: int, v: int) {
    |g| == h && forall c :: 0 <= c < |g| ==> |g[c]| == v
  }

  /** Each cell sits at the address its own position names. */
  ghost predicate WellPlaced(g: Grid) {
    forall p :: Exist(g, p) ==> At(g, p).position == p
  }

  ghost predicate SizedCells(g: Grid, size: real) {
    forall p :: Exist(g, p) ==> At(g, p).size == size
  }

  /** The same slots are populated, by cells with the same position and size. */
  ghost predicate SameTopology(a: Grid, b: Grid) {
    |a| == |b| && (forall c :: 0 <= c < |a| ==> |a[c]| == |b[c]|) &&
    (forall p :: InGrid(a, p) ==> a[p.x][p.y].Some? == b[p.x][p.y].Some?) &&
    (forall p :: Exist(a, p) ==> At(b, p).position == At(a, p).position && At(b, p).size == At(a, p).size)
  }

  lemma PopulatedIsExist(g: Grid, p: Pos)
    ensures p in Populated(g) <==> Exist(g, p)
  {
    if Exist(g, p) {
      assert Pos(p.x, p.y) == p;
    }
  }

  lemma SameTopologyPopulated(a: Grid, b: Grid)
    requires SameTopology(a, b)
    ensures Populated(a) == Populated(b)
    ensures forall p :: Exist(a, p) <==> Exist(b, p)
    ensures WellPlaced(a) ==> WellPlaced(b)
    ensures forall size: real :: SizedCells(a, size) ==> SizedCells(b, size)
  {
    forall p | Exist(b, p)
      ensures Exist(a, p)
    {
      assert InGrid(a, p);
    }
    forall p ensures p in Populated(a) <==> p in Populated(b) {
      PopulatedIsExist(a, p);
      PopulatedIsExist(b, p);
    }
  }

  /** Keeps, in order, the addresses that hold a cell. */
  function FilterExisting(g: Grid, ps: seq<Pos>): (r: seq<Pos>)
    ensures forall q :: q in r <==> q in ps && Exist(g, q)
    ensures |r| <= |ps|
  {
    if ps == [] then []
    else (if Exist(g, ps[0]) then [ps[0]] else []) + FilterExisting(g, ps[1..])
  }

  /**
   * `getBoxChildrens`: the populated neighbours of `p` in the order left, right, top, bottom,
   * top-left, bottom-left, top-right, bottom-right. The source returns the cells; the model returns
   * their addresses, which name them (`WellPlaced`). The children are exactly the populated
   * 8-neighbours of `p`, at most eight of them.
   */
  function GetBoxChildrens(g: Grid, p: Pos): (r: seq<Pos>)
    ensures forall q :: q in r <==> Adjacent(p, q) && Exist(g, q)
    ensures |r| <= 8
  {
    FilterExisting(g, Neighbours(p))
  }

  /** `NamedChildrens`: each neighbour by its direction, `None` where there is no cell. */
  datatype NamedChildrens = NamedChildrens(
    left: Option<BoxState>, right: Option<BoxState>, top: Option<BoxState>, bottom: Option<BoxState>,
    topLeft: Option<BoxState>, topRight: Option<BoxState>, bottomRight: Option<BoxState>, bottomLeft: Option<BoxState>)

  /** `getNamedChildrens`: `top` is the row above (`y - 1`), `left` the column before (`x - 1`). */
  function GetNamedChildrens(g: Grid, p: Pos): NamedChildrens {
    NamedChildrens(
      GetBoxByPosition(g, Pos(p.x - 1, p.y)), GetBoxByPosition(g, Pos(p.x + 1, p.y)),
      GetBoxByPosition(g, Pos(p.x, p.y - 1)), GetBoxByPosition(g, Pos(p.x, p.y + 1)),
      GetBoxByPosition(g, Pos(p.x - 1, p.y - 1)), GetBoxByPosition(g, Pos(p.x + 1, p.y - 1)),
      GetBoxByPosition(g, Pos(p.x + 1, p.y + 1)), GetBoxByPosition(g, Pos(p.x - 1, p.y + 1)))
  }

  /** `q` is the address of one of the named neighbours of `p` that are present. */
  predicate IsPresent(n: NamedChildrens, p: Pos, q: Pos) {
    (q == Pos(p.x - 1, p.y) && n.left.Some?) || (q == Pos(p.x + 1, p.y) && n.right.Some?) ||
    (q == Pos(p.x, p.y - 1) && n.top.Some?) || (q == Pos(p.x, p.y + 1) && n.bottom.Some?) ||
    (q == Pos(p.x - 1, p.y - 1) && n.topLeft.Some?) || (q == Pos(p.x + 1, p.y - 1) && n.topRight.Some?) ||
    (q == Pos(p.x + 1, p.y + 1) && n.bottomRight.Some?) || (q == Pos(p.x - 1, p.y + 1) && n.bottomLeft.Some?)
  }

  /** `getNamedChildrens` and `getBoxChildrens` see the same neighbourhood. */
  lemma NamedChildrensAreChildrens(g: Grid, p: Pos, q: Pos)
    ensures IsPresent(GetNamedChildrens(g, p), p, q) <==> q in GetBoxChildrens(g, p)
  {
    var dx, dy := q.x - p.x, q.y - p.y;
    if dx == -1 && dy == 0 { assert q == Pos(p.x - 1, p.y); }
    else if dx == 1 && dy == 0 { assert q == Pos(p.x + 1, p.y); }
    else if dx == 0 && dy == -1 { assert q == Pos(p.x, p.y - 1); }
    else if dx == 0 && dy == 1 { assert q == Pos(p.x, p.y + 1); }
    else if dx == -1 && dy == -1 { assert q == Pos(p.x - 1, p.y - 1); }
    else if dx == 1 && dy == -1 { assert q == Pos(p.x + 1, p.y - 1); }
    else if dx == 1 && dy == 1 { assert q == Pos(p.x + 1, p.y + 1); }
    else if dx == -1 && dy == 1 { assert q == Pos(p.x - 1, p.y + 1); }
    else { assert !Adjacent(p, q); }
  }

  /** The distance the force pass reads for a neighbour: a missing one counts as `d + 1`. */
  function NeighbourDistance(n: Option<BoxState>, d: int): int {
    if n.Some? then n.value.distance else d + 1
  }

  /**
   * The force of a cell at distance `d` with neighbours `n`, in closed form: weight 0.25 on the
   * left-right and top-bottom differences, 0.4 on the two diagonals.
   */
  function ForceFromNeighbours(d: int, n: NamedChildrens): Vec {
    var l, r := NeighbourDistance(n.left, d) as real, NeighbourDistance(n.right, d) as real;
    var t, b := NeighbourDistance(n.top, d) as real, NeighbourDistance(n.bottom, d) as real;
    var tl, tr := NeighbourDistance(n.topLeft, d) as real, NeighbourDistance(n.topRight, d) as real;
    var br, bl := NeighbourDistance(n.bottomRight, d) as real, NeighbourDistance(n.bottomLeft, d) as real;
    Vec(0.25 * (l - r) - 0.4 * (br - tl) + 0.4 * (bl - tr),
        0.25 * (t - b) - 0.4 * (br - tl) - 0.4 * (bl - tr))
  }

  /** The force the pass computes for the cell at `p`. */
  function ForceAt(g: Grid, p: Pos): Vec
    requires Exist(g, p)
  {
    ForceFromNeighbours(At(g, p).distance, GetNamedChildrens(g, p))
  }

  function AllNeighbourDistances(n: NamedChildrens, d: int): seq<int> {
    [NeighbourDistance(n.left, d), NeighbourDistance(n.right, d), NeighbourDistance(n.top, d),
     NeighbourDistance(n.bottom, d), NeighbourDistance(n.topLeft, d), NeighbourDistance(n.topRight, d),
     NeighbourDistance(n.bottomRight, d), NeighbourDistance(n.bottomLeft, d)]
  }

  /** A cell whose eight neighbours are all missing, or all at one distance, feels no force. */
  lemma FlatNeighbourhoodNoForce(d: int, n: NamedChildrens)
    requires forall i :: 0 <= i < 8 ==> AllNeighbourDistances(n, d)[i] == AllNeighbourDistances(n, d)[0]
    ensures ForceFromNeighbours(d, n) == Zero
  {
    var ds := AllNeighbourDistances(n, d);
    assert ds[1] == ds[0] && ds[2] == ds[0] && ds[3] == ds[0] && ds[4] == ds[0];
    assert ds[5] == ds[0] && ds[6] == ds[0] && ds[7] == ds[0];
  }

  lemma IsolatedCellNoForce(d: int, n: NamedChildrens)
    requires n.left.None? && n.right.None? && n.top.None? && n.bottom.None?
    requires n.topLeft.None? && n.topRight.None? && n.bottomRight.None? && n.bottomLeft.None?
    ensures ForceFromNeighbours(d, n) == Zero
  {
    FlatNeighbourhoodNoForce(d, n);
  }

  /**
   * With the diagonal differences balanced, the force points toward the closer orthogonal
   * neighbour: right (`+x`) exactly when the right neighbour is nearer the goal than the left one,
   * down (`+y`) exactly when the bottom one is nearer than the top one.
   */
  lemma ForcePointsDownhill(d: int, n: NamedChildrens)
    requires NeighbourDistance(n.bottomRight, d) == NeighbourDistance(n.topLeft, d)
    requires NeighbourDistance(n.bottomLeft, d) == NeighbourDistance(n.topRight, d)
    ensures ForceFromNeighbours(d, n).x > 0.0 <==> NeighbourDistance(n.right, d) < NeighbourDistance(n.left, d)
    ensures ForceFromNeighbours(d, n).x < 0.0 <==> NeighbourDistance(n.left, d) < NeighbourDistance(n.right, d)
    ensures ForceFromNeighbours(d, n).y > 0.0 <==> NeighbourDistance(n.bottom, d) < NeighbourDistance(n.top, d)
    ensures ForceFromNeighbours(d, n).y < 0.0 <==> NeighbourDistance(n.top, d) < NeighbourDistance(n.bottom, d)
  {
  }

  /** The neighbourhood seen in a left-right mirror. */
  function Mirror(n: NamedChildrens): NamedChildrens {
    NamedChildrens(n.right, n.left, n.top, n.bottom, n.topRight, n.topLeft, n.bottomLeft, n.bottomRight)
  }

  /** Mirroring the neighbourhood left to right mirrors the force: `x` changes sign, `y` stays. */
  lemma MirrorForce(d: int, n: NamedChildrens)
    ensures ForceFromNeighbours(d, Mirror(n)) == Vec(-ForceFromNeighbours(d, n).x, ForceFromNeighbours(d, n).y)
  {
  }

  /** The cells of one column, in row order (`forEachBox` within a column). */
  function Column(col: seq<Option<BoxState>>): seq<BoxState> {
    if col == [] then []
    else Column(col[..|col| - 1]) + (if col[|col| - 1].Some? then [col[|col| - 1].value] else [])
  }

  /** All cells, column by column: the order of `forEachBox` and of `boxMap.flat()` without holes. */
  function Flat(g: Grid): seq<BoxState> {
    if g == [] then [] else Flat(g[..|g| - 1]) + Column(g[|g| - 1])
  }

  /** Listing one more slot of a column appends that slot's cell, if any. */
  lemma ColumnStep(col: seq<Option<BoxState>>, row: nat)
    requires row < |col|
    ensures Column(col[..row + 1]) == Column(col[..row]) + (if col[row].Some? then [col[row].value] else [])
  {
    assert col[..row + 1][..row] == col[..row];
  }

  /** Listing one more column appends that column's cells. */
  lemma FlatStep(g: Grid, n: nat)
    requires n < |g|
    ensures Flat(g[..n + 1]) == Flat(g[..n]) + Column(g[n])
  {
    assert g[..n + 1][..n] == g[..n];
  }

  lemma {:induction false} ColumnPrefixLength(col: seq<Option<BoxState>>, row: nat)
    requires row <= |col|
    ensures |Column(col[..row])| <= |Column(col)|
    decreases |col|
  {
    if row < |col| {
      assert col[..|col| - 1][..row] == col[..row];
      ColumnPrefixLength(col[..|col| - 1], row);
    } else {
      assert col[..row] == col;
    }
  }

  lemma {:induction false} FlatPrefixLength(g: Grid, n: nat)
    requires n <= |g|
    ensures |Flat(g[..n])| <= |Flat(g)|
    decreases |g|
  {
    if n < |g| {
      assert g[..|g| - 1][..n] == g[..n];
      FlatPrefixLength(g[..|g| - 1], n);
    } else {
      assert g[..n] == g;
    }
  }

  ghost function ColumnSet(col: seq<Option<BoxState>>, x: int): set<Pos> {
    set y | 0 <= y < |col| && col[y].Some? :: Pos(x, y)
  }

  lemma {:induction false} ColumnCount(col: seq<Option<BoxState>>, x: int)
    ensures |Column(col)| == |ColumnSet(col, x)|
  {
    if col != [] {
      var n := |col| - 1;
      ColumnCount(col[..n], x);
      assert ColumnSet(col, x) == ColumnSet(col[..n], x) + (if col[n].Some? then {Pos(x, n)} else {});
    }
  }

  lemma PopulatedSplit(g: Grid)
    requires g != []
    ensures Populated(g) == Populated(g[..|g| - 1]) + ColumnSet(g[|g| - 1], |g| - 1)
    ensures Populated(g[..|g| - 1]) !! ColumnSet(g[|g| - 1], |g| - 1)
  {
    var n := |g| - 1;
    forall p | p in Populated(g)
      ensures p in Populated(g[..n]) + ColumnSet(g[n], n)
    {
      if p.x < n {
        assert g[..n][p.x] == g[p.x];
      }
    }
  }

  /** The number of listed cells is the number of populated addresses. */
  lemma {:induction false} FlatCount(g: Grid)
    ensures |Flat(g)| == |Populated(g)|
  {
    if g != [] {
      var n := |g| - 1;
      FlatCount(g[..n]);
      ColumnCount(g[n], n);
      PopulatedSplit(g);
    }
  }

  /** The listing holds exactly the cells of the grid. */
  lemma FlatMembers(g: Grid, b: BoxState)
    ensures b in Flat(g) <==> exists p :: Exist(g, p) && At(g, p) == b
  {
    FlatSound(g, b);
    FlatComplete(g, b);
  }

  /** Every listed cell is the cell at some populated address. */
  lemma {:induction false} FlatSound(g: Grid, b: BoxState)
    ensures b in Flat(g) ==> exists p :: Exist(g, p) && At(g, p) == b
  {
    if g != [] {
      var n := |g| - 1;
      FlatSound(g[..n], b);
      ColumnMembers(g[n], b);
      if b in Flat(g[..n]) {
        var p :| Exist(g[..n], p) && At(g[..n], p) == b;
        assert Exist(g, p) && At(g, p) == b;
      }
      if b in Column(g[n]) {
        var y :| 0 <= y < |g[n]| && g[n][y] == Some(b);
        assert Exist(g, Pos(n, y)) && At(g, Pos(n, y)) == b;
      }
    }
  }

  /** The cell at every populated address is listed. */
  lemma {:induction false} FlatComplete(g: Grid, b: BoxState)
    ensures (exists p :: Exist(g, p) && At(g, p) == b) ==> b in Flat(g)
  {
    if g != [] && exists p :: Exist(g, p) && At(g, p) == b {
      var n := |g| - 1;
      var p :| Exist(g, p) && At(g, p) == b;
      if p.x < n {
        assert Exist(g[..n], p) && At(g[..n], p) == b;
        FlatComplete(g[..n], b);
      } else {
        ColumnMembers(g[n], b);
        assert g[n][p.y] == Some(b);
      }
    }
  }

  /** In a well-placed grid, the `i`-th listed cell sits at its own position. */
  lemma FlatAt(g: Grid, i: nat)
    requires WellPlaced(g) && i < |Flat(g)|
    ensures Exist(g, Flat(g)[i].position) && At(g, Flat(g)[i].position) == Flat(g)[i]
  {
    var b := Flat(g)[i];
    FlatMembers(g, b);
    var q :| Exist(g, q) && At(g, q) == b;
    assert At(g, q).position == q;
  }

  lemma {:induction false} ColumnMembers(col: seq<Option<BoxState>>, b: BoxState)
    ensures b in Column(col) <==> exists y :: 0 <= y < |col| && col[y] == Some(b)
  {
    if col != [] {
      var n := |col| - 1;
      ColumnMembers(col[..n], b);
      if exists y :: 0 <= y < |col| && col[y] == Some(b) {
        var y :| 0 <= y < |col| && col[y] == Some(b);
        if y < n {
          assert col[..n][y] == Some(b);
        }
      }
    }
  }

  /** The first cell of a listing with the given position (`Array.prototype.find`). */
  function FindBox(bs: seq<BoxState>, p: Pos): (r: Option<BoxState>)
    ensures r.Some? ==> r.value in bs && r.value.position == p
    ensures r.None? ==> forall b :: b in bs ==> b.position != p
  {
    if bs == [] then None
    else if bs[0].position == p then Some(bs[0])
    else FindBox(bs[1..], p)
  }

  /**
   * On a well-placed grid, searching the column-major listing for a position finds the cell at that
   * address, and finds nothing exactly when the address is empty.
   */
  lemma FindInFlat(g: Grid, p: Pos)
    requires WellPlaced(g)
    ensures FindBox(Flat(g), p) == GetBoxByPosition(g, p)
  {
    var r := FindBox(Flat(g), p);
    if r.Some? {
      FlatMembers(g, r.value);
      var q :| Exist(g, q) && At(g, q) == r.value;
      assert q == p;
    } else if Exist(g, p) {
      FlatMembers(g, At(g, p));
    }
  }

  /** `initBoxMap` with `initAll`: `h` columns of `v` new cells, each at its own address. */
  ghost predicate IsFullGrid(g: Grid, h: nat, v: nat, size: real) {
    Rectangular(g, h, v) &&
    forall c, r :: 0 <= c < h && 0 <= r < v ==> g[c][r] == Some(NewBox(Pos(c, r), size))
  }

  /** `initBoxMap` with `positionsToFill`: a new cell at each listed address and nothing elsewhere. */
  ghost predicate IsFilledGrid(g: Grid, h: nat, v: nat, size: real, ps: seq<Pos>) {
    Rectangular(g, h, v) &&
    forall c, r :: 0 <= c < h && 0 <= r < v ==>
      g[c][r] == (if Pos(c, r) in ps then Some(NewBox(Pos(c, r), size)) else None)
  }

  lemma {:induction false} FullColumnLength(col: seq<Option<BoxState>>)
    requires forall r :: 0 <= r < |col| ==> col[r].Some?
    ensures |Column(col)| == |col|
  {
    if col != [] {
      FullColumnLength(col[..|col| - 1]);
    }
  }

  lemma {:induction false} FullFlatLength(g: Grid, v: nat)
    requires forall c :: 0 <= c < |g| ==> |g[c]| == v && forall r :: 0 <= r < v ==> g[c][r].Some?
    ensures |Flat(g)| == |g| * v
  {
    if g != [] {
      var n := |g| - 1;
      assert forall c :: 0 <= c < n ==> g[..n][c] == g[c];
      FullFlatLength(g[..n], v);
      FullColumnLength(g[n]);
      assert Flat(g) == Flat(g[..n]) + Column(g[n]);
      LengthStep(n, v);
    }
  }

  lemma LengthStep(n: nat, v: nat)
    ensures n * v + v == (n + 1) * v
  {
  }

  /** A full grid is well placed, has `h * v` cells, and every in-range address exists. */
  lemma FullGridSpec(g: Grid, h: nat, v: nat, size: real)
    requires IsFullGrid(g, h, v, size)
    ensures WellPlaced(g) && SizedCells(g, size)
    ensures forall p :: Exist(g, p) <==> 0 <= p.x < h && 0 <= p.y < v
    ensures |Flat(g)| == h * v
  {
    FullFlatLength(g, v);
  }

  /**
   * A filled grid is well placed, its populated addresses are exactly the listed ones (duplicates
   * collapse), and it has as many cells as there are distinct listed addresses.
   */
  lemma FilledGridSpec(g: Grid, h: nat, v: nat, size: real, ps: seq<Pos>)
    requires IsFilledGrid(g, h, v, size, ps)
    requires forall p :: p in ps ==> 0 <= p.x < h && 0 <= p.y < v
    ensures WellPlaced(g) && SizedCells(g, size)
    ensures forall p :: Exist(g, p) <==> p in ps
    ensures |Flat(g)| == |set p | p in ps|
  {
    forall p | p in ps
      ensures Exist(g, p)
    {
      assert Pos(p.x, p.y) == p;
    }
    assert Populated(g) == set p | p in ps by {
      forall p ensures p in Populated(g) <==> p in ps {
        PopulatedIsExist(g, p);
      }
    }
    FlatCount(g);
  }

  /**
   * The distances and visited flags the fill leaves behind, for goal `goal`: a cell is visited
   * exactly when it is reachable from the goal, a visited cell's distance is its hop count, and an
   * unvisited cell keeps distance 0.
   */
  ghost predicate DistancesFrom(g: Grid, goal: Pos) {
    forall p :: Exist(g, p) ==>
      (At(g, p).visited <==> Reachable(Populated(g), goal, p)) &&
      (At(g, p).visited ==> At(g, p).distance >= 0 && IsHopCount(Populated(g), goal, p, At(g, p).distance)) &&
      (!At(g, p).visited ==> At(g, p).distance == 0)
  }

  /**
   * Two grids with the same populated addresses whose distances both follow `DistancesFrom` for the
   * same goal agree on every cell's distance and visited flag.
   */
  lemma DistancesUnique(a: Grid, b: Grid, goal: Pos, p: Pos)
    requires Populated(a) == Populated(b)
    requires DistancesFrom(a, goal) && DistancesFrom(b, goal)
    requires Exist(a, p) && Exist(b, p)
    ensures At(a, p).visited == At(b, p).visited && At(a, p).distance == At(b, p).distance
  {
    if At(a, p).visited {
      HopCountUnique(Populated(a), goal, p, At(a, p).distance, At(b, p).distance);
    }
  }
}
