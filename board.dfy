/**
 * The board of `src/objects/board.ts`: a grid of cells that is built full or from a list of
 * addresses, solved for a goal by a level-by-level breadth-first fill, turned into a force field,
 * subtracted from another board and encoded for the workers.
 */
module Boards {
  import opened Geometry
  import opened Wrappers
  import opened PureVectors
  import opened Boxes
  import opened Hops
  import opened Utils
  import opened Grids
  import opened BoardCodec

  /** `Board.GOAL_DISTANCE`. */
  const GoalDistance := 0

  /** The error a lookup in a missing column of the main board throws. */
  const MissingColumnError := "TypeError: Cannot read property 'length' of undefined"

  /** Distances and visited flags may differ; everything else is as it was. */
  ghost predicate OnlyDistancesChanged(a: Grid, b: Grid) {
    SameTopology(a, b) && forall p :: Exist(a, p) ==> At(b, p).force == At(a, p).force
  }

  /** Forces may differ; everything else is as it was. */
  ghost predicate OnlyForcesChanged(a: Grid, b: Grid) {
    SameTopology(a, b) &&
    forall p :: Exist(a, p) ==> At(b, p).distance == At(a, p).distance && At(b, p).visited == At(a, p).visited
  }

  lemma OnlyDistancesChangedTrans(a: Grid, b: Grid, c: Grid)
    requires OnlyDistancesChanged(a, b) && OnlyDistancesChanged(b, c)
    ensures OnlyDistancesChanged(a, c)
  {
    SameTopologyPopulated(a, b);
  }

  /** Grids with the same topology list the same number of cells. */
  lemma SameTopologyCount(a: Grid, b: Grid)
    requires SameTopology(a, b)
    ensures |Flat(a)| == |Flat(b)|
  {
    SameTopologyPopulated(a, b);
    FlatCount(a);
    FlatCount(b);
  }

  /** `initBoxMap` with `initAll`: columns pushed one by one, each filled row by row. */
  method FullBoxMap(h: nat, v: nat, size: real) returns (g: Grid)
    ensures IsFullGrid(g, h, v, size)
  {
    g := [];
    var col := 0;
    while col < h
      invariant 0 <= col <= h && |g| == col
      invariant forall c :: 0 <= c < col ==> |g[c]| == v
      invariant forall c, r :: 0 <= c < col && 0 <= r < v ==> g[c][r] == Some(NewBox(Pos(c, r), size))
    {
      var column: seq<Option<BoxState>> := [];
      var row := 0;
      while row < v
        invariant 0 <= row <= v && |column| == row
        invariant forall r :: 0 <= r < row ==> column[r] == Some(NewBox(Pos(col, r), size))
      {
        column := column + [Some(NewBox(Pos(col, row), size))];
        row := row + 1;
      }
      g := g + [column];
      col := col + 1;
    }
  }

  /** The `positionsToFill` branch's first step: `h` columns of `v` undefined slots. */
  method EmptyBoxMap(h: nat, v: nat) returns (g: Grid)
    ensures Rectangular(g, h, v)
    ensures forall c, r :: 0 <= c < h && 0 <= r < v ==> g[c][r].None?
  {
    g := [];
    var col := 0;
    while col < h
      invariant 0 <= col <= h && |g| == col
      invariant forall c :: 0 <= c < col ==> |g[c]| == v
      invariant forall c, r :: 0 <= c < col && 0 <= r < v ==> g[c][r].None?
    {
      var column: seq<Option<BoxState>> := [];
      var row := 0;
      while row < v
        invariant 0 <= row <= v && |column| == row
        invariant forall r :: 0 <= r < row ==> column[r].None?
      {
        column := column + [None];
        row := row + 1;
      }
      g := g + [column];
      col := col + 1;
    }
  }

  /**
   * `initBoxMap` with `positionsToFill`: the empty grid, then a new cell written at each address of
   * `uniquePointArray(positionsToFill)`.
   */
  method FilledBoxMap(h: nat, v: nat, size: real, ps: seq<Pos>) returns (g: Grid)
    requires forall p :: p in ps ==> 0 <= p.x < h && 0 <= p.y < v
    ensures IsFilledGrid(g, h, v, size, ps)
  {
    g := EmptyBoxMap(h, v);
    var unique := UniquePointArray(ps);
    UniquePointArraySpec(ps);
    var i := 0;
    while i < |unique|
      invariant 0 <= i <= |unique|
      invariant Rectangular(g, h, v)
      invariant forall c, r :: 0 <= c < h && 0 <= r < v ==>
        g[c][r] == (if Pos(c, r) in unique[..i] then Some(NewBox(Pos(c, r), size)) else None)
    {
      var p := unique[i];
      assert unique[..i + 1] == unique[..i] + [p];
      g := g[p.x := g[p.x][p.y := Some(NewBox(p, size))]];
      i := i + 1;
    }
    assert unique[..i] == unique;
  }

  /** Keeps, in order, the listed cells that are not yet visited. */
  function FilterUnvisited(g: Grid, ps: seq<Pos>): (r: seq<Pos>)
    requires forall p :: p in ps ==> Exist(g, p)
    ensures forall q :: q in r <==> q in ps && !At(g, q).visited
  {
    if ps == [] then []
    else (if !At(g, ps[0]).visited then [ps[0]] else []) + FilterUnvisited(g, ps[1..])
  }

  /** Whether some listed cell has position `p` (`some(box => box.position.equals(p))`). */
  function Occurs(p: Pos, bs: seq<BoxState>): (r: bool)
    ensures r <==> exists b :: b in bs && b.position == p
  {
    if bs == [] then false else bs[0].position == p || Occurs(p, bs[1..])
  }

  /** The positions of the cells of `bs` whose position occurs in no cell of `removed`, in order. */
  function KeptPositions(bs: seq<BoxState>, removed: seq<BoxState>): seq<Pos> {
    if bs == [] then []
    else (if !Occurs(bs[0].position, removed) then [bs[0].position] else []) + KeptPositions(bs[1..], removed)
  }

  lemma {:induction false} KeptPositionsMembers(bs: seq<BoxState>, removed: seq<BoxState>, p: Pos)
    ensures p in KeptPositions(bs, removed) <==> (exists b :: b in bs && b.position == p) && !Occurs(p, removed)
  {
    if bs != [] {
      KeptPositionsMembers(bs[1..], removed, p);
      if exists b :: b in bs && b.position == p {
        var b :| b in bs && b.position == p;
        if b != bs[0] {
          assert b in bs[1..];
        }
      }
    }
  }

  /** On well-placed grids a listed cell with position `p` exists exactly when the address `p` does. */
  lemma OccursInFlat(g: Grid, p: Pos)
    requires WellPlaced(g)
    ensures Occurs(p, Flat(g)) <==> Exist(g, p)
  {
    FindInFlat(g, p);
  }

  /**
   * The addresses `removeFromBoard` passes on are exactly those populated in the first grid and
   * not in the second.
   */
  lemma KeptPositionsSpec(a: Grid, b: Grid, p: Pos)
    requires WellPlaced(a) && WellPlaced(b)
    ensures p in KeptPositions(Flat(a), Flat(b)) <==> Exist(a, p) && !Exist(b, p)
  {
    KeptPositionsMembers(Flat(a), Flat(b), p);
    OccursInFlat(a, p);
    OccursInFlat(b, p);
  }

  /**
   * The fill has handled every cell within `k` steps of `goal`: exactly those are visited, each
   * with its hop count as distance, and every other cell still has distance 0.
   */
  ghost predicate FilledUpTo(g: Grid, pop: set<Pos>, goal: Pos, k: nat) {
    forall p :: Exist(g, p) ==>
      (At(g, p).visited <==> WithinHops(pop, goal, p, k)) &&
      (At(g, p).visited ==> At(g, p).distance >= 0 && IsHopCount(pop, goal, p, At(g, p).distance)) &&
      (!At(g, p).visited ==> At(g, p).distance == 0)
  }

  /** `children` lists exactly the cells first reached at step `k`. */
  ghost predicate IsRing(g: Grid, pop: set<Pos>, goal: Pos, children: seq<Pos>, k: nat)
    requires k >= 1
  {
    forall p :: p in children <==> Exist(g, p) && InRing(pop, goal, p, k)
  }

  /** The populated cells not yet visited: this set shrinks on every round of the fill. */
  ghost function Unvisited(g: Grid): set<Pos> {
    set x, y | 0 <= x < |g| && 0 <= y < |g[x]| && g[x][y].Some? && !g[x][y].value.visited :: Pos(x, y)
  }

  /** The state right after `reset` and `setGoalDistance`: only the goal, if present, is visited. */
  ghost predicate Seeded(g: Grid, goal: Pos) {
    forall p :: Exist(g, p) ==> (At(g, p).visited <==> p == goal) && At(g, p).distance == 0
  }

  /** Before the loop: everything within 0 steps is handled, and the first ring is the goal's unvisited children. */
  lemma InitialFrontier(g: Grid, goal: Pos)
    requires Seeded(g, goal)
    ensures forall p :: Exist(g, p) <==> p in Populated(g)
    ensures forall p :: p in GetBoxChildrens(g, goal) ==> Exist(g, p)
    ensures FilledUpTo(g, Populated(g), goal, 0)
    ensures IsRing(g, Populated(g), goal, FilterUnvisited(g, GetBoxChildrens(g, goal)), 1)
  {
    var pop := Populated(g);
    forall p ensures Exist(g, p) <==> p in pop { PopulatedIsExist(g, p); }
    forall p | Exist(g, p)
      ensures (At(g, p).visited <==> WithinHops(pop, goal, p, 0))
      ensures At(g, p).visited ==> At(g, p).distance >= 0 && IsHopCount(pop, goal, p, At(g, p).distance)
    {
      if p == goal {
        GoalHopCount(pop, goal);
      }
    }
    forall p | Exist(g, p)
      ensures p in FilterUnvisited(g, GetBoxChildrens(g, goal)) <==> InRing(pop, goal, p, 1)
    {
      FirstRing(pop, goal, p);
    }
  }

  /**
   * One round's marking: setting every cell of ring `k + 1` to distance `k + 1` extends the handled
   * region from `k` steps to `k + 1`.
   */
  lemma MarkRing(a: Grid, b: Grid, pop: set<Pos>, goal: Pos, children: seq<Pos>, k: nat)
    requires forall p :: Exist(a, p) <==> p in pop
    requires FilledUpTo(a, pop, goal, k)
    requires IsRing(a, pop, goal, children, k + 1)
    requires OnlyDistancesChanged(a, b)
    requires forall p :: Exist(b, p) ==>
      At(b, p) == if p in children && !At(a, p).visited then At(a, p).(distance := k + 1, visited := true) else At(a, p)
    ensures FilledUpTo(b, pop, goal, k + 1)
  {
    SameTopologyPopulated(a, b);
    forall p | Exist(b, p)
      ensures (At(b, p).visited <==> WithinHops(pop, goal, p, k + 1))
      ensures At(b, p).visited ==> At(b, p).distance >= 0 && IsHopCount(pop, goal, p, At(b, p).distance)
      ensures !At(b, p).visited ==> At(b, p).distance == 0
    {
      if p in children {
        assert InRing(pop, goal, p, k + 1);
        RingHopCount(pop, goal, p, k + 1);
      } else if WithinHops(pop, goal, p, k) {
        WithinHopsStep(pop, goal, p, k);
      }
    }
  }

  /**
   * One round's expansion: the unvisited cells among the children of ring `k` form ring `k + 1`.
   */
  lemma NextFrontier(g: Grid, pop: set<Pos>, goal: Pos, children: seq<Pos>, next: seq<Pos>, k: nat)
    requires k >= 1
    requires forall p :: Exist(g, p) <==> p in pop
    requires FilledUpTo(g, pop, goal, k)
    requires IsRing(g, pop, goal, children, k)
    requires forall q :: q in next <==> Exist(g, q) && exists j :: 0 <= j < |children| && Adjacent(children[j], q)
    ensures IsRing(g, pop, goal, FilterUnvisited(g, next), k + 1)
  {
    forall q | Exist(g, q)
      ensures q in FilterUnvisited(g, next) <==> InRing(pop, goal, q, k + 1)
    {
      NextRing(pop, goal, q, k);
      if InRing(pop, goal, q, k + 1) {
        var p :| p in pop && Adjacent(p, q) && InRing(pop, goal, p, k);
        assert p in children;
        var j :| 0 <= j < |children| && children[j] == p;
      }
    }
  }

  /** When a round finds nothing new, the handled region is everything reachable. */
  lemma FinalFrontier(g0: Grid, g: Grid, pop: set<Pos>, goal: Pos, k: nat)
    requires OnlyDistancesChanged(g0, g) && pop == Populated(g0)
    requires FilledUpTo(g, pop, goal, k)
    requires IsRing(g, pop, goal, [], k + 1)
    ensures DistancesFrom(g, goal)
  {
    SameTopologyPopulated(g0, g);
    forall q | q in pop
      ensures !InRing(pop, goal, q, k + 1)
    {
      PopulatedIsExist(g, q);
    }
    forall p | Exist(g, p)
      ensures At(g, p).visited <==> Reachable(pop, goal, p)
    {
      if Reachable(pop, goal, p) {
        var j: nat :| WithinHops(pop, goal, p, j);
        RingsStop(pop, goal, k, p, j);
      }
    }
  }

  /** Marking a non-empty ring visits at least one more cell and unvisits none. */
  lemma UnvisitedShrinks(a: Grid, b: Grid, children: seq<Pos>)
    requires OnlyDistancesChanged(a, b)
    requires children != [] && Exist(a, children[0]) && !At(a, children[0]).visited && At(b, children[0]).visited
    requires forall p :: Exist(a, p) && At(b, p).visited == false ==> !At(a, p).visited
    ensures Unvisited(b) < Unvisited(a)
  {
    SameTopologyPopulated(a, b);
    var c := children[0];
    assert Pos(c.x, c.y) == c;
    assert c in Unvisited(a);
    forall p | p in Unvisited(b)
      ensures p in Unvisited(a)
    {
      assert Exist(b, p);
    }
  }

  /** The marking half of one round, gathered for the fill's loop. */
  lemma AdvanceRing(g0: Grid, a: Grid, b: Grid, pop: set<Pos>, goal: Pos, children: seq<Pos>, k: nat)
    requires OnlyDistancesChanged(g0, a) && OnlyDistancesChanged(a, b)
    requires forall p :: Exist(a, p) <==> p in pop
    requires FilledUpTo(a, pop, goal, k)
    requires IsRing(a, pop, goal, children, k + 1)
    requires children != []
    requires forall p :: Exist(b, p) ==>
      At(b, p) == if p in children && !At(a, p).visited then At(a, p).(distance := k + 1, visited := true) else At(a, p)
    ensures OnlyDistancesChanged(g0, b)
    ensures forall p :: Exist(b, p) <==> p in pop
    ensures FilledUpTo(b, pop, goal, k + 1)
    ensures IsRing(b, pop, goal, children, k + 1)
    ensures Unvisited(b) < Unvisited(a)
  {
    OnlyDistancesChangedTrans(g0, a, b);
    SameTopologyPopulated(a, b);
    MarkRing(a, b, pop, goal, children, k);
    assert children[0] in children;
    assert !At(a, children[0]).visited by {
      assert InRing(pop, goal, children[0], k + 1);
    }
    UnvisitedShrinks(a, b, children);
  }

  /**
   * The state of `calculateDistance` after `k` rounds: only distances and flags changed, the cells
   * within `k` steps are filled, and `children` is the next ring.
   */
  ghost predicate FillState(g0: Grid, g: Grid, pop: set<Pos>, goal: Pos, children: seq<Pos>, k: nat) {
    OnlyDistancesChanged(g0, g) && (forall p :: Exist(g, p) <==> p in pop) &&
    FilledUpTo(g, pop, goal, k) && IsRing(g, pop, goal, children, k + 1)
  }

  /**
   * One round of `calculateDistance` at distance `d`: marking the ring and collecting the next one
   * keeps the loop state and leaves fewer unvisited cells.
   */
  lemma FillRound(g0: Grid, a: Grid, b: Grid, pop: set<Pos>, goal: Pos, children: seq<Pos>, next: seq<Pos>, d: nat)
    requires d >= 1 && children != []
    requires FillState(g0, a, pop, goal, children, d - 1)
    requires OnlyDistancesChanged(a, b)
    requires forall p :: Exist(b, p) ==>
      At(b, p) == if p in children && !At(a, p).visited then At(a, p).(distance := d, visited := true) else At(a, p)
    requires forall q :: q in next <==> Exist(b, q) && exists j :: 0 <= j < |children| && Adjacent(children[j], q)
    ensures FillState(g0, b, pop, goal, FilterUnvisited(b, next), d)
    ensures Unvisited(b) < Unvisited(a)
  {
    AdvanceRing(g0, a, b, pop, goal, children, d - 1);
    NextFrontier(b, pop, goal, children, next, d);
  }

  /** The populated cells adjacent to one of the first `i` listed cells are exactly those in `next`. */
  ghost predicate Collected(g: Grid, children: seq<Pos>, i: nat, next: seq<Pos>)
    requires i <= |children|
  {
    forall q :: q in next <==> Exist(g, q) && exists j :: 0 <= j < i && Adjacent(children[j], q)
  }

  /** One merge of `CollectChildren`: adding the next cell's children and deduplicating. */
  lemma CollectStep(g: Grid, children: seq<Pos>, i: nat, next: seq<Pos>)
    requires i < |children| && Collected(g, children, i, next)
    ensures Collected(g, children, i + 1, UniquePointArray(next + GetBoxChildrens(g, children[i])))
    ensures var u := UniquePointArray(next + GetBoxChildrens(g, children[i]));
      forall j, j' :: 0 <= j < j' < |u| ==> u[j] != u[j']
  {
    UniquePointArraySpec(next + GetBoxChildrens(g, children[i]));
  }

  /** `max` is the largest distance in `bs`, and `None` exactly when `bs` is empty. */
  ghost predicate IsMaxDistance(max: Option<int>, bs: seq<BoxState>) {
    (max.None? <==> bs == []) &&
    (max.Some? ==> (exists b :: b in bs && b.distance == max.value) && forall b :: b in bs ==> b.distance <= max.value)
  }

  /** One slot of the scan of `getMaxDistance`. */
  lemma MaxStep(max: Option<int>, before: seq<BoxState>, col: seq<Option<BoxState>>, row: nat)
    requires row < |col| && IsMaxDistance(max, before + Column(col[..row]))
    ensures var slot := col[row];
      IsMaxDistance(if slot.Some? && (max.None? || slot.value.distance > max.value) then Some(slot.value.distance) else max,
        before + Column(col[..row + 1]))
  {
    ColumnStep(col, row);
    assert before + Column(col[..row + 1]) == before + Column(col[..row]) + (if col[row].Some? then [col[row].value] else []);
  }

  /** The listed cells not visited in `g0` have distance `d` and are visited; nothing else differs. */
  ghost predicate DistancesSetFor(g0: Grid, g: Grid, children: seq<Pos>, d: int) {
    OnlyDistancesChanged(g0, g) &&
    forall p :: Exist(g0, p) ==>
      At(g, p) == if p in children && !At(g0, p).visited then At(g0, p).(distance := d, visited := true) else At(g0, p)
  }

  /** One iteration of `setDistances`: the next listed cell, if not yet visited, gets distance `d`. */
  lemma SetDistanceStep(g0: Grid, g: Grid, children: seq<Pos>, i: nat, d: int)
    requires i < |children| && Exist(g0, children[i]) && DistancesSetFor(g0, g, children[..i], d)
    ensures var p := children[i];
      Exist(g, p) &&
      DistancesSetFor(g0, if !At(g, p).visited then g[p.x := g[p.x][p.y := Some(At(g, p).(distance := d, visited := true))]] else g,
        children[..i + 1], d)
  {
    var p := children[i];
    SameTopologyPopulated(g0, g);
    assert children[..i + 1] == children[..i] + [p];
    if !At(g, p).visited {
      var g' := g[p.x := g[p.x][p.y := Some(At(g, p).(distance := d, visited := true))]];
      assert SameTopology(g, g');
      assert SameTopology(g0, g');
    }
  }

  class Board {
    const horizontalBoxes: nat
    const verticalBoxes: nat
    const boxSize: real
    var boxMap: Grid
    var goalPosition: Pos
    var boxCount: int

    /**
     * The grid is empty or `horizontalBoxes` columns of `verticalBoxes` slots, each cell sits at the
     * address its position names and has the board's size, and `boxCount` is the number of cells.
     */
    ghost predicate Valid()
      reads this
    {
      boxSize > 0.0 &&
      (boxMap == [] || Rectangular(boxMap, horizontalBoxes, verticalBoxes)) &&
      WellPlaced(boxMap) && SizedCells(boxMap, boxSize) &&
      boxCount == |Flat(boxMap)|
    }

    /**
     * `new Board(scene, config)`: the goal starts at `(-1, -1)`; with `initAll` (the default) every
     * address holds a new cell, otherwise with `positionsToFill` exactly the listed addresses do,
     * and with neither the grid is empty.
     */
    constructor (horizontalBoxes: nat, verticalBoxes: nat, boxSize: real := 20.0, initAll: bool := true,
                 positionsToFill: Option<seq<Pos>> := None)
      requires boxSize > 0.0
      requires !initAll && positionsToFill.Some? ==>
        forall p :: p in positionsToFill.value ==> 0 <= p.x < horizontalBoxes && 0 <= p.y < verticalBoxes
      ensures Valid()
      ensures this.horizontalBoxes == horizontalBoxes && this.verticalBoxes == verticalBoxes && this.boxSize == boxSize
      ensures goalPosition == Pos(-1, -1)
      ensures initAll ==> IsFullGrid(boxMap, horizontalBoxes, verticalBoxes, boxSize) && boxCount == horizontalBoxes * verticalBoxes
      ensures !initAll && positionsToFill.Some? ==>
        IsFilledGrid(boxMap, horizontalBoxes, verticalBoxes, boxSize, positionsToFill.value) &&
        boxCount == |set p | p in positionsToFill.value|
      ensures !initAll && positionsToFill.None? ==> boxMap == [] && boxCount == 0
    {
      this.horizontalBoxes := horizontalBoxes;
      this.verticalBoxes := verticalBoxes;
      this.boxSize := boxSize;
      goalPosition := Pos(-1, -1);
      var grid: Grid := [];
      if initAll {
        grid := FullBoxMap(horizontalBoxes, verticalBoxes, boxSize);
        FullGridSpec(grid, horizontalBoxes, verticalBoxes, boxSize);
      } else if positionsToFill.Some? {
        grid := FilledBoxMap(horizontalBoxes, verticalBoxes, boxSize, positionsToFill.value);
        FilledGridSpec(grid, horizontalBoxes, verticalBoxes, boxSize, positionsToFill.value);
      }
      boxCount := |Flat(grid)|;
      boxMap := grid;
    }

    /**
     * `getBoxPositionByDimensions`: the cell under a world point, by truncating division. The source
     * repeats this method in each of its four board classes; all four copies here are `Geometry.CellOf`.
     */
    function GetBoxPositionByDimensions(x: real, y: real): (p: Pos)
      reads this
      requires boxSize > 0.0
      ensures p == Pos(Trunc(x / boxSize), Trunc(y / boxSize))
    {
      CellCoordinateIsTrunc(x, boxSize);
      CellCoordinateIsTrunc(y, boxSize);
      CellOf(x, y, boxSize)
    }

    /** For a point right of and below the origin, truncation is floor division: the cell contains the point. */
    lemma BoxPositionContains(x: real, y: real)
      requires boxSize > 0.0 && x >= 0.0 && y >= 0.0
      ensures var p := GetBoxPositionByDimensions(x, y);
        p.x >= 0 && p.x as real * boxSize <= x < (p.x as real + 1.0) * boxSize &&
        p.y >= 0 && p.y as real * boxSize <= y < (p.y as real + 1.0) * boxSize
    {
      CellCoordinateContains(x, boxSize);
      CellCoordinateContains(y, boxSize);
    }

    /**
     * `getBoxByDimensions` as written: the column is compared with the number of columns but not
     * with 0, so a negative column reads `length` of `undefined` and throws. Wherever it does not
     * throw, it agrees with the guarded lookup.
     */
    function GetBoxByDimensions(x: real, y: real): (r: Result<Option<BoxState>>)
      reads this
      requires boxSize > 0.0
      ensures r.Fault? <==> GetBoxPositionByDimensions(x, y).x < 0
      ensures r.Fault? ==> r.message == MissingColumnError
      ensures r.Ok? ==> r.value == GetBoxByDimensionsGuarded(x, y)
    {
      var p := GetBoxPositionByDimensions(x, y);
      if |boxMap| > p.x then
        if p.x < 0 then Fault(MissingColumnError)
        else if |boxMap[p.x]| > p.y && p.y >= 0 then Ok(boxMap[p.x][p.y])
        else Ok(None)
      else Ok(None)
    }

    /** `getBoxByDimensions` with the column checked against 0, as the worker-side board does. */
    function GetBoxByDimensionsGuarded(x: real, y: real): (r: Option<BoxState>)
      reads this
      requires boxSize > 0.0
      ensures r == GetBoxByPosition(boxMap, GetBoxPositionByDimensions(x, y))
      ensures r.Some? <==> Exist(boxMap, GetBoxPositionByDimensions(x, y))
    {
      var p := GetBoxPositionByDimensions(x, y);
      if 0 <= p.x < |boxMap| && 0 <= p.y < |boxMap[p.x]| then boxMap[p.x][p.y] else None
    }

    /** A point one cell-width left of the board makes the unguarded lookup throw, whatever the grid holds. */
    lemma GetBoxByDimensionsThrows()
      requires boxSize > 0.0
      ensures GetBoxByDimensions(-boxSize, 0.0).Fault?
      ensures GetBoxByDimensionsGuarded(-boxSize, 0.0).None?
    {
      assert -boxSize / boxSize == -1.0;
      assert GetBoxPositionByDimensions(-boxSize, 0.0).x == -1;
    }

    /**
     * `getMaxDistance`: the largest distance of any cell, visited in column-major order; `None`
     * stands for the `-Infinity` returned when there is no cell.
     */
    method GetMaxDistance() returns (max: Option<int>)
      ensures max.None? <==> Flat(boxMap) == []
      ensures max.Some? ==> exists b :: b in Flat(boxMap) && b.distance == max.value
      ensures max.Some? ==> forall b :: b in Flat(boxMap) ==> b.distance <= max.value
    {
      max := None;
      var col := 0;
      while col < |boxMap|
        invariant 0 <= col <= |boxMap|
        invariant IsMaxDistance(max, Flat(boxMap[..col]))
      {
        var row := 0;
        ghost var before := Flat(boxMap[..col]);
        while row < |boxMap[col]|
          invariant 0 <= row <= |boxMap[col]|
          invariant IsMaxDistance(max, before + Column(boxMap[col][..row]))
        {
          var slot := boxMap[col][row];
          MaxStep(max, before, boxMap[col], row);
          if slot.Some? && (max.None? || slot.value.distance > max.value) {
            max := Some(slot.value.distance);
          }
          row := row + 1;
        }
        assert boxMap[col][..row] == boxMap[col];
        FlatStep(boxMap, col);
        col := col + 1;
      }
      assert boxMap[..col] == boxMap;
    }

    /** `reset`: every cell is reset in place; which slots hold cells does not change. */
    method Reset()
      requires Valid()
      modifies this
      ensures Valid()
      ensures goalPosition == old(goalPosition) && boxCount == old(boxCount)
      ensures SameTopology(old(boxMap), boxMap)
      ensures forall p :: Exist(boxMap, p) ==> At(boxMap, p) == At(old(boxMap), p).Reset()
    {
      ghost var g0 := boxMap;
      var col := 0;
      while col < |boxMap|
        invariant 0 <= col <= |boxMap| == |g0|
        invariant forall c :: 0 <= c < |g0| ==> |boxMap[c]| == |g0[c]|
        invariant forall c, r :: 0 <= c < |g0| && 0 <= r < |g0[c]| ==>
          boxMap[c][r] == if c < col then ResetSlot(g0[c][r]) else g0[c][r]
        invariant goalPosition == old(goalPosition) && boxCount == old(boxCount)
      {
        var row := 0;
        while row < |boxMap[col]|
          invariant 0 <= col < |boxMap| && 0 <= row <= |boxMap[col]|
          invariant |boxMap| == |g0| && forall c :: 0 <= c < |g0| ==> |boxMap[c]| == |g0[c]|
          invariant forall c, r :: 0 <= c < |g0| && 0 <= r < |g0[c]| ==>
            boxMap[c][r] == if c < col || (c == col && r < row) then ResetSlot(g0[c][r]) else g0[c][r]
          invariant goalPosition == old(goalPosition) && boxCount == old(boxCount)
        {
          var slot := boxMap[col][row];
          if slot.Some? {
            boxMap := boxMap[col := boxMap[col][row := Some(slot.value.Reset())]];
          }
          row := row + 1;
        }
        col := col + 1;
      }
      assert SameTopology(g0, boxMap);
      SameTopologyPopulated(g0, boxMap);
      SameTopologyCount(g0, boxMap);
    }

    /**
     * `setGoalDistance`: the goal position is recorded first; the cell found at that position, if
     * any, gets distance 0 and is visited. A missing goal returns before the unreachable `throw`.
     */
    method SetGoalDistance(goal: Pos)
      requires Valid()
      modifies this
      ensures Valid()
      ensures goalPosition == goal && boxCount == old(boxCount)
      ensures OnlyDistancesChanged(old(boxMap), boxMap)
      ensures forall p :: Exist(boxMap, p) ==>
        At(boxMap, p) == if p == goal then At(old(boxMap), p).(distance := GoalDistance, visited := true) else At(old(boxMap), p)
    {
      goalPosition := goal;
      var goalBox := FindBox(Flat(boxMap), goal);
      FindInFlat(boxMap, goal);
      if goalBox.None? {
        return;
      }
      ghost var g0 := boxMap;
      boxMap := boxMap[goal.x := boxMap[goal.x][goal.y := Some(goalBox.value.(distance := GoalDistance, visited := true))]];
      assert SameTopology(g0, boxMap);
      SameTopologyPopulated(g0, boxMap);
      SameTopologyCount(g0, boxMap);
    }

    /** `setDistances`: every listed cell not yet visited gets distance `d` and is visited. */
    method SetDistances(children: seq<Pos>, d: int)
      requires Valid()
      requires forall p :: p in children ==> Exist(boxMap, p)
      modifies this
      ensures Valid()
      ensures goalPosition == old(goalPosition) && boxCount == old(boxCount)
      ensures OnlyDistancesChanged(old(boxMap), boxMap)
      ensures forall p :: Exist(boxMap, p) ==>
        At(boxMap, p) == if p in children && !At(old(boxMap), p).visited then At(old(boxMap), p).(distance := d, visited := true) else At(old(boxMap), p)
    {
      ghost var g0 := boxMap;
      var i := 0;
      while i < |children|
        invariant 0 <= i <= |children|
        invariant DistancesSetFor(g0, boxMap, children[..i], d)
        invariant goalPosition == old(goalPosition) && boxCount == old(boxCount)
      {
        SetDistanceStep(g0, boxMap, children, i, d);
        var p := children[i];
        var b := boxMap[p.x][p.y].value;
        if !b.visited {
          boxMap := boxMap[p.x := boxMap[p.x][p.y := Some(b.(distance := d, visited := true))]];
        }
        i := i + 1;
      }
      assert children[..i] == children;
      SameTopologyPopulated(g0, boxMap);
      SameTopologyCount(g0, boxMap);
    }

    /**
     * The inner loop of `calculateDistance`: the existing neighbours of every listed cell, merged
     * one cell at a time and deduplicated with `uniqueBoxArray` after each merge. The cells are
     * followed by their addresses, which `Boxes.UniqueBoxArrayPositions` shows is the same
     * deduplication.
     */
    method CollectChildren(children: seq<Pos>) returns (next: seq<Pos>)
      ensures forall q :: q in next <==>
        Exist(boxMap, q) && exists j :: 0 <= j < |children| && Adjacent(children[j], q)
      ensures forall j, j' :: 0 <= j < j' < |next| ==> next[j] != next[j']
    {
      next := [];
      var i := 0;
      while i < |children|
        invariant 0 <= i <= |children|
        invariant Collected(boxMap, children, i, next)
        invariant forall j, j' :: 0 <= j < j' < |next| ==> next[j] != next[j']
      {
        CollectStep(boxMap, children, i, next);
        next := UniquePointArray(next + GetBoxChildrens(boxMap, children[i]));
        i := i + 1;
      }
    }

    /**
     * `calculateDistance`: ring by ring, the unvisited children of the current ring become the next
     * ring and get the next distance, until a ring is empty. Started from the seeded state, every
     * reachable cell ends visited with its hop count from `position` as distance.
     */
    method CalculateDistance(position: Pos)
      requires Valid() && Seeded(boxMap, position)
      modifies this
      ensures Valid()
      ensures goalPosition == old(goalPosition) && boxCount == old(boxCount)
      ensures OnlyDistancesChanged(old(boxMap), boxMap)
      ensures DistancesFrom(boxMap, position)
    {
      ghost var g0 := boxMap;
      ghost var pop := Populated(boxMap);
      InitialFrontier(boxMap, position);
      var distance := GoalDistance;
      var childrenNodes := FilterUnvisited(boxMap, GetBoxChildrens(boxMap, position));
      while |childrenNodes| > 0
        invariant Valid() && distance >= 0
        invariant goalPosition == old(goalPosition) && boxCount == old(boxCount)
        invariant FillState(g0, boxMap, pop, position, childrenNodes, distance)
        decreases Unvisited(boxMap)
      {
        ghost var before := boxMap;
        distance := distance + 1;
        SetDistances(childrenNodes, distance);
        var newChildrenNodes := CollectChildren(childrenNodes);
        FillRound(g0, before, boxMap, pop, position, childrenNodes, newChildrenNodes, distance);
        childrenNodes := FilterUnvisited(boxMap, newChildrenNodes);
      }
      FinalFrontier(g0, boxMap, pop, position, distance);
    }

    /**
     * `calculateForceVectors`: every cell's force is set from its neighbours' distances, a missing
     * neighbour counting as one further than the cell; distances, flags and topology stay.
     */
    method CalculateForceVectors()
      requires Valid()
      modifies this
      ensures Valid()
      ensures goalPosition == old(goalPosition) && boxCount == old(boxCount)
      ensures OnlyForcesChanged(old(boxMap), boxMap)
      ensures forall p :: Exist(boxMap, p) ==> At(boxMap, p).force == ForceAt(old(boxMap), p)
    {
      ghost var g0 := boxMap;
      var col := 0;
      while col < |boxMap|
        invariant 0 <= col <= |boxMap|
        invariant ForcePass(g0, boxMap, col, 0)
        invariant goalPosition == old(goalPosition) && boxCount == old(boxCount)
      {
        var row := 0;
        while row < |boxMap[col]|
          invariant 0 <= col < |boxMap| && 0 <= row <= |boxMap[col]|
          invariant ForcePass(g0, boxMap, col, row)
          invariant goalPosition == old(goalPosition) && boxCount == old(boxCount)
        {
          var slot := boxMap[col][row];
          if slot.Some? {
            var parent := slot.value;
            var n := GetNamedChildrens(boxMap, Pos(col, row));
            var f := ComputeForce(parent.distance, n);
            ForcePassStep(g0, boxMap, col, row, f);
            boxMap := boxMap[col := boxMap[col][row := Some(parent.(force := f))]];
          } else {
            ForcePassSkip(g0, boxMap, col, row);
          }
          row := row + 1;
        }
        col := col + 1;
      }
      ForcePassDone(g0, boxMap);
      SameTopologyPopulated(g0, boxMap);
      SameTopologyCount(g0, boxMap);
    }

    /**
     * `calculateBoxesDistance`: reset, seed the goal, fill the distances, then compute the forces.
     * Afterwards the goal is recorded, the visited cells are exactly those reachable from it, each
     * with its hop count as distance, and every force matches the final distances. Returns the board.
     */
    method CalculateBoxesDistance(goal: Pos) returns (r: Board)
      requires Valid()
      modifies this
      ensures r == this && Valid()
      ensures goalPosition == goal && boxCount == old(boxCount)
      ensures SameTopology(old(boxMap), boxMap)
      ensures DistancesFrom(boxMap, goal)
      ensures forall p :: Exist(boxMap, p) ==> At(boxMap, p).force == ForceAt(boxMap, p)
    {
      ghost var g0 := boxMap;
      Reset();
      ghost var g1 := boxMap;
      SameTopologyPopulated(g0, g1);
      SetGoalDistance(goal);
      ghost var g2 := boxMap;
      SameTopologyPopulated(g1, g2);
      assert Seeded(boxMap, goal);
      CalculateDistance(goal);
      ghost var g3 := boxMap;
      SameTopologyPopulated(g2, g3);
      CalculateForceVectors();
      SameTopologyPopulated(g3, boxMap);
      forall p | Exist(boxMap, p)
        ensures At(boxMap, p).force == ForceAt(boxMap, p)
      {
        ForceStable(g3, boxMap, p);
      }
      assert Populated(g3) == Populated(boxMap);
      r := this;
    }

    /**
     * `removeFromBoard`: a new board of the same dimensions whose cells are new cells at exactly the
     * addresses populated here and not in `board`.
     */
    method RemoveFromBoard(board: Board) returns (r: Board)
      requires Valid() && board.Valid()
      ensures fresh(r) && r.Valid()
      ensures r.horizontalBoxes == horizontalBoxes && r.verticalBoxes == verticalBoxes && r.boxSize == boxSize
      ensures r.goalPosition == Pos(-1, -1)
      ensures forall p :: Exist(r.boxMap, p) <==> Exist(boxMap, p) && !Exist(board.boxMap, p)
      ensures forall p :: Exist(r.boxMap, p) ==> At(r.boxMap, p) == NewBox(p, boxSize)
    {
      var newBoxPositions := KeptPositions(Flat(boxMap), Flat(board.boxMap));
      forall p | p in newBoxPositions
        ensures 0 <= p.x < horizontalBoxes && 0 <= p.y < verticalBoxes
      {
        KeptPositionsSpec(boxMap, board.boxMap, p);
      }
      r := new Board(horizontalBoxes, verticalBoxes, boxSize, false, Some(newBoxPositions));
      FilledGridSpec(r.boxMap, horizontalBoxes, verticalBoxes, boxSize, newBoxPositions);
      forall p ensures Exist(r.boxMap, p) <==> Exist(boxMap, p) && !Exist(board.boxMap, p) {
        KeptPositionsSpec(boxMap, board.boxMap, p);
      }
    }

    /**
     * `toArrayBuffer`: `[h, v, size, boxCount]` followed by `(x, y, fx, fy)` for each cell in
     * column-major order, written by index into an array of length `4 + 4 * boxCount`. The cells
     * are visited in the order of `forEachBox`, which `Flat` lists.
     */
    method ToArrayBuffer() returns (buffer: seq<real>)
      requires Valid()
      ensures buffer == EncodeBoard(horizontalBoxes, verticalBoxes, boxSize, boxCount, Flat(boxMap))
    {
      var offset := 4;
      var buf := new real[boxCount * 4 + offset];
      buf[0] := horizontalBoxes as real;
      buf[1] := verticalBoxes as real;
      buf[2] := boxSize;
      buf[3] := boxCount as real;
      var cells := Flat(boxMap);
      WriteRecords(buf, offset, cells);
      buffer := buf[..];
    }
  }

  /**
   * The `forEachBox` pass of `toArrayBuffer`: the record of the `i`-th listed cell is written at
   * `offset + 4 * i`; the entries before `offset` are left as they were.
   */
  method WriteRecords(buf: array<real>, offset: nat, cells: seq<BoxState>)
    requires buf.Length == offset + 4 * |cells|
    modifies buf
    ensures buf[..] == old(buf[..offset]) + Records(cells)
  {
    ghost var header := buf[..offset];
    var i := 0;
    while i < |cells|
      invariant 0 <= i <= |cells|
      invariant buf[..|header| + 4 * i] == header + Records(cells[..i])
    {
      var b := cells[i];
      var firstItem := i * 4 + offset;
      buf[firstItem] := b.position.x as real;
      buf[firstItem + 1] := b.position.y as real;
      buf[firstItem + 2] := b.force.x;
      buf[firstItem + 3] := b.force.y;
      RecordWritten(buf[..], header, cells, i, firstItem);
      i := i + 1;
    }
    assert cells[..i] == cells;
  }

  /**
   * One step of `toArrayBuffer`: once the record of cell `i` is written after the header and the
   * records of the cells before it, the buffer starts with the header and the records of one more cell.
   */
  lemma RecordWritten(s: seq<real>, header: seq<real>, cells: seq<BoxState>, i: nat, k: nat)
    requires i < |cells| && k == |header| + 4 * i && k + 4 <= |s|
    requires s[..k] == header + Records(cells[..i])
    requires s[k] == cells[i].position.x as real && s[k + 1] == cells[i].position.y as real
    requires s[k + 2] == cells[i].force.x && s[k + 3] == cells[i].force.y
    ensures s[..|header| + 4 * (i + 1)] == header + Records(cells[..i + 1])
  {
    assert s[..k + 4] == s[..k] + Record(cells[i]);
    assert cells[..i + 1] == cells[..i] + [cells[i]];
    RecordsAppend(cells[..i], cells[i]);
  }

  /**
   * The body of `calculateForceVectors` for one cell: a missing neighbour counts as distance `d + 1`,
   * and the components are accumulated in the source's order.
   */
  method ComputeForce(d: int, n: NamedChildrens) returns (f: Vec)
    ensures f == ForceFromNeighbours(d, n)
  {
    var left, right := NeighbourDistance(n.left, d), NeighbourDistance(n.right, d);
    var top, bottom := NeighbourDistance(n.top, d), NeighbourDistance(n.bottom, d);
    var topLeft, topRight := NeighbourDistance(n.topLeft, d), NeighbourDistance(n.topRight, d);
    var bottomRight, bottomLeft := NeighbourDistance(n.bottomRight, d), NeighbourDistance(n.bottomLeft, d);
    var fx := (left - right) as real * 0.25;
    var fy := (top - bottom) as real * 0.25;
    fy := fy + -((bottomRight - topLeft) as real) * 0.4;
    fx := fx + -((bottomRight - topLeft) as real) * 0.4;
    fy := fy + -((bottomLeft - topRight) as real) * 0.4;
    fx := fx + ((bottomLeft - topRight) as real) * 0.4;
    f := Vec(fx, fy);
  }

  /** The force pass has handled every slot before `(col, row)` in column-major order and no other. */
  ghost predicate ForcePass(g0: Grid, g: Grid, col: int, row: int) {
    |g| == |g0| && (forall c :: 0 <= c < |g0| ==> |g[c]| == |g0[c]|) &&
    forall c, r :: 0 <= c < |g0| && 0 <= r < |g0[c]| ==>
      g[c][r] == if c < col || (c == col && r < row) then ForceSlot(g0, c, r) else g0[c][r]
  }

  lemma ForcePassOnlyForces(g0: Grid, g: Grid, col: int, row: int)
    requires ForcePass(g0, g, col, row)
    ensures OnlyForcesChanged(g0, g)
  {
  }

  /** Handling the slot at `(col, row)` with the force read from the partly updated grid. */
  lemma ForcePassStep(g0: Grid, g: Grid, col: int, row: int, f: Vec)
    requires ForcePass(g0, g, col, row) && 0 <= col < |g| && 0 <= row < |g[col]| && g[col][row].Some?
    requires f == ForceFromNeighbours(g[col][row].value.distance, GetNamedChildrens(g, Pos(col, row)))
    ensures ForcePass(g0, g[col := g[col][row := Some(g[col][row].value.(force := f))]], col, row + 1)
  {
    ForcePassOnlyForces(g0, g, col, row);
    ForceStable(g0, g, Pos(col, row));
  }

  /** Passing over an empty slot. */
  lemma ForcePassSkip(g0: Grid, g: Grid, col: int, row: int)
    requires ForcePass(g0, g, col, row) && 0 <= col < |g| && 0 <= row < |g[col]| && g[col][row].None?
    ensures ForcePass(g0, g, col, row + 1)
  {
  }

  /** After the last slot every cell holds the force of the original distances. */
  lemma ForcePassDone(g0: Grid, g: Grid)
    requires ForcePass(g0, g, |g0|, 0)
    ensures OnlyForcesChanged(g0, g)
    ensures forall p :: Exist(g, p) ==> At(g, p).force == ForceAt(g0, p)
  {
    ForcePassOnlyForces(g0, g, |g0|, 0);
  }

  /** The slot at `(c, r)` after the force pass. */
  ghost function ForceSlot(g: Grid, c: int, r: int): Option<BoxState>
    requires 0 <= c < |g| && 0 <= r < |g[c]|
  {
    if g[c][r].Some? then Some(g[c][r].value.(force := ForceAt(g, Pos(c, r)))) else None
  }

  function ResetSlot(o: Option<BoxState>): Option<BoxState> {
    if o.Some? then Some(o.value.Reset()) else None
  }

  /** The force pass reads only distances, so changing forces elsewhere does not change any cell's force. */
  lemma ForceStable(a: Grid, b: Grid, p: Pos)
    requires OnlyForcesChanged(a, b) && Exist(a, p)
    ensures Exist(b, p) && ForceAt(a, p) == ForceAt(b, p)
  {
    SameTopologyPopulated(a, b);
    var na, nb := GetNamedChildrens(a, p), GetNamedChildrens(b, p);
    var d := At(a, p).distance;
    assert AllNeighbourDistances(na, d) == AllNeighbourDistances(nb, d);
  }
}
