/**
 * The older flat-list board (`Board` in `src/boilerplate/objects/board.ts`): the same grid kept as
 * one list of cells in column-major order, a neighbourhood found by filtering that list, and the
 * same ring-by-ring distance fill. A reference to a cell of the list is modelled as its index.
 */
module FlatBoards {
  import opened Wrappers
  import opened Geometry
  import opened Hops
  import opened Utils
  import Grids

  const GoalDistance := 0

  /**
   * A cell of the list: its address, its distance and the `visited` flag the fill sets on it (a
   * new cell has none, which reads as false).
   */
  datatype FlatBox = FlatBox(position: Pos, distance: int, visited: bool)

  /** The addresses of the listed cells, in list order. */
  function Positions(bs: seq<FlatBox>): (r: seq<Pos>)
    ensures |r| == |bs| && forall i :: 0 <= i < |bs| ==> r[i] == bs[i].position
  {
    seq(|bs|, i requires 0 <= i < |bs| => bs[i].position)
  }

  /** The addresses some cell of the list has. */
  ghost function PopOf(bs: seq<FlatBox>): set<Pos> {
    set i | 0 <= i < |bs| :: bs[i].position
  }

  /** Every cell is as `new Box({ position })` leaves it: distance 0 and not visited. */
  predicate AllNew(bs: seq<FlatBox>) {
    forall i :: 0 <= i < |bs| ==> bs[i].distance == 0 && !bs[i].visited
  }

  /** No two cells share an address. */
  predicate DistinctPositions(bs: seq<FlatBox>) {
    forall i, j :: 0 <= i < j < |bs| ==> bs[i].position != bs[j].position
  }

  function NatOf(n: int): nat {
    if n < 0 then 0 else n
  }

  /** The addresses of column `col`, rows `0 .. v - 1`. */
  function ColumnPositions(col: int, v: nat): (r: seq<Pos>)
    ensures |r| == v && forall row :: 0 <= row < v ==> r[row] == Pos(col, row)
  {
    seq(v, row => Pos(col, row))
  }

  /** Every address of an `h` by `v` grid, column after column. */
  function FullPositions(h: nat, v: nat): seq<Pos> {
    if h == 0 then [] else FullPositions(h - 1, v) + ColumnPositions(h - 1, v)
  }

  /** The addresses `initBoxMap` lists: the full grid, or the given positions as they are, or none. */
  function InitialPositions(h: int, v: int, initAll: bool, positionsToFill: Option<seq<Pos>>): seq<Pos> {
    if initAll then FullPositions(NatOf(h), NatOf(v))
    else if positionsToFill.Some? then positionsToFill.value
    else []
  }

  /** The full listing holds exactly the addresses of the grid. */
  lemma {:induction false} FullPositionsMembers(h: nat, v: nat, p: Pos)
    ensures p in FullPositions(h, v) <==> 0 <= p.x < h && 0 <= p.y < v
  {
    if h > 0 {
      FullPositionsMembers(h - 1, v, p);
      if p.x == h - 1 && 0 <= p.y < v {
        assert ColumnPositions(h - 1, v)[p.y] == p;
      }
    }
  }

  /** The full listing has `h * v` entries and none twice. */
  lemma {:induction false} FullPositionsDistinct(h: nat, v: nat)
    ensures |FullPositions(h, v)| == h * v
    ensures forall i, j :: 0 <= i < j < |FullPositions(h, v)| ==> FullPositions(h, v)[i] != FullPositions(h, v)[j]
  {
    if h > 0 {
      FullPositionsDistinct(h - 1, v);
      var a, b := FullPositions(h - 1, v), ColumnPositions(h - 1, v);
      var s := a + b;
      assert s == FullPositions(h, v);
      assert h * v == (h - 1) * v + v;
      forall i, j | 0 <= i < j < |s|
        ensures s[i] != s[j]
      {
        if j >= |a| && i < |a| {
          FullPositionsMembers(h - 1, v, s[i]);
          assert s[i] in a;
        }
      }
    }
  }

  /** `exist`: some listed cell has the address; there is no bounds check. */
  predicate Exist(bs: seq<FlatBox>, p: Pos) {
    exists i :: 0 <= i < |bs| && bs[i].position == p
  }

  /**
   * `exist` is membership of the listed addresses, whatever they are: an address outside the grid
   * exists as soon as it is listed.
   */
  lemma ExistIsListed(bs: seq<FlatBox>, p: Pos)
    ensures Exist(bs, p) <==> p in Positions(bs)
    ensures Exist(bs, p) <==> p in PopOf(bs)
  {
    if p in Positions(bs) {
      var i :| 0 <= i < |Positions(bs)| && Positions(bs)[i] == p;
      assert bs[i].position == p;
    }
  }

  /** The condition of `getBoxChildrens`' filter, as written: a diagonal, vertical or horizontal step. */
  predicate ChildCondition(p: Pos, box: Pos) {
    ((p.x == box.x + 1 || p.x == box.x - 1) && (p.y == box.y + 1 || p.y == box.y - 1)) ||
    ((p.x == box.x && (p.y == box.y + 1 || p.y == box.y - 1)) || (p.y == box.y && (p.x == box.x + 1 || p.x == box.x - 1)))
  }

  /** The filter over the first `n` cells. */
  function ChildrensUpTo(bs: seq<FlatBox>, p: Pos, n: nat): (r: seq<nat>)
    requires n <= |bs|
    ensures forall j :: 0 <= j < |r| ==> r[j] < n
    ensures forall j, j' :: 0 <= j < j' < |r| ==> r[j] < r[j']
    ensures forall i: nat :: i in r <==> i < n && Adjacent(p, bs[i].position)
  {
    if n == 0 then []
    else ChildrensUpTo(bs, p, n - 1) + (if ChildCondition(p, bs[n - 1].position) then [n - 1] else [])
  }

  /**
   * `getBoxChildrens(p)`: the cells one king's step from `p`, in list order. A listed address that
   * repeats is returned once per cell.
   */
  function Childrens(bs: seq<FlatBox>, p: Pos): (r: seq<nat>)
    ensures forall j :: 0 <= j < |r| ==> r[j] < |bs|
    ensures forall j, j' :: 0 <= j < j' < |r| ==> r[j] < r[j']
    ensures forall i: nat :: i in r <==> i < |bs| && Adjacent(p, bs[i].position)
  {
    ChildrensUpTo(bs, p, |bs|)
  }

  /**
   * `Utils.unique`, called at `src/boilerplate/objects/board.ts:217`, is not defined by the
   * boilerplate `Utils`; it is modelled as deduplication by address, as `uniqueBoxArray` does.
   * This is the key it compares cells by.
   */
  function PositionKey(ps: seq<Pos>): nat -> Pos {
    (i: nat) => if i < |ps| then ps[i] else Pos(-1, -1)
  }

  /** `Utils.unique` (board.ts:217) on references into the list: the first reference to each address is kept. */
  function UniqueBoxArray(bs: seq<FlatBox>, idx: seq<nat>): seq<nat> {
    UniqueBy(idx, PositionKey(Positions(bs)))
  }

  /** `filter(({ visited }) => !visited)`. */
  function FilterUnvisited(bs: seq<FlatBox>, idx: seq<nat>): (r: seq<nat>)
    requires forall j :: 0 <= j < |idx| ==> idx[j] < |bs|
    ensures forall j :: 0 <= j < |r| ==> r[j] < |bs| && !bs[r[j]].visited
    ensures forall i :: i in r <==> i in idx && !bs[i].visited
  {
    if idx == [] then []
    else (if !bs[idx[0]].visited then [idx[0]] else []) + FilterUnvisited(bs, idx[1..])
  }

  /** The first cell with the address, as `find` returns it, or -1. */
  function FindBox(bs: seq<FlatBox>, p: Pos): (i: int)
    ensures -1 <= i < |bs|
    ensures 0 <= i ==> bs[i].position == p && forall j :: 0 <= j < i ==> bs[j].position != p
    ensures i == -1 <==> !Exist(bs, p)
  {
    FindIndex(Positions(bs), PointKey, p)
  }

  /** The state the fill starts from: only cells at the goal are visited, at distance 0. */
  predicate Seeded(bs: seq<FlatBox>, goal: Pos) {
    forall i :: 0 <= i < |bs| ==> (bs[i].visited <==> bs[i].position == goal) && (bs[i].visited ==> bs[i].distance == GoalDistance)
  }

  /** `b` is `a` after `setDistances(children, d)`: each referenced cell not yet visited gets `d` and is visited. */
  predicate Marked(a: seq<FlatBox>, b: seq<FlatBox>, children: seq<nat>, d: int) {
    |a| == |b| &&
    forall i :: 0 <= i < |a| ==>
      b[i] == if i in children && !a[i].visited then a[i].(distance := d, visited := true) else a[i]
  }

  /** Every cell within `k` steps of the goal is visited with its hop count as distance, and no other is. */
  ghost predicate FilledUpTo(bs: seq<FlatBox>, pop: set<Pos>, goal: Pos, k: nat) {
    forall i :: 0 <= i < |bs| ==>
      (bs[i].visited <==> WithinHops(pop, goal, bs[i].position, k)) &&
      (bs[i].visited ==> bs[i].distance >= 0 && IsHopCount(pop, goal, bs[i].position, bs[i].distance))
  }

  /** `children` refers to exactly the cells first reached at step `k`. */
  ghost predicate IsRing(bs: seq<FlatBox>, pop: set<Pos>, goal: Pos, children: seq<nat>, k: nat)
    requires k >= 1
  {
    forall i :: 0 <= i < |bs| ==> (i in children <==> InRing(pop, goal, bs[i].position, k))
  }

  /** The outcome of the fill: visited exactly when reachable, and then at its hop count. */
  ghost predicate DistancesFrom(bs: seq<FlatBox>, goal: Pos) {
    forall i :: 0 <= i < |bs| ==>
      (bs[i].visited <==> Reachable(PopOf(bs), goal, bs[i].position)) &&
      (bs[i].visited ==> bs[i].distance >= 0 && IsHopCount(PopOf(bs), goal, bs[i].position, bs[i].distance))
  }

  /** The cells not yet visited. */
  function UnvisitedCount(bs: seq<FlatBox>): nat {
    if bs == [] then 0 else UnvisitedCount(bs[..|bs| - 1]) + (if bs[|bs| - 1].visited then 0 else 1)
  }

  /** Visiting cells and unvisiting none lowers the count of unvisited cells by at least the cells newly visited. */
  lemma {:induction false} UnvisitedShrinks(a: seq<FlatBox>, b: seq<FlatBox>)
    requires |a| == |b| && forall j :: 0 <= j < |a| && a[j].visited ==> b[j].visited
    ensures UnvisitedCount(b) <= UnvisitedCount(a)
    ensures forall i :: 0 <= i < |a| && !a[i].visited && b[i].visited ==> UnvisitedCount(b) < UnvisitedCount(a)
  {
    if a != [] {
      var n := |a| - 1;
      UnvisitedShrinks(a[..n], b[..n]);
      forall i | 0 <= i < n && !a[i].visited && b[i].visited
        ensures UnvisitedCount(b[..n]) < UnvisitedCount(a[..n])
      {
        assert a[..n][i] == a[i] && b[..n][i] == b[i];
      }
    }
  }

  /** Before the loop: the goal is handled, and the first ring is the goal's unvisited children. */
  lemma InitialFrontier(bs: seq<FlatBox>, goal: Pos)
    requires Seeded(bs, goal)
    ensures FilledUpTo(bs, PopOf(bs), goal, 0)
    ensures IsRing(bs, PopOf(bs), goal, FilterUnvisited(bs, Childrens(bs, goal)), 1)
  {
    var pop := PopOf(bs);
    GoalHopCount(pop, goal);
    forall i | 0 <= i < |bs|
      ensures i in FilterUnvisited(bs, Childrens(bs, goal)) <==> InRing(pop, goal, bs[i].position, 1)
    {
      FirstRing(pop, goal, bs[i].position);
    }
  }

  /** One round's marking: giving ring `k + 1` distance `k + 1` extends the handled cells to `k + 1` steps. */
  lemma MarkRing(a: seq<FlatBox>, b: seq<FlatBox>, pop: set<Pos>, goal: Pos, children: seq<nat>, k: nat)
    requires FilledUpTo(a, pop, goal, k)
    requires IsRing(a, pop, goal, children, k + 1)
    requires Marked(a, b, children, k + 1)
    ensures FilledUpTo(b, pop, goal, k + 1)
    ensures IsRing(b, pop, goal, children, k + 1)
  {
    forall i | 0 <= i < |b|
      ensures (b[i].visited <==> WithinHops(pop, goal, b[i].position, k + 1))
      ensures b[i].visited ==> b[i].distance >= 0 && IsHopCount(pop, goal, b[i].position, b[i].distance)
    {
      if i in children {
        RingHopCount(pop, goal, a[i].position, k + 1);
      } else if WithinHops(pop, goal, a[i].position, k) {
        WithinHopsStep(pop, goal, a[i].position, k);
      }
    }
  }

  /** Cell `i` is a child of some cell `children` refers to. */
  ghost predicate ChildOfAny(bs: seq<FlatBox>, children: seq<nat>, i: nat)
    requires i < |bs|
  {
    exists c :: c in children && c < |bs| && Adjacent(bs[c].position, bs[i].position)
  }

  /** Some cell `next` refers to has cell `i`'s address. */
  ghost predicate Covered(bs: seq<FlatBox>, next: seq<nat>, i: nat)
    requires i < |bs|
  {
    exists i' :: i' in next && i' < |bs| && bs[i'].position == bs[i].position
  }

  /** Every reference of `next` is a child of some cell of `children`. */
  ghost predicate FromChildren(bs: seq<FlatBox>, children: seq<nat>, next: seq<nat>) {
    forall i :: i in next ==> i < |bs| && ChildOfAny(bs, children, i)
  }

  /** Every child of a cell of `children` has its address represented in `next`. */
  ghost predicate CoversChildren(bs: seq<FlatBox>, children: seq<nat>, next: seq<nat>) {
    forall i: nat :: i < |bs| && ChildOfAny(bs, children, i) ==> Covered(bs, next, i)
  }

  /** In a list without repeated addresses, an address names one cell. */
  lemma DistinctAt(bs: seq<FlatBox>, i: nat, j: nat)
    requires DistinctPositions(bs) && i < |bs| && j < |bs| && bs[i].position == bs[j].position
    ensures i == j
  {
  }

  /**
   * One round's expansion: with no address listed twice, the unvisited cells among the collected
   * children of ring `k` form ring `k + 1`.
   */
  lemma NextFrontier(bs: seq<FlatBox>, goal: Pos, children: seq<nat>, next: seq<nat>, k: nat)
    requires k >= 1 && DistinctPositions(bs)
    requires FilledUpTo(bs, PopOf(bs), goal, k)
    requires IsRing(bs, PopOf(bs), goal, children, k)
    requires forall j :: 0 <= j < |next| ==> next[j] < |bs|
    requires FromChildren(bs, children, next) && CoversChildren(bs, children, next)
    ensures IsRing(bs, PopOf(bs), goal, FilterUnvisited(bs, next), k + 1)
  {
    forall i | 0 <= i < |bs|
      ensures i in FilterUnvisited(bs, next) <==> InRing(PopOf(bs), goal, bs[i].position, k + 1)
    {
      NextFrontierAt(bs, goal, children, next, k, i);
    }
  }

  lemma NextFrontierAt(bs: seq<FlatBox>, goal: Pos, children: seq<nat>, next: seq<nat>, k: nat, i: nat)
    requires k >= 1 && DistinctPositions(bs) && i < |bs|
    requires FilledUpTo(bs, PopOf(bs), goal, k)
    requires IsRing(bs, PopOf(bs), goal, children, k)
    requires FromChildren(bs, children, next) && CoversChildren(bs, children, next)
    ensures i in next && !bs[i].visited <==> InRing(PopOf(bs), goal, bs[i].position, k + 1)
  {
    var pop := PopOf(bs);
    var q := bs[i].position;
    assert q in pop;
    NextRing(pop, goal, q, k);
    if InRing(pop, goal, q, k + 1) {
      var p :| p in pop && Adjacent(p, q) && InRing(pop, goal, p, k);
      var c :| 0 <= c < |bs| && bs[c].position == p;
      assert c in children;
      assert ChildOfAny(bs, children, i);
      var i' :| i' in next && i' < |bs| && bs[i'].position == q;
      DistinctAt(bs, i', i);
    }
    if i in next && !bs[i].visited {
      var c :| c in children && c < |bs| && Adjacent(bs[c].position, q);
      assert bs[c].position in pop;
    }
  }

  /** The key of a reference into the list is the address of the cell it refers to. */
  lemma PositionKeyAt(bs: seq<FlatBox>, i: nat)
    requires i < |bs|
    ensures PositionKey(Positions(bs))(i) == bs[i].position
  {
  }

  /**
   * One merge of the inner loop keeps the references bounded, and every reference a child of the
   * cells merged so far.
   */
  lemma CollectStepFrom(bs: seq<FlatBox>, cs: seq<nat>, c: nat, next: seq<nat>)
    requires c < |bs| && FromChildren(bs, cs, next)
    ensures var u := UniqueBoxArray(bs, next + Childrens(bs, bs[c].position));
      (forall j :: 0 <= j < |u| ==> u[j] < |bs|) && FromChildren(bs, cs + [c], u)
  {
    var merged := next + Childrens(bs, bs[c].position);
    UniqueByElements(merged, PositionKey(Positions(bs)));
    var u := UniqueBoxArray(bs, merged);
    forall i | i in u
      ensures i < |bs| && ChildOfAny(bs, cs + [c], i)
    {
      FromOne(bs, cs, c, next, i);
    }
    forall j | 0 <= j < |u|
      ensures u[j] < |bs|
    {
      assert u[j] in u;
    }
  }

  lemma FromOne(bs: seq<FlatBox>, cs: seq<nat>, c: nat, next: seq<nat>, i: nat)
    requires c < |bs| && FromChildren(bs, cs, next) && i in next + Childrens(bs, bs[c].position)
    ensures i < |bs| && ChildOfAny(bs, cs + [c], i)
  {
    if i in next {
      var c' :| c' in cs && c' < |bs| && Adjacent(bs[c'].position, bs[i].position);
      assert c' in cs + [c];
    } else {
      assert c in cs + [c];
    }
  }

  /** One merge of the inner loop keeps every child of the cells merged so far represented. */
  lemma CollectStepCovers(bs: seq<FlatBox>, cs: seq<nat>, c: nat, next: seq<nat>)
    requires c < |bs| && (forall j :: 0 <= j < |next| ==> next[j] < |bs|) && CoversChildren(bs, cs, next)
    ensures CoversChildren(bs, cs + [c], UniqueBoxArray(bs, next + Childrens(bs, bs[c].position)))
  {
    var merged := next + Childrens(bs, bs[c].position);
    assert forall j :: 0 <= j < |merged| ==> merged[j] < |bs|;
    forall i: nat | i < |bs| && ChildOfAny(bs, cs + [c], i)
      ensures Covered(bs, UniqueBoxArray(bs, merged), i)
    {
      var c' :| c' in cs + [c] && c' < |bs| && Adjacent(bs[c'].position, bs[i].position);
      var m: nat;
      if c' in cs {
        assert ChildOfAny(bs, cs, i);
        var i' :| i' in next && i' < |bs| && bs[i'].position == bs[i].position;
        m := i';
      } else {
        m := i;
      }
      CoverOne(bs, merged, m);
    }
  }

  /** Deduplicating references by address keeps a reference with each address. */
  lemma CoverOne(bs: seq<FlatBox>, merged: seq<nat>, m: nat)
    requires (forall j :: 0 <= j < |merged| ==> merged[j] < |bs|) && m in merged
    ensures exists e :: e in UniqueBoxArray(bs, merged) && e < |bs| && bs[e].position == bs[m].position
  {
    var key := PositionKey(Positions(bs));
    UniqueByElements(merged, key);
    var e :| e in UniqueBy(merged, key) && key(e) == key(m);
    assert e in merged;
    PositionKeyAt(bs, m);
    PositionKeyAt(bs, e);
  }

  /**
   * `b` is `a` with some cells newly visited: addresses stay, and a cell visited in `a` or not
   * visited in `b` is as it was.
   */
  predicate KeptFrom(a: seq<FlatBox>, b: seq<FlatBox>) {
    Positions(b) == Positions(a) &&
    forall i :: 0 <= i < |b| && (a[i].visited || !b[i].visited) ==> b[i] == a[i]
  }

  lemma KeptPop(a: seq<FlatBox>, b: seq<FlatBox>)
    requires Positions(b) == Positions(a)
    ensures PopOf(b) == PopOf(a) && (DistinctPositions(a) ==> DistinctPositions(b))
  {
    assert forall i :: 0 <= i < |b| ==> b[i].position == Positions(b)[i] == a[i].position;
  }

  /** The loop invariant of the fill: addresses distinct, `k` steps handled, and `children` the next ring. */
  ghost predicate Filling(bs: seq<FlatBox>, goal: Pos, children: seq<nat>, k: nat) {
    DistinctPositions(bs) && FilledUpTo(bs, PopOf(bs), goal, k) && IsRing(bs, PopOf(bs), goal, children, k + 1)
  }

  /**
   * One round of `calculateDistance`'s loop keeps the cells' addresses and earlier values, visits
   * at least one more cell, and carries the fill's invariant from ring `k + 1` to ring `k + 2`.
   */
  lemma Round(b0: seq<FlatBox>, a: seq<FlatBox>, b: seq<FlatBox>, goal: Pos, children: seq<nat>, next: seq<nat>, d: nat, ok: bool)
    requires |children| > 0 && d >= 1
    requires forall j :: 0 <= j < |children| ==> children[j] < |a| && !a[children[j]].visited
    requires KeptFrom(b0, a) && Marked(a, b, children, d)
    requires forall j :: 0 <= j < |next| ==> next[j] < |b|
    requires FromChildren(b, children, next) && CoversChildren(b, children, next)
    requires ok ==> Filling(a, goal, children, d - 1)
    ensures KeptFrom(b0, b) && UnvisitedCount(b) < UnvisitedCount(a)
    ensures ok ==> Filling(b, goal, FilterUnvisited(b, next), d)
  {
    assert b[children[0]].visited;
    UnvisitedShrinks(a, b);
    assert Positions(b) == Positions(a);
    KeptPop(a, b);
    if ok {
      MarkRing(a, b, PopOf(a), goal, children, d - 1);
      NextFrontier(b, goal, children, next, d);
    }
  }

  /** When a round finds nothing new, the handled cells are everything reachable. */
  lemma FinalFrontier(bs: seq<FlatBox>, goal: Pos, k: nat)
    requires FilledUpTo(bs, PopOf(bs), goal, k)
    requires IsRing(bs, PopOf(bs), goal, [], k + 1)
    ensures DistancesFrom(bs, goal)
  {
    var pop := PopOf(bs);
    forall q | q in pop
      ensures !InRing(pop, goal, q, k + 1)
    {
      var i :| 0 <= i < |bs| && bs[i].position == q;
    }
    forall i | 0 <= i < |bs|
      ensures bs[i].visited <==> Reachable(pop, goal, bs[i].position)
    {
      if Reachable(pop, goal, bs[i].position) {
        var j: nat :| WithinHops(pop, goal, bs[i].position, j);
        RingsStop(pop, goal, k, bs[i].position, j);
      }
    }
  }

  /**
   * The flat list and the grid agree: with the same populated addresses and a distance fill from
   * the same goal, every listed cell has the grid cell's visited flag and distance.
   */
  lemma AgreesWithGrid(bs: seq<FlatBox>, g: Grids.Grid, goal: Pos)
    requires DistancesFrom(bs, goal) && Grids.DistancesFrom(g, goal)
    requires PopOf(bs) == Grids.Populated(g)
    ensures forall i :: 0 <= i < |bs| ==>
      Grids.Exist(g, bs[i].position) &&
      Grids.At(g, bs[i].position).visited == bs[i].visited &&
      (bs[i].visited ==> Grids.At(g, bs[i].position).distance == bs[i].distance)
  {
    forall i | 0 <= i < |bs|
      ensures Grids.Exist(g, bs[i].position)
      ensures Grids.At(g, bs[i].position).visited == bs[i].visited
      ensures bs[i].visited ==> Grids.At(g, bs[i].position).distance == bs[i].distance
    {
      var p := bs[i].position;
      Grids.PopulatedIsExist(g, p);
      if bs[i].visited {
        HopCountUnique(PopOf(bs), goal, p, bs[i].distance, Grids.At(g, p).distance);
      }
    }
  }

  /** The addresses of `a`'s cells that no cell of `b` has, in `a`'s order. */
  function Remaining(a: seq<FlatBox>, b: seq<FlatBox>): (r: seq<Pos>)
    ensures |r| <= |a|
  {
    if a == [] then []
    else Remaining(a[..|a| - 1], b) + (if Exist(b, a[|a| - 1].position) then [] else [a[|a| - 1].position])
  }

  /** `removeFromBoard` is set difference on addresses, and keeps a list that `b` does not touch as it is. */
  lemma {:induction false} RemainingSpec(a: seq<FlatBox>, b: seq<FlatBox>, p: Pos)
    ensures p in Remaining(a, b) <==> Exist(a, p) && !Exist(b, p)
    ensures (forall i :: 0 <= i < |a| ==> !Exist(b, a[i].position)) ==> Remaining(a, b) == Positions(a)
  {
    if a != [] {
      var n := |a| - 1;
      RemainingSpec(a[..n], b, p);
      if Exist(a[..n], p) {
        var i :| 0 <= i < n && a[..n][i].position == p;
        assert a[i].position == p;
      }
      if Exist(a, p) && p != a[n].position {
        var i :| 0 <= i < |a| && a[i].position == p;
        assert a[..n][i].position == p;
      }
      if forall i :: 0 <= i < |a| ==> !Exist(b, a[i].position) {
        assert forall i :: 0 <= i < n ==> !Exist(b, a[..n][i].position) by {
          forall i | 0 <= i < n
            ensures !Exist(b, a[..n][i].position)
          {
            assert a[..n][i] == a[i];
          }
        }
        assert Positions(a) == Positions(a[..n]) + [a[n].position];
      }
    }
  }

  /**
   * Builds the list `initBoxMap` leaves: with `initAll`, for each column each row (pushing into the
   * current column and flattening afterwards gives this order); otherwise one new cell per given
   * position, repeats included.
   */
  method InitBoxMap(horBoxes: int, vertBoxes: int, initAll: bool, positionsToFill: Option<seq<Pos>>) returns (boxes: seq<FlatBox>)
    ensures AllNew(boxes)
    ensures Positions(boxes) == InitialPositions(horBoxes, vertBoxes, initAll, positionsToFill)
  {
    boxes := [];
    if initAll {
      var col := 0;
      while col < horBoxes
        invariant 0 <= col && (horBoxes >= 0 ==> col <= horBoxes) && (horBoxes < 0 ==> col == 0)
        invariant AllNew(boxes) && Positions(boxes) == FullPositions(col, NatOf(vertBoxes))
      {
        var row := 0;
        while row < vertBoxes
          invariant 0 <= row && (vertBoxes >= 0 ==> row <= vertBoxes) && (vertBoxes < 0 ==> row == 0)
          invariant AllNew(boxes) && Positions(boxes) == FullPositions(col, NatOf(vertBoxes)) + ColumnPositions(col, row)
        {
          assert ColumnPositions(col, row + 1) == ColumnPositions(col, row) + [Pos(col, row)];
          boxes := boxes + [FlatBox(Pos(col, row), 0, false)];
          row := row + 1;
        }
        assert row == NatOf(vertBoxes);
        col := col + 1;
      }
    } else if positionsToFill.Some? {
      var ps := positionsToFill.value;
      for k := 0 to |ps|
        invariant AllNew(boxes) && Positions(boxes) == ps[..k]
      {
        assert ps[..k + 1] == ps[..k] + [ps[k]];
        boxes := boxes + [FlatBox(ps[k], 0, false)];
      }
      assert ps[..|ps|] == ps;
    }
  }

  class FlatBoard {
    const height: real
    const width: real
    const boxSize: real
    const verticalBoxes: int
    const horizontalBoxes: int
    var boxes: seq<FlatBox>
    var goalPosition: Pos

    /** The counts are the truncated quotients of a positive cell size. */
    ghost predicate Valid()
      reads this
    {
      boxSize > 0.0 && verticalBoxes == Trunc(height / boxSize) && horizontalBoxes == Trunc(width / boxSize)
    }

    /**
     * `new Board(config)`: `trunc(height / size)` rows and `trunc(width / size)` columns, no goal
     * yet, and the cells `initBoxMap` lists.
     */
    constructor (height: real, width: real, boxSize: real := 20.0, initAll: bool := true, positionsToFill: Option<seq<Pos>> := None)
      requires boxSize > 0.0
      ensures this.height == height && this.width == width && this.boxSize == boxSize
      ensures Valid() && verticalBoxes == Trunc(height / boxSize) && horizontalBoxes == Trunc(width / boxSize)
      ensures goalPosition == Pos(-1, -1)
      ensures AllNew(boxes) && Positions(boxes) == InitialPositions(horizontalBoxes, verticalBoxes, initAll, positionsToFill)
    {
      this.height := height;
      goalPosition := Pos(-1, -1);
      this.width := width;
      this.boxSize := boxSize;
      verticalBoxes := Trunc(height / boxSize);
      horizontalBoxes := Trunc(width / boxSize);
      var listed := InitBoxMap(Trunc(width / boxSize), Trunc(height / boxSize), initAll, positionsToFill);
      boxes := listed;
    }

    /**
     * `getBoxPositionByDimensions`: the zero guard aside, truncating division by the cell size. The
     * source repeats the method in this class; it is `Geometry.CellOf`, as on the main board.
     */
    function GetBoxPositionByDimensions(x: real, y: real): (p: Pos)
      reads this
      requires boxSize > 0.0
      ensures p == Pos(Trunc(x / boxSize), Trunc(y / boxSize))
    {
      CellCoordinateIsTrunc(x, boxSize);
      CellCoordinateIsTrunc(y, boxSize);
      CellOf(x, y, boxSize)
    }

    /**
     * `setGoalDistance`: records the goal, then gives the first cell at it distance 0 and marks it
     * visited; with no such cell it throws, after the goal has been recorded.
     */
    method SetGoalDistance(goal: Pos) returns (r: Result<()>)
      modifies this
      ensures goalPosition == goal && |boxes| == |old(boxes)| && Positions(boxes) == Positions(old(boxes))
      ensures r.Fault? <==> !Exist(old(boxes), goal)
      ensures r.Fault? ==> boxes == old(boxes)
      ensures r.Ok? ==> forall i :: 0 <= i < |boxes| ==>
        boxes[i] == if i == FindBox(old(boxes), goal) then old(boxes)[i].(distance := GoalDistance, visited := true) else old(boxes)[i]
      ensures r.Ok? && AllNew(old(boxes)) && DistinctPositions(old(boxes)) ==> Seeded(boxes, goal)
    {
      goalPosition := goal;
      var i := FindBox(boxes, goal);
      if i < 0 {
        return Fault("Goal node does not exist");
      }
      boxes := boxes[i := boxes[i].(distance := GoalDistance, visited := true)];
      assert Positions(boxes) == Positions(old(boxes));
      r := Ok(());
    }

    /** `setDistances`: every referenced cell not yet visited gets distance `d` and is visited. */
    method SetDistances(children: seq<nat>, d: int)
      requires forall j :: 0 <= j < |children| ==> children[j] < |boxes|
      modifies this
      ensures goalPosition == old(goalPosition) && Marked(old(boxes), boxes, children, d)
    {
      ghost var b0 := boxes;
      for k := 0 to |children|
        invariant goalPosition == old(goalPosition) && |boxes| == |b0|
        invariant forall i :: 0 <= i < |boxes| ==>
          boxes[i] == if i in children[..k] && !b0[i].visited then b0[i].(distance := d, visited := true) else b0[i]
      {
        assert children[..k + 1] == children[..k] + [children[k]];
        var c := children[k];
        if !boxes[c].visited {
          boxes := boxes[c := boxes[c].(distance := d, visited := true)];
        }
      }
      assert children[..|children|] == children;
    }

    /**
     * The inner loop of `calculateDistance`: the children of every referenced cell, merged one cell
     * at a time and deduplicated by address after each merge. Every result is a child of some
     * referenced cell, every address among those children is represented, and none twice.
     */
    method CollectChildren(children: seq<nat>) returns (next: seq<nat>)
      requires forall j :: 0 <= j < |children| ==> children[j] < |boxes|
      ensures forall j :: 0 <= j < |next| ==> next[j] < |boxes|
      ensures FromChildren(boxes, children, next) && CoversChildren(boxes, children, next)
      ensures DistinctKeys(next, PositionKey(Positions(boxes)))
    {
      next := [];
      for k := 0 to |children|
        invariant forall j :: 0 <= j < |next| ==> next[j] < |boxes|
        invariant FromChildren(boxes, children[..k], next) && CoversChildren(boxes, children[..k], next)
        invariant DistinctKeys(next, PositionKey(Positions(boxes)))
      {
        assert children[..k + 1] == children[..k] + [children[k]];
        CollectStepFrom(boxes, children[..k], children[k], next);
        CollectStepCovers(boxes, children[..k], children[k], next);
        UniqueByDistinct(next + Childrens(boxes, boxes[children[k]].position), PositionKey(Positions(boxes)));
        next := UniqueBoxArray(boxes, next + Childrens(boxes, boxes[children[k]].position));
      }
      assert children[..|children|] == children;
    }

    /**
     * `calculateDistance(position)`: ring by ring, the unvisited children of the current ring get
     * the next distance, until a ring is empty. Cells once visited, and cells never reached, keep
     * what they had. Started where `setGoalDistance` leaves a new board whose addresses are
     * distinct, every reachable cell ends visited with its hop count from `position`.
     */
    method CalculateDistance(position: Pos)
      modifies this
      ensures goalPosition == old(goalPosition) && Positions(boxes) == Positions(old(boxes))
      ensures forall i :: 0 <= i < |boxes| && (old(boxes)[i].visited || !boxes[i].visited) ==> boxes[i] == old(boxes)[i]
      ensures DistinctPositions(old(boxes)) && Seeded(old(boxes), position) ==> DistancesFrom(boxes, position)
    {
      ghost var b0 := boxes;
      ghost var ok := DistinctPositions(boxes) && Seeded(boxes, position);
      if ok {
        InitialFrontier(boxes, position);
      }
      var distance := GoalDistance;
      var childrenNodes: seq<nat> := FilterUnvisited(boxes, Childrens(boxes, position));
      while |childrenNodes| > 0
        invariant goalPosition == old(goalPosition) && distance >= 0
        invariant forall j :: 0 <= j < |childrenNodes| ==> childrenNodes[j] < |boxes| && !boxes[childrenNodes[j]].visited
        invariant KeptFrom(b0, boxes)
        invariant ok ==> Filling(boxes, position, childrenNodes, distance)
        decreases UnvisitedCount(boxes)
      {
        ghost var before := boxes;
        distance := distance + 1;
        SetDistances(childrenNodes, distance);
        var newChildrenNodes := CollectChildren(childrenNodes);
        Round(b0, before, boxes, position, childrenNodes, newChildrenNodes, distance, ok);
        childrenNodes := FilterUnvisited(boxes, newChildrenNodes);
      }
      if ok {
        KeptPop(b0, boxes);
        FinalFrontier(boxes, position, distance);
      }
    }

    /**
     * `removeFromBoard(board)`: a new board of the same height, width and cell size, not filled in
     * full, holding a new cell for each cell of this board whose address `board` does not list.
     */
    method RemoveFromBoard(board: FlatBoard) returns (r: FlatBoard)
      requires Valid()
      ensures fresh(r) && r.Valid()
      ensures r.height == height && r.width == width && r.boxSize == boxSize
      ensures r.verticalBoxes == verticalBoxes && r.horizontalBoxes == horizontalBoxes
      ensures r.goalPosition == Pos(-1, -1)
      ensures AllNew(r.boxes) && Positions(r.boxes) == Remaining(boxes, board.boxes)
    {
      var newBoxPositions := Remaining(boxes, board.boxes);
      r := new FlatBoard(height, width, boxSize, false, Some(newBoxPositions));
    }
  }
}
