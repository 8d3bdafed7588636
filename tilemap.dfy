/**
 * `TileMap` (`src/engine/tileMap.ts`) and the border ring it adds to a list of wall cells. The same
 * ring is produced by `initBoardBorders` in the main scene.
 */
module TileMaps {
  import opened Wrappers
  import opened Geometry

  /** A cell of the outer ring of an `h` by `v` grid. */
  predicate OnBorder(p: Pos, h: int, v: int) {
    0 <= p.x < h && 0 <= p.y < v && (p.x == 0 || p.x == h - 1 || p.y == 0 || p.y == v - 1)
  }

  /** The first loop: `(i, 0)` then `(i, v - 1)` for each column `i < h`. */
  function TopAndBottom(h: nat, v: int): (r: seq<Pos>)
    ensures |r| == 2 * h
  {
    if h == 0 then [] else TopAndBottom(h - 1, v) + [Pos(h - 1, 0), Pos(h - 1, v - 1)]
  }

  /** The second loop: `(0, i)` then `(h - 1, i)` for each row `1 <= i < v - 1`. */
  function LeftAndRight(h: int, v: int): (r: seq<Pos>)
    ensures |r| == if v >= 2 then 2 * (v - 2) else 0
    decreases v
  {
    if v <= 2 then [] else LeftAndRight(h, v - 1) + [Pos(0, v - 2), Pos(h - 1, v - 2)]
  }

  /** The border list, in the order both loops write it. */
  function BorderRing(h: nat, v: nat): seq<Pos> {
    TopAndBottom(h, v) + LeftAndRight(h, v)
  }

  /** The number of slots `initMapBorder` preallocates. */
  function BorderSlots(h: int, v: int): int {
    h * 2 + v * 2 - 4
  }

  predicate NoDuplicates(s: seq<Pos>) {
    forall i, j :: 0 <= i < j < |s| ==> s[i] != s[j]
  }

  lemma NoDuplicatesConcat(a: seq<Pos>, b: seq<Pos>)
    requires NoDuplicates(a) && NoDuplicates(b)
    requires forall p :: p in a ==> p !in b
    ensures NoDuplicates(a + b)
  {
    var c := a + b;
    forall i, j | 0 <= i < j < |c|
      ensures c[i] != c[j]
    {
      if j < |a| {
        assert c[i] == a[i] && c[j] == a[j];
      } else if i >= |a| {
        assert c[i] == b[i - |a|] && c[j] == b[j - |a|];
      } else {
        assert c[i] == a[i] && c[j] == b[j - |a|];
        assert a[i] in a;
      }
    }
  }

  /** The first loop lists exactly the cells of rows `0` and `v - 1` in columns `0 .. h - 1`. */
  lemma {:induction false} TopAndBottomMembers(h: nat, v: int, p: Pos)
    ensures p in TopAndBottom(h, v) <==> 0 <= p.x < h && (p.y == 0 || p.y == v - 1)
  {
    if h > 0 {
      TopAndBottomMembers(h - 1, v, p);
    }
  }

  /** The second loop lists exactly the cells of columns `0` and `h - 1` in rows `1 .. v - 2`. */
  lemma {:induction false} LeftAndRightMembers(h: int, v: int, p: Pos)
    ensures p in LeftAndRight(h, v) <==> 1 <= p.y < v - 1 && (p.x == 0 || p.x == h - 1)
    decreases v
  {
    if v > 2 {
      LeftAndRightMembers(h, v - 1, p);
    }
  }

  /** With two distinct rows `0` and `v - 1`, the first loop lists no cell twice. */
  lemma {:induction false} TopAndBottomDistinct(h: nat, v: int)
    requires v >= 2
    ensures NoDuplicates(TopAndBottom(h, v))
  {
    if h > 0 {
      TopAndBottomDistinct(h - 1, v);
      var prev := TopAndBottom(h - 1, v);
      forall k | 0 <= k < |prev|
        ensures prev[k] !in [Pos(h - 1, 0), Pos(h - 1, v - 1)]
      {
        TopAndBottomMembers(h - 1, v, prev[k]);
      }
      NoDuplicatesConcat(TopAndBottom(h - 1, v), [Pos(h - 1, 0), Pos(h - 1, v - 1)]);
    }
  }

  /** With two distinct columns `0` and `h - 1`, the second loop lists no cell twice. */
  lemma {:induction false} LeftAndRightDistinct(h: int, v: int)
    requires h >= 2
    ensures NoDuplicates(LeftAndRight(h, v))
    decreases v
  {
    if v > 2 {
      LeftAndRightDistinct(h, v - 1);
      var prev := LeftAndRight(h, v - 1);
      forall k | 0 <= k < |prev|
        ensures prev[k] !in [Pos(0, v - 2), Pos(h - 1, v - 2)]
      {
        LeftAndRightMembers(h, v - 1, prev[k]);
      }
      NoDuplicatesConcat(LeftAndRight(h, v - 1), [Pos(0, v - 2), Pos(h - 1, v - 2)]);
    }
  }

  /**
   * On any grid, every listed cell is in column `0` or `h - 1` or in row `0` or `v - 1`; it is
   * inside the grid unless the grid has no column or no row.
   */
  lemma BorderRingOnEdge(h: nat, v: nat, p: Pos)
    requires p in BorderRing(h, v)
    ensures p.x == 0 || p.x == h - 1 || p.y == 0 || p.y == v - 1
    ensures h >= 1 && v >= 1 ==> OnBorder(p, h, v)
  {
    TopAndBottomMembers(h, v, p);
    LeftAndRightMembers(h, v, p);
  }

  /**
   * On a grid at least two cells wide and high the ring has exactly as many cells as
   * `initMapBorder` preallocates; every listed cell lies on the border, every border cell is
   * listed, and none is listed twice.
   */
  lemma BorderRingExact(h: nat, v: nat)
    requires h >= 2 && v >= 2
    ensures |BorderRing(h, v)| == BorderSlots(h, v)
    ensures forall p :: p in BorderRing(h, v) <==> OnBorder(p, h, v)
    ensures NoDuplicates(BorderRing(h, v))
  {
    forall p
      ensures p in BorderRing(h, v) <==> OnBorder(p, h, v)
      ensures p in TopAndBottom(h, v) ==> p !in LeftAndRight(h, v)
    {
      TopAndBottomMembers(h, v, p);
      LeftAndRightMembers(h, v, p);
    }
    TopAndBottomDistinct(h, v);
    LeftAndRightDistinct(h, v);
    NoDuplicatesConcat(TopAndBottom(h, v), LeftAndRight(h, v));
  }

  class TileMap {
    const horizontalBoxes: nat
    const verticalBoxes: nat
    var tiles: seq<Pos>

    /**
     * `new TileMap(config)`: the given cells followed by the border ring, duplicates kept. A
     * negative preallocation size (a grid with `h + v < 2`) is the `RangeError` of `new Array`.
     */
    static method Create(verticalBoxes: nat, horizontalBoxes: nat, walls: seq<Pos>) returns (r: Result<TileMap>)
      ensures r.Fault? <==> BorderSlots(horizontalBoxes, verticalBoxes) < 0
      ensures r.Ok? ==> fresh(r.value) && r.value.horizontalBoxes == horizontalBoxes && r.value.verticalBoxes == verticalBoxes
      ensures r.Ok? ==> r.value.tiles == walls + BorderRing(horizontalBoxes, verticalBoxes)
    {
      var border := InitMapBorder(horizontalBoxes, verticalBoxes);
      if border.Fault? {
        return Fault(border.message);
      }
      var t := new TileMap(verticalBoxes, horizontalBoxes, walls, border.value);
      r := Ok(t);
    }

    constructor (verticalBoxes: nat, horizontalBoxes: nat, walls: seq<Pos>, border: seq<Pos>)
      ensures this.horizontalBoxes == horizontalBoxes && this.verticalBoxes == verticalBoxes
      ensures tiles == walls + border
    {
      this.horizontalBoxes := horizontalBoxes;
      this.verticalBoxes := verticalBoxes;
      tiles := walls + border;
    }
  }

  /**
   * `initMapBorder`: writes the ring through an incrementing index into an array of
   * `2h + 2v - 4` slots. A JavaScript array grows when written past its end, so the result is the
   * ring itself; only a negative size fails.
   */
  method InitMapBorder(horizontalBoxes: nat, verticalBoxes: nat) returns (r: Result<seq<Pos>>)
    ensures r.Fault? <==> BorderSlots(horizontalBoxes, verticalBoxes) < 0
    ensures r.Ok? ==> r.value == BorderRing(horizontalBoxes, verticalBoxes)
  {
    if BorderSlots(horizontalBoxes, verticalBoxes) < 0 {
      return Fault("RangeError: Invalid array length");
    }
    var tileMap: seq<Pos> := [];
    var index := 0;
    for i := 0 to horizontalBoxes
      invariant index == |tileMap| && tileMap == TopAndBottom(i, verticalBoxes)
    {
      tileMap := tileMap + [Pos(i, 0)];
      index := index + 1;
      tileMap := tileMap + [Pos(i, verticalBoxes - 1)];
      index := index + 1;
      assert tileMap == TopAndBottom(i, verticalBoxes) + [Pos(i, 0), Pos(i, verticalBoxes - 1)];
    }
    var i := 1;
    while i < verticalBoxes - 1
      invariant 1 <= i && (verticalBoxes >= 2 ==> i <= verticalBoxes - 1) && (verticalBoxes < 2 ==> i == 1)
      invariant index == |tileMap| && tileMap == TopAndBottom(horizontalBoxes, verticalBoxes) + LeftAndRight(horizontalBoxes, i + 1)
    {
      tileMap := tileMap + [Pos(0, i)];
      index := index + 1;
      tileMap := tileMap + [Pos(horizontalBoxes - 1, i)];
      index := index + 1;
      assert LeftAndRight(horizontalBoxes, i + 2) == LeftAndRight(horizontalBoxes, i + 1) + [Pos(0, i), Pos(horizontalBoxes - 1, i)];
      i := i + 1;
    }
    if verticalBoxes >= 2 {
      assert i + 1 == verticalBoxes;
    } else {
      assert LeftAndRight(horizontalBoxes, i + 1) == [] == LeftAndRight(horizontalBoxes, verticalBoxes);
    }
    r := Ok(tileMap);
  }
}
