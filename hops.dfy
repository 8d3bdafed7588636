/**
 * Hop counts over the 8-neighbourhood: the specification both boards' breadth-first distance fills
 * are proved against. `pop` is the set of populated addresses and `g` the goal address, which need
 * not be populated itself.
 */
module Hops {
  import opened Geometry

  /** `c` is `g`, or is populated and reachable from `g` in at most `k` steps through populated cells. */
  ghost predicate WithinHops(pop: set<Pos>, g: Pos, c: Pos, k: nat)
    decreases k
  {
    c == g || (k > 0 && c in pop && exists p :: Adjacent(p, c) && WithinHops(pop, g, p, k - 1))
  }

  /** `d` is the least number of steps from `g` to `c`. */
  ghost predicate IsHopCount(pop: set<Pos>, g: Pos, c: Pos, d: nat) {
    WithinHops(pop, g, c, d) && forall j: nat :: j < d ==> !WithinHops(pop, g, c, j)
  }

  ghost predicate Reachable(pop: set<Pos>, g: Pos, c: Pos) {
    exists k: nat :: WithinHops(pop, g, c, k)
  }

  /** The cells first reached at step `k`, for `k >= 1`. */
  ghost predicate InRing(pop: set<Pos>, g: Pos, c: Pos, k: nat)
    requires k >= 1
  {
    WithinHops(pop, g, c, k) && !WithinHops(pop, g, c, k - 1)
  }

  /** Any cell within `k` steps other than the goal is populated. */
  lemma WithinHopsPopulated(pop: set<Pos>, g: Pos, c: Pos, k: nat)
    requires WithinHops(pop, g, c, k) && c != g
    ensures c in pop
  {
  }

  lemma {:induction false} WithinHopsStep(pop: set<Pos>, g: Pos, c: Pos, k: nat)
    requires WithinHops(pop, g, c, k)
    ensures WithinHops(pop, g, c, k + 1)
    decreases k
  {
    if c != g {
      var p :| Adjacent(p, c) && WithinHops(pop, g, p, k - 1);
      WithinHopsStep(pop, g, p, k - 1);
    }
  }

  /** Reaching a cell in `j` steps means reaching it in any larger budget. */
  lemma {:induction false} WithinHopsMonotone(pop: set<Pos>, g: Pos, c: Pos, j: nat, k: nat)
    requires j <= k && WithinHops(pop, g, c, j)
    ensures WithinHops(pop, g, c, k)
    decreases k - j
  {
    if j < k {
      WithinHopsStep(pop, g, c, j);
      WithinHopsMonotone(pop, g, c, j + 1, k);
    }
  }

  /** A cell has at most one hop count. */
  lemma HopCountUnique(pop: set<Pos>, g: Pos, c: Pos, d1: nat, d2: nat)
    requires IsHopCount(pop, g, c, d1) && IsHopCount(pop, g, c, d2)
    ensures d1 == d2
  {
  }

  /** Every reachable cell has a hop count. */
  lemma {:induction false} HopCountExists(pop: set<Pos>, g: Pos, c: Pos, k: nat)
    requires WithinHops(pop, g, c, k)
    ensures exists d: nat :: d <= k && IsHopCount(pop, g, c, d)
    decreases k
  {
    if k == 0 || !WithinHops(pop, g, c, k - 1) {
      forall j: nat | j < k
        ensures !WithinHops(pop, g, c, j)
      {
        if WithinHops(pop, g, c, j) {
          WithinHopsMonotone(pop, g, c, j, k - 1);
        }
      }
      assert IsHopCount(pop, g, c, k);
    } else {
      HopCountExists(pop, g, c, k - 1);
    }
  }

  /** A cell first reached at step `k` has hop count `k`. */
  lemma RingHopCount(pop: set<Pos>, g: Pos, c: Pos, k: nat)
    requires k >= 1 && InRing(pop, g, c, k)
    ensures IsHopCount(pop, g, c, k)
  {
    forall j: nat | j < k
      ensures !WithinHops(pop, g, c, j)
    {
      if WithinHops(pop, g, c, j) {
        WithinHopsMonotone(pop, g, c, j, k - 1);
      }
    }
  }

  /** The goal is at hop count 0. */
  lemma GoalHopCount(pop: set<Pos>, g: Pos)
    ensures IsHopCount(pop, g, g, 0)
  {
  }

  /** The first ring is the populated neighbourhood of the goal. */
  lemma FirstRing(pop: set<Pos>, g: Pos, q: Pos)
    requires q in pop
    ensures InRing(pop, g, q, 1) <==> Adjacent(g, q)
  {
    if Adjacent(g, q) {
      assert WithinHops(pop, g, g, 0);
    }
  }

  /**
   * Ring `k + 1` is what the fill's next step produces: the populated cells not yet within `k` steps
   * that are adjacent to some cell of ring `k`.
   */
  lemma NextRing(pop: set<Pos>, g: Pos, q: Pos, k: nat)
    requires k >= 1 && q in pop
    ensures InRing(pop, g, q, k + 1) <==>
      !WithinHops(pop, g, q, k) && exists p :: p in pop && Adjacent(p, q) && InRing(pop, g, p, k)
  {
    if InRing(pop, g, q, k + 1) {
      WithinHopsMonotone(pop, g, g, 0, k);
      var p :| Adjacent(p, q) && WithinHops(pop, g, p, k);
      if WithinHops(pop, g, p, k - 1) {
        assert false;
      }
      WithinHopsMonotone(pop, g, g, 0, k - 1);
      assert p != g;
      assert p in pop && InRing(pop, g, p, k);
    }
  }

  /** Once a ring is empty, no later step reaches anything new. */
  lemma {:induction false} RingsStop(pop: set<Pos>, g: Pos, k: nat, c: Pos, j: nat)
    requires forall q :: q in pop ==> !InRing(pop, g, q, k + 1)
    requires WithinHops(pop, g, c, j)
    ensures WithinHops(pop, g, c, k)
    decreases j
  {
    if j <= k {
      WithinHopsMonotone(pop, g, c, j, k);
    } else if c != g {
      var p :| Adjacent(p, c) && WithinHops(pop, g, p, j - 1);
      RingsStop(pop, g, k, p, j - 1);
      assert WithinHops(pop, g, c, k + 1);
      assert !InRing(pop, g, c, k + 1);
    }
  }

  /**
   * Adjacent populated cells have hop counts that differ by at most one, so the distance field has no
   * cliffs.
   */
  lemma NeighbourHopCounts(pop: set<Pos>, g: Pos, c: Pos, q: Pos, dc: nat, dq: nat)
    requires c in pop && q in pop && Adjacent(c, q)
    requires IsHopCount(pop, g, c, dc) && IsHopCount(pop, g, q, dq)
    ensures -1 <= dc - dq <= 1
  {
    assert WithinHops(pop, g, q, dc + 1);
    AdjacentSymmetric(c, q);
    assert WithinHops(pop, g, c, dq + 1);
  }

  /**
   * Every reachable cell other than the goal has a neighbour one step closer: following decreasing
   * distances always leads to the goal.
   */
  lemma DownhillNeighbour(pop: set<Pos>, g: Pos, c: Pos, d: nat)
    requires IsHopCount(pop, g, c, d) && d >= 1
    ensures exists p :: Adjacent(p, c) && IsHopCount(pop, g, p, d - 1)
  {
    assert !WithinHops(pop, g, c, 0);
    var p :| Adjacent(p, c) && WithinHops(pop, g, p, d - 1);
    forall j: nat | j < d - 1
      ensures !WithinHops(pop, g, p, j)
    {
      if WithinHops(pop, g, p, j) {
        assert WithinHops(pop, g, c, j + 1);
      }
    }
    assert IsHopCount(pop, g, p, d - 1);
  }
}
