/**
 * `ParticleThreadsManager` (`src/objects/particleThreadsManager.ts`): the main-thread particles are
 * cut into contiguous slices, one `ParticleThread` per slice, and the board updates and position
 * requests are broadcast to every thread.
 */
module ParticleThreadsManagers {
  import opened Wrappers
  import opened BoardCodec
  import opened Boards
  import opened ParticleManagers
  import opened ParticleWorkers
  import opened ParticleThreads

  /** The thread count used when the caller gives none. */
  const BasicThreadCount := 1

  /** What `new Array(n)` throws for a negative `n`. */
  const InvalidArrayLength := "RangeError: Invalid array length"

  /** JavaScript's `Math.round` on a non-negative real: halves go up. */
  function Round(x: real): (r: int)
    requires x >= 0.0
    ensures r as real - 0.5 <= x < r as real + 0.5
    ensures r >= 0
  {
    (x + 0.5).Floor
  }

  /** `Math.round(len / n)`: the nominal number of particles per thread. */
  function PerThread(len: nat, n: int): nat
    requires n >= 1
  {
    Round(len as real / n as real)
  }

  /** `Array.prototype.slice(start, end)` for non-negative bounds: both are clamped to the length. */
  function Slice<T>(s: seq<T>, start: nat, end: nat): (r: seq<T>)
    ensures start <= end <= |s| ==> r == s[start..end]
    ensures start <= end && |s| <= end ==> r == s[Min(start, |s|)..]
    ensures end <= start ==> r == []
  {
    var a := Min(start, |s|);
    var b := Min(end, |s|);
    if a <= b then s[a..b] else []
  }

  function Min(a: nat, b: nat): nat {
    if a <= b then a else b
  }

  /** The bounds of slice `i` of `n`: from `i * p` to `(i + 1) * p`, except that the last one runs to the end. */
  function SliceEnd(len: nat, n: int, i: nat): nat
    requires n >= 1
  {
    if i + 1 == n then len else i * PerThread(len, n) + PerThread(len, n)
  }

  /** Slice `i` of `n` of `s`, as `initParticlesSubArrays` cuts it. */
  function SubArray<T>(s: seq<T>, n: int, i: nat): seq<T>
    requires n >= 1
  {
    Slice(s, i * PerThread(|s|, n), SliceEnd(|s|, n, i))
  }

  /** The slices for `n` threads: none when `n` is not positive. */
  function Partition<T>(s: seq<T>, n: int): (r: seq<seq<T>>)
    ensures n <= 0 ==> r == []
    ensures n >= 1 ==> |r| == n
    ensures n >= 1 ==> forall i :: 0 <= i < n - 1 ==>
      r[i] == s[Min(i * PerThread(|s|, n), |s|)..Min(i * PerThread(|s|, n) + PerThread(|s|, n), |s|)]
    ensures n >= 1 ==> r[n - 1] == s[Min((n - 1) * PerThread(|s|, n), |s|)..]
  {
    if n <= 0 then [] else seq(n, i requires 0 <= i < n => SubArray(s, n, i))
  }

  function Concat<T>(ss: seq<seq<T>>): seq<T> {
    if ss == [] then [] else Concat(ss[..|ss| - 1]) + ss[|ss| - 1]
  }

  /** The slices of the first `k` threads, joined, are the prefix of `s` up to where the next slice starts. */
  lemma ConcatPrefix<T>(s: seq<T>, n: int, k: nat)
    requires 1 <= n && k < n
    ensures Concat(Partition(s, n)[..k]) == s[..Min(k * PerThread(|s|, n), |s|)]
  {
    var p := PerThread(|s|, n);
    var parts := Partition(s, n)[..k];
    var bounds := seq(k + 1, i requires 0 <= i => i * p);
    forall i | 0 <= i < k
      ensures bounds[i] <= bounds[i + 1] && parts[i] == s[Min(bounds[i], |s|)..Min(bounds[i + 1], |s|)]
    {
      PartitionAt(s, n, i);
    }
    ConcatBounded(s, parts, bounds);
  }

  /** Joining slices cut at non-decreasing bounds starting at 0 gives the prefix up to the last bound. */
  lemma {:induction false} ConcatBounded<T>(s: seq<T>, parts: seq<seq<T>>, bounds: seq<nat>)
    requires |bounds| == |parts| + 1 && bounds[0] == 0
    requires forall i :: 0 <= i < |parts| ==>
      bounds[i] <= bounds[i + 1] && parts[i] == s[Min(bounds[i], |s|)..Min(bounds[i + 1], |s|)]
    ensures Concat(parts) == s[..Min(bounds[|parts|], |s|)]
  {
    if parts != [] {
      var n := |parts| - 1;
      ConcatBounded(s, parts[..n], bounds[..n + 1]);
      JoinSlices(s, bounds[n], bounds[n + 1]);
    }
  }

  /** Every slice but the last runs from `i * p` to `(i + 1) * p`, clamped. */
  lemma PartitionAt<T>(s: seq<T>, n: int, i: nat)
    requires 1 <= n && i < n - 1
    ensures i * PerThread(|s|, n) <= (i + 1) * PerThread(|s|, n)
    ensures Partition(s, n)[i] == s[Min(i * PerThread(|s|, n), |s|)..Min((i + 1) * PerThread(|s|, n), |s|)]
  {
    MulStep(i, PerThread(|s|, n));
  }

  lemma MulStep(i: nat, p: nat)
    ensures i * p + p == (i + 1) * p
  {
  }

  /** Clamped prefixes: the prefix up to `a` followed by the slice from `a` to `b` is the prefix up to `b`. */
  lemma JoinSlices<T>(s: seq<T>, a: nat, b: nat)
    requires a <= b
    ensures s[..Min(a, |s|)] + s[Min(a, |s|)..Min(b, |s|)] == s[..Min(b, |s|)]
  {
  }

  /** No particle is lost or repeated: for `n >= 1` the slices joined in order are the whole list. */
  lemma PartitionConcat<T>(s: seq<T>, n: int)
    requires n >= 1
    ensures Concat(Partition(s, n)) == s
  {
    var parts := Partition(s, n);
    ConcatPrefix(s, n, n - 1);
    assert parts[..n] == parts;
    assert parts[..n][..n - 1] == parts[..n - 1];
  }

  /** With the default thread count the only slice is the whole list. */
  lemma DefaultPartition<T>(s: seq<T>)
    ensures Partition(s, BasicThreadCount) == [s]
  {
    assert Partition(s, BasicThreadCount)[0] == s[Min(0, |s|)..];
  }

  class ParticleThreadsManager {
    const board: Board
    const colisionBoard: Board
    const particles: seq<Particle>
    const numberOfThreads: int
    var particlesSubArrays: seq<seq<Particle>>
    var particleThreads: seq<ParticleThread>

    /** Distinct threads, each sharing the manager's two boards. */
    ghost predicate Valid()
      reads this, particleThreads
    {
      (forall i, j :: 0 <= i < j < |particleThreads| ==> particleThreads[i] != particleThreads[j]) &&
      forall i :: 0 <= i < |particleThreads| ==>
        particleThreads[i].validBoard == board && particleThreads[i].colisionBoard == colisionBoard
    }

    /**
     * `new ParticleThreadsManager(config)`: the constructor throws the `RangeError` of `new Array`
     * exactly when the thread count is negative, and otherwise builds the manager.
     */
    static method Create(board: Board, colisionBoard: Board, particles: seq<Particle>,
                         numberOfThreads: int := BasicThreadCount)
      returns (r: Result<ParticleThreadsManager>)
      requires board.Valid() && colisionBoard.Valid()
      ensures r.Fault? <==> numberOfThreads < 0
      ensures r.Fault? ==> r.message == InvalidArrayLength
      ensures r.Ok? ==> fresh(r.value) && r.value.Valid()
      ensures r.Ok? ==> r.value.particlesSubArrays == Partition(particles, numberOfThreads)
      ensures r.Ok? ==> |r.value.particleThreads| == numberOfThreads
      ensures r.Ok? ==> forall i :: 0 <= i < numberOfThreads ==>
        fresh(r.value.particleThreads[i]) && r.value.particleThreads[i].particles == r.value.particlesSubArrays[i]
    {
      if numberOfThreads < 0 {
        return Fault(InvalidArrayLength);
      }
      var m := new ParticleThreadsManager(board, colisionBoard, particles, numberOfThreads);
      r := Ok(m);
    }

    /**
     * The constructor with a thread count that does not throw: it cuts the particles and starts
     * one thread per slice, each sent its `init` message.
     */
    constructor (board: Board, colisionBoard: Board, particles: seq<Particle>, numberOfThreads: int)
      requires board.Valid() && colisionBoard.Valid()
      requires numberOfThreads >= 0
      ensures this.board == board && this.colisionBoard == colisionBoard
      ensures this.particles == particles && this.numberOfThreads == numberOfThreads
      ensures particlesSubArrays == Partition(particles, numberOfThreads)
      ensures Valid() && |particleThreads| == |particlesSubArrays|
      ensures forall i :: 0 <= i < |particleThreads| ==>
        fresh(particleThreads[i]) && particleThreads[i].particles == particlesSubArrays[i] &&
        particleThreads[i].posted == [InitMessageOf(Locations(particlesSubArrays[i]), board, colisionBoard)]
    {
      this.board := board;
      this.colisionBoard := colisionBoard;
      this.particles := particles;
      this.numberOfThreads := numberOfThreads;
      particlesSubArrays := [];
      particleThreads := [];
      new;
      InitParticlesSubArrays();
      var _ := InitWebWorkers();
    }

    /** `initParticlesSubArrays`: appends one clamped slice per thread. */
    method InitParticlesSubArrays()
      modifies this
      ensures particleThreads == old(particleThreads)
      ensures particlesSubArrays == old(particlesSubArrays) + Partition(particles, numberOfThreads)
    {
      var i := 0;
      while i < numberOfThreads
        invariant 0 <= i <= if numberOfThreads < 0 then 0 else numberOfThreads
        invariant particleThreads == old(particleThreads)
        invariant particlesSubArrays == old(particlesSubArrays) + Partition(particles, numberOfThreads)[..i]
      {
        var particlesPerThread := PerThread(|particles|, numberOfThreads);
        var end := if i + 1 == numberOfThreads then |particles| else i * particlesPerThread + particlesPerThread;
        var particlesSubArray := Slice(particles, i * particlesPerThread, end);
        assert Partition(particles, numberOfThreads)[..i + 1] == Partition(particles, numberOfThreads)[..i] + [particlesSubArray];
        particlesSubArrays := particlesSubArrays + [particlesSubArray];
        i := i + 1;
      }
      assert Partition(particles, numberOfThreads)[..i] == Partition(particles, numberOfThreads);
    }

    /**
     * `initWebWorkers`: one fresh thread per slice, in order, each of which posts its `init`
     * message; `new Array(n)` throws before anything changes when the count is negative.
     */
    method InitWebWorkers() returns (r: Result<()>)
      requires board.Valid() && colisionBoard.Valid()
      requires numberOfThreads <= |particlesSubArrays|
      modifies this
      ensures particlesSubArrays == old(particlesSubArrays)
      ensures r.Fault? <==> numberOfThreads < 0
      ensures r.Fault? ==> r.message == InvalidArrayLength && particleThreads == old(particleThreads)
      ensures r.Ok? ==> Valid() && |particleThreads| == numberOfThreads
      ensures r.Ok? ==> forall i :: 0 <= i < |particleThreads| ==>
        fresh(particleThreads[i]) && particleThreads[i].particles == particlesSubArrays[i] &&
        particleThreads[i].posted == [InitMessageOf(Locations(particlesSubArrays[i]), board, colisionBoard)]
    {
      if numberOfThreads < 0 {
        return Fault(InvalidArrayLength);
      }
      particleThreads := StartThreads(numberOfThreads);
      r := Ok(());
    }

    /** The loop of `initWebWorkers`: threads for the first `n` slices, in order, each started. */
    method StartThreads(n: nat) returns (threads: seq<ParticleThread>)
      requires board.Valid() && colisionBoard.Valid()
      requires n <= |particlesSubArrays|
      ensures |threads| == n
      ensures forall i, j :: 0 <= i < j < n ==> threads[i] != threads[j]
      ensures forall i :: 0 <= i < n ==> fresh(threads[i]) && threads[i].validBoard == board && threads[i].colisionBoard == colisionBoard
      ensures forall i :: 0 <= i < n ==> Started(threads[i], particlesSubArrays[i])
    {
      threads := [];
      for i := 0 to n
        invariant |threads| == i && board.Valid() && colisionBoard.Valid()
        invariant forall k, l :: 0 <= k < l < i ==> threads[k] != threads[l]
        invariant forall k :: 0 <= k < i ==> fresh(threads[k]) && threads[k].validBoard == board && threads[k].colisionBoard == colisionBoard
        invariant forall k :: 0 <= k < i ==> Started(threads[k], particlesSubArrays[k])
      {
        var particleThread := StartThread(particlesSubArrays[i]);
        threads := threads + [particleThread];
      }
    }

    /** `t` runs over `subArray` and has posted only its `init` message. */
    ghost predicate Started(t: ParticleThread, subArray: seq<Particle>)
      reads t, board, colisionBoard, set p | p in subArray
    {
      t.particles == subArray && t.posted == [InitMessageOf(Locations(subArray), board, colisionBoard)]
    }

    /** One iteration of `initWebWorkers`: a new thread over `subArray`, sent its `init` message. */
    method StartThread(subArray: seq<Particle>) returns (t: ParticleThread)
      requires board.Valid() && colisionBoard.Valid()
      ensures fresh(t) && t.particles == subArray && t.validBoard == board && t.colisionBoard == colisionBoard
      ensures t.posted == [InitMessageOf(Locations(subArray), board, colisionBoard)]
    {
      t := new ParticleThread(subArray, colisionBoard, board);
      t.Init();
    }

    /** `updateBoardVectors`: every thread, once and in order, posts the valid board's new encoding. */
    method UpdateBoardVectors()
      requires Valid() && board.Valid()
      modifies set t | t in particleThreads
      ensures forall i :: 0 <= i < |particleThreads| ==>
        particleThreads[i].particles == old(particleThreads[i].particles) &&
        particleThreads[i].posted == old(particleThreads[i].posted) +
          [WorkerMessage([TagCode(MsgType.SetVectors)], EncodeBoard(board.horizontalBoxes, board.verticalBoxes, board.boxSize, board.boxCount, Grids.Flat(board.boxMap)), [])]
    {
      for i := 0 to |particleThreads|
        invariant forall k :: 0 <= k < |particleThreads| ==>
          particleThreads[k].particles == old(particleThreads[k].particles) &&
          particleThreads[k].posted == old(particleThreads[k].posted) +
            if k < i then [WorkerMessage([TagCode(MsgType.SetVectors)], EncodeBoard(board.horizontalBoxes, board.verticalBoxes, board.boxSize, board.boxCount, Grids.Flat(board.boxMap)), [])] else []
      {
        particleThreads[i].UpdateBoardVectors();
      }
    }

    /** `updateParticlesPositions`: every thread, once and in order, posts an `updatePositions` request. */
    method UpdateParticlesPositions()
      requires Valid()
      modifies set t | t in particleThreads
      ensures forall i :: 0 <= i < |particleThreads| ==>
        particleThreads[i].particles == old(particleThreads[i].particles) &&
        particleThreads[i].posted == old(particleThreads[i].posted) + [WorkerMessage([TagCode(UpdatePositions)], [], [])]
    {
      for i := 0 to |particleThreads|
        invariant forall k :: 0 <= k < |particleThreads| ==>
          particleThreads[k].particles == old(particleThreads[k].particles) &&
          particleThreads[k].posted == old(particleThreads[k].posted) +
            if k < i then [WorkerMessage([TagCode(UpdatePositions)], [], [])] else []
      {
        particleThreads[i].UpdateParticlesPositions();
      }
    }
  }
}
