/**
 * The global-barrier parallel engine. Every worker updates its own chunk of the
 * array it currently reads from, all workers meet at one barrier, and then each
 * swaps its private references. Workers are modelled as the order in which
 * their chunk updates complete within an iteration.
 */
module BarrierEngine {
  import opened Partition
  import opened Averaging

  /** One iteration's completion order: every worker exactly once. */
  predicate IsWorkerOrder(order: seq<nat>, tasks: nat)
  {
    && |order| == tasks
    && (forall m :: 0 <= m < |order| ==> order[m] < tasks)
    && (forall w :: 0 <= w < tasks ==> w in order)
  }

  /**
   * All chunk updates of one barrier iteration, in the given order, each
   * reading only the source array. Whatever the order, the result is one sweep
   * over the covered indices; when tasks divides n it is the sequential sweep.
   */
  method BarrierIteration(dst: seq<real>, src: seq<real>, n: nat, tasks: nat, order: seq<nat>)
    returns (written: seq<real>)
    requires |dst| == n + 2 && |src| == n + 2
    requires IsWorkerOrder(order, tasks)
    ensures written == UpdateRange(dst, src, 1, Covered(n, tasks))
    ensures tasks >= 1 && n % tasks == 0 ==> written == UpdateRange(dst, src, 1, n)
  {
    var c := Covered(n, tasks);
    written := dst;
    var m := 0;
    while m < |order|
      invariant 0 <= m <= |order|
      invariant |written| == n + 2
      invariant forall k :: 0 <= k < n + 2 ==>
                  written[k] == if 1 <= k <= c && Owner(n, tasks, k) in order[..m]
                                then Avg(src[k - 1], src[k + 1]) else dst[k]
    {
      var w := order[m];
      ChunkBounds(n, tasks, w);
      var before := written;
      written := UpdateChunk(written, src, Left(n, tasks, w), Right(n, tasks, w));
      forall k | 0 <= k < n + 2
        ensures written[k] == if 1 <= k <= c && Owner(n, tasks, k) in order[..m + 1]
                              then Avg(src[k - 1], src[k + 1]) else dst[k]
      {
        assert order[..m + 1] == order[..m] + [w];
        if InChunk(n, tasks, w, k) {
          ChunksDisjoint(n, tasks, w, Owner(n, tasks, k), k);
        }
      }
      m := m + 1;
    }
    assert order[..m] == order;
    var sweep := UpdateRange(dst, src, 1, c);
    forall k | 0 <= k < n + 2
      ensures written[k] == sweep[k]
    {
      if 1 <= k <= c {
        assert Owner(n, tasks, k) in order;
      }
    }
    if tasks >= 1 && n % tasks == 0 {
      Coverage(n, tasks, 0);
    }
  }

  /**
   * The global-barrier engine: `iterations` barrier iterations, the i-th
   * completing its chunk updates in the order `schedule[i]`. The result is the
   * run over the covered indices; the gap above them is never written, and
   * when tasks divides n the result is exactly the sequential engine's.
   */
  method RunParallelBarrier(iterations: nat, myNew: seq<real>, myVal: seq<real>, n: nat, tasks: nat,
                            schedule: seq<seq<nat>>)
    returns (outNew: seq<real>, outVal: seq<real>)
    requires |myNew| == n + 2 && |myVal| == n + 2
    requires |schedule| == iterations
    requires forall t :: 0 <= t < |schedule| ==> IsWorkerOrder(schedule[t], tasks)
    ensures Arrays(outNew, outVal) == Run(Arrays(myNew, myVal), 1, Covered(n, tasks), iterations)
    ensures forall k :: Covered(n, tasks) < k <= n + 1 || k == 0 ==>
              outNew[k] == myNew[k] && outVal[k] == myVal[k]
    ensures tasks >= 1 && n % tasks == 0 ==>
              Arrays(outNew, outVal) == Run(Arrays(myNew, myVal), 1, n, iterations)
  {
    var a := Arrays(myNew, myVal);
    var c := Covered(n, tasks);
    outNew, outVal := myNew, myVal;
    var nextIsNew := true;
    var iter := 0;
    while iter < iterations
      invariant 0 <= iter <= iterations
      invariant nextIsNew == (iter % 2 == 0)
      invariant Arrays(outNew, outVal) == Run(a, 1, c, iter)
    {
      if nextIsNew {
        outNew := BarrierIteration(outNew, outVal, n, tasks, schedule[iter]);
      } else {
        outVal := BarrierIteration(outVal, outNew, n, tasks, schedule[iter]);
      }
      nextIsNew := !nextIsNew;
      iter := iter + 1;
    }
    forall k | c < k <= n + 1 || k == 0
      ensures outNew[k] == myNew[k] && outVal[k] == myVal[k]
    {
      RunKeepsOutside(a, 1, c, iterations, k);
    }
    if tasks >= 1 && n % tasks == 0 {
      Coverage(n, tasks, 0);
    }
  }
}
