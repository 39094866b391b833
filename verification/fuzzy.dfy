/**
 * The fuzzy-barrier (pipelined) parallel engine as a transition system.
 *
 * Each worker owns a phaser with one registered party. Per iteration a worker
 * updates its chunk, calls arrive() on its own phaser (advancing it by one and
 * getting back the phase p it arrived at), awaits each existing neighbour's
 * phaser leaving phase p, and only then swaps its private array references.
 * A state records, per worker, its phaser's phase (`arrived`) and how many
 * swaps it has done (`swapped`); the interleaving of the workers is a sequence
 * of events, and an event a worker could not perform yet (it would block) makes
 * the sequence impossible.
 */
module FuzzyEngine {
  import opened Wrappers
  import opened Partition
  import opened Averaging

  /**
   * The phasers worker i awaits after arriving: worker i - 1 when i - 1 >= 0,
   * then worker i + 1 when i + 1 < tasks.
   */
  function Neighbours(tasks: nat, i: nat): (r: seq<nat>)
    requires i < tasks
    ensures forall j: nat :: j in r <==> j < tasks && (j + 1 == i || j == i + 1)
    ensures |r| <= 2
    ensures tasks == 1 ==> r == []
  {
    var before := if i >= 1 then [i - 1] else [];
    var after := if i + 1 < tasks then [i + 1] else [];
    before + after
  }

  datatype Config = Config(n: nat, tasks: nat, iterations: nat)

  /** `arrived` is the phase of the worker's own phaser; `swapped` counts its reference swaps. */
  datatype Worker = Worker(arrived: nat, swapped: nat)

  datatype State = State(arrays: Arrays, workers: seq<Worker>)

  /**
   * Compute(w): worker w updates its chunk and arrives on its phaser.
   * Swap(w): worker w has seen its neighbours advance and swaps its references.
   */
  datatype Event = Compute(w: nat) | Swap(w: nat)

  predicate WellFormed(c: Config, s: State)
  {
    |s.workers| == c.tasks && WellSized(s.arrays, c.n)
  }

  /** Every phaser starts at phase 0 and no worker has swapped yet. */
  function Init(c: Config, a: Arrays): (s: State)
    requires WellSized(a, c.n)
    ensures WellFormed(c, s)
  {
    State(a, seq(c.tasks, _ => Worker(0, 0)))
  }

  /**
   * Whether the event can happen now. A worker computes only between a swap and
   * its next arrival, and not after its last iteration. awaitAdvance(p) returns
   * as soon as the awaited phaser's phase differs from p, where p is the phase
   * the waiting worker arrived at, one below its own current phase.
   */
  predicate Enabled(c: Config, s: State, e: Event)
    requires WellFormed(c, s)
  {
    match e
    case Compute(w) =>
      && w < c.tasks
      && s.workers[w].arrived == s.workers[w].swapped
      && s.workers[w].swapped < c.iterations
    case Swap(w) =>
      && w < c.tasks
      && s.workers[w].arrived == s.workers[w].swapped + 1
      && forall j :: j in Neighbours(c.tasks, w) ==>
           s.workers[j].arrived != s.workers[w].arrived - 1
  }

  function Next(c: Config, s: State, e: Event): (r: State)
    requires WellFormed(c, s) && Enabled(c, s, e)
    ensures WellFormed(c, r)
  {
    match e
    case Compute(w) =>
      var me := s.workers[w];
      ChunkBounds(c.n, c.tasks, w);
      State(Step(s.arrays, me.swapped, Left(c.n, c.tasks, w), Right(c.n, c.tasks, w)),
            s.workers[w := Worker(me.arrived + 1, me.swapped)])
    case Swap(w) =>
      var me := s.workers[w];
      State(s.arrays, s.workers[w := Worker(me.arrived, me.swapped + 1)])
  }

  /** Runs an interleaving; None when some event would block at its turn. */
  function Execute(c: Config, s: State, evs: seq<Event>): (r: Option<State>)
    requires WellFormed(c, s)
    ensures r.Some? ==> WellFormed(c, r.value)
    decreases |evs|
  {
    if |evs| == 0 then Some(s)
    else if Enabled(c, s, evs[0]) then Execute(c, Next(c, s, evs[0]), evs[1..])
    else None
  }

  /** Every worker has completed all its iterations. */
  predicate Finished(c: Config, s: State)
    requires WellFormed(c, s)
  {
    forall w :: 0 <= w < c.tasks ==>
      s.workers[w].arrived == c.iterations && s.workers[w].swapped == c.iterations
  }

  // ---------------------------------------------------------------------
  // The invariant

  /**
   * Per worker, the phase runs at most one ahead of the swaps; between
   * neighbours, no worker has swapped more often than its neighbour has arrived.
   */
  ghost predicate Counters(c: Config, s: State)
    requires WellFormed(c, s)
  {
    && (forall w :: 0 <= w < c.tasks ==>
          && s.workers[w].swapped <= s.workers[w].arrived <= s.workers[w].swapped + 1
          && s.workers[w].arrived <= c.iterations)
    && (forall w :: 0 <= w && w + 1 < c.tasks ==>
          && s.workers[w].swapped <= s.workers[w + 1].arrived
          && s.workers[w + 1].swapped <= s.workers[w].arrived)
  }

  /** How many iterations the worker owning index k has written; 0 outside every chunk. */
  function PhaseAt(c: Config, s: State, k: int): nat
    requires WellFormed(c, s)
  {
    if 1 <= k <= Covered(c.n, c.tasks) then s.workers[Owner(c.n, c.tasks, k)].arrived else 0
  }

  predicate Agree(x: Arrays, y: Arrays, k: int)
    requires 0 <= k < |x.myNew| && 0 <= k < |x.myVal| && k < |y.myNew| && k < |y.myVal|
  {
    x.myNew[k] == y.myNew[k] && x.myVal[k] == y.myVal[k]
  }

  /**
   * Each chunk of both arrays holds what the sequential run over the covered
   * indices holds after as many iterations as the chunk's worker has arrived.
   */
  ghost predicate Data(c: Config, a0: Arrays, s: State)
    requires WellFormed(c, s) && WellSized(a0, c.n)
  {
    forall k :: 0 <= k < c.n + 2 ==>
      Agree(s.arrays, Run(a0, 1, Covered(c.n, c.tasks), PhaseAt(c, s, k)), k)
  }

  ghost predicate Inv(c: Config, a0: Arrays, s: State)
  {
    WellFormed(c, s) && WellSized(a0, c.n) && Counters(c, s) && Data(c, a0, s)
  }

  lemma InitInv(c: Config, a0: Arrays)
    requires WellSized(a0, c.n)
    ensures Inv(c, a0, Init(c, a0))
  {
  }

  /** An index next to worker w's chunk belongs to w, to a neighbour of w, or to no chunk. */
  lemma OwnerNear(n: nat, tasks: nat, w: nat, k: int, k': int)
    requires 1 <= tasks && w < tasks && InChunk(n, tasks, w, k)
    requires k' == k - 1 || k' == k + 1
    requires 1 <= k' <= Covered(n, tasks)
    ensures Owner(n, tasks, k') + 1 >= w && Owner(n, tasks, k') <= w + 1
  {
    var o := Owner(n, tasks, k');
    assert InChunk(n, tasks, o, k');
    ChunkDistance(n / tasks, w, o, k, k');
  }

  lemma ChunkDistance(q: nat, w: nat, o: nat, k: int, k': int)
    requires w * q + 1 <= k <= (w + 1) * q
    requires o * q + 1 <= k' <= (o + 1) * q
    requires k' == k - 1 || k' == k + 1
    ensures o + 1 >= w && o <= w + 1
  {
    if o + 1 < w {
      MulMono(o + 1, w - 1, q);
    } else if o > w + 1 {
      MulMono(w + 2, o, q);
    }
  }

  /**
   * When worker w computes iteration t, every array index it reads holds the
   * value of the run over the covered indices 1..Covered(n, tasks) after t
   * iterations, which is the sequential engine's value when tasks divides n:
   * its own chunk has been written t times, a neighbour's boundary t or t + 1
   * times (iteration t of the neighbour writes the other array), and the
   * sentinels and the gap never.
   */
  lemma ReadsAreCurrent(c: Config, a0: Arrays, s: State, w: nat, k: int, k': int)
    requires Inv(c, a0, s) && Enabled(c, s, Compute(w))
    requires InChunk(c.n, c.tasks, w, k) && (k' == k - 1 || k' == k + 1)
    requires 0 <= k' < c.n + 2
    ensures var t := s.workers[w].swapped;
            Source(s.arrays, t)[k'] == Source(Run(a0, 1, Covered(c.n, c.tasks), t), t)[k']
  {
    var t := s.workers[w].swapped;
    var cov := Covered(c.n, c.tasks);
    var p := PhaseAt(c, s, k');
    assert Agree(s.arrays, Run(a0, 1, cov, p), k');
    if 1 <= k' <= cov {
      OwnerNear(c.n, c.tasks, w, k, k');
    }
    SourceAtPhase(s.arrays, a0, c.n, cov, t, p, k');
  }

  /**
   * An index that agrees with the run after iteration t, or after iteration
   * t + 1, or that lies outside the run's range, holds the run's value after
   * iteration t in the array iteration t reads.
   */
  lemma SourceAtPhase(x: Arrays, a0: Arrays, n: nat, cov: nat, t: nat, p: nat, k: int)
    requires WellSized(x, n) && WellSized(a0, n) && cov <= n && 0 <= k < n + 2
    requires Agree(x, Run(a0, 1, cov, p), k)
    requires p == t || p == t + 1 || !(1 <= k <= cov)
    ensures Source(x, t)[k] == Source(Run(a0, 1, cov, t), t)[k]
  {
    if !(1 <= k <= cov) {
      RunKeepsOutside(a0, 1, cov, p, k);
      RunKeepsOutside(a0, 1, cov, t, k);
    } else if p == t + 1 {
      StepKeepsSource(Run(a0, 1, cov, t), t, 1, cov);
    }
  }

  lemma ComputeKeepsDataAt(c: Config, a0: Arrays, s: State, w: nat, k: int)
    requires Inv(c, a0, s) && Enabled(c, s, Compute(w))
    requires 0 <= k < c.n + 2
    ensures var s' := Next(c, s, Compute(w));
            Agree(s'.arrays, Run(a0, 1, Covered(c.n, c.tasks), PhaseAt(c, s', k)), k)
  {
    ChunkBounds(c.n, c.tasks, w);
    if InChunk(c.n, c.tasks, w, k) {
      ComputeKeepsDataIn(c, a0, s, w, k);
    } else {
      ComputeOutsideChunk(c, a0, s, w, k);
    }
  }

  /** The indices worker w writes hold the run's next iteration once it has computed. */
  lemma ComputeKeepsDataIn(c: Config, a0: Arrays, s: State, w: nat, k: int)
    requires Inv(c, a0, s) && Enabled(c, s, Compute(w))
    requires InChunk(c.n, c.tasks, w, k)
    ensures 1 <= k <= c.n
    ensures var s' := Next(c, s, Compute(w));
            Agree(s'.arrays, Run(a0, 1, Covered(c.n, c.tasks), PhaseAt(c, s', k)), k)
  {
    var t := s.workers[w].swapped;
    var cov := Covered(c.n, c.tasks);
    ReadsAround(c, a0, s, w, k);
    var before := Run(a0, 1, cov, t);
    ComputeInChunk(c, s, w, k, before);
    RunNext(a0, 1, cov, t);
  }

  /**
   * What worker w's update of index k reads, k itself and both neighbours,
   * holds the run's value after as many iterations as w has swapped.
   */
  lemma ReadsAround(c: Config, a0: Arrays, s: State, w: nat, k: int)
    requires Inv(c, a0, s) && Enabled(c, s, Compute(w))
    requires InChunk(c.n, c.tasks, w, k)
    ensures 1 <= k <= Covered(c.n, c.tasks) <= c.n
    ensures var t := s.workers[w].swapped;
            var before := Run(a0, 1, Covered(c.n, c.tasks), t);
            && Agree(s.arrays, before, k)
            && Source(s.arrays, t)[k - 1] == Source(before, t)[k - 1]
            && Source(s.arrays, t)[k + 1] == Source(before, t)[k + 1]
  {
    var t := s.workers[w].swapped;
    OwnerOfChunk(c.n, c.tasks, w, k);
    assert PhaseAt(c, s, k) == t;
    ReadsAreCurrent(c, a0, s, w, k, k - 1);
    ReadsAreCurrent(c, a0, s, w, k, k + 1);
  }

  /**
   * The indices worker w writes move on by one iteration: if the arrays agree
   * at k with `before`, and around k in the array iteration t reads, then
   * after w computes they agree at k with one more sweep of `before`, and k's
   * phase has grown to t + 1.
   */
  lemma ComputeInChunk(c: Config, s: State, w: nat, k: int, before: Arrays)
    requires WellFormed(c, s) && Enabled(c, s, Compute(w))
    requires 1 <= k <= Covered(c.n, c.tasks) && InChunk(c.n, c.tasks, w, k)
    requires WellSized(before, c.n)
    requires var t := s.workers[w].swapped;
             && Agree(s.arrays, before, k)
             && Source(s.arrays, t)[k - 1] == Source(before, t)[k - 1]
             && Source(s.arrays, t)[k + 1] == Source(before, t)[k + 1]
    ensures var s' := Next(c, s, Compute(w));
            && Agree(s'.arrays, Step(before, s.workers[w].swapped, 1, Covered(c.n, c.tasks)), k)
            && PhaseAt(c, s', k) == s.workers[w].swapped + 1
  {
    var t := s.workers[w].swapped;
    var cov := Covered(c.n, c.tasks);
    ChunkBounds(c.n, c.tasks, w);
    var lo, hi := Left(c.n, c.tasks, w), Right(c.n, c.tasks, w);
    StepAgrees(s.arrays, before, t, lo, hi, 1, cov, k);
    assert Next(c, s, Compute(w)).arrays == Step(s.arrays, t, lo, hi);
    PhaseAfterCompute(c, s, w, k);
  }

  /** Once worker w has computed, the indices of its chunk are one phase further on. */
  lemma PhaseAfterCompute(c: Config, s: State, w: nat, k: int)
    requires WellFormed(c, s) && Enabled(c, s, Compute(w))
    requires 1 <= k <= Covered(c.n, c.tasks) && InChunk(c.n, c.tasks, w, k)
    ensures PhaseAt(c, Next(c, s, Compute(w)), k) == s.workers[w].swapped + 1
  {
    OwnerOfChunk(c.n, c.tasks, w, k);
  }

  /** Two array pairs that agree on what iteration t reads around k still agree at k after it. */
  lemma StepAgrees(x: Arrays, y: Arrays, t: nat, lo: int, hi: int, lo': int, hi': int, k: int)
    requires |x.myNew| == |x.myVal| == |y.myNew| == |y.myVal|
    requires ValidRange(|x.myVal|, lo, hi) && ValidRange(|y.myVal|, lo', hi')
    requires lo <= k <= hi && lo' <= k <= hi'
    requires Agree(x, y, k)
    requires Source(x, t)[k - 1] == Source(y, t)[k - 1] && Source(x, t)[k + 1] == Source(y, t)[k + 1]
    ensures Agree(Step(x, t, lo, hi), Step(y, t, lo', hi'), k)
  {
    StepWrites(x, t, lo, hi, k);
    StepWrites(y, t, lo', hi', k);
    ParityAgree(Step(x, t, lo, hi), Step(y, t, lo', hi'), t, k);
  }

  /** Iteration t restricted to lo..hi writes the stencil of its source into its target there. */
  lemma StepWrites(a: Arrays, t: nat, lo: int, hi: int, k: int)
    requires |a.myNew| == |a.myVal| && ValidRange(|a.myVal|, lo, hi) && lo <= k <= hi
    ensures Source(Step(a, t, lo, hi), t) == Source(a, t)
    ensures Target(Step(a, t, lo, hi), t)[k] == Avg(Source(a, t)[k - 1], Source(a, t)[k + 1])
  {
    StepKeepsSource(a, t, lo, hi);
  }

  /** Indices outside worker w's chunk keep both their contents and their phase. */
  lemma ComputeOutsideChunk(c: Config, a0: Arrays, s: State, w: nat, k: int)
    requires Inv(c, a0, s) && Enabled(c, s, Compute(w))
    requires 0 <= k < c.n + 2 && !InChunk(c.n, c.tasks, w, k)
    ensures var s' := Next(c, s, Compute(w));
            Agree(s'.arrays, Run(a0, 1, Covered(c.n, c.tasks), PhaseAt(c, s', k)), k)
  {
    var s' := Next(c, s, Compute(w));
    var t := s.workers[w].swapped;
    ChunkBounds(c.n, c.tasks, w);
    var lo, hi := Left(c.n, c.tasks, w), Right(c.n, c.tasks, w);
    assert s'.arrays == Step(s.arrays, t, lo, hi);
    assert s'.arrays.myNew[k] == s.arrays.myNew[k];
    assert s'.arrays.myVal[k] == s.arrays.myVal[k];
    if 1 <= k <= Covered(c.n, c.tasks) {
      assert Owner(c.n, c.tasks, k) != w;
    }
    assert PhaseAt(c, s', k) == PhaseAt(c, s, k);
  }

  /** Two array pairs agree at k when both roles of iteration t agree there. */
  lemma ParityAgree(x: Arrays, y: Arrays, t: nat, k: int)
    requires 0 <= k < |x.myNew| && 0 <= k < |x.myVal| && k < |y.myNew| && k < |y.myVal|
    requires Source(x, t)[k] == Source(y, t)[k] && Target(x, t)[k] == Target(y, t)[k]
    ensures Agree(x, y, k)
  {
  }

  lemma ComputeKeepsData(c: Config, a0: Arrays, s: State, w: nat)
    requires Inv(c, a0, s) && Enabled(c, s, Compute(w))
    ensures Data(c, a0, Next(c, s, Compute(w)))
  {
    forall k | 0 <= k < c.n + 2
      ensures Agree(Next(c, s, Compute(w)).arrays,
                    Run(a0, 1, Covered(c.n, c.tasks), PhaseAt(c, Next(c, s, Compute(w)), k)), k)
    {
      ComputeKeepsDataAt(c, a0, s, w, k);
    }
  }

  lemma NextInv(c: Config, a0: Arrays, s: State, e: Event)
    requires Inv(c, a0, s) && Enabled(c, s, e)
    ensures Inv(c, a0, Next(c, s, e))
  {
    NextCounters(c, s, e);
    match e
    case Compute(w) =>
      ComputeKeepsData(c, a0, s, w);
    case Swap(w) =>
      SwapKeepsData(c, a0, s, w);
  }

  /** No event breaks the counter relations. */
  lemma NextCounters(c: Config, s: State, e: Event)
    requires WellFormed(c, s) && Counters(c, s) && Enabled(c, s, e)
    ensures Counters(c, Next(c, s, e))
  {
    match e
    case Compute(w) => ComputeCounters(c, s, w);
    case Swap(w) => SwapCounters(c, s, w);
  }

  lemma ComputeCounters(c: Config, s: State, w: nat)
    requires WellFormed(c, s) && Counters(c, s) && Enabled(c, s, Compute(w))
    ensures Counters(c, Next(c, s, Compute(w)))
  {
    var s' := Next(c, s, Compute(w));
    assert forall v :: 0 <= v < c.tasks && v != w ==> s'.workers[v] == s.workers[v];
  }

  /** A swap waits until both neighbours have arrived as far as the swapping worker. */
  lemma SwapCounters(c: Config, s: State, w: nat)
    requires WellFormed(c, s) && Counters(c, s) && Enabled(c, s, Swap(w))
    ensures Counters(c, Next(c, s, Swap(w)))
  {
    var s' := Next(c, s, Swap(w));
    assert forall v :: 0 <= v < c.tasks && v != w ==> s'.workers[v] == s.workers[v];
    if w >= 1 {
      assert w - 1 in Neighbours(c.tasks, w);
    }
    if w + 1 < c.tasks {
      assert w + 1 in Neighbours(c.tasks, w);
    }
  }

  /** A swap changes references only, so every index keeps its contents and phase. */
  lemma SwapKeepsData(c: Config, a0: Arrays, s: State, w: nat)
    requires Inv(c, a0, s) && Enabled(c, s, Swap(w))
    ensures Data(c, a0, Next(c, s, Swap(w)))
  {
    var s' := Next(c, s, Swap(w));
    forall k | 0 <= k < c.n + 2
      ensures Agree(s'.arrays, Run(a0, 1, Covered(c.n, c.tasks), PhaseAt(c, s', k)), k)
    {
      assert PhaseAt(c, s', k) == PhaseAt(c, s, k);
    }
  }

  lemma {:induction false} ExecuteInv(c: Config, a0: Arrays, s: State, evs: seq<Event>)
    requires Inv(c, a0, s)
    requires Execute(c, s, evs).Some?
    ensures Inv(c, a0, Execute(c, s, evs).value)
    decreases |evs|
  {
    if |evs| > 0 {
      NextInv(c, a0, s, evs[0]);
      ExecuteInv(c, a0, Next(c, s, evs[0]), evs[1..]);
    }
  }

  // ---------------------------------------------------------------------
  // What the invariant gives

  /**
   * Skew bound: in every reachable state, neighbouring workers' phases differ by
   * at most one, and so do their swap counts.
   */
  lemma SkewBound(c: Config, a0: Arrays, evs: seq<Event>)
    requires WellSized(a0, c.n)
    requires Execute(c, Init(c, a0), evs).Some?
    ensures var s := Execute(c, Init(c, a0), evs).value;
            forall w :: 0 <= w && w + 1 < c.tasks ==>
              && -1 <= s.workers[w].arrived - s.workers[w + 1].arrived <= 1
              && -1 <= s.workers[w].swapped - s.workers[w + 1].swapped <= 1
  {
    InitInv(c, a0);
    ExecuteInv(c, a0, Init(c, a0), evs);
  }

  /**
   * Race freedom: while worker w is between a swap and its next arrival, i.e.
   * computing iteration t, every neighbour has finished writing iteration t - 1
   * (its phase is at least t) and has not started iteration t + 1 (it has
   * swapped at most t times), so nobody writes what w reads.
   */
  lemma NeighboursStayInStep(c: Config, a0: Arrays, evs: seq<Event>, w: nat)
    requires WellSized(a0, c.n) && w < c.tasks
    requires Execute(c, Init(c, a0), evs).Some?
    ensures var s := Execute(c, Init(c, a0), evs).value;
            s.workers[w].arrived == s.workers[w].swapped ==>
              forall j :: j in Neighbours(c.tasks, w) ==>
                s.workers[w].swapped <= s.workers[j].arrived && s.workers[j].swapped <= s.workers[w].swapped
  {
    InitInv(c, a0);
    ExecuteInv(c, a0, Init(c, a0), evs);
    var s := Execute(c, Init(c, a0), evs).value;
    forall j | j in Neighbours(c.tasks, w)
      ensures s.workers[w].arrived == s.workers[w].swapped ==>
                s.workers[w].swapped <= s.workers[j].arrived && s.workers[j].swapped <= s.workers[w].swapped
    {
      if j + 1 == w {
        assert j + 1 < c.tasks;
      } else {
        assert w + 1 < c.tasks;
      }
    }
  }

  /** Once every worker is done, both arrays hold the run over the covered indices. */
  lemma FinishedIsRun(c: Config, a0: Arrays, s: State)
    requires Inv(c, a0, s) && Finished(c, s)
    ensures s.arrays == Run(a0, 1, Covered(c.n, c.tasks), c.iterations)
  {
    var cov := Covered(c.n, c.tasks);
    var r := Run(a0, 1, cov, c.iterations);
    forall k | 0 <= k < c.n + 2
      ensures s.arrays.myNew[k] == r.myNew[k] && s.arrays.myVal[k] == r.myVal[k]
    {
      assert Agree(s.arrays, Run(a0, 1, cov, PhaseAt(c, s, k)), k);
      if !(1 <= k <= cov) {
        RunKeepsOutside(a0, 1, cov, PhaseAt(c, s, k), k);
        RunKeepsOutside(a0, 1, cov, c.iterations, k);
      } else {
        assert PhaseAt(c, s, k) == c.iterations;
      }
    }
    assert s.arrays.myNew == r.myNew;
    assert s.arrays.myVal == r.myVal;
  }

  /**
   * Equivalence: whatever the interleaving, a completed fuzzy-barrier run
   * leaves both arrays as the global-barrier engine does, and, when tasks
   * divides n, as the sequential engine does.
   */
  lemma FuzzyMatchesSequential(c: Config, a0: Arrays, evs: seq<Event>)
    requires WellSized(a0, c.n)
    requires Execute(c, Init(c, a0), evs).Some?
    requires Finished(c, Execute(c, Init(c, a0), evs).value)
    ensures Execute(c, Init(c, a0), evs).value.arrays == Run(a0, 1, Covered(c.n, c.tasks), c.iterations)
    ensures c.tasks >= 1 && c.n % c.tasks == 0 ==>
              Execute(c, Init(c, a0), evs).value.arrays == Run(a0, 1, c.n, c.iterations)
  {
    InitInv(c, a0);
    ExecuteInv(c, a0, Init(c, a0), evs);
    FinishedIsRun(c, a0, Execute(c, Init(c, a0), evs).value);
    if c.tasks >= 1 {
      Coverage(c.n, c.tasks, 0);
    }
  }

  // ---------------------------------------------------------------------
  // The phase counters

  function Occurrences(evs: seq<Event>, e: Event): nat
  {
    if |evs| == 0 then 0 else (if evs[0] == e then 1 else 0) + Occurrences(evs[1..], e)
  }

  /**
   * Each arrive() advances the worker's own phaser by exactly one and each swap
   * is counted once: after any interleaving from the initial state, a worker's
   * phase is the number of its Compute events and its swap count the number of
   * its Swap events.
   */
  lemma {:induction false} PhaseCountsArrivals(c: Config, s: State, evs: seq<Event>, w: nat)
    requires WellFormed(c, s) && w < c.tasks
    requires Execute(c, s, evs).Some?
    ensures Execute(c, s, evs).value.workers[w].arrived == s.workers[w].arrived + Occurrences(evs, Compute(w))
    ensures Execute(c, s, evs).value.workers[w].swapped == s.workers[w].swapped + Occurrences(evs, Swap(w))
    decreases |evs|
  {
    if |evs| > 0 {
      PhaseCountsArrivals(c, Next(c, s, evs[0]), evs[1..], w);
    }
  }

  // ---------------------------------------------------------------------
  // Progress

  /** A worker that is neither computing nor finished, i.e. blocked in awaitAdvance. */
  predicate Waiting(s: State, w: nat)
    requires w < |s.workers|
  {
    s.workers[w].arrived == s.workers[w].swapped + 1
  }

  /**
   * Deadlock freedom: in a reachable state where some worker is not finished,
   * some worker can move. Among the waiting workers, one with the lowest phase
   * is never blocked by its neighbours.
   */
  lemma NoDeadlock(c: Config, a0: Arrays, s: State)
    requires Inv(c, a0, s) && !Finished(c, s)
    ensures exists e :: Enabled(c, s, e)
  {
    var u :| 0 <= u < c.tasks &&
             !(s.workers[u].arrived == c.iterations && s.workers[u].swapped == c.iterations);
    if s.workers[u].arrived == s.workers[u].swapped {
      assert Enabled(c, s, Compute(u));
      return;
    }
    var i := 0;
    var best := u;
    while i < c.tasks
      invariant 0 <= i <= c.tasks && best < c.tasks && Waiting(s, best)
      invariant forall j :: 0 <= j < i && Waiting(s, j) ==> s.workers[best].arrived <= s.workers[j].arrived
    {
      if Waiting(s, i) && s.workers[i].arrived < s.workers[best].arrived {
        best := i;
      }
      i := i + 1;
    }
    if j :| 0 <= j < c.tasks && s.workers[j].arrived == s.workers[j].swapped < c.iterations {
      assert Enabled(c, s, Compute(j));
    } else {
      forall j | j in Neighbours(c.tasks, best)
        ensures s.workers[j].arrived != s.workers[best].arrived - 1
      {
        assert s.workers[best].arrived <= s.workers[j].arrived;
      }
      assert Enabled(c, s, Swap(best));
    }
  }

  /** The total work done: every arrival and every swap of every worker. */
  function Progress(ws: seq<Worker>): nat
  {
    if |ws| == 0 then 0 else Progress(ws[..|ws| - 1]) + ws[|ws| - 1].arrived + ws[|ws| - 1].swapped
  }

  lemma {:induction false} ProgressUpdate(ws: seq<Worker>, i: nat, x: Worker)
    requires i < |ws|
    ensures Progress(ws[i := x]) + ws[i].arrived + ws[i].swapped == Progress(ws) + x.arrived + x.swapped
    decreases |ws|
  {
    var last := |ws| - 1;
    assert ws[i := x][..last] == if i < last then ws[..last][i := x] else ws[..last];
    if i < last {
      ProgressUpdate(ws[..last], i, x);
    }
  }

  lemma {:induction false} ProgressBound(ws: seq<Worker>, bound: nat)
    requires forall w :: 0 <= w < |ws| ==> ws[w].arrived <= bound && ws[w].swapped <= bound
    ensures Progress(ws) <= 2 * bound * |ws|
    decreases |ws|
  {
    if |ws| > 0 {
      ProgressBound(ws[..|ws| - 1], bound);
      assert 2 * bound * |ws| == 2 * bound * (|ws| - 1) + 2 * bound;
    }
  }

  lemma {:induction false} ExecuteMakesProgress(c: Config, s: State, evs: seq<Event>)
    requires WellFormed(c, s) && Execute(c, s, evs).Some?
    ensures Progress(Execute(c, s, evs).value.workers) == Progress(s.workers) + |evs|
    decreases |evs|
  {
    if |evs| > 0 {
      var e := evs[0];
      var s' := Next(c, s, e);
      ProgressUpdate(s.workers, e.w, s'.workers[e.w]);
      ExecuteMakesProgress(c, s', evs[1..]);
    }
  }

  lemma {:induction false} InitProgress(ws: seq<Worker>)
    requires forall w :: 0 <= w < |ws| ==> ws[w] == Worker(0, 0)
    ensures Progress(ws) == 0
    decreases |ws|
  {
    if |ws| > 0 {
      InitProgress(ws[..|ws| - 1]);
    }
  }

  /**
   * Termination and completion: no interleaving has more than
   * 2 * tasks * iterations events, and one that cannot be extended has
   * finished every worker, with the sequential result when tasks divides n.
   */
  lemma RunsComplete(c: Config, a0: Arrays, evs: seq<Event>)
    requires WellSized(a0, c.n)
    requires Execute(c, Init(c, a0), evs).Some?
    ensures |evs| <= 2 * c.iterations * c.tasks
    ensures var s := Execute(c, Init(c, a0), evs).value;
            (forall e :: !Enabled(c, s, e)) ==>
              Finished(c, s) && s.arrays == Run(a0, 1, Covered(c.n, c.tasks), c.iterations)
  {
    var s := Execute(c, Init(c, a0), evs).value;
    InitInv(c, a0);
    ExecuteInv(c, a0, Init(c, a0), evs);
    InitProgress(Init(c, a0).workers);
    ExecuteMakesProgress(c, Init(c, a0), evs);
    ProgressBound(s.workers, c.iterations);
    if forall e :: !Enabled(c, s, e) {
      if !Finished(c, s) {
        NoDeadlock(c, a0, s);
      }
      FinishedIsRun(c, a0, s);
    }
  }

  /**
   * What one event changes. Compute(w) raises w's phase by one, leaves the
   * array it reads alone and writes the stencil into exactly w's chunk of the
   * other array; Swap(w) only counts w's swap. No other worker's counters move.
   */
  lemma NextFrame(c: Config, s: State, e: Event)
    requires WellFormed(c, s) && Enabled(c, s, e)
    ensures forall v :: 0 <= v < c.tasks && v != e.w ==> Next(c, s, e).workers[v] == s.workers[v]
    ensures e.Swap? ==>
              && Next(c, s, e).arrays == s.arrays
              && Next(c, s, e).workers[e.w] == Worker(s.workers[e.w].arrived, s.workers[e.w].swapped + 1)
    ensures e.Compute? ==>
              var t := s.workers[e.w].swapped;
              var src := Source(s.arrays, t);
              var r := Next(c, s, e);
              && r.workers[e.w] == Worker(s.workers[e.w].arrived + 1, t)
              && Source(r.arrays, t) == src
              && (forall k :: 1 <= k <= c.n ==>
                    Target(r.arrays, t)[k] ==
                      if InChunk(c.n, c.tasks, e.w, k) then Avg(src[k - 1], src[k + 1])
                      else Target(s.arrays, t)[k])
              && Target(r.arrays, t)[0] == Target(s.arrays, t)[0]
              && Target(r.arrays, t)[c.n + 1] == Target(s.arrays, t)[c.n + 1]
  {
    if e.Compute? {
      ChunkBounds(c.n, c.tasks, e.w);
      StepKeepsSource(s.arrays, s.workers[e.w].swapped, Left(c.n, c.tasks, e.w), Right(c.n, c.tasks, e.w));
    }
  }
}
