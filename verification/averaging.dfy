/**
 * One-dimensional iterative averaging over a pair of arrays of length n + 2.
 * Indices 0 and n + 1 are sentinels; an iteration writes the interior of one
 * array from the other and then the two arrays swap roles.
 */
module Averaging {

  /** The three-point stencil: the mean of the two neighbours. */
  function Avg(a: real, b: real): real
  {
    (a + b) / 2.0
  }

  /** The two arrays the caller passes in, `myNew` and `myVal`, assumed to be distinct arrays. */
  datatype Arrays = Arrays(myNew: seq<real>, myVal: seq<real>)

  predicate WellSized(a: Arrays, n: nat)
  {
    |a.myNew| == n + 2 && |a.myVal| == n + 2
  }

  /** A non-empty range lo..hi leaves both neighbours of every index inside the array. */
  predicate ValidRange(len: nat, lo: int, hi: int)
  {
    lo <= hi ==> 1 <= lo && hi + 1 < len
  }

  /**
   * The inner loop of every engine: dst[j] := Avg(src[j - 1], src[j + 1]) for
   * j = lo, lo + 1, ..., hi, reading only src.
   */
  function UpdateRange(dst: seq<real>, src: seq<real>, lo: int, hi: int): (r: seq<real>)
    requires |dst| == |src| && ValidRange(|src|, lo, hi)
    ensures |r| == |dst|
    ensures forall k :: 0 <= k < |r| ==>
              r[k] == if lo <= k <= hi then Avg(src[k - 1], src[k + 1]) else dst[k]
    decreases hi - lo
  {
    if lo > hi then dst
    else UpdateRange(dst[lo := Avg(src[lo - 1], src[lo + 1])], src, lo + 1, hi)
  }

  /** The array iteration t reads: myVal on even t, myNew on odd t. */
  function Source(a: Arrays, t: nat): seq<real>
  {
    if t % 2 == 0 then a.myVal else a.myNew
  }

  /** The array iteration t writes: myNew on even t, myVal on odd t. */
  function Target(a: Arrays, t: nat): seq<real>
  {
    if t % 2 == 0 then a.myNew else a.myVal
  }

  /** Iteration t (counting from 0): update lo..hi of the target from the source. */
  function Step(a: Arrays, t: nat, lo: int, hi: int): Arrays
    requires |a.myNew| == |a.myVal| && ValidRange(|a.myVal|, lo, hi)
  {
    if t % 2 == 0 then Arrays(UpdateRange(a.myNew, a.myVal, lo, hi), a.myVal)
    else Arrays(a.myNew, UpdateRange(a.myVal, a.myNew, lo, hi))
  }

  /** The physical arrays after k iterations over lo..hi. */
  function Run(a: Arrays, lo: int, hi: int, k: nat): (r: Arrays)
    requires |a.myNew| == |a.myVal| && ValidRange(|a.myVal|, lo, hi)
    ensures |r.myNew| == |a.myNew| && |r.myVal| == |a.myVal|
  {
    if k == 0 then a else Step(Run(a, lo, hi, k - 1), k - 1, lo, hi)
  }

  /**
   * The authoritative state after k iterations: the array the last iteration
   * wrote (myNew after an odd count, myVal after an even one, the input when k = 0).
   */
  function Current(a: Arrays, k: nat): seq<real>
  {
    Source(a, k)
  }

  /**
   * The mathematical reference: k Jacobi sweeps of one sequence over lo..hi,
   * with no second buffer and no swapping.
   */
  function Smooth(v: seq<real>, lo: int, hi: int, k: nat): (r: seq<real>)
    requires ValidRange(|v|, lo, hi)
    ensures |r| == |v|
  {
    if k == 0 then v
    else
      var prev := Smooth(v, lo, hi, k - 1);
      UpdateRange(prev, prev, lo, hi)
  }

  /** The run one iteration further is one more step. */
  lemma RunNext(a: Arrays, lo: int, hi: int, k: nat)
    requires |a.myNew| == |a.myVal| && ValidRange(|a.myVal|, lo, hi)
    ensures Run(a, lo, hi, k + 1) == Step(Run(a, lo, hi, k), k, lo, hi)
  {
  }

  /** Iteration t leaves the array it reads untouched. */
  lemma StepKeepsSource(a: Arrays, t: nat, lo: int, hi: int)
    requires |a.myNew| == |a.myVal| && ValidRange(|a.myVal|, lo, hi)
    ensures Source(Step(a, t, lo, hi), t) == Source(a, t)
    ensures Target(Step(a, t, lo, hi), t) == UpdateRange(Target(a, t), Source(a, t), lo, hi)
  {
  }

  /** Indices outside lo..hi, the sentinels among them, are never written. */
  lemma {:induction false} RunKeepsOutside(a: Arrays, lo: int, hi: int, k: nat, j: int)
    requires |a.myNew| == |a.myVal| && ValidRange(|a.myVal|, lo, hi)
    requires 0 <= j < |a.myVal| && !(lo <= j <= hi)
    ensures Run(a, lo, hi, k).myNew[j] == a.myNew[j]
    ensures Run(a, lo, hi, k).myVal[j] == a.myVal[j]
  {
    if k > 0 {
      RunKeepsOutside(a, lo, hi, k - 1, j);
    }
  }

  /**
   * Each iteration averages the previous authoritative state only: after
   * iteration k the current array holds the stencil of the previous current
   * array on lo..hi, and the other array is that previous current array.
   */
  lemma SweepReadsPrevious(a: Arrays, lo: int, hi: int, k: nat)
    requires |a.myNew| == |a.myVal| && ValidRange(|a.myVal|, lo, hi)
    requires k >= 1
    ensures var prev := Current(Run(a, lo, hi, k - 1), k - 1);
            forall j :: lo <= j <= hi ==>
              Current(Run(a, lo, hi, k), k)[j] == Avg(prev[j - 1], prev[j + 1])
    ensures Target(Run(a, lo, hi, k), k) == Current(Run(a, lo, hi, k - 1), k - 1)
  {
    StepKeepsSource(Run(a, lo, hi, k - 1), k - 1, lo, hi);
  }

  /** Both arrays agree at every index outside lo..hi (the caller set the same sentinels). */
  predicate SameOutside(a: Arrays, lo: int, hi: int)
    requires |a.myNew| == |a.myVal|
  {
    forall j :: 0 <= j < |a.myVal| && !(lo <= j <= hi) ==> a.myNew[j] == a.myVal[j]
  }

  /**
   * Buffer-swap parity: when both arrays start with the same sentinels, the
   * array holding the answer after k iterations (myNew for odd k, myVal for
   * even k) is exactly k sweeps of the input, and the other array is k - 1 sweeps.
   */
  lemma {:induction false} RunComputesSmooth(a: Arrays, lo: int, hi: int, k: nat)
    requires |a.myNew| == |a.myVal| && ValidRange(|a.myVal|, lo, hi)
    requires SameOutside(a, lo, hi)
    ensures Current(Run(a, lo, hi, k), k) == Smooth(a.myVal, lo, hi, k)
    ensures k >= 1 ==> Target(Run(a, lo, hi, k), k) == Smooth(a.myVal, lo, hi, k - 1)
  {
    if k >= 1 {
      RunComputesSmooth(a, lo, hi, k - 1);
      var r := Run(a, lo, hi, k - 1);
      var next := Step(r, k - 1, lo, hi);
      assert Run(a, lo, hi, k) == next;
      var prev := Smooth(a.myVal, lo, hi, k - 1);
      StepKeepsSource(r, k - 1, lo, hi);
      ParityShift(next, k);
      assert Current(next, k) == UpdateRange(Target(r, k - 1), prev, lo, hi);
      forall j | 0 <= j < |prev| && !(lo <= j <= hi)
        ensures Target(r, k - 1)[j] == prev[j]
      {
        RunKeepsOutside(a, lo, hi, k - 1, j);
        SmoothKeepsOutside(a.myVal, lo, hi, k - 1, j);
      }
      UpdateRangeIgnoresDst(Target(r, k - 1), prev, prev, lo, hi);
    }
  }

  /** Swapping roles: what iteration k reads is what iteration k - 1 wrote, and vice versa. */
  lemma ParityShift(b: Arrays, k: nat)
    requires k >= 1
    ensures Source(b, k) == Target(b, k - 1) && Target(b, k) == Source(b, k - 1)
  {
  }

  /** The update overwrites lo..hi, so the old contents there do not matter. */
  lemma UpdateRangeIgnoresDst(d1: seq<real>, d2: seq<real>, src: seq<real>, lo: int, hi: int)
    requires |d1| == |src| && |d2| == |src| && ValidRange(|src|, lo, hi)
    requires forall j :: 0 <= j < |src| && !(lo <= j <= hi) ==> d1[j] == d2[j]
    ensures UpdateRange(d1, src, lo, hi) == UpdateRange(d2, src, lo, hi)
  {
    var r1 := UpdateRange(d1, src, lo, hi);
    var r2 := UpdateRange(d2, src, lo, hi);
    assert forall j :: 0 <= j < |r1| ==> r1[j] == r2[j];
  }

  lemma {:induction false} SmoothKeepsOutside(v: seq<real>, lo: int, hi: int, k: nat, j: int)
    requires ValidRange(|v|, lo, hi) && 0 <= j < |v| && !(lo <= j <= hi)
    ensures Smooth(v, lo, hi, k)[j] == v[j]
  {
    if k > 0 {
      SmoothKeepsOutside(v, lo, hi, k - 1, j);
    }
  }

  /**
   * The update loop `for (j = lo; j <= hi; j++) dst[j] = (src[j-1] + src[j+1]) / 2`,
   * on a copy of dst.
   */
  method UpdateChunk(dst: seq<real>, src: seq<real>, lo: int, hi: int) returns (r: seq<real>)
    requires |dst| == |src| && ValidRange(|src|, lo, hi)
    ensures |r| == |dst|
    ensures forall k :: 0 <= k < |r| ==>
              r[k] == if lo <= k <= hi then Avg(src[k - 1], src[k + 1]) else dst[k]
    ensures r == UpdateRange(dst, src, lo, hi)
  {
    r := dst;
    var j := lo;
    while j <= hi
      invariant lo <= j && (j <= hi + 1 || j == lo)
      invariant |r| == |dst|
      invariant forall k :: 0 <= k < |r| ==>
                  r[k] == if lo <= k < j then Avg(src[k - 1], src[k + 1]) else dst[k]
    {
      r := r[j := Avg(src[j - 1], src[j + 1])];
      j := j + 1;
    }
  }

  /**
   * The sequential engine: `iterations` sweeps over 1..n, the local references
   * `next` and `curr` swapping after each sweep. Returns the final contents of
   * myNew and myVal.
   */
  method RunSequential(iterations: nat, myNew: seq<real>, myVal: seq<real>, n: nat)
    returns (outNew: seq<real>, outVal: seq<real>)
    requires |myNew| == n + 2 && |myVal| == n + 2
    ensures Arrays(outNew, outVal) == Run(Arrays(myNew, myVal), 1, n, iterations)
    ensures iterations == 0 ==> outNew == myNew && outVal == myVal
    ensures outNew[0] == myNew[0] && outNew[n + 1] == myNew[n + 1]
    ensures outVal[0] == myVal[0] && outVal[n + 1] == myVal[n + 1]
  {
    var a := Arrays(myNew, myVal);
    outNew, outVal := myNew, myVal;
    var nextIsNew := true;
    var iter := 0;
    while iter < iterations
      invariant 0 <= iter <= iterations
      invariant nextIsNew == (iter % 2 == 0)
      invariant Arrays(outNew, outVal) == Run(a, 1, n, iter)
    {
      if nextIsNew {
        outNew := UpdateChunk(outNew, outVal, 1, n);
      } else {
        outVal := UpdateChunk(outVal, outNew, 1, n);
      }
      nextIsNew := !nextIsNew;
      iter := iter + 1;
    }
    RunKeepsOutside(a, 1, n, iterations, 0);
    RunKeepsOutside(a, 1, n, iterations, n + 1);
  }
}
