/**
 * How the two parallel averaging engines split the interior indices 1..n
 * among `tasks` workers: worker i owns the contiguous chunk
 * [i * (n / tasks) + 1, (i + 1) * (n / tasks)], with Java's integer division.
 */
module Partition {

  /** First index written by worker i. */
  function Left(n: nat, tasks: nat, i: nat): nat
    requires tasks >= 1
  {
    i * (n / tasks) + 1
  }

  /** Last index written by worker i (a chunk is empty when n < tasks). */
  function Right(n: nat, tasks: nat, i: nat): nat
    requires tasks >= 1
  {
    (i + 1) * (n / tasks)
  }

  predicate InChunk(n: nat, tasks: nat, i: nat, k: int)
    requires tasks >= 1
  {
    Left(n, tasks, i) <= k <= Right(n, tasks, i)
  }

  /**
   * The highest index any worker writes; indices above it and up to n form the
   * gap left when tasks does not divide n. With no workers nothing is written.
   */
  function Covered(n: nat, tasks: nat): (c: nat)
    ensures c <= n
    ensures tasks >= 1 ==> c == n - n % tasks
  {
    if tasks == 0 then 0 else tasks * (n / tasks)
  }

  lemma MulMono(a: nat, b: nat, q: nat)
    requires a <= b
    ensures a * q <= b * q
  {
  }

  /** Every chunk lies inside 1..n and each one starts right after its predecessor. */
  lemma ChunkBounds(n: nat, tasks: nat, i: nat)
    requires 1 <= tasks && i < tasks
    ensures 1 <= Left(n, tasks, i)
    ensures Right(n, tasks, i) + 1 - Left(n, tasks, i) == n / tasks
    ensures Right(n, tasks, i) <= Covered(n, tasks) <= n
    ensures i == 0 ==> Left(n, tasks, i) == 1
    ensures i + 1 < tasks ==> Right(n, tasks, i) + 1 == Left(n, tasks, i + 1)
    ensures i + 1 == tasks ==> Right(n, tasks, i) == Covered(n, tasks)
  {
    MulMono(i + 1, tasks, n / tasks);
  }

  /** No index belongs to two chunks. */
  lemma ChunksDisjoint(n: nat, tasks: nat, i: nat, j: nat, k: int)
    requires 1 <= tasks && i < tasks && j < tasks
    requires InChunk(n, tasks, i, k) && InChunk(n, tasks, j, k)
    ensures i == j
  {
    if i < j {
      MulMono(i + 1, j, n / tasks);
    } else if j < i {
      MulMono(j + 1, i, n / tasks);
    }
  }

  /** The worker whose chunk holds index k. */
  function Owner(n: nat, tasks: nat, k: int): (w: nat)
    requires 1 <= tasks && 1 <= k <= Covered(n, tasks)
    ensures w < tasks && InChunk(n, tasks, w, k)
  {
    var q := n / tasks;
    assert tasks * q >= 1;
    var w := (k - 1) / q;
    assert w * q <= k - 1 < (w + 1) * q;
    assert w < tasks by {
      if w >= tasks {
        MulMono(tasks, w, q);
      }
    }
    w
  }

  /** An index of worker w's chunk is covered and owned by w. */
  lemma OwnerOfChunk(n: nat, tasks: nat, w: nat, k: int)
    requires 1 <= tasks && w < tasks && InChunk(n, tasks, w, k)
    ensures 1 <= k <= Covered(n, tasks) && Owner(n, tasks, k) == w
  {
    ChunkBounds(n, tasks, w);
    ChunksDisjoint(n, tasks, w, Owner(n, tasks, k), k);
  }

  /**
   * Some worker writes index k exactly when 1 <= k <= Covered: the chunks cover
   * 1..n without a gap if and only if tasks divides n.
   */
  lemma Coverage(n: nat, tasks: nat, k: int)
    requires 1 <= tasks
    ensures (exists i :: 0 <= i < tasks && InChunk(n, tasks, i, k)) <==> 1 <= k <= Covered(n, tasks)
    ensures Covered(n, tasks) == n <==> n % tasks == 0
  {
    if 1 <= k <= Covered(n, tasks) {
      var w := Owner(n, tasks, k);
      assert InChunk(n, tasks, w, k);
    }
    forall i | 0 <= i < tasks && InChunk(n, tasks, i, k)
      ensures 1 <= k <= Covered(n, tasks)
    {
      ChunkBounds(n, tasks, i);
    }
  }
}
