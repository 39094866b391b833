# Iterative averaging engines and two small file servers, in Dafny

This project models three pieces of a Java course repository and proves
properties of the models.

**One-dimensional iterative averaging (`OneDimAveragingPhaser`).** Two arrays
`myNew` and `myVal` of length n + 2 hold a signal. Indices 0 and n + 1 are
fixed sentinels. One iteration writes every interior index j of one array
with the mean of indices j - 1 and j + 1 of the other; then the arrays swap
roles. There are three engines:

- the sequential engine;
- a parallel engine in which all workers meet at one global barrier each
  iteration;
- a "fuzzy barrier" engine in which each worker waits only for its two
  neighbours' phasers.

Worker i owns the interior chunk `i*(n/tasks)+1 .. (i+1)*(n/tasks)`.

**The single-threaded file server (miniproject 2).** It reads the first
CRLF-delimited token of a request and finds `GET (.+) HTTP/\d.\d` in it. It
replies with the file and a `Content-Length` header, or with 404 when the
line does not match or the file is missing.

**The thread-pool server's request handler (miniproject 4).** It reads the
first line and takes field 1 of `split(" ")` as the path. It replies with the
file (no `Content-Length`) or with 404.

Modules, one per file:

- `wrappers.dfy`: `Option` and `Result`.
- `partition.dfy`: chunk arithmetic.
- `averaging.dfy`: the stencil, one iteration and the sequential engine.
- `barrier.dfy`: the global-barrier engine.
- `fuzzy.dfy`: the fuzzy-barrier engine as a transition system over
  interleavings of worker events, with its invariant, skew bound, race
  freedom, deadlock freedom, termination and equivalence with the other
  engines.
- `decimal.dfy`: decimal rendering of the `Content-Length` value.
- `http.dfy`: the filesystem, the exact reply texts, and client-side readers
  for them.
- `single_threaded_server.dfy`: miniproject 2.
- `pooled_server.dfy`: miniproject 4.

Modelling choices:

- Cell values are mathematical reals.
- The engines work on immutable sequences. A method returns the final
  contents of `myNew` and `myVal`.
- The filesystem is a map from path strings to contents. A missing key is
  `readFile` returning null.
- The order in which barrier workers finish their chunks is a parameter
  (`schedule`).
- The fuzzy engine's interleaving is a sequence of events. `Execute` returns
  `None` when an event would block.
- Socket input is a parameter string. The server's output is the returned
  reply text.

## Model

| member | source | states |
|---|---|---|
| Partition.Covered | Parallel_Programming_in_Java/miniproject_4/src/main/java/edu/coursera/parallel/OneDimAveragingPhaser.java:70-71 | The highest index any worker writes is n - n % tasks. It never exceeds n. |
| Partition.ChunkBounds | Parallel_Programming_in_Java/miniproject_4/src/main/java/edu/coursera/parallel/OneDimAveragingPhaser.java:70-71 | Every chunk starts at 1 or later and has n / tasks indices. It ends at or before the covered bound, which is at most n. Chunk 0 starts at 1, each chunk starts right after its predecessor ends, and the last one ends at the covered bound. |
| Partition.ChunksDisjoint | Parallel_Programming_in_Java/miniproject_4/src/main/java/edu/coursera/parallel/OneDimAveragingPhaser.java:182-183 | Two workers never own the same index. |
| Partition.Owner | Parallel_Programming_in_Java/miniproject_4/src/main/java/edu/coursera/parallel/OneDimAveragingPhaser.java:182-183 | Every index from 1 to the covered bound lies in the chunk of some worker below tasks. |
| Partition.OwnerOfChunk | Parallel_Programming_in_Java/miniproject_4/src/main/java/edu/coursera/parallel/OneDimAveragingPhaser.java:70-71 | An index in worker w's chunk is covered, and w is its owner. |
| Partition.Coverage | Parallel_Programming_in_Java/miniproject_4/src/main/java/edu/coursera/parallel/OneDimAveragingPhaser.java:66-73 | Some chunk holds k exactly when 1 <= k <= the covered bound. The chunks cover 1..n exactly when tasks divides n; otherwise the indices above tasks*(n/tasks) are never written, because the ceiling chunk size is commented out. |
| Averaging.UpdateRange | Parallel_Programming_in_Java/miniproject_4/src/main/java/edu/coursera/parallel/OneDimAveragingPhaser.java:31-33 | After the update loop, each index of lo..hi holds the mean of its two neighbours in the source. Every other index keeps the destination's value, and the length is unchanged. |
| Averaging.Step | Parallel_Programming_in_Java/miniproject_4/src/main/java/edu/coursera/parallel/OneDimAveragingPhaser.java:30-33 | Iteration t (counting from 0) writes the interior range of `myNew` from `myVal` when t is even, and of `myVal` from `myNew` when t is odd, because the references swap after every sweep. The array it reads is left unchanged. |
| Averaging.Run | Parallel_Programming_in_Java/miniproject_4/src/main/java/edu/coursera/parallel/OneDimAveragingPhaser.java:30-36 | k iterations are k steps in order, the parity of each step choosing which array is written. The lengths of both arrays are unchanged. |
| Averaging.UpdateChunk | Parallel_Programming_in_Java/miniproject_4/src/main/java/edu/coursera/parallel/OneDimAveragingPhaser.java:31-33 | The imperative loop computes exactly that pointwise update, including the empty range. |
| Averaging.StepKeepsSource | Parallel_Programming_in_Java/miniproject_4/src/main/java/edu/coursera/parallel/OneDimAveragingPhaser.java:31-33 | An iteration never writes the array it reads. It writes only its target. |
| Averaging.RunKeepsOutside | Parallel_Programming_in_Java/miniproject_4/src/main/java/edu/coursera/parallel/OneDimAveragingPhaser.java:31-32 | No number of iterations writes an index outside the updated range. In particular the sentinels 0 and n + 1 of both arrays stay unchanged. |
| Averaging.SweepReadsPrevious | Parallel_Programming_in_Java/miniproject_4/src/main/java/edu/coursera/parallel/OneDimAveragingPhaser.java:30-36 | After sweep k, every j in 1..n of the current array is the mean of the previous current array at j - 1 and j + 1. The other array is that previous state. |
| Averaging.RunComputesSmooth | Parallel_Programming_in_Java/miniproject_4/src/main/java/edu/coursera/parallel/OneDimAveragingPhaser.java:30-36 | With equal sentinels, the array holding the result is k applications of the pure smoothing function to the input: myNew after an odd count, myVal after an even one. The other array holds k - 1 applications. |
| Averaging.RunSequential | Parallel_Programming_in_Java/miniproject_4/src/main/java/edu/coursera/parallel/OneDimAveragingPhaser.java:25-38 | The engine leaves both arrays as `iterations` alternating sweeps over 1..n. Zero iterations change nothing, and the sentinels of both arrays are preserved. |
| BarrierEngine.BarrierIteration | Parallel_Programming_in_Java/miniproject_4/src/main/java/edu/coursera/parallel/OneDimAveragingPhaser.java:69-77 | Whatever order the workers finish their chunks in, one barrier iteration is exactly one sweep over the covered indices. When tasks divides n, it is the sequential sweep over 1..n. |
| BarrierEngine.RunParallelBarrier | Parallel_Programming_in_Java/miniproject_4/src/main/java/edu/coursera/parallel/OneDimAveragingPhaser.java:51-94 | Under any schedule, the engine leaves both arrays as the run over the covered indices. The gap above them and the sentinels are never written. When tasks divides n, the result equals the sequential engine's. |
| FuzzyEngine.Neighbours | Parallel_Programming_in_Java/miniproject_4/src/main/java/edu/coursera/parallel/OneDimAveragingPhaser.java:192-198 | Worker i awaits worker j exactly when j < tasks and j = i - 1 or j = i + 1. It awaits at most two workers, and none when tasks = 1. |
| FuzzyEngine.Enabled | Parallel_Programming_in_Java/miniproject_4/src/main/java/edu/coursera/parallel/OneDimAveragingPhaser.java:181-203 | When a worker may act. It computes only between a swap and its next `arrive()`, while iterations remain. After arriving at phase p it may swap only once every existing neighbour's phaser has a phase other than p, which is when `awaitAdvance(p)` returns. |
| FuzzyEngine.Next | Parallel_Programming_in_Java/miniproject_4/src/main/java/edu/coursera/parallel/OneDimAveragingPhaser.java:185-203 | A chunk update followed by `arrive()` is one event, and the reference swap after both `awaitAdvance` calls is another. Either event leaves the state well formed. |
| FuzzyEngine.NextFrame | Parallel_Programming_in_Java/miniproject_4/src/main/java/edu/coursera/parallel/OneDimAveragingPhaser.java:185-203 | A chunk update raises only its worker's phase. It leaves the array it reads untouched, writes the stencil into exactly that worker's chunk of the other array, and never writes a sentinel. A swap changes only its worker's swap count and no array. |
| FuzzyEngine.InitInv | Parallel_Programming_in_Java/miniproject_4/src/main/java/edu/coursera/parallel/OneDimAveragingPhaser.java:167-170 | With every phaser at phase 0, the engine invariant holds: counter relations, and every index equal to the run after its owner's phase. |
| FuzzyEngine.SwapCounters | Parallel_Programming_in_Java/miniproject_4/src/main/java/edu/coursera/parallel/OneDimAveragingPhaser.java:190-198 | A worker passes both awaitAdvance calls only once each existing neighbour has arrived for the same phase, so the counter relations survive the swap. |
| FuzzyEngine.ReadsAreCurrent | Parallel_Programming_in_Java/miniproject_4/src/main/java/edu/coursera/parallel/OneDimAveragingPhaser.java:185-188 | When worker w computes iteration t, each neighbouring index it reads, its neighbours' boundaries included, already holds the value of the run over the covered indices 1..Covered(n, tasks) after t iterations. That is the sequential engine's value when tasks divides n. |
| FuzzyEngine.NextInv | Parallel_Programming_in_Java/miniproject_4/src/main/java/edu/coursera/parallel/OneDimAveragingPhaser.java:181-203 | Every enabled chunk update or swap preserves the invariant. |
| FuzzyEngine.PhaseCountsArrivals | Parallel_Programming_in_Java/miniproject_4/src/main/java/edu/coursera/parallel/OneDimAveragingPhaser.java:190 | After any interleaving, a worker's phase is its starting phase plus its number of arrive events. Its swap count is its starting count plus its number of swaps. |
| FuzzyEngine.SkewBound | Parallel_Programming_in_Java/miniproject_4/src/main/java/edu/coursera/parallel/OneDimAveragingPhaser.java:190-198 | In every reachable state, neighbouring workers' phases differ by at most 1, and so do their swap counts. |
| FuzzyEngine.NeighboursStayInStep | Parallel_Programming_in_Java/miniproject_4/src/main/java/edu/coursera/parallel/OneDimAveragingPhaser.java:185-198 | While w computes iteration t, each neighbour has arrived at least t times and swapped at most t times. So no neighbour writes what w reads. |
| FuzzyEngine.NoDeadlock | Parallel_Programming_in_Java/miniproject_4/src/main/java/edu/coursera/parallel/OneDimAveragingPhaser.java:192-199 | In a reachable state where some worker is unfinished, some event is enabled. |
| FuzzyEngine.FinishedIsRun | Parallel_Programming_in_Java/miniproject_4/src/main/java/edu/coursera/parallel/OneDimAveragingPhaser.java:181-204 | Once every worker has done all its iterations, both arrays equal the run over the covered indices. |
| FuzzyEngine.FuzzyMatchesSequential | Parallel_Programming_in_Java/miniproject_4/src/main/java/edu/coursera/parallel/OneDimAveragingPhaser.java:181-204 | Every complete interleaving leaves the arrays as the global-barrier engine does. When tasks divides n, it leaves them as the sequential engine does. |
| FuzzyEngine.RunsComplete | Parallel_Programming_in_Java/miniproject_4/src/main/java/edu/coursera/parallel/OneDimAveragingPhaser.java:181-215 | No interleaving has more than 2 * iterations * tasks events. One that cannot be extended has finished every worker, with the run's result in the arrays. |
| Decimal.FromNat | Distributed_Programming_in_Java/miniproject_2/src/main/java/edu/coursera/distributed/FileServer.java:98 | An int rendered in a string is a non-empty run of decimal digits without a leading zero. |
| Decimal.RoundTrip | Distributed_Programming_in_Java/miniproject_2/src/main/java/edu/coursera/distributed/FileServer.java:98 | Reading the rendered digits gives back the number. |
| Http.Utf16Length | Distributed_Programming_in_Java/miniproject_2/src/main/java/edu/coursera/distributed/FileServer.java:98 | `contents.length()` lies between the number of characters and twice that number. It equals the number of characters when all of them are in the Basic Multilingual Plane. |
| Http.NotFound | Distributed_Programming_in_Java/miniproject_2/src/main/java/edu/coursera/distributed/FileServer.java:108-116 | The 404 reply both servers write: status line `HTTP/1.0 404 Not Found`, the `Server` header and a blank line, with no body. |
| Http.OkWithLength | Distributed_Programming_in_Java/miniproject_2/src/main/java/edu/coursera/distributed/FileServer.java:96-101 | The 200 reply of the single-threaded server: status line, `Server` header, `Content-Length` with the contents' UTF-16 length, a blank line, the contents and a final CRLF. |
| Http.OkPlain | Distributed_Programming_in_Java/miniproject_4/src/main/java/edu/coursera/distributed/FileServer.java:92-95 | The 200 reply of the thread-pool server: status line, `Server` header, a blank line, then the content and a CRLF, with no `Content-Length`. |
| Http.WithLengthRoundTrip | Distributed_Programming_in_Java/miniproject_2/src/main/java/edu/coursera/distributed/FileServer.java:89-116 | A client reading the 200 or 404 reply gets back exactly what was sent. The Content-Length value counts the contents only, not the final CRLF. |
| Http.PlainRoundTrip | Distributed_Programming_in_Java/miniproject_4/src/main/java/edu/coursera/distributed/FileServer.java:91-99 | A client reading the 200 reply without Content-Length, or the 404 reply, gets back exactly what was sent. |
| SingleThreadedServer.FirstToken | Distributed_Programming_in_Java/miniproject_2/src/main/java/edu/coursera/distributed/FileServer.java:119-120 | There is no token, so `NoSuchElementException`, exactly when the request is empty or a lone CRLF. Otherwise the token starts after at most one leading CRLF, contains no CRLF, and ends at the next CRLF or at the end of the input. |
| SingleThreadedServer.FirstTokenOfRequest | Distributed_Programming_in_Java/miniproject_2/src/main/java/edu/coursera/distributed/FileServer.java:119-120 | For a non-empty first line without CRLF, the token is that line, whatever follows it. |
| SingleThreadedServer.FirstTokenAfterCrlf | Distributed_Programming_in_Java/miniproject_2/src/main/java/edu/coursera/distributed/FileServer.java:119-120 | Only one leading delimiter is skipped: after a leading CRLF the token is the next line, which is empty when two CRLFs start the request. |
| SingleThreadedServer.FirstTokenUnterminated | Distributed_Programming_in_Java/miniproject_2/src/main/java/edu/coursera/distributed/FileServer.java:119-120 | A closed input with no CRLF at all is the token, whole. |
| SingleThreadedServer.MatchAt | Distributed_Programming_in_Java/miniproject_2/src/main/java/edu/coursera/distributed/FileServer.java:122 | The pattern `GET (.+) HTTP/\d.\d` matching at a given start with a group of a given length: `GET `, at least one character other than a line terminator, ` HTTP/`, a digit, any character but a line terminator, and a digit. |
| SingleThreadedServer.LongestAt | Distributed_Programming_in_Java/miniproject_2/src/main/java/edu/coursera/distributed/FileServer.java:122 | The greedy group: the match length returned at a start is a match, and no longer group matches there. |
| SingleThreadedServer.FindFrom | Distributed_Programming_in_Java/miniproject_2/src/main/java/edu/coursera/distributed/FileServer.java:123-124 | `find` returns the leftmost start with a match, with the greedy group length there. It returns nothing exactly when no start matches. |
| SingleThreadedServer.ParseFileName | Distributed_Programming_in_Java/miniproject_2/src/main/java/edu/coursera/distributed/FileServer.java:118-129 | A returned p is non-empty, has no line terminator, and occurs as `GET ` p ` HTTP/` digit, character, digit in the line. The match is at the leftmost start where the pattern matches, and no longer group matches there. It returns null exactly when the line has no match. |
| SingleThreadedServer.ParseRequestLine | Distributed_Programming_in_Java/miniproject_2/src/main/java/edu/coursera/distributed/FileServer.java:122-128 | Parsing `GET p HTTP/d.d` returns p for every non-empty p without line terminators, spaces included. |
| SingleThreadedServer.ParseExample | Distributed_Programming_in_Java/miniproject_2/src/main/java/edu/coursera/distributed/FileServer.java:122-128 | `GET /path/to/file HTTP/1.1` parses to `/path/to/file`. |
| SingleThreadedServer.ServeFilename | Distributed_Programming_in_Java/miniproject_2/src/main/java/edu/coursera/distributed/FileServer.java:89-106 | The reply is the 404 text exactly when readFile returns null. A client reads back the file's contents, checked against Content-Length, or the 404. |
| SingleThreadedServer.Respond | Distributed_Programming_in_Java/miniproject_2/src/main/java/edu/coursera/distributed/FileServer.java:52-58 | The loop body fails without replying exactly when the request has no token. Otherwise, whatever the first line is, a client reading the reply gets the contents of the file named by `parseFileName` when that name is non-null and exists, and the 404 when the name is null or missing. |
| SingleThreadedServer.RespondToGet | Distributed_Programming_in_Java/miniproject_2/src/main/java/edu/coursera/distributed/FileServer.java:52-58 | For a well-formed GET of p followed by anything, the client reads p's contents when p exists and 404 otherwise. |
| SingleThreadedServer.NotFoundCases | Distributed_Programming_in_Java/miniproject_2/src/main/java/edu/coursera/distributed/FileServer.java:54-55 | A first line with no match, or a parsed name that is missing, yields exactly the 404 reply. |
| PooledServer.ReadLine | Distributed_Programming_in_Java/miniproject_4/src/main/java/edu/coursera/distributed/FileServer.java:81 | readLine returns null exactly on an empty stream. Otherwise it returns a prefix of the input with no CR or LF, ended by a CR or LF or by the end of the input. |
| PooledServer.ReadLineOfRequest | Distributed_Programming_in_Java/miniproject_4/src/main/java/edu/coursera/distributed/FileServer.java:81 | A first line ended by CRLF, LF or CR is read exactly, whatever follows. |
| PooledServer.Fields | Distributed_Programming_in_Java/miniproject_4/src/main/java/edu/coursera/distributed/FileServer.java:84 | Splitting at every space gives at least one field, and no field contains a space. The first field runs up to the first space. |
| PooledServer.JoinFields | Distributed_Programming_in_Java/miniproject_4/src/main/java/edu/coursera/distributed/FileServer.java:84 | Joining the fields with single spaces gives the line back. |
| PooledServer.FieldsJoin | Distributed_Programming_in_Java/miniproject_4/src/main/java/edu/coursera/distributed/FileServer.java:84 | Space-free fields joined with single spaces split back into the same fields. |
| PooledServer.Split | Distributed_Programming_in_Java/miniproject_4/src/main/java/edu/coursera/distributed/FileServer.java:84 | `split(" ")` on a line without a space is the one-element list of the line, the empty line included. Otherwise it is the fields between spaces with the trailing empty ones dropped: a prefix of the fields whose last element is non-empty, and every field removed is empty. No element contains a space. |
| PooledServer.DropTrailingEmpty | Distributed_Programming_in_Java/miniproject_4/src/main/java/edu/coursera/distributed/FileServer.java:84 | The result is a prefix of the fields whose last element is non-empty. Every field removed is empty. |
| PooledServer.PathOf | Distributed_Programming_in_Java/miniproject_4/src/main/java/edu/coursera/distributed/FileServer.java:84 | The extracted path never contains a space. The only failure is the index error. |
| PooledServer.PathOfScans | Distributed_Programming_in_Java/miniproject_4/src/main/java/edu/coursera/distributed/FileServer.java:84 | `split(" ")[1]` is the text between the first and second spaces. It fails exactly when the line has no space, or only spaces after its first one. |
| PooledServer.PathOfRequest | Distributed_Programming_in_Java/miniproject_4/src/main/java/edu/coursera/distributed/FileServer.java:84 | For space-free word, path and version, not both of the last two empty, the path of `word path version` is path. |
| PooledServer.PathExample | Distributed_Programming_in_Java/miniproject_4/src/main/java/edu/coursera/distributed/FileServer.java:84 | `GET /path/to/file HTTP/1.1` yields `/path/to/file`. |
| PooledServer.ShortLinesFail | Distributed_Programming_in_Java/miniproject_4/src/main/java/edu/coursera/distributed/FileServer.java:84 | `GET`, `GET `, the empty line and a lone space have fewer than two fields after trailing empty ones are dropped, so they fail with the index error. |
| PooledServer.ReplyFor | Distributed_Programming_in_Java/miniproject_4/src/main/java/edu/coursera/distributed/FileServer.java:91-100 | The reply is the 404 text exactly when the content is null. A client reads back the content or the 404. |
| PooledServer.HandleLine | Distributed_Programming_in_Java/miniproject_4/src/main/java/edu/coursera/distributed/FileServer.java:84-100 | The handler fails exactly when the path extraction fails. Otherwise its reply is 404 exactly when the path is missing from the filesystem, and a client reading the reply gets `fs[path]` when it exists and the 404 otherwise. |
| PooledServer.Handle | Distributed_Programming_in_Java/miniproject_4/src/main/java/edu/coursera/distributed/FileServer.java:81-84 | The handler fails with the null-line fault exactly when the stream is empty, before writing anything. On a non-empty stream it fails exactly when no path can be extracted from the first line. |
| PooledServer.MethodWordIgnored | Distributed_Programming_in_Java/miniproject_4/src/main/java/edu/coursera/distributed/FileServer.java:82-84 | Any space-free first word is handled the same as `GET`, because the method check is only an assert. |
| PooledServer.HandleRequest | Distributed_Programming_in_Java/miniproject_4/src/main/java/edu/coursera/distributed/FileServer.java:81-100 | For `word path version` ended by CRLF, LF or CR and followed by anything, the client reads the file's contents when path exists and 404 otherwise. |

## Left out

- Threads, `start`/`join`, `InterruptedException` handling and the Java memory model are left out. Workers are chunk updates (barrier engine) or events in an interleaving (fuzzy engine).
- `java.util.concurrent.Phaser` internals and phase wrap-around at `Integer.MAX_VALUE` are left out. A phaser is a natural-number phase.
- FuzzyEngine.Next: one worker's chunk update is a single event. Finer interleavings inside a chunk loop are not modelled. The loop writes only inside the worker's chunk (`NextFrame`), but it also reads `left - 1` and `right + 1`, which belong to the neighbours or are sentinels or uncovered cells. `NeighboursStayInStep` shows that no neighbour writes those cells while the worker computes, so splitting the update into finer events would not change what it reads.
- IEEE `double` arithmetic and rounding are left out. Values are reals, and no claim is made about floating-point results.
- Averaging.RunSequential: the arrays have exactly n + 2 elements. Longer arrays, whose tail is never touched, are not modelled. Shorter arrays, which throw `ArrayIndexOutOfBoundsException`, are not modelled either.
- BarrierEngine.RunParallelBarrier: same array-length assumption as `RunSequential`.
- FuzzyEngine.Init, FuzzyEngine.InitInv and FuzzyEngine.FuzzyMatchesSequential: same array-length assumption as `RunSequential`; the fuzzy engine's arrays have exactly n + 2 elements.
- Averaging.RunSequential, BarrierEngine.RunParallelBarrier and FuzzyEngine.FuzzyMatchesSequential assume that `myNew` and `myVal` are two distinct arrays. Java also accepts the same array for both; then a sweep reads cells it has already written, and none of the results here apply.
- Negative `iterations`, `n` or `tasks` are not modelled; all three are natural numbers. A negative `tasks` makes Java throw before any work.
- Java's 32-bit `int` arithmetic in the chunk bounds agrees with the model's unbounded integers: for i < tasks, `(i + 1) * (n / tasks) <= tasks * (n / tasks) <= n`, so no product overflows.
- `tasks = 0` makes Java start no threads, and the model writes nothing. Division by zero never happens because no worker exists.
- The commented-out fuzzy implementation and the commented-out chunk-size alternative of `OneDimAveragingPhaser.java` are not modelled. They are not live code.
- The `System.out.println` at the end of the fuzzy engine is not modelled.
- `ServerSocket.accept`, the endless server loops, socket streams, flushing and closing are not modelled. The request is a string, and the written reply is the result.
- `PrintStream`/`PrintWriter` charset encoding is not modelled. Replies are character strings. `Content-Length` is `String.length()` in UTF-16 code units, as the source writes it, not a byte count.
- `PCDPFilesystem` and `PCDPPath` are not part of this model. Lookup is keyed by the raw path string, with no path normalisation.
- SingleThreadedServer.FirstToken: the input is a finished string. A `Scanner` on a still-open socket that has sent no delimiter would block rather than return.
- SingleThreadedServer.ParseFileName: only the one fixed pattern is modelled, as a match predicate with a leftmost, greedy search. No general regex engine is modelled.
- PooledServer.Handle: Java assertions are disabled, as by default. With `-ea`, a null line or a line not starting with `GET` would throw `AssertionError` instead.
- The `IOException` to `RuntimeException` path of the thread-pool handler is not modelled, and neither is the `ExecutorService`.
