# A verified model of `split`

The repository implements `split(data, f)`: apply `f` to every item of a
vector and return the results in input order, spreading the work over
several workers when the input is longer than `PARALLELISM_THRESHOLD`
(4, `src/main.rs:6`). It has two implementations.

- `SimpleTestTaskSolution::split` (`src/simple.rs`) splits the input into
  `n_jobs` balanced chunks. It drains each chunk from the front of the
  vector and spawns one thread per chunk. It joins the threads in spawn
  order, sorts the tagged results by offset and appends them.
- `BetterTestTaskSolution::split` (`src/better.rs`) splits the same
  balanced chunks off the back of the vector. It stops at the first empty
  chunk. It maps each chunk on a thread pool and sends the result over a
  channel, tagged with its offset. Messages arrive in any order. The
  default build collects them into a `BTreeMap` keyed by offset and
  appends the values in key order. The "fun" build writes every output
  into a preallocated buffer at its index.

In the balanced partition, every chunk gets `n / k` items. The first
`n % k` chunks get one more, handed out by the `add_one_if_remaining`
closure.

The project has six modules.

- `Mapping`: the threshold, `Option`, `NonZero` and the sequential map
  `MapSeq` that every path must agree with.
- `Balance`: the closure and the partition's geometry. `ChunkSize(i)` and
  `ChunkStart(i)` are the size and start of chunk `i`. `Shares` gives the
  quotient and remainder.
- `Chunks`: tagged partial results (`Part`) and the facts that make
  reassembly correct:
  - a tiling of a range appends to the map of that range;
  - a tiling is a partition;
  - a map keyed by offset does not depend on insertion order when offsets
    are distinct;
  - appending map values in key order gives the concatenation.
- `Simple` and `Better`: the two implementations. Each has one method per
  loop of the source.
- `Examples`: the unit tests of both files, as scenarios proved for every
  worker count and every order of arrival.

The headline theorem: for every input, every `f`, every worker count and
every order of arrival, `Simple.Split`, `Better.Split` and
`Better.SplitFun` return a vector of the input's length whose `i`-th
element is `f(data[i])`.

## Model

| member | source | states |
|---|---|---|
| Mapping.MapSeq | src/simple.rs:21 | the sequential map: same length as the input, element `i` is `f` of input item `i` |
| Mapping.MapSeqAppend | src/simple.rs:73-77 | mapping a concatenation is the concatenation of the maps of its halves |
| Mapping.MapSeqSlices | src/simple.rs:73-77 | the map of a slice is the map of its left part followed by the map of its right part, for any split point |
| Balance.RemainderAfter | src/simple.rs:26-33 | definition: the closure's counter after a number of calls, `n % k` minus the calls made, never below 0 |
| Balance.ChunkSize | src/simple.rs:39 | definition: the size of chunk `i`, `n_each` plus one for the first `n_rem` chunks |
| Balance.ChunkStart | src/simple.rs:54 | definition: the items in the chunks before chunk `i`, which `latest_task_i` holds at round `i` (in closed form) |
| Balance.AddOneIfRemaining | src/simple.rs:27-33 | the closure returns 1 exactly when the remainder counter is positive, and lowers the counter by what it returns |
| Balance.ClosureStep | src/simple.rs:26-39 | the `j`-th call of the closure gives chunk `j` its extra item, and the counter is `n % k - j` until it reaches 0 after `n % k` calls |
| Balance.ChunkStartStep | src/simple.rs:54 | the running start index advances by exactly the current chunk's size |
| Balance.ChunkStartMonotone | src/simple.rs:54 | chunk start offsets never decrease |
| Balance.Shares | src/simple.rs:25-26 | `n_each`, `n_rem` for `n` items over `k >= 1` jobs: `n_rem < k`, and the `k` chunk sizes sum to exactly `n`; the divisor is never zero |
| Balance.ChunkWithin | src/simple.rs:44-45 | every chunk of the `k` rounds ends within the input, so `drain(0..n)` and `split_off` are in bounds |
| Balance.ChunkSizesBalanced | src/simple.rs:39 | chunk sizes never grow in cutting order and differ by at most one |
| Balance.ChunkEmptyIff | src/better.rs:45-47 | chunk `i` is empty exactly when `i >= n`: empty chunks are all at the end and exist only when there are more jobs than items |
| Chunks.Concat | src/simple.rs:75-77 | definition: the outputs of a list of results appended in list order |
| Chunks.PartsMap | src/better.rs:86 | definition: messages inserted one after another into a map keyed by offset, a later message with the same offset replacing an earlier one |
| Chunks.InKeyOrder | src/better.rs:90-92 | definition: the map's values appended in ascending key order, the order in which an ordered map is iterated |
| Chunks.TilesSnoc | src/simple.rs:48-54 | a chunk starting where a tiling ends extends it to the right |
| Chunks.TilesCons | src/better.rs:42-43 | a chunk ending where a tiling starts extends it to the left |
| Chunks.TilesUncons | src/better.rs:42-43 | removing the first chunk of a tiling leaves a tiling that starts where that chunk ends |
| Chunks.TilesUnsnoc | src/simple.rs:48-54 | removing the last chunk of a tiling leaves a tiling that ends where that chunk starts |
| Chunks.TilesOrdered | src/simple.rs:71 | in a tiling every chunk ends at or before the start of every later chunk, so spawn order is offset order |
| Chunks.TilesConcat | src/simple.rs:73-77 | appending the outputs of a tiling of `data[lo..hi]` in order gives the map of `data[lo..hi]` |
| Chunks.TilesCover | src/better.rs:69-74 | every index of a tiled range lies in some chunk |
| Chunks.TilesPartition | src/better.rs:69-74 | a tiling of the whole input is a partition: every index is covered, ranges are disjoint, each chunk holds the map of its range |
| Chunks.PartitionPermute | src/better.rs:69 | reordering the chunks, as the channel may, keeps them a partition |
| Chunks.Reverse | src/better.rs:43 | the sequence last to first, element by element |
| Chunks.ReverseSnoc | src/better.rs:43 | adding a chunk at the back of the sending order adds it at the front of the reversal |
| Chunks.ReverseReverse | src/better.rs:43 | reversing twice gives back the original sequence |
| Chunks.Identity | src/better.rs:69 | helper: the arrival order that keeps the sending order is a permutation |
| Chunks.Backwards | src/better.rs:86 | the order that reads the sending order backwards is a permutation |
| Chunks.PartsMapSpec | src/better.rs:86 | the map's keys are exactly the messages' offsets; when offsets are distinct each key maps to its message's output |
| Chunks.DistinctPermute | src/better.rs:86 | reordering messages keeps their offsets distinct |
| Chunks.PartsMapPermute | src/better.rs:86 | with distinct offsets the collected map is the same for every order of arrival, so no message is lost |
| Chunks.PermuteKeepsEntry | src/better.rs:86 | every entry of the map survives reordering the messages |
| Chunks.PermuteAddsNoKey | src/better.rs:86 | reordering the messages adds no key to the map |
| Chunks.PermutedIndex | src/better.rs:69 | every message can be found at some position of the arrival order |
| Chunks.MapsAgree | src/better.rs:86 | helper: two maps with the same keys and the same value at each key are equal |
| Chunks.SetMax | src/better.rs:90 | helper: the largest key of a non-empty key set |
| Chunks.SetMin | src/better.rs:90 | helper: the smallest key of a non-empty key set |
| Chunks.InKeyOrderAppendMax | src/better.rs:90-92 | adding a key above every key appends its value at the end of the key-order walk |
| Chunks.KeyOrderConcat | src/better.rs:86-92 | collecting chunks with strictly ascending offsets and walking the map in key order gives their concatenation |
| Simple.Split | src/simple.rs:12-80 | for every answer of the hardware query, including failure, the result has the input's length and element `i` is `f(data[i])` |
| Simple.Dispatch | src/simple.rs:34-55 | exactly `n_jobs` jobs are spawned, empty ones included; job `i` is tagged with its true start and has the partition's size; the jobs tile the input in spawn order and are sorted by offset |
| Simple.DrainSlices | src/simple.rs:44-46 | draining `n` items from what is left after `a` items yields input items `a..a+n` and leaves those from `a+n` on |
| Simple.DrainStep | src/simple.rs:39-54 | one round of the spawning loop keeps its invariant: `latest_task_i` is the partition's running total and the jobs tile the input up to it |
| Simple.TiledStarts | src/simple.rs:50-54 | in a tiling whose sizes follow the partition, every job's tag `latest_task_i` is its chunk's true start |
| Simple.SortByOffset | src/simple.rs:71 | the sorted results are ordered by offset and are a permutation of the joined results; results already in order come back unchanged |
| Simple.InsertionPoint | src/simple.rs:71 | the insertion position for a key lies after every offset at most the key and before every larger one |
| Simple.InsertStep | src/simple.rs:71 | one insertion keeps the sort's invariant: sorted, a permutation of the prefix, and the identity on already sorted input |
| Simple.InsertSorted | src/simple.rs:71 | inserting at the insertion position keeps a sorted list sorted |
| Simple.InsertPermutation | src/simple.rs:71 | the permutation witness follows the insertion |
| Simple.InsertIsPermutation | src/simple.rs:71 | inserting a new index into a permutation gives a permutation of one more index |
| Simple.AppendAll | src/simple.rs:73-77 | appending the results' outputs in list order gives their concatenation |
| Better.Split | src/better.rs:12-96 | default build: for every worker count and every order of arrival, the result has the input's length and element `i` is `f(data[i])` |
| Better.SplitFun | src/better.rs:62-81 | "fun" build: the same result for every worker count and every order of arrival |
| Better.Dispatch | src/better.rs:34-58 | `min(n_jobs, n)` non-empty chunks are sent; chunk `i` has the partition's size and is tagged with its true start; `n_handled_tasks` never passes `n_tasks`; offsets strictly decrease; read backwards the chunks tile the whole input, so stopping at the first empty chunk drops nothing |
| Better.SplitOffSlices | src/better.rs:43 | `split_off(at)` on the first `done` items gives input items `at..done` and leaves the first `at` |
| Better.SendStep | src/better.rs:41-57 | sending a non-empty chunk keeps the loop invariant: `n_handled_tasks` is the partition's running total and the chunks tile the input's tail |
| Better.NoItemsLeft | src/better.rs:45-47 | the first empty chunk comes in round `n < n_jobs`, when all `n` items have been handed out |
| Better.DispatchDone | src/better.rs:40-58 | when the loop ends, after `n_jobs` rounds or at the first empty chunk, the sent chunks are exactly as `Dispatch` promises |
| Better.DecreasingOffsets | src/better.rs:42-53 | non-empty chunks cut off the back have strictly decreasing offsets in sending order |
| Better.BackwardStarts | src/better.rs:42-53 | the tag `n_tasks - n_handled_tasks` of chunk `i` is its true start: it is followed by exactly the first `i + 1` chunks' items |
| Better.Receive | src/better.rs:86 | the channel delivers every sent message exactly once, in some order |
| Better.CollectByOffset | src/better.rs:86 | collecting the arrived messages builds the map from offset to output, later arrivals overwriting earlier ones |
| Better.AppendInKeyOrder | src/better.rs:88-92 | iterating the map appends its values in ascending key order |
| Better.KeyOrderReassembly | src/better.rs:86-92 | for every order of arrival, the map walked in key order gives the sequential map of the input |
| Better.NonEmptyTilesAscend | src/better.rs:45-53 | the sent chunks have strictly ascending offsets when read backwards, so no two messages share a key |
| Better.ArrivalPartition | src/better.rs:69 | for every order of arrival, the messages partition the input |
| Better.WriteAtOffsets | src/better.rs:62-81 | every slot of the buffer is written exactly once, and the buffer ends up holding the sequential map |
| Better.WriteStep | src/better.rs:70-72 | the slot `start + j` written for output `j` is in range and not written before, and the write keeps the buffer invariant |
| Better.NextMessage | src/better.rs:69-74 | once a message's outputs are all written, the buffer is in the state the next message starts from |
| Better.AllWritten | src/better.rs:76-78 | after the last message every slot has been written once and holds `f` of its item, so `set_len(n_tasks)` exposes only initialised slots |
| Better.UnwrittenByOthers | src/better.rs:72 | no earlier message covers a slot of the current message, since message ranges are disjoint |
| Examples.SimpleSeq | src/simple.rs:88-93 | `[1, 2, 3]` with `i + 1` gives `[2, 3, 4]` |
| Examples.SimplePar1 | src/simple.rs:96-101 | `[1, 2, 3, 4, 5]` with `i + 1` gives `[2, 3, 4, 5, 6]` for every worker count |
| Examples.SimplePar2 | src/simple.rs:104-116 | `1..=19` with `i * i` gives the nineteen squares for every worker count |
| Examples.BetterSeq | src/better.rs:104-109 | `[1, 2, 3]` with `i + 1` gives `[2, 3, 4]` |
| Examples.BetterPar1 | src/better.rs:112-117 | `[1, 2, 3, 4, 5]` with `i + 1` gives `[2, 3, 4, 5, 6]` for every worker count and order of arrival |
| Examples.BetterPar2 | src/better.rs:120-132 | `1..=19` with `i * i` gives the nineteen squares in both builds |
| Examples.SquaresMatch | src/better.rs:120-132 | helper: any element-wise map of `1..=19` by squaring is the expected vector |

## Left out

- Threads, `spawn`/`join`, the thread pool and the channel are not modelled
  as concurrent code. A worker's result is `MapSeq(f, chunk)` tagged with its
  offset. The order of arrival is an arbitrary permutation, chosen
  nondeterministically in `Better.Receive`, so every proved property holds
  for every order.
- Panics are not modelled: `expect` on a failed `join` or `send`, and a
  panicking `f`. `f` is a total Dafny function.
- The worker count is a parameter. `available_concurrency()` is
  `Simple.Split`'s `Option<NonZero>` argument, with `None` standing for the
  failed query that `unwrap_or(1)` replaces. `num_cpus::get()` is
  `Better.Split`'s `NonZero` argument.
- `usize` arithmetic is unbounded here. No overflow or underflow can occur:
  every index and count stays at most `n_tasks`, and `n_tasks -
  n_handled_tasks` never goes below zero (`Better.Dispatch`).
- Allocation is not modelled: `Vec::with_capacity`, and the moves made by
  `drain` and `split_off`. The rest of the vector is a sequence that the
  loops reassign.
- Better.SplitFun: requires the result type to have a default value
  (`R(0)`), because a Dafny array must be initialised. The
  `MaybeUninit`/`set_len` mechanics are replaced by ghost per-slot write
  counters, which prove every slot is written exactly once before it is
  exposed.
- Simple.SortByOffset: `sort_by` is the library's stable sort. Here it is
  a stable insertion sort, specified by sortedness, permutation and
  identity on sorted input. The library's algorithm and its cost are not
  modelled.
- The `TestTask` trait, its bounds (`Send`, `'static`, `Copy`) and the
  empty `main` (`src/main.rs:17`) are left out. `PARALLELISM_THRESHOLD` is
  the constant `Mapping.PARALLELISM_THRESHOLD`.
- `src/main.rs:3` declares only `mod simple;`, so `src/better.rs` is not
  compiled into the binary as written. It is modelled as written, with
  both of its build variants.
- The simple implementation spawns a thread for every one of its `n_jobs`
  chunks, including empty trailing chunks when `n_jobs > n`.
  `Simple.Dispatch` follows the code and proves these chunks harmless. The
  better implementation does not send them: it stops at the first empty
  chunk (`Better.NoItemsLeft`).
- Performance, including the cost of joining in spawn order and of sorting
  versus a `BTreeMap`, is outside the model.
