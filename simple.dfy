/** `SimpleTestTaskSolution::split` (src/simple.rs): chunks are drained from
    the front of the input, each is mapped by its own thread, the threads are
    joined in the order they were spawned, and the tagged results are sorted
    by offset and appended. Threads are not modelled: a job's value is the
    map of its chunk, tagged with the chunk's offset. */
module Simple {
  import opened Mapping
  import opened Balance
  import opened Chunks

  /** The whole operation. `available` is what the hardware query returned
      (`None` when it failed, in which case one job is used). Whatever the
      number of jobs, the result is the sequential map. */
  method Split<T, R>(data: seq<T>, f: T -> R, available: Option<NonZero>) returns (res: seq<R>)
    ensures |res| == |data|
    ensures forall i :: 0 <= i < |data| ==> res[i] == f(data[i])
  {
    var nTasks := |data|;
    if nTasks <= PARALLELISM_THRESHOLD {
      return MapSeq(f, data);
    }
    var nJobs: NonZero := if available.Some? then available.value else 1;
    var (nEach, nRem) := Shares(nTasks, nJobs);
    var jobs := Dispatch(data, f, nJobs, nEach, nRem);
    // Joining the handles in spawn order yields the jobs' values in that order.
    var results := jobs;
    var sorted, perm := SortByOffset(results);
    res := AppendAll(sorted);
    TilesConcat(jobs, data, f, 0, nTasks);
    assert data[0..nTasks] == data;
  }

  /** The spawning loop: `nJobs` chunks are drained from the front of the
      input, chunk `i` holding `ChunkSize` items and tagged with the number of
      items drained before it. Every chunk is spawned, empty ones included;
      the chunks tile the input in spawn order. `nEach` and `nRem` are the
      quotient and remainder of the input length by `nJobs`, characterised
      by the chunks holding the whole input. */
  method Dispatch<T, R>(data: seq<T>, f: T -> R, nJobs: NonZero, nEach: nat, nRem: nat) returns (jobs: seq<Part<R>>)
    requires nRem < nJobs && ChunkStart(nEach, nRem, nJobs) == |data|
    ensures |jobs| == nJobs
    ensures forall i :: 0 <= i < nJobs ==>
      jobs[i].offset == ChunkStart(nEach, nRem, i) && |jobs[i].out| == ChunkSize(nEach, nRem, i)
    ensures Tiles(jobs, data, f, 0, |data|)
    ensures SortedByOffset(jobs)
  {
    var nTasks := |data|;
    var nRem := nRem;
    ghost var rem := nRem;
    var latestTaskI := 0;
    var rest := data;
    jobs := [];
    for j := 0 to nJobs
      invariant Drained(data, f, nEach, rem, j, latestTaskI, jobs)
      invariant nRem == RemainderAfter(rem, j)
      invariant rest == data[latestTaskI..]
    {
      ClosureStep(nEach, rem, j);
      ChunkWithin(nEach, rem, nJobs, j);
      var (extra, nRem') := AddOneIfRemaining(nRem);
      nRem := nRem';
      var nTasksForCurrentJob := nEach + extra;
      // Draining the current chunk off the front: in bounds, since the running total
      // never passes the input length.
      DrainSlices(data, rest, latestTaskI, nTasksForCurrentJob);
      var curTasks := rest[..nTasksForCurrentJob];
      rest := rest[nTasksForCurrentJob..];
      var job := Part(latestTaskI, MapSeq(f, curTasks));
      DrainStep(data, f, nEach, rem, j, latestTaskI, jobs, job);
      jobs := jobs + [job];
      latestTaskI := latestTaskI + nTasksForCurrentJob;
    }
    TilesOrdered(jobs, data, f, 0, nTasks);
    TiledStarts(jobs, data, f, nEach, rem, nTasks);
  }

  /** What the spawning loop has done after `j` rounds: `latest` items
      drained, as the balanced partition says, into `j` jobs of the
      partition's sizes that tile the input up to `latest`. */
  ghost predicate Drained<T, R>(data: seq<T>, f: T -> R, each: nat, rem: nat, j: nat, latest: nat, jobs: seq<Part<R>>)
  {
    && latest == ChunkStart(each, rem, j) <= |data|
    && |jobs| == j
    && (forall i :: 0 <= i < j ==> |jobs[i].out| == ChunkSize(each, rem, i))
    && Tiles(jobs, data, f, 0, latest)
  }

  /** Draining `n` items from the front of what is left after `a` items:
      the chunk and the new rest, as slices of the input. */
  lemma DrainSlices<T>(data: seq<T>, rest: seq<T>, a: nat, n: nat)
    requires a + n <= |data| && rest == data[a..]
    ensures n <= |rest| && rest[..n] == data[a..a + n] && rest[n..] == data[a + n..]
  {
  }

  /** Spawning the job for round `j`'s chunk keeps `Drained`. */
  lemma DrainStep<T, R>(data: seq<T>, f: T -> R, each: nat, rem: nat, j: nat, latest: nat, jobs: seq<Part<R>>, job: Part<R>)
    requires Drained(data, f, each, rem, j, latest, jobs)
    requires latest + ChunkSize(each, rem, j) <= |data|
    requires job.offset == latest
    requires job.out == MapSeq(f, data[latest..latest + ChunkSize(each, rem, j)])
    ensures Drained(data, f, each, rem, j + 1, latest + ChunkSize(each, rem, j), jobs + [job])
  {
    ChunkStartStep(each, rem, j);
    TilesSnoc(jobs, job, data, f, 0, latest);
    var jobs' := jobs + [job];
    assert forall i :: 0 <= i < j ==> jobs'[i] == jobs[i];
  }

  /** In a tiling of a prefix of the input whose chunk sizes follow the
      balanced partition, every chunk starts at the running total of the
      sizes before it. */
  lemma {:induction false} TiledStarts<T, R>(jobs: seq<Part<R>>, data: seq<T>, f: T -> R, each: nat, rem: nat, hi: nat)
    requires Tiles(jobs, data, f, 0, hi)
    requires forall i :: 0 <= i < |jobs| ==> |jobs[i].out| == ChunkSize(each, rem, i)
    ensures hi == ChunkStart(each, rem, |jobs|)
    ensures forall i :: 0 <= i < |jobs| ==> jobs[i].offset == ChunkStart(each, rem, i)
    decreases |jobs|
  {
    if jobs != [] {
      var m := |jobs| - 1;
      var init := jobs[..m];
      TilesUnsnoc(jobs, data, f, 0, hi);
      TiledStarts(init, data, f, each, rem, jobs[m].offset);
      ChunkStartStep(each, rem, m);
    }
  }

  /** Sorting the joined results by offset: a stable sort, written here as an
      insertion sort. The output is sorted by offset and is a rearrangement
      of the input; an input that is already sorted comes back unchanged. */
  method SortByOffset<R>(results: seq<Part<R>>) returns (sorted: seq<Part<R>>, ghost perm: seq<nat>)
    ensures SortedByOffset(sorted)
    ensures IsPermutation(perm, |results|) && sorted == Permute(results, perm)
    ensures SortedByOffset(results) ==> sorted == results
  {
    sorted, perm := [], [];
    for i := 0 to |results|
      invariant SortedPrefix(results, i, sorted, perm)
    {
      var pos := InsertionPoint(sorted, results[i].offset);
      InsertStep(results, i, sorted, perm, pos);
      sorted, perm := sorted[..pos] + [results[i]] + sorted[pos..], perm[..pos] + [i] + perm[pos..];
    }
    assert results[..|results|] == results;
  }

  /** What the insertion sort knows after `i` rounds: `sorted` is the first
      `i` results, rearranged by `perm` into offset order, and unchanged when
      the input was already in order. */
  ghost predicate SortedPrefix<R>(results: seq<Part<R>>, i: nat, sorted: seq<Part<R>>, perm: seq<nat>)
  {
    && i <= |results|
    && |sorted| == i
    && SortedByOffset(sorted)
    && IsPermutation(perm, i) && sorted == Permute(results[..i], perm)
    && (SortedByOffset(results) ==> sorted == results[..i])
  }

  /** One round of the insertion sort keeps `SortedPrefix`. */
  lemma InsertStep<R>(results: seq<Part<R>>, i: nat, sorted: seq<Part<R>>, perm: seq<nat>, pos: nat)
    requires i < |results| && SortedPrefix(results, i, sorted, perm)
    requires pos <= |sorted|
    requires pos > 0 ==> sorted[pos - 1].offset <= results[i].offset
    requires forall t :: pos <= t < |sorted| ==> sorted[t].offset > results[i].offset
    ensures SortedPrefix(results, i + 1, sorted[..pos] + [results[i]] + sorted[pos..], perm[..pos] + [i] + perm[pos..])
  {
    var x := results[i];
    InsertSorted(sorted, pos, x);
    InsertPermutation(results, i, sorted, perm, pos);
    if SortedByOffset(results) {
      if i > 0 {
        assert sorted[i - 1] == results[i - 1];
      }
      assert pos == i;
      assert sorted[..pos] + [x] + sorted[pos..] == results[..i + 1];
    }
  }

  /** Where a stable insertion puts an item with offset `key`: after every
      item whose offset is at most `key`, scanning back from the end. */
  method InsertionPoint<R>(sorted: seq<Part<R>>, key: nat) returns (pos: nat)
    ensures pos <= |sorted|
    ensures pos > 0 ==> sorted[pos - 1].offset <= key
    ensures forall t :: pos <= t < |sorted| ==> sorted[t].offset > key
  {
    pos := |sorted|;
    while pos > 0 && sorted[pos - 1].offset > key
      invariant 0 <= pos <= |sorted|
      invariant forall t :: pos <= t < |sorted| ==> sorted[t].offset > key
    {
      pos := pos - 1;
    }
  }

  /** Inserting `x` after every smaller-or-equal offset and before every
      larger one keeps a sorted list sorted. */
  lemma InsertSorted<R>(sorted: seq<Part<R>>, pos: nat, x: Part<R>)
    requires SortedByOffset(sorted) && pos <= |sorted|
    requires pos > 0 ==> sorted[pos - 1].offset <= x.offset
    requires forall t :: pos <= t < |sorted| ==> sorted[t].offset > x.offset
    ensures SortedByOffset(sorted[..pos] + [x] + sorted[pos..])
  {
    var s := sorted[..pos] + [x] + sorted[pos..];
    forall a, b | 0 <= a < b < |s|
      ensures s[a].offset <= s[b].offset
    {
      if a < pos && b == pos {
        assert sorted[a].offset <= sorted[pos - 1].offset;
      } else if a < pos && b > pos {
        assert s[b] == sorted[b - 1];
      } else if a > pos {
        assert s[a] == sorted[a - 1] && s[b] == sorted[b - 1];
      }
    }
  }

  /** The permutation witness follows an insertion of item `i` at `pos`. */
  lemma InsertPermutation<R>(results: seq<Part<R>>, i: nat, sorted: seq<Part<R>>, perm: seq<nat>, pos: nat)
    requires i < |results| && pos <= i == |sorted|
    requires IsPermutation(perm, i) && sorted == Permute(results[..i], perm)
    ensures IsPermutation(perm[..pos] + [i] + perm[pos..], i + 1)
    ensures sorted[..pos] + [results[i]] + sorted[pos..]
         == Permute(results[..i + 1], perm[..pos] + [i] + perm[pos..])
  {
    InsertIsPermutation(perm, i, pos);
    var p := perm[..pos] + [i] + perm[pos..];
    var s := sorted[..pos] + [results[i]] + sorted[pos..];
    var q := Permute(results[..i + 1], p);
    forall k | 0 <= k < i + 1
      ensures s[k] == q[k]
    {
      if k < pos {
        assert s[k] == sorted[k] == results[..i][perm[k]];
      } else if k > pos {
        assert s[k] == sorted[k - 1] == results[..i][perm[k - 1]];
      }
    }
  }

  /** Inserting the new index `i` anywhere into a permutation of the first
      `i` indices gives a permutation of the first `i + 1`. */
  lemma InsertIsPermutation(perm: seq<nat>, i: nat, pos: nat)
    requires IsPermutation(perm, i) && pos <= i
    ensures IsPermutation(perm[..pos] + [i] + perm[pos..], i + 1)
  {
    var p := perm[..pos] + [i] + perm[pos..];
    assert forall k :: 0 <= k < pos ==> p[k] == perm[k];
    assert forall k :: pos < k <= i ==> p[k] == perm[k - 1];
    forall a, b | 0 <= a < b < i + 1
      ensures p[a] != p[b]
    {
      if a < pos && b > pos {
        assert p[b] == perm[b - 1];
      } else if a > pos {
        assert p[a] == perm[a - 1] && p[b] == perm[b - 1];
      }
    }
    forall v | 0 <= v < i + 1
      ensures v in p
    {
      if v < i {
        assert v in perm;
        var k :| 0 <= k < i && perm[k] == v;
        if k < pos {
          assert p[k] == v;
        } else {
          assert p[k + 1] == v;
        }
      } else {
        assert p[pos] == v;
      }
    }
  }

  /** The final loop: the outputs of the sorted results appended one after
      another onto an empty result vector. */
  method AppendAll<R>(results: seq<Part<R>>) returns (res: seq<R>)
    ensures res == Concat(results)
  {
    res := [];
    for i := 0 to |results|
      invariant res == Concat(results[..i])
    {
      assert results[..i + 1][..i] == results[..i];
      res := res + results[i].out;
    }
    assert results[..|results|] == results;
  }
}
