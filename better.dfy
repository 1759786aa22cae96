/** `BetterTestTaskSolution::split` (src/better.rs): chunks are split off the
    back of the input, each is mapped on a thread pool and sent back over a
    channel tagged with its offset; the messages, in whatever order they
    arrive, are either collected into an ordered map keyed by offset and
    appended in key order, or (with the "fun" feature) written straight into
    a preallocated buffer at their offsets. The pool and the channel are not
    modelled: a message is the map of its chunk, and the order of arrival is
    an arbitrary rearrangement of the order of sending. */
module Better {
  import opened Mapping
  import opened Balance
  import opened Chunks

  /** The default build: reassembly through the ordered map. For every
      number of jobs and every order of arrival, the result is the
      sequential map. */
  method Split<T, R>(data: seq<T>, f: T -> R, nJobs: NonZero) returns (res: seq<R>)
    ensures |res| == |data|
    ensures forall i :: 0 <= i < |data| ==> res[i] == f(data[i])
  {
    var nTasks := |data|;
    if nTasks <= PARALLELISM_THRESHOLD {
      return MapSeq(f, data);
    }
    var (nEach, nRem) := Shares(nTasks, nJobs);
    var sent := Dispatch(data, f, nJobs, nEach, nRem);
    var arrived, order := Receive(sent);
    var resMap := CollectByOffset(arrived);
    res := AppendInKeyOrder(resMap);
    KeyOrderReassembly(sent, order, data, f);
  }

  /** The build with the "fun" feature: reassembly by writing every output
      into a buffer of `nTasks` slots at its chunk's offset. */
  method SplitFun<T, R(0)>(data: seq<T>, f: T -> R, nJobs: NonZero) returns (res: seq<R>)
    ensures |res| == |data|
    ensures forall i :: 0 <= i < |data| ==> res[i] == f(data[i])
  {
    var nTasks := |data|;
    if nTasks <= PARALLELISM_THRESHOLD {
      return MapSeq(f, data);
    }
    var (nEach, nRem) := Shares(nTasks, nJobs);
    var sent := Dispatch(data, f, nJobs, nEach, nRem);
    var arrived, order := Receive(sent);
    ArrivalPartition(sent, order, data, f);
    var buf, writes := WriteAtOffsets(arrived, nTasks, data, f);
    res := buf[..];
  }

  /** The dispatch loop. Each round adds the chunk size to `nHandledTasks`
      and splits that many items off the back of what is left; the loop stops
      at the first empty chunk. Never more than the input is handed out, so
      the subtraction and the split point are always in range. Exactly the
      non-empty chunks are sent, `min(nJobs, n)` of them, each tagged with its
      true start index; offsets strictly decrease in sending order, and read
      backwards the chunks tile the whole input, so the early stop drops no
      item. */
  method Dispatch<T, R>(data: seq<T>, f: T -> R, nJobs: NonZero, nEach: nat, nRem: nat) returns (sent: seq<Part<R>>)
    requires nRem < nJobs && ChunkStart(nEach, nRem, nJobs) == |data|
    ensures Dispatched(data, f, nEach, nRem, nJobs, sent)
  {
    var nTasks := |data|;
    var nRem := nRem;
    ghost var rem := nRem;
    var nHandledTasks: nat := 0;
    var rest := data;
    sent := [];
    for j := 0 to nJobs
      invariant SplitOff(data, f, nEach, rem, j, nHandledTasks, sent)
      invariant nRem == RemainderAfter(rem, j)
      invariant rest == data[..nTasks - nHandledTasks]
    {
      ClosureStep(nEach, rem, j);
      ChunkWithin(nEach, rem, nJobs, j);
      var (extra, nRem') := AddOneIfRemaining(nRem);
      nRem := nRem';
      var nCurTasks := nEach + extra;
      ghost var done := nTasks - nHandledTasks;
      nHandledTasks := nHandledTasks + nCurTasks;
      // Splitting the current chunk off the back of what is left.
      var at := nTasks - nHandledTasks;
      SplitOffSlices(data, rest, at, done);
      var curData := rest[at..];
      rest := rest[..at];
      if |curData| == 0 {
        // Only chunks past the last item are empty, and by then every item
        // has been handed out.
        NoItemsLeft(nEach, rem, nJobs, j);
        break;
      }
      var part := Part(at, MapSeq(f, curData));
      SendStep(data, f, nEach, rem, j, done, sent, part);
      sent := sent + [part];
    }
    DispatchDone(data, f, nEach, rem, nJobs, sent);
  }

  /** What the dispatch loop sends: exactly the non-empty chunks, `min(k, n)`
      of them, chunk `i` of the partition's size and tagged with its true
      start, which is followed by the last `ChunkStart(i + 1)` items; offsets
      strictly decrease in sending order, and read backwards the chunks tile
      the whole input. */
  ghost predicate Dispatched<T, R>(data: seq<T>, f: T -> R, each: nat, rem: nat, k: nat, sent: seq<Part<R>>)
  {
    && |sent| == (if |data| < k then |data| else k)
    && (forall i :: 0 <= i < |sent| ==>
          && sent[i].offset + ChunkStart(each, rem, i + 1) == |data|
          && |sent[i].out| == ChunkSize(each, rem, i) > 0)
    && (forall i, j :: 0 <= i < j < |sent| ==> sent[j].offset < sent[i].offset)
    && Tiles(Reverse(sent), data, f, 0, |data|)
  }

  /** What the dispatch loop has done after `j` rounds: `handled` items,
      as the balanced partition says, split off the back into `j` non-empty
      chunks of the partition's sizes, which read backwards tile the last
      `handled` items. */
  ghost predicate SplitOff<T, R>(data: seq<T>, f: T -> R, each: nat, rem: nat, j: nat, handled: nat, sent: seq<Part<R>>)
  {
    && handled == ChunkStart(each, rem, j) <= |data|
    && j <= handled
    && |sent| == j
    && (forall i :: 0 <= i < j ==> |sent[i].out| == ChunkSize(each, rem, i) > 0)
    && Tiles(Reverse(sent), data, f, |data| - handled, |data|)
  }

  /** `split_off(at)` on what is left of the input, the first `done` items:
      the chunk split off and what stays, as slices of the input. */
  lemma SplitOffSlices<T>(data: seq<T>, rest: seq<T>, at: nat, done: nat)
    requires at <= done <= |data| && rest == data[..done]
    ensures rest[at..] == data[at..done] && rest[..at] == data[..at]
  {
  }

  /** Sending the non-empty chunk of round `j` keeps `SplitOff`. */
  lemma SendStep<T, R>(data: seq<T>, f: T -> R, each: nat, rem: nat, j: nat, done: nat, sent: seq<Part<R>>, part: Part<R>)
    requires done <= |data| && SplitOff(data, f, each, rem, j, |data| - done, sent)
    requires 0 < ChunkSize(each, rem, j) <= done
    requires part.offset == done - ChunkSize(each, rem, j)
    requires part.out == MapSeq(f, data[part.offset..done])
    ensures SplitOff(data, f, each, rem, j + 1, |data| - part.offset, sent + [part])
  {
    ChunkStartStep(each, rem, j);
    var sent' := sent + [part];
    assert forall i :: 0 <= i < j ==> sent'[i] == sent[i];
    ReverseSnoc(sent, part);
    TilesCons(part, Reverse(sent), data, f, done, |data|);
  }

  /** The first empty chunk comes in round `n`, when all `n` items have been
      handed out. */
  lemma NoItemsLeft(each: nat, rem: nat, k: nat, j: nat)
    requires rem < k && j < k && j <= ChunkStart(each, rem, j) && ChunkSize(each, rem, j) == 0
    ensures j == ChunkStart(each, rem, j) == ChunkStart(each, rem, k) < k
  {
    ChunkEmptyIff(each, rem, k, j);
    ChunkStartMonotone(each, rem, j, k);
  }

  /** When the loop ends, by running out of rounds or at the first empty
      chunk, every item has been handed out: `min(k, n)` chunks are sent,
      each tagged with its true start, in strictly decreasing order. */
  lemma DispatchDone<T, R>(data: seq<T>, f: T -> R, each: nat, rem: nat, k: nat, sent: seq<Part<R>>)
    requires SplitOff(data, f, each, rem, |sent|, |data|, sent) && ChunkStart(each, rem, k) == |data|
    requires |sent| == k || |sent| == |data| < k
    ensures Dispatched(data, f, each, rem, k, sent)
  {
    BackwardStarts(sent, data, f, each, rem, 0);
    DecreasingOffsets(sent, data, f);
  }

  /** Non-empty chunks that tile the input read backwards have strictly
      decreasing offsets in sending order. */
  lemma DecreasingOffsets<T, R>(sent: seq<Part<R>>, data: seq<T>, f: T -> R)
    requires Tiles(Reverse(sent), data, f, 0, |data|)
    requires forall i :: 0 <= i < |sent| ==> |sent[i].out| > 0
    ensures forall i, j :: 0 <= i < j < |sent| ==> sent[j].offset < sent[i].offset
  {
    NonEmptyTilesAscend(sent, data, f);
    var n := |sent|;
    forall i, j | 0 <= i < j < n
      ensures sent[j].offset < sent[i].offset
    {
      assert sent[i] == Reverse(sent)[n - 1 - i] && sent[j] == Reverse(sent)[n - 1 - j];
    }
  }

  /** Read backwards, a tiling of `data[lo..]` whose chunks have the
      partition's sizes in sending order puts chunk `i` right before the
      last `ChunkStart(i)` items. */
  lemma {:induction false} BackwardStarts<T, R>(sent: seq<Part<R>>, data: seq<T>, f: T -> R, each: nat, rem: nat, lo: nat)
    requires Tiles(Reverse(sent), data, f, lo, |data|)
    requires forall i :: 0 <= i < |sent| ==> |sent[i].out| == ChunkSize(each, rem, i)
    ensures lo + ChunkStart(each, rem, |sent|) == |data|
    ensures forall i :: 0 <= i < |sent| ==> sent[i].offset + ChunkStart(each, rem, i + 1) == |data|
    decreases |sent|
  {
    if sent != [] {
      var m := |sent| - 1;
      var init, last := sent[..m], sent[m];
      assert sent == init + [last];
      ReverseSnoc(init, last);
      TilesUncons(Reverse(sent), data, f, lo, |data|);
      assert Reverse(sent)[1..] == Reverse(init);
      BackwardStarts(init, data, f, each, rem, End(last));
      ChunkStartStep(each, rem, m);
    }
  }

  /** The channel: every message sent comes out exactly once, in an order
      nothing in the program controls. */
  method Receive<R>(sent: seq<Part<R>>) returns (arrived: seq<Part<R>>, ghost order: seq<nat>)
    ensures IsPermutation(order, |sent|) && arrived == Permute(sent, order)
  {
    assert IsPermutation(Identity(|sent|), |sent|);
    var o :| IsPermutation(o, |sent|);
    order := o;
    arrived := Permute(sent, o);
  }

  /** Draining the channel into an ordered map: the messages inserted into
      a map keyed by offset in order of arrival. */
  method CollectByOffset<R>(arrived: seq<Part<R>>) returns (resMap: map<nat, seq<R>>)
    ensures resMap == PartsMap(arrived)
  {
    resMap := map[];
    for i := 0 to |arrived|
      invariant resMap == PartsMap(arrived[..i])
    {
      assert arrived[..i + 1][..i] == arrived[..i];
      resMap := resMap[arrived[i].offset := arrived[i].out];
    }
    assert arrived[..|arrived|] == arrived;
  }

  /** Walking the ordered map to build the result: the map's values appended in ascending key order, visiting the smallest
      key not yet visited each round. */
  method AppendInKeyOrder<R>(resMap: map<nat, seq<R>>) returns (res: seq<R>)
    ensures res == InKeyOrder(resMap)
  {
    res := [];
    var pending := resMap;
    ghost var visited: map<nat, seq<R>> := map[];
    ghost var last: int := -1;
    while pending != map[]
      invariant forall y :: y in resMap <==> y in visited || y in pending
      invariant forall y :: y in visited ==> visited[y] == resMap[y]
      invariant forall y :: y in pending ==> pending[y] == resMap[y]
      invariant forall y :: y in visited ==> y <= last
      invariant forall y :: y in pending ==> last < y
      invariant res == InKeyOrder(visited)
      decreases |pending|
    {
      assert SetMin(pending.Keys) in pending;
      var k :| k in pending && forall y :: y in pending ==> k <= y;
      InKeyOrderAppendMax(visited, k, pending[k]);
      res := res + pending[k];
      visited := visited[k := pending[k]];
      last := k;
      var smaller := pending - {k};
      assert smaller.Keys == pending.Keys - {k};
      forall y | y in smaller
        ensures k < y && smaller[y] == resMap[y]
      {
        assert y in pending && y != k;
      }
      pending := smaller;
    }
    assert visited.Keys == resMap.Keys;
    assert visited == resMap;
  }

  /** The "fun" reassembly: every output of every message is written into
      the buffer at its chunk's offset plus its position in the chunk. Each
      slot of the buffer is written exactly once (`writes` counts the writes
      per slot), so after the last message the buffer is fully initialised
      and holds the sequential map. */
  method WriteAtOffsets<T, R(0)>(arrived: seq<Part<R>>, nTasks: nat, ghost data: seq<T>, ghost f: T -> R)
    returns (buf: array<R>, ghost writes: seq<nat>)
    requires nTasks == |data| && Partition(arrived, data, f)
    ensures fresh(buf) && buf[..] == MapSeq(f, data)
    ensures |writes| == nTasks && forall x :: 0 <= x < nTasks ==> writes[x] == 1
  {
    buf := new R[nTasks];
    writes := seq(nTasks, _ => 0);
    for a := 0 to |arrived|
      invariant buf.Length == nTasks
      invariant BufferState(buf[..], writes, arrived, a, 0, data, f)
    {
      var start, rData := arrived[a].offset, arrived[a].out;
      for j := 0 to |rData|
        invariant buf.Length == nTasks
        invariant BufferState(buf[..], writes, arrived, a, j, data, f)
      {
        WriteStep(buf[..], writes, arrived, a, j, data, f);
        buf[start + j] := rData[j];
        writes := writes[start + j := writes[start + j] + 1];
      }
      NextMessage(buf[..], writes, arrived, a, data, f);
    }
    AllWritten(buf[..], writes, arrived, data, f);
  }

  /** No message among the first `a` to arrive covers slot `x`. */
  ghost predicate Unwritten<R>(arrived: seq<Part<R>>, a: nat, x: nat)
  {
    forall b :: 0 <= b < a && b < |arrived| ==> !Holds(arrived[b], x)
  }

  /** Slot `x` has been written once the first `a` messages and the first `j`
      outputs of message `a` have been copied. */
  ghost predicate Written<R>(arrived: seq<Part<R>>, a: nat, j: nat, x: nat)
  {
    !Unwritten(arrived, a, x) || (a < |arrived| && arrived[a].offset <= x < arrived[a].offset + j)
  }

  /** The buffer and the write counts at that point: written slots were
      written once and hold the map of their item, the others were never
      written. */
  ghost predicate BufferState<T, R>(buf: seq<R>, writes: seq<nat>, arrived: seq<Part<R>>, a: nat, j: nat, data: seq<T>, f: T -> R)
  {
    && |buf| == |writes| == |data|
    && a <= |arrived|
    && (a < |arrived| ==> j <= |arrived[a].out|)
    && forall x :: 0 <= x < |data| ==>
         if Written(arrived, a, j, x) then writes[x] == 1 && buf[x] == f(data[x]) else writes[x] == 0
  }

  /** Copying output `j` of message `a`: its slot is in range and not yet
      written, and the copy keeps `BufferState`. */
  lemma WriteStep<T, R>(buf: seq<R>, writes: seq<nat>, arrived: seq<Part<R>>, a: nat, j: nat, data: seq<T>, f: T -> R)
    requires Partition(arrived, data, f) && BufferState(buf, writes, arrived, a, j, data, f)
    requires a < |arrived| && j < |arrived[a].out|
    ensures arrived[a].offset + j < |data| && writes[arrived[a].offset + j] == 0
    ensures BufferState(buf[arrived[a].offset + j := arrived[a].out[j]],
                        writes[arrived[a].offset + j := writes[arrived[a].offset + j] + 1], arrived, a, j + 1, data, f)
  {
    var p := arrived[a];
    var x := p.offset + j;
    assert Fits(p, data, f);
    assert Holds(p, x);
    UnwrittenByOthers(arrived, a, x, data, f);
    assert !Written(arrived, a, j, x);
    forall y | 0 <= y < |data|
      ensures Written(arrived, a, j + 1, y) <==> Written(arrived, a, j, y) || y == x
    {
    }
  }

  /** Once every output of message `a` is copied, the state is the one the
      next message starts from. */
  lemma NextMessage<T, R>(buf: seq<R>, writes: seq<nat>, arrived: seq<Part<R>>, a: nat, data: seq<T>, f: T -> R)
    requires a < |arrived| && BufferState(buf, writes, arrived, a, |arrived[a].out|, data, f)
    ensures BufferState(buf, writes, arrived, a + 1, 0, data, f)
  {
    forall x | 0 <= x < |data|
      ensures Written(arrived, a + 1, 0, x) <==> Written(arrived, a, |arrived[a].out|, x)
    {
      assert Holds(arrived[a], x) <==> arrived[a].offset <= x < arrived[a].offset + |arrived[a].out|;
      if !Unwritten(arrived, a, x) {
        var b :| 0 <= b < a && b < |arrived| && Holds(arrived[b], x);
        assert !Unwritten(arrived, a + 1, x);
      }
    }
  }

  /** After the last message every slot is written once, since the messages
      cover the whole input. */
  lemma AllWritten<T, R>(buf: seq<R>, writes: seq<nat>, arrived: seq<Part<R>>, data: seq<T>, f: T -> R)
    requires Partition(arrived, data, f) && BufferState(buf, writes, arrived, |arrived|, 0, data, f)
    ensures buf == MapSeq(f, data)
    ensures forall x :: 0 <= x < |data| ==> writes[x] == 1
  {
    forall x | 0 <= x < |data|
      ensures buf[x] == f(data[x]) && writes[x] == 1
    {
      assert Covered(arrived, x);
      var b :| 0 <= b < |arrived| && Holds(arrived[b], x);
      assert !Unwritten(arrived, |arrived|, x);
    }
  }

  /** A slot in the range of message `a` is in the range of no message
      before it, since the ranges are disjoint. */
  lemma UnwrittenByOthers<T, R>(arrived: seq<Part<R>>, a: nat, x: nat, data: seq<T>, f: T -> R)
    requires Partition(arrived, data, f) && a < |arrived| && Holds(arrived[a], x)
    ensures Unwritten(arrived, a, x)
  {
    forall b | 0 <= b < a
      ensures !Holds(arrived[b], x)
    {
      assert End(arrived[b]) <= arrived[a].offset || End(arrived[a]) <= arrived[b].offset;
    }
  }

  /** Whatever the order of arrival, the messages partition the input. */
  lemma ArrivalPartition<T, R>(sent: seq<Part<R>>, order: seq<nat>, data: seq<T>, f: T -> R)
    requires Tiles(Reverse(sent), data, f, 0, |data|)
    requires IsPermutation(order, |sent|)
    ensures Partition(Permute(sent, order), data, f)
  {
    TilesPartition(Reverse(sent), data, f);
    PartitionPermute(Reverse(sent), Backwards(|sent|), data, f);
    ReverseReverse(sent);
    PartitionPermute(sent, order, data, f);
  }

  /** Whatever the order of arrival, collecting the non-empty chunks into the
      map by offset and walking it in key order gives the sequential map. */
  lemma KeyOrderReassembly<T, R>(sent: seq<Part<R>>, order: seq<nat>, data: seq<T>, f: T -> R)
    requires Tiles(Reverse(sent), data, f, 0, |data|)
    requires forall i :: 0 <= i < |sent| ==> |sent[i].out| > 0
    requires IsPermutation(order, |sent|)
    ensures InKeyOrder(PartsMap(Permute(sent, order))) == MapSeq(f, data)
  {
    var asc := Reverse(sent);
    NonEmptyTilesAscend(sent, data, f);
    calc {
      InKeyOrder(PartsMap(Permute(sent, order)));
    == { PartsMapPermute(sent, order); }
      InKeyOrder(PartsMap(sent));
    == { PartsMapPermute(sent, Backwards(|sent|)); }
      InKeyOrder(PartsMap(asc));
    == { KeyOrderConcat(asc); }
      Concat(asc);
    == { TilesConcat(asc, data, f, 0, |data|); }
      MapSeq(f, data[0..|data|]);
    == { assert data[0..|data|] == data; }
      MapSeq(f, data);
    }
  }

  /** Non-empty chunks that tile the input read backwards have strictly
      ascending offsets read backwards, so no two share an offset. */
  lemma NonEmptyTilesAscend<T, R>(sent: seq<Part<R>>, data: seq<T>, f: T -> R)
    requires Tiles(Reverse(sent), data, f, 0, |data|)
    requires forall i :: 0 <= i < |sent| ==> |sent[i].out| > 0
    ensures forall i, j :: 0 <= i < j < |sent| ==> Reverse(sent)[i].offset < Reverse(sent)[j].offset
    ensures DistinctOffsets(sent)
  {
    var n := |sent|;
    var asc := Reverse(sent);
    TilesOrdered(asc, data, f, 0, |data|);
    forall i, j | 0 <= i < j < n
      ensures asc[i].offset < asc[j].offset
    {
      assert |asc[i].out| > 0;
    }
    forall i, j | 0 <= i < j < n
      ensures sent[i].offset != sent[j].offset
    {
      assert sent[i] == asc[n - 1 - i] && sent[j] == asc[n - 1 - j];
    }
  }
}
