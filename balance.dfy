/** The balanced partition both implementations use: with `n` items and `k`
    jobs, every chunk gets `n / k` items and the first `n % k` chunks (in the
    order they are cut) get one more, handed out by the `add_one_if_remaining`
    closure that counts the remainder down. */
module Balance {
  import opened Mapping

  /** One call of the `add_one_if_remaining` closure: returns the extra item
      for the current chunk and the remainder left for the next calls. */
  function AddOneIfRemaining(nRem: nat): (r: (nat, nat))
    ensures r.0 <= 1 && r.0 + r.1 == nRem
    ensures r.0 == 1 <==> nRem > 0
  {
    if nRem > 0 then (1, nRem - 1) else (0, 0)
  }

  /** The closure's counter after `calls` calls, starting from `rem`. */
  function RemainderAfter(rem: nat, calls: nat): (r: nat)
  {
    if calls < rem then rem - calls else 0
  }

  /** Number of items in the `i`-th chunk cut, when every chunk gets `each`
      items and the first `rem` chunks one more. */
  function ChunkSize(each: nat, rem: nat, i: nat): (r: nat)
  {
    each + (if i < rem then 1 else 0)
  }

  /** Number of items in the first `i` chunks cut together: `i` times the
      base size, plus one for each of them that took an item of the
      remainder. */
  function ChunkStart(each: nat, rem: nat, i: nat): (r: nat)
  {
    i * each + (if i < rem then i else rem)
  }

  /** The `j`-th call of the closure yields exactly the extra item of chunk
      `j`, and leaves the counter where the next call expects it; the counter
      reaches 0 after `rem` calls and stays there. */
  lemma ClosureStep(each: nat, rem: nat, j: nat)
    ensures each + AddOneIfRemaining(RemainderAfter(rem, j)).0 == ChunkSize(each, rem, j)
    ensures AddOneIfRemaining(RemainderAfter(rem, j)).1 == RemainderAfter(rem, j + 1)
    ensures j >= rem ==> RemainderAfter(rem, j) == 0
  {
  }

  /** Cutting chunk `i` advances the running total by its size. */
  lemma ChunkStartStep(each: nat, rem: nat, i: nat)
    ensures ChunkStart(each, rem, i + 1) == ChunkStart(each, rem, i) + ChunkSize(each, rem, i)
  {
    assert (i + 1) * each == i * each + each;
  }

  /** The running total never decreases. */
  lemma {:induction false} ChunkStartMonotone(each: nat, rem: nat, i: nat, j: nat)
    requires i <= j
    ensures ChunkStart(each, rem, i) <= ChunkStart(each, rem, j)
    decreases j - i
  {
    if i < j {
      ChunkStartMonotone(each, rem, i, j - 1);
      ChunkStartStep(each, rem, j - 1);
    }
  }

  /** `n_each` and `n_rem`: the base size and the remainder of splitting `n`
      items over `k` chunks. Together the `k` chunks hold exactly `n` items,
      and the remainder is spread over fewer than `k` of them. */
  function Shares(n: nat, k: NonZero): (r: (nat, nat))
    ensures r.1 < k && ChunkStart(r.0, r.1, k) == n
  {
    assert k * (n / k) + n % k == n;
    (n / k, n % k)
  }

  /** The chunk of round `j < k` ends within the `k` chunks' total. */
  lemma ChunkWithin(each: nat, rem: nat, k: nat, j: nat)
    requires j < k
    ensures ChunkStart(each, rem, j + 1) == ChunkStart(each, rem, j) + ChunkSize(each, rem, j)
    ensures ChunkStart(each, rem, j + 1) <= ChunkStart(each, rem, k)
  {
    ChunkStartStep(each, rem, j);
    ChunkStartMonotone(each, rem, j + 1, k);
  }

  /** Chunk sizes never grow in cutting order and differ by at most one. */
  lemma ChunkSizesBalanced(each: nat, rem: nat, i: nat, j: nat)
    requires i <= j
    ensures ChunkSize(each, rem, j) <= ChunkSize(each, rem, i) <= ChunkSize(each, rem, j) + 1
  {
  }

  /** Among `k` chunks holding `n` items in all, exactly those at position
      `n` or later are empty: they exist only when there are more chunks than
      items. */
  lemma ChunkEmptyIff(each: nat, rem: nat, k: nat, i: nat)
    requires rem < k && i < k
    ensures ChunkSize(each, rem, i) == 0 <==> ChunkStart(each, rem, k) <= i
  {
    if each > 0 {
      assert k * each >= k;
    }
  }
}
