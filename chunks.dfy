/** Partial results tagged with the offset of their chunk, and the ways the
    two implementations put them back together: concatenation in list order
    after sorting (simple.rs), concatenation in key order of a map keyed by
    offset (better.rs), and writes into a buffer at the tagged offsets
    (better.rs, "fun" feature). */
module Chunks {
  import opened Mapping

  /** What one worker hands back: the start offset of its chunk in the
      original input and `f` mapped over the chunk. */
  datatype Part<R> = Part(offset: nat, out: seq<R>)

  /** One past the last input index the part covers. */
  function End<R>(p: Part<R>): nat
  {
    p.offset + |p.out|
  }

  /** `p` is the result of mapping `f` over `data[p.offset..End(p)]`. */
  ghost predicate Fits<T, R>(p: Part<R>, data: seq<T>, f: T -> R)
  {
    End(p) <= |data| && p.out == MapSeq(f, data[p.offset..End(p)])
  }

  /** `parts`, in list order, cover `data[lo..hi]` left to right with no gap
      and no overlap, each holding the map of the items it covers. */
  ghost predicate Tiles<T, R>(parts: seq<Part<R>>, data: seq<T>, f: T -> R, lo: nat, hi: nat)
  {
    && lo <= hi <= |data|
    && (|parts| == 0 ==> lo == hi)
    && (|parts| > 0 ==> parts[0].offset == lo && End(parts[|parts| - 1]) == hi)
    && (forall i, j :: 0 <= i < j < |parts| && j == i + 1 ==> End(parts[i]) == parts[j].offset)
    && (forall i :: 0 <= i < |parts| ==> Fits(parts[i], data, f))
  }

  /** Input index `x` lies in the range of `p`. */
  predicate Holds<R>(p: Part<R>, x: nat)
  {
    p.offset <= x < End(p)
  }

  /** Input index `x` lies in the range of some part. */
  ghost predicate Covered<R>(parts: seq<Part<R>>, x: nat)
  {
    exists i :: 0 <= i < |parts| && Holds(parts[i], x)
  }

  /** Order-free version: the ranges of `parts` are pairwise disjoint, every
      index of `data` lies in one of them, and each holds its map. */
  ghost predicate Partition<T, R>(parts: seq<Part<R>>, data: seq<T>, f: T -> R)
  {
    && (forall i :: 0 <= i < |parts| ==> Fits(parts[i], data, f))
    && (forall i, j :: 0 <= i < |parts| && 0 <= j < |parts| && i != j ==>
          End(parts[i]) <= parts[j].offset || End(parts[j]) <= parts[i].offset)
    && (forall x :: 0 <= x < |data| ==> Covered(parts, x))
  }

  ghost predicate SortedByOffset<R>(parts: seq<Part<R>>)
  {
    forall i, j :: 0 <= i < j < |parts| ==> parts[i].offset <= parts[j].offset
  }

  ghost predicate DistinctOffsets<R>(parts: seq<Part<R>>)
  {
    forall i, j :: 0 <= i < j < |parts| ==> parts[i].offset != parts[j].offset
  }

  /** The outputs of `parts` appended one after another in list order. */
  function Concat<R>(parts: seq<Part<R>>): seq<R>
  {
    if parts == [] then [] else Concat(parts[..|parts| - 1]) + parts[|parts| - 1].out
  }

  /** A part that starts where a tiling ends extends it on the right. */
  lemma TilesSnoc<T, R>(parts: seq<Part<R>>, p: Part<R>, data: seq<T>, f: T -> R, lo: nat, hi: nat)
    requires Tiles(parts, data, f, lo, hi)
    requires p.offset == hi && Fits(p, data, f)
    ensures Tiles(parts + [p], data, f, lo, End(p))
  {
    var ps := parts + [p];
    assert forall i :: 0 <= i < |parts| ==> ps[i] == parts[i];
  }

  /** A part that ends where a tiling starts extends it on the left. */
  lemma TilesCons<T, R>(p: Part<R>, parts: seq<Part<R>>, data: seq<T>, f: T -> R, lo: nat, hi: nat)
    requires Tiles(parts, data, f, lo, hi)
    requires End(p) == lo && Fits(p, data, f)
    ensures Tiles([p] + parts, data, f, p.offset, hi)
  {
    var ps := [p] + parts;
    assert forall i :: 0 < i < |ps| ==> ps[i] == parts[i - 1];
  }

  /** Dropping the first part of a tiling leaves a tiling of the rest. */
  lemma TilesUncons<T, R>(parts: seq<Part<R>>, data: seq<T>, f: T -> R, lo: nat, hi: nat)
    requires Tiles(parts, data, f, lo, hi) && parts != []
    ensures parts[0].offset == lo && Fits(parts[0], data, f)
    ensures Tiles(parts[1..], data, f, End(parts[0]), hi)
  {
    var rest := parts[1..];
    assert forall i :: 0 <= i < |rest| ==> rest[i] == parts[i + 1];
    if |rest| > 0 {
      assert End(parts[0]) == rest[0].offset;
      TilesOrdered(parts, data, f, lo, hi);
      assert End(rest[|rest| - 1]) == hi;
    }
  }

  /** Dropping the last part of a tiling leaves a tiling up to its offset. */
  lemma TilesUnsnoc<T, R>(parts: seq<Part<R>>, data: seq<T>, f: T -> R, lo: nat, hi: nat)
    requires Tiles(parts, data, f, lo, hi) && parts != []
    ensures Fits(parts[|parts| - 1], data, f) && End(parts[|parts| - 1]) == hi
    ensures Tiles(parts[..|parts| - 1], data, f, lo, parts[|parts| - 1].offset)
  {
    TilesOrdered(parts, data, f, lo, hi);
  }

  /** In a tiling, every part ends at or before the start of every later part. */
  lemma {:induction false} TilesOrdered<T, R>(parts: seq<Part<R>>, data: seq<T>, f: T -> R, lo: nat, hi: nat)
    requires Tiles(parts, data, f, lo, hi)
    ensures forall i, j :: 0 <= i < j < |parts| ==> End(parts[i]) <= parts[j].offset
  {
    forall i, j | 0 <= i < j < |parts|
      ensures End(parts[i]) <= parts[j].offset
    {
      TilesOrderedPair(parts, data, f, lo, hi, i, j);
    }
  }

  lemma {:induction false} TilesOrderedPair<T, R>(parts: seq<Part<R>>, data: seq<T>, f: T -> R, lo: nat, hi: nat, i: nat, j: nat)
    requires Tiles(parts, data, f, lo, hi)
    requires i < j < |parts|
    ensures End(parts[i]) <= parts[j].offset
    decreases j - i
  {
    if i + 1 < j {
      TilesOrderedPair(parts, data, f, lo, hi, i + 1, j);
    }
  }

  /** Appending the parts of a tiling of `data[lo..hi]` in list order gives
      exactly the map of `data[lo..hi]`. */
  lemma {:induction false} TilesConcat<T, R>(parts: seq<Part<R>>, data: seq<T>, f: T -> R, lo: nat, hi: nat)
    requires Tiles(parts, data, f, lo, hi)
    ensures Concat(parts) == MapSeq(f, data[lo..hi])
    decreases |parts|
  {
    if parts != [] {
      var init, last := parts[..|parts| - 1], parts[|parts| - 1];
      TilesUnsnoc(parts, data, f, lo, hi);
      TilesConcat(init, data, f, lo, last.offset);
      MapSeqSlices(f, data, lo, last.offset, hi);
    }
  }

  /** Every index in `lo..hi` lies in some part of a tiling of `data[lo..hi]`. */
  lemma {:induction false} TilesCover<T, R>(parts: seq<Part<R>>, data: seq<T>, f: T -> R, lo: nat, hi: nat, x: nat)
    requires Tiles(parts, data, f, lo, hi)
    requires lo <= x < hi
    ensures Covered(parts, x)
    decreases |parts|
  {
    var last := parts[|parts| - 1];
    if x < last.offset {
      var init := parts[..|parts| - 1];
      TilesUnsnoc(parts, data, f, lo, hi);
      TilesCover(init, data, f, lo, last.offset, x);
      var i :| 0 <= i < |init| && Holds(init[i], x);
      assert parts[i] == init[i];
    } else {
      assert Holds(parts[|parts| - 1], x);
    }
  }

  /** A tiling of the whole input is a partition of it. */
  lemma TilesPartition<T, R>(parts: seq<Part<R>>, data: seq<T>, f: T -> R)
    requires Tiles(parts, data, f, 0, |data|)
    ensures Partition(parts, data, f)
  {
    TilesOrdered(parts, data, f, 0, |data|);
    forall x | 0 <= x < |data|
      ensures Covered(parts, x)
    {
      TilesCover(parts, data, f, 0, |data|, x);
    }
  }

  // ---------------------------------------------------------------------
  // Reordering: the order in which partial results arrive.

  /** `p` lists every index below `n` exactly once. (Hitting every index
      follows from the other clauses; it is stated to keep proofs short.) */
  predicate IsPermutation(p: seq<nat>, n: nat)
  {
    && |p| == n
    && (forall i :: 0 <= i < n ==> p[i] < n)
    && (forall i, j :: 0 <= i < j < n ==> p[i] != p[j])
    && (forall v :: 0 <= v < n ==> v in p)
  }

  /** `xs` rearranged so that its `i`-th element is `xs[p[i]]`. */
  function Permute<X>(xs: seq<X>, p: seq<nat>): seq<X>
    requires IsPermutation(p, |xs|)
  {
    seq(|xs|, i requires 0 <= i < |xs| => xs[p[i]])
  }

  function Identity(n: nat): (p: seq<nat>)
    ensures IsPermutation(p, n)
  {
    var p := seq(n, i requires 0 <= i < n => i as nat);
    forall v | 0 <= v < n
      ensures v in p
    {
      assert p[v] == v;
    }
    p
  }

  function Backwards(n: nat): (p: seq<nat>)
    ensures IsPermutation(p, n)
    ensures forall i :: 0 <= i < n ==> p[i] == n - 1 - i
  {
    var p := seq(n, i requires 0 <= i < n => (n - 1 - i) as nat);
    forall v | 0 <= v < n
      ensures v in p
    {
      assert p[n - 1 - v] == v;
    }
    p
  }

  /** `xs` last to first. */
  function Reverse<X>(xs: seq<X>): (r: seq<X>)
    ensures |r| == |xs| && forall i :: 0 <= i < |xs| ==> r[i] == xs[|xs| - 1 - i]
  {
    Permute(xs, Backwards(|xs|))
  }

  lemma ReverseReverse<X>(xs: seq<X>)
    ensures Reverse(Reverse(xs)) == xs
  {
    assert forall i :: 0 <= i < |xs| ==> Reverse(Reverse(xs))[i] == xs[i];
  }

  /** Adding a part at the back adds it at the front of the reversal. */
  lemma ReverseSnoc<X>(xs: seq<X>, x: X)
    ensures Reverse(xs + [x]) == [x] + Reverse(xs)
  {
    assert forall i :: 0 <= i < |xs| + 1 ==> Reverse(xs + [x])[i] == ([x] + Reverse(xs))[i];
  }

  /** Which part is where does not matter to a partition. */
  lemma PartitionPermute<T, R>(parts: seq<Part<R>>, p: seq<nat>, data: seq<T>, f: T -> R)
    requires Partition(parts, data, f) && IsPermutation(p, |parts|)
    ensures Partition(Permute(parts, p), data, f)
  {
    var q := Permute(parts, p);
    forall x | 0 <= x < |data|
      ensures Covered(q, x)
    {
      assert Covered(parts, x);
      var a :| 0 <= a < |parts| && Holds(parts[a], x);
      assert a in p;
      var i :| 0 <= i < |p| && p[i] == a;
      assert q[i] == parts[a];
    }
    forall i, j | 0 <= i < |q| && 0 <= j < |q| && i != j
      ensures End(q[i]) <= q[j].offset || End(q[j]) <= q[i].offset
    {
      assert p[i] != p[j];
    }
  }

  // ---------------------------------------------------------------------
  // The ordered map keyed by offset.

  /** Inserting the parts into a map keyed by offset one after another, in
      list order; a later part with the same offset replaces an earlier one. */
  function PartsMap<R>(parts: seq<Part<R>>): map<nat, seq<R>>
  {
    if parts == [] then map[]
    else PartsMap(parts[..|parts| - 1])[parts[|parts| - 1].offset := parts[|parts| - 1].out]
  }

  /** Some part of `parts` starts at offset `k`. */
  ghost predicate HasOffset<R>(parts: seq<Part<R>>, k: nat)
  {
    exists i :: 0 <= i < |parts| && parts[i].offset == k
  }

  /** The keys are the offsets of the parts; when offsets are distinct, no
      part is lost: each offset maps to its own part's output. */
  lemma {:induction false} PartsMapSpec<R>(parts: seq<Part<R>>)
    ensures forall k :: k in PartsMap(parts) <==> HasOffset(parts, k)
    ensures DistinctOffsets(parts) ==>
      forall i :: 0 <= i < |parts| ==>
        parts[i].offset in PartsMap(parts) && PartsMap(parts)[parts[i].offset] == parts[i].out
    decreases |parts|
  {
    if parts != [] {
      var init, last := parts[..|parts| - 1], parts[|parts| - 1];
      PartsMapSpec(init);
      assert forall i :: 0 <= i < |init| ==> init[i] == parts[i];
      forall k | HasOffset(parts, k)
        ensures k in PartsMap(parts)
      {
        var i :| 0 <= i < |parts| && parts[i].offset == k;
        if i < |init| {
          assert HasOffset(init, k);
        }
      }
      forall k | k in PartsMap(parts)
        ensures HasOffset(parts, k)
      {
        if k != last.offset {
          assert k in PartsMap(init);
          assert HasOffset(init, k);
          var i :| 0 <= i < |init| && init[i].offset == k;
          assert parts[i].offset == k;
        } else {
          assert parts[|parts| - 1].offset == k;
        }
      }
    }
  }

  /** Rearranging parts keeps their offsets distinct. */
  lemma DistinctPermute<R>(parts: seq<Part<R>>, p: seq<nat>)
    requires DistinctOffsets(parts) && IsPermutation(p, |parts|)
    ensures DistinctOffsets(Permute(parts, p))
  {
    var q := Permute(parts, p);
    forall i, j | 0 <= i < j < |q|
      ensures q[i].offset != q[j].offset
    {
      assert q[i] == parts[p[i]] && q[j] == parts[p[j]];
      if p[i] < p[j] {
        assert parts[p[i]].offset != parts[p[j]].offset;
      } else {
        assert p[j] < p[i];
        assert parts[p[j]].offset != parts[p[i]].offset;
      }
    }
  }

  /** Arrival order does not change the map when offsets are distinct. */
  lemma PartsMapPermute<R>(parts: seq<Part<R>>, p: seq<nat>)
    requires DistinctOffsets(parts) && IsPermutation(p, |parts|)
    ensures PartsMap(Permute(parts, p)) == PartsMap(parts)
  {
    var m, mq := PartsMap(parts), PartsMap(Permute(parts, p));
    forall k
      ensures (k in m <==> k in mq) && (k in m ==> mq[k] == m[k])
    {
      if k in m {
        PermuteKeepsEntry(parts, p, k);
      }
      if k in mq {
        PermuteAddsNoKey(parts, p, k);
      }
    }
    MapsAgree(m, mq);
  }

  /** Two maps with the same keys and the same value at each key are equal. */
  lemma MapsAgree<K, V>(m: map<K, V>, m': map<K, V>)
    requires forall k :: (k in m <==> k in m') && (k in m ==> m[k] == m'[k])
    ensures m == m'
  {
    assert m.Keys == m'.Keys;
  }

  /** An entry of the map survives reordering the parts. */
  lemma PermuteKeepsEntry<R>(parts: seq<Part<R>>, p: seq<nat>, k: nat)
    requires DistinctOffsets(parts) && IsPermutation(p, |parts|) && k in PartsMap(parts)
    ensures k in PartsMap(Permute(parts, p)) && PartsMap(Permute(parts, p))[k] == PartsMap(parts)[k]
  {
    var q := Permute(parts, p);
    DistinctPermute(parts, p);
    PartsMapSpec(parts);
    PartsMapSpec(q);
    var a :| 0 <= a < |parts| && parts[a].offset == k;
    var i := PermutedIndex(parts, p, a);
  }

  /** Reordering the parts adds no key to the map. */
  lemma PermuteAddsNoKey<R>(parts: seq<Part<R>>, p: seq<nat>, k: nat)
    requires IsPermutation(p, |parts|) && k in PartsMap(Permute(parts, p))
    ensures k in PartsMap(parts)
  {
    var q := Permute(parts, p);
    PartsMapSpec(parts);
    PartsMapSpec(q);
    var i :| 0 <= i < |q| && q[i].offset == k;
    assert q[i] == parts[p[i]];
    assert HasOffset(parts, k);
  }

  /** Where part `a` ends up after reordering by `p`. */
  lemma PermutedIndex<R>(parts: seq<Part<R>>, p: seq<nat>, a: nat) returns (i: nat)
    requires IsPermutation(p, |parts|) && a < |parts|
    ensures i < |parts| && Permute(parts, p)[i] == parts[a]
  {
    assert a in p;
    i :| 0 <= i < |p| && p[i] == a;
  }

  /** The largest element of a non-empty set. */
  ghost function SetMax(s: set<nat>): (x: nat)
    requires s != {}
    ensures x in s && forall y :: y in s ==> y <= x
    decreases |s|
  {
    var y :| y in s;
    if s == {y} then y
    else
      var z := SetMax(s - {y});
      assert forall w :: w in s ==> w == y || w in s - {y};
      if y <= z then z else y
  }

  /** The smallest element of a non-empty set. */
  ghost function SetMin(s: set<nat>): (x: nat)
    requires s != {}
    ensures x in s && forall y :: y in s ==> x <= y
    decreases |s|
  {
    var y :| y in s;
    if s == {y} then y
    else
      var z := SetMin(s - {y});
      assert forall w :: w in s ==> w == y || w in s - {y};
      if z <= y then z else y
  }

  /** The values of `m` appended in ascending key order: the order in which
      iterating an ordered map visits them. */
  ghost function InKeyOrder<R>(m: map<nat, seq<R>>): seq<R>
    decreases |m|
  {
    if m == map[] then []
    else
      var k := SetMax(m.Keys);
      assert (m - {k}).Keys == m.Keys - {k};
      InKeyOrder(m - {k}) + m[k]
  }

  /** Adding a key above every key of `m` appends its value at the end. */
  lemma InKeyOrderAppendMax<R>(m: map<nat, seq<R>>, k: nat, v: seq<R>)
    requires forall y :: y in m ==> y < k
    ensures InKeyOrder(m[k := v]) == InKeyOrder(m) + v
  {
    var m' := m[k := v];
    assert k in m'.Keys;
    assert SetMax(m'.Keys) == k;
    assert k !in m;
    assert (m' - {k}).Keys == m.Keys;
    assert m' - {k} == m;
  }

  /** Collecting parts with strictly ascending offsets into the map and
      walking it in key order gives the parts' outputs in list order. */
  lemma {:induction false} KeyOrderConcat<R>(parts: seq<Part<R>>)
    requires forall i, j :: 0 <= i < j < |parts| ==> parts[i].offset < parts[j].offset
    ensures InKeyOrder(PartsMap(parts)) == Concat(parts)
    decreases |parts|
  {
    if parts != [] {
      var init, last := parts[..|parts| - 1], parts[|parts| - 1];
      KeyOrderConcat(init);
      PartsMapSpec(init);
      forall y | y in PartsMap(init)
        ensures y < last.offset
      {
        var i :| 0 <= i < |init| && init[i].offset == y;
      }
      InKeyOrderAppendMax(PartsMap(init), last.offset, last.out);
    }
  }
}
