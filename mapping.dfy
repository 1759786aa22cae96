/** The sequential map that every path of `split` must agree with, and the
    constants and small types shared by both implementations. */
module Mapping {

  /** Inputs of at most this many items are mapped on the calling thread. */
  const PARALLELISM_THRESHOLD: nat := 4

  datatype Option<T> = None | Some(value: T)

  /** A count that is never zero, as Rust's `NonZeroUsize`. */
  type NonZero = k: nat | 1 <= k witness 1

  /** The sequential map: `f` applied to every item, results kept in input order. */
  function MapSeq<T, R>(f: T -> R, s: seq<T>): (r: seq<R>)
    ensures |r| == |s|
    ensures forall i :: 0 <= i < |s| ==> r[i] == f(s[i])
  {
    if s == [] then [] else [f(s[0])] + MapSeq(f, s[1..])
  }

  /** Mapping a concatenation maps each half. */
  lemma MapSeqAppend<T, R>(f: T -> R, a: seq<T>, b: seq<T>)
    ensures MapSeq(f, a + b) == MapSeq(f, a) + MapSeq(f, b)
  {
    assert forall i :: 0 <= i < |a + b| ==> MapSeq(f, a + b)[i] == (MapSeq(f, a) + MapSeq(f, b))[i];
  }

  /** Mapping a slice maps its two halves around any split point. */
  lemma MapSeqSlices<T, R>(f: T -> R, s: seq<T>, lo: nat, mid: nat, hi: nat)
    requires lo <= mid <= hi <= |s|
    ensures MapSeq(f, s[lo..hi]) == MapSeq(f, s[lo..mid]) + MapSeq(f, s[mid..hi])
  {
    assert s[lo..hi] == s[lo..mid] + s[mid..hi];
    MapSeqAppend(f, s[lo..mid], s[mid..hi]);
  }
}
