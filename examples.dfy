/** The unit tests of both implementations, as scenarios: whatever the
    hardware reports, whatever number of jobs the pool uses and whatever the
    order of arrival, each call returns the expected vector. */
module Examples {
  import opened Mapping
  import Simple
  import Better

  function Inc(i: int): int { i + 1 }

  function Square(i: int): int { i * i }

  /** `vec![1, 2, ..., 19]`. */
  const OneToNineteen: seq<int> := [1, 2, 3, 4, 5, 6, 7, 8, 9, 10, 11, 12, 13, 14, 15, 16, 17, 18, 19]

  /** Their squares. */
  const SquaresToNineteen: seq<int> :=
    [1, 4, 9, 16, 25, 36, 49, 64, 81, 100, 121, 144, 169, 196, 225, 256, 289, 324, 361]

  /** Test `seq` of the simple implementation: three items, at most the
      threshold, so the input is mapped in place. */
  method SimpleSeq(available: Option<NonZero>) returns (res: seq<int>)
    ensures res == [2, 3, 4]
  {
    res := Simple.Split([1, 2, 3], Inc, available);
  }

  /** Test `par1` of the simple implementation: five items, one past the
      threshold. */
  method SimplePar1(available: Option<NonZero>) returns (res: seq<int>)
    ensures res == [2, 3, 4, 5, 6]
  {
    res := Simple.Split([1, 2, 3, 4, 5], Inc, available);
  }

  /** Test `par2` of the simple implementation: the squares of 1 to 19. */
  method SimplePar2(available: Option<NonZero>) returns (res: seq<int>)
    ensures res == SquaresToNineteen
  {
    res := Simple.Split(OneToNineteen, Square, available);
    SquaresMatch(res);
  }

  /** Test `seq` of the pool-and-channel implementation, default build. */
  method BetterSeq(nJobs: NonZero) returns (res: seq<int>)
    ensures res == [2, 3, 4]
  {
    res := Better.Split([1, 2, 3], Inc, nJobs);
  }

  /** Test `par1` of the pool-and-channel implementation, default build. */
  method BetterPar1(nJobs: NonZero) returns (res: seq<int>)
    ensures res == [2, 3, 4, 5, 6]
  {
    res := Better.Split([1, 2, 3, 4, 5], Inc, nJobs);
  }

  /** Test `par2` of the pool-and-channel implementation, in both builds. */
  method BetterPar2(nJobs: NonZero) returns (res: seq<int>, resFun: seq<int>)
    ensures res == SquaresToNineteen && resFun == SquaresToNineteen
  {
    res := Better.Split(OneToNineteen, Square, nJobs);
    SquaresMatch(res);
    resFun := Better.SplitFun(OneToNineteen, Square, nJobs);
    SquaresMatch(resFun);
  }

  /** Any element-wise map of `OneToNineteen` by `Square` is the expected
      vector. */
  lemma SquaresMatch(res: seq<int>)
    requires |res| == |OneToNineteen|
    requires forall i :: 0 <= i < |OneToNineteen| ==> res[i] == Square(OneToNineteen[i])
    ensures res == SquaresToNineteen
  {
  }
}
