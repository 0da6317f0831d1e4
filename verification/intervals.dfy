/** Interval planning: the job-hash boundaries that split the assignable jobs among the copy sets.

    `offset` is the ceiling of `jobCount / setsNum`; boundary `i` is the hash id
    of the job at rank `offset * i`, looked up through the job-info service.
    Copy set `i` owns `[boundary[i], boundary[i+1]]`; the last owns the open
    range `[boundary[last]]`.
 */
module Intervals {

  /** `(int) Math.ceil((double) jobCount / setsNum)`, in integer arithmetic. */
  function Offset(jobCount: int, setsNum: int): (offset: int)
    requires setsNum >= 1
    ensures (offset - 1) * setsNum < jobCount <= offset * setsNum
  {
    var n := jobCount + setsNum - 1;
    var q := n / setsNum;
    assert n == q * setsNum + n % setsNum;
    assert (q - 1) * setsNum == q * setsNum - setsNum;
    q
  }

  /** The first `count` iterations of the boundary loop, each appending the hash id at rank `offset * i`. */
  function Sample(offset: int, count: nat, hashAt: int -> int): (interval: seq<int>)
    ensures |interval| == count
    ensures forall i :: 0 <= i < count ==> interval[i] == hashAt(offset * i)
  {
    if count == 0 then []
    else Sample(offset, count - 1, hashAt) + [hashAt(offset * (count - 1))]
  }

  /** The boundary list for `setsNum` copy sets; with no copy sets the loop does not run. */
  function PlanIntervals(jobCount: int, setsNum: nat, hashAt: int -> int): (interval: seq<int>)
    ensures |interval| == setsNum
    ensures setsNum >= 1 ==> forall i :: 0 <= i < setsNum ==>
      interval[i] == hashAt(Offset(jobCount, setsNum) * i)
  {
    if setsNum == 0 then [] else Sample(Offset(jobCount, setsNum), setsNum, hashAt)
  }

  /** The `dataInterval` of copy set `i`: two boundaries, or one for the last set. */
  function DataInterval(interval: seq<int>, i: nat): (d: seq<int>)
    requires i < |interval|
    ensures 1 <= |d| <= 2 && d[0] == interval[i]
    ensures |d| == 2 <==> i < |interval| - 1
    ensures |d| == 2 ==> d[1] == interval[i + 1]
  {
    if i == |interval| - 1 then [interval[i]] else [interval[i], interval[i + 1]]
  }

  /** Each closed range ends where the next one starts, so the ranges leave no gaps between boundaries. */
  lemma DataIntervalsChain(interval: seq<int>, i: nat)
    requires i + 1 < |interval|
    ensures DataInterval(interval, i)[1] == DataInterval(interval, i + 1)[0]
  {
  }

  /** The offset is at least one when there are jobs, and zero when there are none. */
  lemma OffsetSign(jobCount: int, setsNum: int)
    requires jobCount >= 0 && setsNum >= 1
    ensures jobCount == 0 ==> Offset(jobCount, setsNum) == 0
    ensures jobCount > 0 ==> Offset(jobCount, setsNum) >= 1
  {
  }

  lemma MulMonotone(a: int, b: int, c: int)
    requires a >= 0 && b <= c
    ensures a * b <= a * c
  {
    assert a * c - a * b == a * (c - b);
  }

  /** Every rank asked for is non-negative and below `jobCount + setsNum`, so it fits a Java
      `int` whenever `jobCount + setsNum` does. */
  lemma RanksBounded(jobCount: int, setsNum: int, i: int)
    requires jobCount >= 0 && setsNum >= 1 && 0 <= i < setsNum
    ensures 0 <= Offset(jobCount, setsNum) * i < jobCount + setsNum
  {
    var offset := Offset(jobCount, setsNum);
    OffsetSign(jobCount, setsNum);
    MulMonotone(offset, i, setsNum - 1);
    assert offset * (setsNum - 1) == offset * setsNum - offset;
    assert (offset - 1) * setsNum == offset * setsNum - setsNum;
  }

  /** Ranks grow with the copy-set index; they grow strictly once there is at least one job. */
  lemma RanksAscending(jobCount: int, setsNum: int, i: int, k: int)
    requires jobCount >= 0 && setsNum >= 1 && 0 <= i < k
    ensures Offset(jobCount, setsNum) * i <= Offset(jobCount, setsNum) * k
    ensures jobCount > 0 ==> Offset(jobCount, setsNum) * i < Offset(jobCount, setsNum) * k
  {
    var offset := Offset(jobCount, setsNum);
    OffsetSign(jobCount, setsNum);
    MulMonotone(offset, i, k);
    assert offset * k - offset * i == offset * (k - i);
    if jobCount > 0 { MulMonotone(k - i, 1, offset); }
  }

  /** With no assignable jobs every boundary is the hash id at rank 0. */
  lemma NoJobsOneBoundary(setsNum: nat, hashAt: int -> int)
    requires setsNum >= 1
    ensures forall i :: 0 <= i < setsNum ==> PlanIntervals(0, setsNum, hashAt)[i] == hashAt(0)
  {
    assert Offset(0, setsNum) == 0;
  }

  /** A hundred jobs over four copy sets: offset 25, boundaries at ranks 0, 25, 50 and 75. */
  lemma HundredJobsFourSets(hashAt: int -> int)
    ensures Offset(100, 4) == 25
    ensures PlanIntervals(100, 4, hashAt) == [hashAt(0), hashAt(25), hashAt(50), hashAt(75)]
  {
  }

  /** With fewer jobs than copy sets the offset is 1, so every set from index `jobCount` on
      asks for a rank at or past the end of the job ordering. */
  lemma FewJobsRanksPastLastJob(jobCount: int, setsNum: int)
    requires 0 < jobCount < setsNum
    ensures Offset(jobCount, setsNum) == 1
    ensures forall i :: jobCount <= i < setsNum ==> Offset(jobCount, setsNum) * i >= jobCount
  {
    var offset := Offset(jobCount, setsNum);
    assert offset * setsNum < 2 * setsNum;
    assert offset < 2 by {
      if offset >= 2 { MulMonotone(setsNum, 2, offset); }
    }
  }

  /** When `setsNum` divides `jobCount`, every rank asked for names an existing job. */
  lemma ExactSplitRanksInRange(q: int, setsNum: int)
    requires q >= 1 && setsNum >= 1
    ensures Offset(q * setsNum, setsNum) == q
    ensures forall i :: 0 <= i < setsNum ==> Offset(q * setsNum, setsNum) * i < q * setsNum
  {
    var offset := Offset(q * setsNum, setsNum);
    assert (offset - 1) * setsNum < q * setsNum <= offset * setsNum;
    assert offset == q by {
      if offset < q { MulMonotone(setsNum, offset, q - 1); }
      if offset > q { MulMonotone(setsNum, q, offset - 1); }
    }
    forall i | 0 <= i < setsNum ensures q * i < q * setsNum {
      MulMonotone(q, i, setsNum - 1);
    }
  }
}
