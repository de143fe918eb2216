/** The division of a workload into index ranges, one for each thread. */
module ThreadPools {

  const MAX_THREADS: nat := 10

  datatype Range = Range(threadId: int, startIdx: int, endIdx: int)

  predicate Owns(r: Range, i: int)
  {
    r.startIdx <= i < r.endIdx
  }

  /** The ranges follow each other without gaps from 0 to the workload. */
  predicate Tiles(ranges: seq<Range>, workload: nat)
  {
    && ranges != []
    && ranges[0].startIdx == 0 && ranges[|ranges| - 1].endIdx == workload
    && (forall t :: 0 <= t < |ranges| ==> ranges[t].threadId == t && ranges[t].startIdx <= ranges[t].endIdx)
    && (forall t :: 0 < t < |ranges| ==> ranges[t].startIdx == ranges[t - 1].endIdx)
  }

  lemma {:induction false} Ordered(ranges: seq<Range>, workload: nat, s: nat, t: nat)
    requires Tiles(ranges, workload) && s < t < |ranges|
    ensures ranges[s].endIdx <= ranges[t].startIdx
  {
    if s + 1 < t {
      Ordered(ranges, workload, s, t - 1);
    }
  }

  lemma {:induction false} Reached(ranges: seq<Range>, workload: nat, n: nat, i: nat)
    requires Tiles(ranges, workload) && n < |ranges| && i < ranges[n].endIdx
    ensures exists t :: 0 <= t <= n && Owns(ranges[t], i)
  {
    if !Owns(ranges[n], i) {
      Reached(ranges, workload, n - 1, i);
    }
  }

  /** Every index of the workload has one owner, and no other index has any. */
  lemma OneOwner(ranges: seq<Range>, workload: nat, i: int)
    requires Tiles(ranges, workload)
    ensures (exists t :: 0 <= t < |ranges| && Owns(ranges[t], i)) <==> 0 <= i < workload
    ensures forall s, t :: 0 <= s < |ranges| && 0 <= t < |ranges| && Owns(ranges[s], i) && Owns(ranges[t], i) ==> s == t
  {
    if 0 <= i < workload {
      Reached(ranges, workload, |ranges| - 1, i);
    }
    forall s, t | 0 <= s < t < |ranges| && Owns(ranges[s], i)
      ensures !Owns(ranges[t], i)
    {
      Ordered(ranges, workload, s, t);
    }
    forall t | 0 <= t < |ranges| && Owns(ranges[t], i)
      ensures 0 <= i < workload
    {
      if t > 0 {
        Ordered(ranges, workload, 0, t);
      }
      if t < |ranges| - 1 {
        Ordered(ranges, workload, t, |ranges| - 1);
      }
    }
  }

  /** What the loop computes for one thread: the last one also takes the remainder. */
  function Share(t: nat, count: nat, each: nat, rest: nat): Range
  {
    Range(t, t * each, if t < count - 1 then t * each + each else t * each + each + rest)
  }

  predicate Shared(ranges: seq<Range>, workload: nat)
  {
    ranges != [] &&
    var n := |ranges|; forall t :: 0 <= t < n ==> ranges[t] == Share(t, n, workload / n, workload % n)
  }

  /** Every thread gets an equal share, the last one the remainder as well: fewer indices than
      there are threads. */
  lemma SharesTile(ranges: seq<Range>, workload: nat)
    requires Shared(ranges, workload)
    ensures Tiles(ranges, workload)
    ensures var each := workload / |ranges|;
            forall t :: 0 <= t < |ranges| ==>
              var size := ranges[t].endIdx - ranges[t].startIdx;
              if t < |ranges| - 1 then size == each else each <= size < each + |ranges|
  {
    var n := |ranges|;
    var each, rest := workload / n, workload % n;
    assert workload == n * each + rest;
    ShareEnd(n - 1, each);
    forall t | 0 <= t < n
      ensures ranges[t].startIdx <= ranges[t].endIdx && (t > 0 ==> ranges[t].startIdx == ranges[t - 1].endIdx)
    {
      if t > 0 {
        assert ranges[t - 1] == Share(t - 1, n, each, rest);
        ShareEnd(t - 1, each);
      }
    }
  }

  lemma ShareEnd(t: nat, each: nat)
    ensures t * each + each == (t + 1) * each
  {
  }

  lemma SharedTiles(ranges: seq<Range>, workload: nat)
    requires Shared(ranges, workload)
    ensures Tiles(ranges, workload)
  {
    SharesTile(ranges, workload);
  }

  method Divide(count: nat, totalWorkload: nat) returns (data: array<Range>)
    requires count > 0
    ensures fresh(data) && data.Length == count && Shared(data[..], totalWorkload)
  {
    var threadWorkload := totalWorkload / count;
    var remainingWorkload := totalWorkload % count;
    data := Fill(count, threadWorkload, remainingWorkload);
  }

  method Fill(count: nat, threadWorkload: nat, remainingWorkload: nat) returns (data: array<Range>)
    requires count > 0
    ensures fresh(data) && data.Length == count
    ensures forall t :: 0 <= t < count ==> data[t] == Share(t, count, threadWorkload, remainingWorkload)
  {
    data := new Range[count](_ => Range(0, 0, 0));
    for i := 0 to count
      invariant forall t :: 0 <= t < i ==> data[t] == Share(t, count, threadWorkload, remainingWorkload)
    {
      var startIdx := i * threadWorkload;
      if i < count - 1 {
        data[i] := Range(i, startIdx, startIdx + threadWorkload);
      } else {
        data[i] := Range(i, startIdx, startIdx + threadWorkload + remainingWorkload);
      }
    }
  }

  class ThreadPool {
    const threadData: array<Range>
    const workload: nat

    ghost predicate Valid()
      reads threadData
    {
      1 <= threadData.Length <= MAX_THREADS && Tiles(threadData[..], workload)
    }

    constructor (count: int, totalWorkload: nat)
      ensures Valid() && fresh(threadData) && workload == totalWorkload
      ensures threadData.Length ==
              if count <= 0 then 1 else if count > MAX_THREADS then MAX_THREADS else count
      ensures Shared(threadData[..], totalWorkload)
    {
      hide Tiles, Shared;
      var n: nat := if count <= 0 then 1 else if count > MAX_THREADS then MAX_THREADS else count;
      var data := Divide(n, totalWorkload);
      SharedTiles(data[..], totalWorkload);
      workload := totalWorkload;
      threadData := data;
    }

    /** The thread that owns an index, or -1. */
    method ThreadIdByRangeIdx(rangeIdx: int) returns (threadId: int)
      requires Valid()
      ensures 0 <= rangeIdx < workload ==>
                && 0 <= threadId < threadData.Length && Owns(threadData[threadId], rangeIdx)
                && forall t :: 0 <= t < threadData.Length && Owns(threadData[t], rangeIdx) ==> t == threadId
      ensures !(0 <= rangeIdx < workload) ==> threadId == -1
    {
      OneOwner(threadData[..], workload, rangeIdx);
      threadId := -1;
      var i := 0;
      while i < threadData.Length && threadId == -1
        invariant 0 <= i <= threadData.Length
        invariant threadId == -1 ==> forall t :: 0 <= t < i ==> !Owns(threadData[t], rangeIdx)
        invariant threadId != -1 ==> 0 <= threadId < i && Owns(threadData[threadId], rangeIdx)
        decreases threadData.Length - i
      {
        if rangeIdx >= threadData[i].startIdx && rangeIdx < threadData[i].endIdx {
          threadId := threadData[i].threadId;
        }
        i := i + 1;
      }
      ghost var ranges := threadData[..];
      assert forall t :: 0 <= t < threadData.Length ==> ranges[t] == threadData[t];
      if 0 <= rangeIdx < workload {
        ghost var s :| 0 <= s < |ranges| && Owns(ranges[s], rangeIdx);
        assert Owns(threadData[s], rangeIdx);
      }
    }
  }
}
