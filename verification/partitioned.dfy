/** The driver of multithreaded.c: the state range is cut into `threadCount`
    contiguous slices of nearly equal size, a worker scans each slice without
    symmetry pruning, and the main thread merges the workers' results in slice
    order. The workers share nothing but their own task, so running them one
    after another gives the same results as running them in parallel. */
module Partitioned {
  import opened Grid
  import opened Simulation
  import opened Exhaustive

  /** `ThreadTask`: the half-open range [startState, endState) of one worker and the result it reports. */
  datatype ThreadTask = ThreadTask(startState: nat, endState: nat, localMaxLength: nat, localBestState: nat)

  /** The tasks lie back to back, from state 0 up to `totalStates`. */
  predicate Contiguous(tasks: seq<ThreadTask>, totalStates: nat)
  {
    && |tasks| >= 1
    && tasks[0].startState == 0
    && tasks[|tasks| - 1].endState == totalStates
    && (forall i :: 0 <= i < |tasks| ==> tasks[i].startState <= tasks[i].endState)
    && (forall i :: 0 <= i < |tasks| - 1 ==> tasks[i].endState == tasks[i + 1].startState)
  }

  /** Where slice i starts when every slice holds `chunkSize` states and the first `extra` slices one more. */
  function SliceStart(chunkSize: nat, extra: nat, i: nat): nat
  {
    if i == 0 then 0 else SliceStart(chunkSize, extra, i - 1) + chunkSize + (if i - 1 < extra then 1 else 0)
  }

  lemma {:induction false} SliceStartClosedForm(chunkSize: nat, extra: nat, i: nat)
    ensures SliceStart(chunkSize, extra, i) == i * chunkSize + (if i < extra then i else extra)
  {
    if i > 0 {
      SliceStartClosedForm(chunkSize, extra, i - 1);
      assert i * chunkSize == (i - 1) * chunkSize + chunkSize;
    }
  }

  /** The last slice ends at the total: the slices cover exactly the states 0 .. totalStates-1. */
  lemma SliceStartEnd(totalStates: nat, threadCount: nat)
    requires threadCount >= 1
    ensures SliceStart(totalStates / threadCount, totalStates % threadCount, threadCount) == totalStates
  {
    var q, r := totalStates / threadCount, totalStates % threadCount;
    SliceStartClosedForm(q, r, threadCount);
    assert totalStates == q * threadCount + r;
    assert threadCount * q == q * threadCount;
  }

  /** Slices laid out by SliceStart are contiguous and end at the total. */
  lemma SlicesContiguous(tasks: seq<ThreadTask>, totalStates: nat, threadCount: nat)
    requires threadCount >= 1 && |tasks| == threadCount
    requires forall k {:trigger tasks[k]} :: 0 <= k < |tasks| ==>
               tasks[k] == ThreadTask(SliceStart(totalStates / threadCount, totalStates % threadCount, k),
                                      SliceStart(totalStates / threadCount, totalStates % threadCount, k + 1), 0, 0)
    ensures Contiguous(tasks, totalStates)
  {
    var q, r := totalStates / threadCount, totalStates % threadCount;
    SliceStartEnd(totalStates, threadCount);
    assert tasks[0].startState == SliceStart(q, r, 0);
    assert tasks[threadCount - 1].endState == SliceStart(q, r, threadCount);
    forall k | 0 <= k < threadCount
      ensures tasks[k].startState <= tasks[k].endState
    {
      assert tasks[k] == ThreadTask(SliceStart(q, r, k), SliceStart(q, r, k + 1), 0, 0);
    }
    forall k | 0 <= k < threadCount - 1
      ensures tasks[k].endState == tasks[k + 1].startState
    {
      assert tasks[k] == ThreadTask(SliceStart(q, r, k), SliceStart(q, r, k + 1), 0, 0);
      assert tasks[k + 1] == ThreadTask(SliceStart(q, r, k + 1), SliceStart(q, r, k + 2), 0, 0);
    }
  }

  /** The division of the state space in `main`: every task gets `totalStates / threadCount`
      states, and the first `totalStates % threadCount` tasks get one more. */
  method SplitRange(totalStates: nat, threadCount: nat) returns (tasks: seq<ThreadTask>)
    requires threadCount >= 1
    ensures |tasks| == threadCount
    ensures Contiguous(tasks, totalStates)
    ensures forall i :: 0 <= i < |tasks| ==>
              tasks[i].endState - tasks[i].startState
                == totalStates / threadCount + (if i < totalStates % threadCount then 1 else 0)
    ensures forall i :: 0 <= i < |tasks| ==> tasks[i].localMaxLength == 0 && tasks[i].localBestState == 0
  {
    var chunkSize := totalStates / threadCount;
    var extra := totalStates % threadCount;
    var remainder := extra;
    var start := 0;
    tasks := [];
    var i := 0;
    while i < threadCount
      invariant 0 <= i <= threadCount
      invariant |tasks| == i
      invariant remainder == if i < extra then extra - i else 0
      invariant start == SliceStart(chunkSize, extra, i)
      invariant forall k {:trigger tasks[k]} :: 0 <= k < i ==>
                  tasks[k] == ThreadTask(SliceStart(chunkSize, extra, k), SliceStart(chunkSize, extra, k + 1), 0, 0)
    {
      var end := start + chunkSize;
      if remainder > 0 {
        end := end + 1;
        remainder := remainder - 1;
      }
      tasks := tasks + [ThreadTask(start, end, 0, 0)];
      start := end;
      i := i + 1;
    }
    SlicesContiguous(tasks, totalStates, threadCount);
    forall k | 0 <= k < threadCount
      ensures tasks[k].endState - tasks[k].startState == chunkSize + (if k < extra then 1 else 0)
    {
      assert tasks[k] == ThreadTask(SliceStart(chunkSize, extra, k), SliceStart(chunkSize, extra, k + 1), 0, 0);
    }
  }

  /** Tasks further along the list start no earlier than earlier tasks end. */
  lemma {:induction false} ContiguousOrdered(tasks: seq<ThreadTask>, totalStates: nat, i: nat, j: nat)
    requires Contiguous(tasks, totalStates) && i < j < |tasks|
    ensures tasks[i].endState <= tasks[j].startState
    decreases j - i
  {
    if i + 1 < j {
      ContiguousOrdered(tasks, totalStates, i + 1, j);
    }
  }

  /** Every state below `totalStates` lies in exactly one task. */
  lemma {:induction false} ContiguousCovers(tasks: seq<ThreadTask>, totalStates: nat, s: nat)
    requires Contiguous(tasks, totalStates) && s < totalStates
    ensures exists i :: 0 <= i < |tasks| && tasks[i].startState <= s < tasks[i].endState
    ensures forall i, j :: 0 <= i < j < |tasks| && tasks[i].startState <= s < tasks[i].endState
              ==> !(tasks[j].startState <= s < tasks[j].endState)
    decreases |tasks|
  {
    var last := |tasks| - 1;
    if tasks[last].startState > s {
      assert last > 0;
      var front := tasks[..last];
      assert Contiguous(front, tasks[last - 1].endState);
      ContiguousCovers(front, tasks[last - 1].endState, s);
      var i :| 0 <= i < |front| && front[i].startState <= s < front[i].endState;
      assert tasks[i] == front[i];
    }
    forall i, j | 0 <= i < j < |tasks| && tasks[i].startState <= s < tasks[i].endState
      ensures !(tasks[j].startState <= s < tasks[j].endState)
    {
      ContiguousOrdered(tasks, totalStates, i, j);
    }
  }

  /** What a finished worker reports: nothing for an empty range, otherwise the first best state of its range. */
  predicate WorkerDone(n: nat, task: ThreadTask)
    requires ValidSize(n)
  {
    && (task.endState <= task.startState ==> task.localMaxLength == 0 && task.localBestState == 0)
    && (task.startState < task.endState ==>
          IsFirstBest(n, task.startState, task.endState, task.localMaxLength, task.localBestState))
  }

  /** `workerThreadFunc`: scan the task's range in order and keep the first state of strictly larger length. */
  method Worker(n: nat, mask: seq<set<nat>>, task: ThreadTask) returns (done: ThreadTask)
    requires ValidSize(n) && IsNeighborTable(n, mask)
    ensures done.startState == task.startState && done.endState == task.endState
    ensures WorkerDone(n, done)
  {
    var localMax: nat := 0;
    var localBest: nat := 0;
    var s := task.startState;
    while s < task.endState
      invariant task.startState <= s
      invariant s == task.startState ==> localMax == 0 && localBest == 0
      invariant s > task.startState ==> s <= task.endState && IsFirstBest(n, task.startState, s, localMax, localBest)
    {
      var length := ComputeLength(n, mask, s);
      FirstBestSingle(n, s);
      if length > localMax {
        if s > task.startState {
          FirstBestJoinTake(n, task.startState, s, s + 1, localMax, localBest, length, s);
        }
        localMax := length;
        localBest := s;
      } else {
        FirstBestJoinKeep(n, task.startState, s, s + 1, localMax, localBest, length, s);
      }
      s := s + 1;
    }
    done := task.(localMaxLength := localMax, localBestState := localBest);
  }

  /** The join loop of `main`: take a worker's result only when strictly longer than the best so far,
      so over the whole range the result is the first best state. */
  method MergeResults(n: nat, tasks: seq<ThreadTask>, totalStates: nat)
    returns (globalMaxLength: nat, globalBestState: nat)
    requires ValidSize(n) && Contiguous(tasks, totalStates) && totalStates >= 1
    requires forall i :: 0 <= i < |tasks| ==> WorkerDone(n, tasks[i])
    ensures IsFirstBest(n, 0, totalStates, globalMaxLength, globalBestState)
  {
    globalMaxLength := 0;
    globalBestState := 0;
    var i := 0;
    while i < |tasks|
      invariant 0 <= i <= |tasks|
      invariant i == 0 || tasks[i - 1].endState == 0 ==> globalMaxLength == 0 && globalBestState == 0
      invariant i > 0 && tasks[i - 1].endState > 0 ==>
                  IsFirstBest(n, 0, tasks[i - 1].endState, globalMaxLength, globalBestState)
    {
      var covered := if i == 0 then 0 else tasks[i - 1].endState;
      var task := tasks[i];
      assert task.startState == covered;
      if task.startState < task.endState {
        if covered == 0 {
          assert task.localMaxLength >= 1;
        } else if task.localMaxLength > globalMaxLength {
          FirstBestJoinTake(n, 0, covered, task.endState, globalMaxLength, globalBestState,
                            task.localMaxLength, task.localBestState);
        } else {
          FirstBestJoinKeep(n, 0, covered, task.endState, globalMaxLength, globalBestState,
                            task.localMaxLength, task.localBestState);
        }
      }
      if task.localMaxLength > globalMaxLength {
        globalMaxLength := task.localMaxLength;
        globalBestState := task.localBestState;
      }
      i := i + 1;
    }
  }

  /** multithreaded.c over the states 0 .. totalStates-1 with `threadCount` workers: split, run every
      worker on its own task, merge. The answer is the first best state of the whole range, whatever
      the number of workers. */
  method PartitionedSearch(n: nat, mask: seq<set<nat>>, totalStates: nat, threadCount: nat)
    returns (globalMaxLength: nat, globalBestState: nat)
    requires ValidSize(n) && IsNeighborTable(n, mask) && totalStates >= 1 && threadCount >= 1
    ensures IsFirstBest(n, 0, totalStates, globalMaxLength, globalBestState)
  {
    var tasks := SplitRange(totalStates, threadCount);
    var done: seq<ThreadTask> := [];
    var i := 0;
    while i < threadCount
      invariant 0 <= i <= threadCount
      invariant |done| == i
      invariant forall k :: 0 <= k < i ==>
                  done[k].startState == tasks[k].startState && done[k].endState == tasks[k].endState
      invariant forall k :: 0 <= k < i ==> WorkerDone(n, done[k])
    {
      var result := Worker(n, mask, tasks[i]);
      done := done + [result];
      i := i + 1;
    }
    assert Contiguous(done, totalStates);
    globalMaxLength, globalBestState := MergeResults(n, done, totalStates);
  }

  /** multithreaded.c with four workers and the state count it evidently intends, 2^(n*n). */
  method MultithreadedSearch(n: nat) returns (globalMaxLength: nat, globalBestState: nat)
    requires ValidSize(n)
    ensures IsFirstBest(n, 0, TotalStates(n), globalMaxLength, globalBestState)
  {
    var mask := BuildNeighborMasks(n);
    globalMaxLength, globalBestState := PartitionedSearch(n, mask, TotalStates(n), 4);
  }

  /** multithreaded.c as written: the same shift as simple.c, so for n = 8 it reports length 1 and state 0. */
  method MultithreadedSearchAsWritten(n: nat) returns (globalMaxLength: nat, globalBestState: nat)
    requires ValidSize(n)
    ensures n <= 7 ==> IsFirstBest(n, 0, TotalStates(n), globalMaxLength, globalBestState)
    ensures n == 8 ==> globalMaxLength == 1 && globalBestState == 0
  {
    var mask := BuildNeighborMasks(n);
    var totalStates := TotalStatesAsWritten(n);
    if n <= 7 {
      TotalStatesAsWrittenBelowEight(n);
      Word.Pow2Monotone(0, n * n);
    } else {
      TotalStatesAsWrittenAtEight();
    }
    globalMaxLength, globalBestState := PartitionedSearch(n, mask, totalStates, 4);
    if n == 8 {
      EmptyLength(n);
    }
  }

  /** The pruned sequential search and the partitioned search report the same length and the same state. */
  method CrossCheck(n: nat) returns (simpleMax: nat, simpleBest: nat, threadedMax: nat, threadedBest: nat)
    requires ValidSize(n)
    ensures simpleMax == threadedMax && simpleBest == threadedBest
  {
    simpleMax, simpleBest := SimpleSearch(n);
    threadedMax, threadedBest := MultithreadedSearch(n);
    FirstBestUnique(n, 0, TotalStates(n), simpleMax, simpleBest, threadedMax, threadedBest);
  }
}
