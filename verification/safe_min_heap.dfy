/** `SafeMinHeap`: the scheduler's ready-time queue. A `JobHeap` kept in
    min-heap order by scheduled time, with an optional capacity bound. Every
    operation runs under one lock in the system, so each is modelled as a
    single sequential step. */
module SafeMinHeaps {
  import opened Jobs
  import opened HeapOrder
  import opened JobHeaps
  import ContainerHeap

  /** The capacity a constructor argument stands for: negative values are
      clamped to 0, and 0 means "no bound". */
  function ClampMax(max: int): (m: nat)
    ensures 0 <= max ==> m == max
    ensures max <= 0 <==> m == 0
  {
    if max < 0 then 0 else max
  }

  /** A heap of bound `max` holding `size` jobs refuses another one. */
  predicate IsFull(max: nat, size: nat)
  {
    max > 0 && size >= max
  }

  class SafeMinHeap {
    const heap: JobHeap
    /** Capacity bound; 0 means unbounded. */
    const max: nat

    /** The heap property and the capacity bound. */
    ghost predicate Valid()
      reads this, heap
    {
      IsMinHeap(heap.items) && (max > 0 ==> |heap.items| <= max)
    }

    /** The jobs stored, regardless of layout. */
    ghost function Contents(): multiset<Job>
      reads this, heap
    {
      multiset(heap.items)
    }

    /** `MakeNewSafeMinHeap`: an empty heap whose bound is `max` clamped at
        0. `heap.Init` on an empty slice moves nothing. */
    constructor (max: int)
      ensures Valid() && fresh(heap)
      ensures this.max == ClampMax(max)
      ensures heap.items == []
    {
      this.max := ClampMax(max);
      heap := new JobHeap();
    }

    /** Inserts `j`, unless the heap is bounded and already holds `max`
        jobs: then it returns `ErrMax` and the heap is unchanged. */
    method Add(j: Job) returns (err: Option<HeapError>)
      requires Valid()
      modifies heap
      ensures Valid()
      ensures err != None <==> IsFull(max, old(|heap.items|))
      ensures max == 0 ==> err == None
      ensures err != None ==> err == Some(ErrMax) && heap.items == old(heap.items)
      ensures err == None ==> Contents() == old(Contents()) + multiset{j}
      ensures err == None ==> |heap.items| == old(|heap.items|) + 1
    {
      if max > 0 && |heap.items| >= max {
        return Some(ErrMax);
      }
      ContainerHeap.Push(heap, j);
      return None;
    }

    /** Removes and returns a job of earliest scheduled time: the root.
        On an empty heap returns the zero job and changes nothing. */
    method Pop() returns (j: Job)
      requires Valid()
      modifies heap
      ensures Valid()
      ensures old(heap.items) == [] ==> j == ZeroJob && heap.items == []
      ensures old(heap.items) != [] ==> j == old(heap.items[0])
      ensures old(heap.items) != [] ==> j in old(Contents()) && Contents() == old(Contents()) - multiset{j}
      ensures old(heap.items) != [] ==> |heap.items| == old(|heap.items|) - 1
      ensures old(heap.items) != [] ==>
                forall y :: y in old(Contents()) ==> j.scheduledTime <= y.scheduledTime
    {
      if |heap.items| == 0 {
        return ZeroJob;
      }
      j := ContainerHeap.Pop(heap);
    }

    /** Returns, without removing it, a job of earliest scheduled time: the
        root, which is also what an immediately following `Pop` returns. On
        an empty heap returns the zero job. */
    method Peek() returns (j: Job)
      requires Valid()
      ensures heap.items == [] ==> j == ZeroJob
      ensures heap.items != [] ==> j == heap.items[0] && j in Contents()
      ensures heap.items != [] ==>
                forall y :: y in Contents() ==> j.scheduledTime <= y.scheduledTime
    {
      if |heap.items| == 0 {
        return ZeroJob;
      }
      RootIsMinimumOfAll(heap.items);
      return heap.items[0];
    }

    /** Removes every job scheduled strictly before `t`, in one step, and
        returns them in non-decreasing time order. The jobs returned and the
        jobs kept together are exactly the jobs held before. */
    method PopBefore(t: int) returns (jobs: seq<Job>)
      requires Valid()
      modifies heap
      ensures Valid()
      ensures multiset(jobs) + Contents() == old(Contents())
      ensures forall k :: 0 <= k < |jobs| ==> Before(jobs[k].scheduledTime, t)
      ensures forall y :: y in Contents() ==> !Before(y.scheduledTime, t)
      ensures SortedByTime(jobs)
      ensures multiset(jobs) == multiset(DueJobs(old(heap.items), t))
      ensures Contents() == multiset(KeptJobs(old(heap.items), t))
    {
      ghost var held := heap.items;
      if |heap.items| == 0 {
        DrainDone([], heap.items, held, t);
        return [];
      }
      jobs := [];
      while |heap.items| > 0 && Before(heap.items[0].scheduledTime, t)
        invariant Valid()
        invariant multiset(jobs) + multiset(heap.items) == multiset(held)
        invariant forall k :: 0 <= k < |jobs| ==> Before(jobs[k].scheduledTime, t)
        invariant SortedByTime(jobs)
        invariant jobs != [] && heap.items != [] ==>
                    jobs[|jobs| - 1].scheduledTime <= heap.items[0].scheduledTime
        decreases |heap.items|
      {
        ghost var before := multiset(heap.items);
        var j := ContainerHeap.Pop(heap);
        DrainStep(jobs, j, before, heap.items, multiset(held), t);
        jobs := jobs + [j];
      }
      DrainDone(jobs, heap.items, held, t);
    }

    /** The number of jobs held, which never exceeds a non-zero bound. */
    method Size() returns (n: nat)
      requires Valid()
      ensures n == |Contents()|
      ensures max > 0 ==> n <= max
    {
      return |heap.items|;
    }
  }
}
