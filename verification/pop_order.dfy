/** What a caller sees when it pops a `SafeMinHeap` until it is empty: the
    jobs it held, in non-decreasing time order. Which of several jobs at one
    instant comes out first depends on the heap's layout; the sequence of
    times does not. */
module PopOrder {
  import opened Jobs
  import opened SafeMinHeaps

  /** Pops until `Size` reports 0 and collects the jobs in the order `Pop`
      returns them. */
  method PopAll(h: SafeMinHeap) returns (popped: seq<Job>)
    requires h.Valid()
    modifies h.heap
    ensures h.Valid() && h.heap.items == []
    ensures SortedByTime(popped)
    ensures multiset(popped) == old(h.Contents())
  {
    popped := [];
    var n := h.Size();
    while n > 0
      invariant h.Valid()
      invariant n == |h.heap.items|
      invariant multiset(popped) + h.Contents() == old(h.Contents())
      invariant SortedByTime(popped)
      invariant popped != [] ==>
                  forall y :: y in h.Contents() ==> popped[|popped| - 1].scheduledTime <= y.scheduledTime
      decreases n
    {
      ghost var before := h.Contents();
      var j := h.Pop();
      PopStep(popped, j, before, h.Contents(), old(h.Contents()));
      popped := popped + [j];
      n := h.Size();
    }
  }

  /** One round of popping: the earliest job `j`, taken from the jobs
      `before` and leaving `after`, joins the end of the jobs popped so far,
      which stay sorted and together with the rest still make up `total`. */
  lemma PopStep(popped: seq<Job>, j: Job, before: multiset<Job>, after: multiset<Job>,
                total: multiset<Job>)
    requires multiset(popped) + before == total
    requires j in before && after == before - multiset{j}
    requires SortedByTime(popped)
    requires popped != [] ==>
               forall y :: y in before ==> popped[|popped| - 1].scheduledTime <= y.scheduledTime
    requires forall y :: y in before ==> j.scheduledTime <= y.scheduledTime
    ensures multiset(popped + [j]) + after == total
    ensures SortedByTime(popped + [j])
    ensures forall y :: y in after ==> (popped + [j])[|popped + [j]| - 1].scheduledTime <= y.scheduledTime
  {
    SortedAppend(popped, j);
    MoveToEnd(popped, j, after, before, total);
    assert (popped + [j])[|popped + [j]| - 1] == j;
  }

  /** Two heaps holding the same jobs, however laid out, pop the same
      sequence of times. */
  method PopAllSameTimes(h1: SafeMinHeap, h2: SafeMinHeap) returns (p1: seq<Job>, p2: seq<Job>)
    requires h1.Valid() && h2.Valid() && h1.heap != h2.heap
    requires h1.Contents() == h2.Contents()
    modifies h1.heap, h2.heap
    ensures multiset(p1) == multiset(p2)
    ensures Times(p1) == Times(p2)
  {
    p1 := PopAll(h1);
    p2 := PopAll(h2);
    SortedTimesUnique(p1, p2);
  }
}
