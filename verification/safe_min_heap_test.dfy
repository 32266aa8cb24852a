/** The heap's test scenarios as verified clients: what a caller can
    conclude from the contracts of `Add`, `Peek`, `Pop`, `PopBefore` and
    `Size` alone. Instant `t0 + i` stands for `times[i]`, which the test
    spaces one second apart. */
module SafeMinHeapTest {
  import opened Jobs
  import opened SafeMinHeaps

  /** A job that only carries an instant, as the tests build them. */
  function At(t: int): (j: Job)
    ensures j.scheduledTime == t && j.name == ""
  {
    Job("", t)
  }

  /** Moving the head of `rest` to the end of `done` keeps their
      concatenation. */
  lemma MoveHead(done: seq<Job>, rest: seq<Job>)
    requires rest != []
    ensures (done + [rest[0]]) + rest[1..] == done + rest
  {
    assert rest == [rest[0]] + rest[1..];
    assert (done + [rest[0]]) + rest[1..] == done + ([rest[0]] + rest[1..]);
  }

  /** The test's peek/pop loop: when the heap holds exactly the jobs of the
      sorted sequence `expected`, each `Peek` and the `Pop` after it return
      the next job of `expected`, and the heap ends empty. */
  method PeekPopAll(h: SafeMinHeap, expected: seq<Job>) returns (peeked: seq<Job>, popped: seq<Job>)
    requires h.Valid()
    requires SortedByTime(expected) && TiesAreEqual(expected)
    requires h.Contents() == multiset(expected)
    modifies h.heap
    ensures h.Valid() && h.heap.items == []
    ensures peeked == popped == expected
  {
    peeked, popped := [], [];
    ghost var rest := expected;
    while |peeked| < |expected|
      invariant h.Valid()
      invariant SortedByTime(rest) && TiesAreEqual(rest)
      invariant h.Contents() == multiset(rest)
      invariant peeked == popped && peeked + rest == expected
      decreases |rest|
    {
      assert |h.Contents()| == |rest| > 0;
      var p := h.Peek();
      var q := h.Pop();
      EarliestIsHead(q, rest);
      SortedTail(rest);
      TiesTail(rest);
      MoveHead(peeked, rest);
      peeked, popped := peeked + [p], popped + [q];
      rest := rest[1..];
    }
    assert |h.Contents()| == 0;
  }

  /** The order the first two scenarios expect: times 3, 4, 4, 5, 6. */
  function Expected(t0: int): seq<Job>
  {
    [At(t0 + 3), At(t0 + 4), At(t0 + 4), At(t0 + 5), At(t0 + 6)]
  }

  /** The expected order is sorted, and its tied jobs are identical. */
  lemma ExpectedIsOrdered(t0: int)
    ensures SortedByTime(Expected(t0)) && TiesAreEqual(Expected(t0))
  {
  }

  /** The expected jobs are the five jobs added, at 5, 4, 6, 3 and 4. */
  lemma ExpectedJobs(t0: int)
    ensures multiset(Expected(t0)) == multiset{} + multiset{At(t0 + 5)} + multiset{At(t0 + 4)}
                                      + multiset{At(t0 + 6)} + multiset{At(t0 + 3)} + multiset{At(t0 + 4)}
  {
  }

  /** Five adds at times 5, 4, 6, 3, 4 into an unbounded heap, then five
      peek/pop pairs: both see 3, 4, 4, 5, 6; the heap ends empty, and a
      further peek and pop return the zero job. */
  method NoLimitMinHeap(t0: int)
    returns (peeked: seq<Job>, popped: seq<Job>, size: nat, emptyPeek: Job, emptyPop: Job)
    ensures peeked == popped == [At(t0 + 3), At(t0 + 4), At(t0 + 4), At(t0 + 5), At(t0 + 6)]
    ensures size == 0
    ensures emptyPeek == ZeroJob && emptyPop == ZeroJob
  {
    var h := new SafeMinHeap(0);
    var _ := h.Add(At(t0 + 5));
    var _ := h.Add(At(t0 + 4));
    var _ := h.Add(At(t0 + 6));
    var _ := h.Add(At(t0 + 3));
    var _ := h.Add(At(t0 + 4));
    ExpectedJobs(t0);
    ExpectedIsOrdered(t0);
    peeked, popped := PeekPopAll(h, Expected(t0));
    size := h.Size();
    emptyPeek := h.Peek();
    emptyPop := h.Pop();
  }

  /** The same five adds into a heap bounded at 5: a sixth add fails with
      `ErrMax`, and the pops still see 3, 4, 4, 5, 6. */
  method LimitedMinHeap(t0: int)
    returns (err: Option<HeapError>, peeked: seq<Job>, popped: seq<Job>, size: nat,
             emptyPeek: Job, emptyPop: Job)
    ensures err == Some(ErrMax)
    ensures peeked == popped == [At(t0 + 3), At(t0 + 4), At(t0 + 4), At(t0 + 5), At(t0 + 6)]
    ensures size == 0
    ensures emptyPeek == ZeroJob && emptyPop == ZeroJob
  {
    var h := new SafeMinHeap(5);
    var _ := h.Add(At(t0 + 5));
    var _ := h.Add(At(t0 + 4));
    var _ := h.Add(At(t0 + 6));
    var _ := h.Add(At(t0 + 3));
    var _ := h.Add(At(t0 + 4));
    err := h.Add(At(t0 + 1));
    ExpectedJobs(t0);
    ExpectedIsOrdered(t0);
    peeked, popped := PeekPopAll(h, Expected(t0));
    size := h.Size();
    emptyPeek := h.Peek();
    emptyPop := h.Pop();
  }

  /** The jobs the third scenario expects back: times 0, 1, 2. */
  function ExpectedDue(t0: int): seq<Job>
  {
    [At(t0), At(t0 + 1), At(t0 + 2)]
  }

  /** The expected batch is sorted, and its tied jobs are identical. */
  lemma ExpectedDueIsOrdered(t0: int)
    ensures SortedByTime(ExpectedDue(t0)) && TiesAreEqual(ExpectedDue(t0))
  {
  }

  /** Every job of the expected batch is due before `times[3]`; neither job
      left behind is. */
  lemma ExpectedDueSplitsAt(t0: int)
    ensures forall y :: y in multiset(ExpectedDue(t0)) ==> Before(y.scheduledTime, t0 + 3)
    ensures forall y :: y in multiset{At(t0 + 3), At(t0 + 4)} ==> !Before(y.scheduledTime, t0 + 3)
  {
  }

  /** The expected batch and the jobs at 3 and 4 make up the five jobs
      added, at 4, 3, 2, 1 and 0. */
  lemma ExpectedDueJobs(t0: int)
    ensures multiset(ExpectedDue(t0)) + multiset{At(t0 + 3), At(t0 + 4)}
              == multiset{} + multiset{At(t0 + 4)} + multiset{At(t0 + 3)}
                 + multiset{At(t0 + 2)} + multiset{At(t0 + 1)} + multiset{At(t0)}
  {
  }

  /** Any sorted batch of due jobs that, with a remainder of jobs not due,
      makes up the five jobs added is the expected batch. */
  lemma DueBatchIsExpected(t0: int, tasks: seq<Job>, kept: multiset<Job>)
    requires multiset(tasks) + kept
               == multiset{} + multiset{At(t0 + 4)} + multiset{At(t0 + 3)}
                  + multiset{At(t0 + 2)} + multiset{At(t0 + 1)} + multiset{At(t0)}
    requires forall k :: 0 <= k < |tasks| ==> Before(tasks[k].scheduledTime, t0 + 3)
    requires forall y :: y in kept ==> !Before(y.scheduledTime, t0 + 3)
    requires SortedByTime(tasks)
    ensures tasks == ExpectedDue(t0)
    ensures kept == multiset{At(t0 + 3), At(t0 + 4)}
  {
    ExpectedDueIsOrdered(t0);
    ExpectedDueSplitsAt(t0);
    ExpectedDueJobs(t0);
    forall y | y in multiset(tasks)
      ensures Before(y.scheduledTime, t0 + 3)
    {
      var k :| 0 <= k < |tasks| && tasks[k] == y;
    }
    HeapOrder.PartitionIsUnique(multiset(tasks), kept,
      multiset(ExpectedDue(t0)), multiset{At(t0 + 3), At(t0 + 4)}, t0 + 3);
    SortedIsUnique(tasks, ExpectedDue(t0));
  }

  /** Five adds at times 4, 3, 2, 1, 0 into a heap bounded at 5, then
      `PopBefore(times[3])`: exactly the jobs at 0, 1 and 2 come back, in
      that order, and the jobs at 3 and 4 stay. */
  method PopMany(t0: int) returns (tasks: seq<Job>, size: nat)
    ensures tasks == [At(t0), At(t0 + 1), At(t0 + 2)]
    ensures size == 2
  {
    var h := new SafeMinHeap(5);
    var _ := h.Add(At(t0 + 4));
    var _ := h.Add(At(t0 + 3));
    var _ := h.Add(At(t0 + 2));
    var _ := h.Add(At(t0 + 1));
    var _ := h.Add(At(t0));
    tasks := h.PopBefore(t0 + 3);
    DueBatchIsExpected(t0, tasks, h.Contents());
    size := h.Size();
  }
}
