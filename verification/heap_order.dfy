/** The binary min-heap layout of a job slice, keyed by scheduled time, and
    what it guarantees. */
module HeapOrder {
  import opened Jobs

  /** Index of the parent of node `i` (> 0) in the implicit binary tree. */
  function Parent(i: nat): nat
    requires 0 < i
  {
    (i - 1) / 2
  }

  /** Every parent is scheduled no later than each of its children. */
  ghost predicate IsMinHeap(s: seq<Job>)
  {
    forall k {:trigger Parent(k)} :: 0 < k < |s| ==> s[Parent(k)].scheduledTime <= s[k].scheduledTime
  }

  /** The state during sift-up with the moving job at `j`: every edge but the
      one above `j` is in order, and `j`'s parent is no later than `j`'s
      children, so swapping `j` upwards can only repair the tree. */
  ghost predicate HeapExceptAbove(s: seq<Job>, j: nat)
  {
    && (forall k :: 0 < k < |s| && k != j ==> s[Parent(k)].scheduledTime <= s[k].scheduledTime)
    && (0 < j < |s| ==>
          forall k {:trigger Parent(k)} :: 0 < k < |s| && Parent(k) == j ==> s[Parent(j)].scheduledTime <= s[k].scheduledTime)
  }

  /** The state during sift-down over the prefix `s[..n]` with the moving job
      at `i`: every edge below a node other than `i` is in order, and `i`'s
      parent is no later than `i`'s children. */
  ghost predicate HeapExceptBelow(s: seq<Job>, n: nat, i: nat)
    requires n <= |s|
  {
    && (forall k :: 0 < k < n && Parent(k) != i ==> s[Parent(k)].scheduledTime <= s[k].scheduledTime)
    && (0 < i < n ==>
          forall k {:trigger Parent(k)} :: 0 < k < n && Parent(k) == i ==> s[Parent(i)].scheduledTime <= s[k].scheduledTime)
  }

  /** One sift-up step: when the job at `j` is no later than its parent and
      the two swap, only the edge above the parent can still be out of
      order. */
  lemma SiftUpStep(s: seq<Job>, j: nat)
    requires 0 < j < |s|
    requires HeapExceptAbove(s, j)
    requires s[j].scheduledTime <= s[Parent(j)].scheduledTime
    ensures HeapExceptAbove(s[Parent(j) := s[j]][j := s[Parent(j)]], Parent(j))
  {
    var p := Parent(j);
    var t := s[p := s[j]][j := s[p]];
    forall k | 0 < k < |t| && k != p
      ensures t[Parent(k)].scheduledTime <= t[k].scheduledTime
    {
      if k == j {
      } else if Parent(k) == j {
        assert t[k] == s[k];
      } else if Parent(k) == p {
        assert t[k] == s[k];
        assert s[p].scheduledTime <= s[k].scheduledTime;
      } else {
        assert t[Parent(k)] == s[Parent(k)] && t[k] == s[k];
      }
    }
    if 0 < p {
      forall k | 0 < k < |t| && Parent(k) == p
        ensures t[Parent(p)].scheduledTime <= t[k].scheduledTime
      {
        assert t[Parent(p)] == s[Parent(p)];
        assert s[Parent(p)].scheduledTime <= s[p].scheduledTime;
        if k != j {
          assert s[p].scheduledTime <= s[k].scheduledTime;
        }
      }
    }
  }

  /** Sift-up stops in a heap: when the moving job at `j` is the root or
      later than its parent, every edge is in order. */
  lemma SiftUpDone(s: seq<Job>, j: nat)
    requires j < |s|
    requires HeapExceptAbove(s, j)
    requires 0 < j ==> s[Parent(j)].scheduledTime < s[j].scheduledTime
    ensures IsMinHeap(s)
  {
    forall k | 0 < k < |s|
      ensures s[Parent(k)].scheduledTime <= s[k].scheduledTime
    {
      if k == j {
        assert s[Parent(j)].scheduledTime < s[j].scheduledTime;
      }
    }
  }

  /** One sift-down step: when the job at `i` is replaced by its earliest
      child `j` and moves down into `j`'s place, only the edges below `j` can
      still be out of order. */
  lemma SiftDownStep(s: seq<Job>, n: nat, i: nat, j: nat)
    requires n <= |s|
    requires HeapExceptBelow(s, n, i)
    requires j == 2 * i + 1 || j == 2 * i + 2
    requires j < n
    requires s[j].scheduledTime <= s[i].scheduledTime
    requires 2 * i + 1 < n ==> s[j].scheduledTime <= s[2 * i + 1].scheduledTime
    requires 2 * i + 2 < n ==> s[j].scheduledTime <= s[2 * i + 2].scheduledTime
    ensures HeapExceptBelow(s[i := s[j]][j := s[i]], n, j)
  {
    SiftDownStepEdges(s, n, i, j);
    SiftDownStepBridge(s, n, i, j);
  }

  /** The edges of a sift-down step: every edge not below `j` is in order
      after the swap. */
  lemma SiftDownStepEdges(s: seq<Job>, n: nat, i: nat, j: nat)
    requires n <= |s|
    requires HeapExceptBelow(s, n, i)
    requires j == 2 * i + 1 || j == 2 * i + 2
    requires j < n
    requires s[j].scheduledTime <= s[i].scheduledTime
    requires 2 * i + 1 < n ==> s[j].scheduledTime <= s[2 * i + 1].scheduledTime
    requires 2 * i + 2 < n ==> s[j].scheduledTime <= s[2 * i + 2].scheduledTime
    ensures var t := s[i := s[j]][j := s[i]];
      forall k :: 0 < k < n && Parent(k) != j ==> t[Parent(k)].scheduledTime <= t[k].scheduledTime
  {
    var t := s[i := s[j]][j := s[i]];
    forall k | 0 < k < n && Parent(k) != j
      ensures t[Parent(k)].scheduledTime <= t[k].scheduledTime
    {
      if k == j {
      } else if Parent(k) == i {
        assert k == 2 * i + 1 || k == 2 * i + 2;
      } else if k == i {
        assert Parent(j) == i;
      } else {
        assert t[Parent(k)] == s[Parent(k)] && t[k] == s[k];
      }
    }
  }

  /** The bridge of a sift-down step: `j`'s new parent, the old child, is no
      later than `j`'s children. */
  lemma SiftDownStepBridge(s: seq<Job>, n: nat, i: nat, j: nat)
    requires n <= |s|
    requires HeapExceptBelow(s, n, i)
    requires j == 2 * i + 1 || j == 2 * i + 2
    requires j < n
    ensures var t := s[i := s[j]][j := s[i]];
      forall k :: 0 < k < n && Parent(k) == j ==> t[Parent(j)].scheduledTime <= t[k].scheduledTime
  {
    var t := s[i := s[j]][j := s[i]];
    forall k | 0 < k < n && Parent(k) == j
      ensures t[Parent(j)].scheduledTime <= t[k].scheduledTime
    {
      assert Parent(j) == i && k != i && k != j;
      assert s[Parent(k)].scheduledTime <= s[k].scheduledTime;
    }
  }

  /** Sift-down stops in a heap: when the moving job at `i` is no later than
      each of its children in the prefix, the whole prefix is a min-heap. */
  lemma SiftDownDone(s: seq<Job>, n: nat, i: nat)
    requires n <= |s|
    requires HeapExceptBelow(s, n, i)
    requires 2 * i + 1 < n ==> s[i].scheduledTime <= s[2 * i + 1].scheduledTime
    requires 2 * i + 2 < n ==> s[i].scheduledTime <= s[2 * i + 2].scheduledTime
    ensures IsMinHeap(s[..n])
  {
    forall k | 0 < k < n
      ensures s[Parent(k)].scheduledTime <= s[k].scheduledTime
    {
      if Parent(k) == i {
        assert k == 2 * i + 1 || k == 2 * i + 2;
      }
    }
  }

  /** Two jobs at one instant make a valid two-job heap in either order,
      so which of them `Peek` and `Pop` return depends on the layout. */
  lemma TiesPopInEitherOrder(x: Job, y: Job)
    requires x.scheduledTime == y.scheduledTime
    ensures IsMinHeap([x, y]) && IsMinHeap([y, x])
    ensures multiset([x, y]) == multiset([y, x])
  {
  }

  /** The root of a min-heap is a job of minimum scheduled time. */
  lemma {:induction false} RootIsMinimum(s: seq<Job>, k: nat)
    requires IsMinHeap(s)
    requires k < |s|
    ensures s[0].scheduledTime <= s[k].scheduledTime
    decreases k
  {
    if 0 < k {
      RootIsMinimum(s, Parent(k));
    }
  }

  /** The root is no later than any job stored in the heap, stated over the
      heap's multiset of jobs. */
  lemma RootIsMinimumOfAll(s: seq<Job>)
    requires IsMinHeap(s)
    requires 0 < |s|
    ensures forall y :: y in multiset(s) ==> s[0].scheduledTime <= y.scheduledTime
  {
    forall y: Job | y in multiset(s)
      ensures s[0].scheduledTime <= y.scheduledTime
    {
      var k :| 0 <= k < |s| && s[k] == y;
      RootIsMinimum(s, k);
    }
  }

  /** Removing the root the way `heap.Pop` does: swap it with the last job,
      restore the heap over all but the last slot, and cut the last slot
      off. What is cut off is the old root, what remains is a heap of the
      other jobs, and none of them is earlier than the root. */
  lemma RootRemoved(s: seq<Job>, v: seq<Job>, w: seq<Job>, x: Job)
    requires IsMinHeap(s) && 0 < |s|
    requires |v| == |s|
    requires IsMinHeap(v[..|s| - 1])
    requires v[|s| - 1..] == s[0 := s[|s| - 1]][|s| - 1 := s[0]][|s| - 1..]
    requires multiset(v) == multiset(s)
    requires v == w + [x]
    ensures x == s[0] && |w| == |s| - 1
    ensures IsMinHeap(w)
    ensures multiset(w) + multiset{x} == multiset(s)
    ensures forall y :: y in multiset(w) ==> x.scheduledTime <= y.scheduledTime
  {
    var n := |s| - 1;
    assert v[n] == v[n..][0];
    assert w == v[..n];
    RootIsMinimumOfAll(s);
    assert multiset(v) == multiset(w) + multiset{x};
  }

  /** The jobs of `s` scheduled strictly before `t`, in slice order. */
  function DueJobs(s: seq<Job>, t: int): (r: seq<Job>)
    ensures forall k :: 0 <= k < |r| ==> Before(r[k].scheduledTime, t)
  {
    if s == [] then []
    else (if Before(s[0].scheduledTime, t) then [s[0]] else []) + DueJobs(s[1..], t)
  }

  /** The jobs of `s` not scheduled before `t`, in slice order. */
  function KeptJobs(s: seq<Job>, t: int): (r: seq<Job>)
    ensures forall k :: 0 <= k < |r| ==> !Before(r[k].scheduledTime, t)
  {
    if s == [] then []
    else (if Before(s[0].scheduledTime, t) then [] else [s[0]]) + KeptJobs(s[1..], t)
  }

  /** Every job of `s` is either due or kept, and none is both. */
  lemma {:induction false} DueAndKeptSplit(s: seq<Job>, t: int)
    ensures multiset(DueJobs(s, t)) + multiset(KeptJobs(s, t)) == multiset(s)
  {
    if s != [] {
      DueAndKeptSplit(s[1..], t);
      assert s == [s[0]] + s[1..];
    }
  }

  /** A split of a multiset of jobs into those strictly before `t` and those
      not before `t` is unique: whatever removes exactly the due jobs and
      keeps the rest removes the same jobs. */
  lemma PartitionIsUnique(due1: multiset<Job>, kept1: multiset<Job>,
                          due2: multiset<Job>, kept2: multiset<Job>, t: int)
    requires due1 + kept1 == due2 + kept2
    requires forall y :: y in due1 ==> Before(y.scheduledTime, t)
    requires forall y :: y in due2 ==> Before(y.scheduledTime, t)
    requires forall y :: y in kept1 ==> !Before(y.scheduledTime, t)
    requires forall y :: y in kept2 ==> !Before(y.scheduledTime, t)
    ensures due1 == due2 && kept1 == kept2
  {
    forall y
      ensures due1[y] == due2[y] && kept1[y] == kept2[y]
    {
      assert (due1 + kept1)[y] == (due2 + kept2)[y];
      if Before(y.scheduledTime, t) {
        assert y !in kept1 && y !in kept2;
      } else {
        assert y !in due1 && y !in due2;
      }
    }
  }

  /** Whatever splits the jobs of `held` into a sequence of jobs all due
      before `t` and a multiset of jobs none due before `t` has split them
      into exactly `DueJobs` and `KeptJobs`. */
  lemma SplitIsDueAndKept(taken: seq<Job>, kept: multiset<Job>, held: seq<Job>, t: int)
    requires multiset(taken) + kept == multiset(held)
    requires forall k :: 0 <= k < |taken| ==> Before(taken[k].scheduledTime, t)
    requires forall y :: y in kept ==> !Before(y.scheduledTime, t)
    ensures multiset(taken) == multiset(DueJobs(held, t))
    ensures kept == multiset(KeptJobs(held, t))
  {
    DueAndKeptSplit(held, t);
    var due, rest := DueJobs(held, t), KeptJobs(held, t);
    forall y: Job | y in multiset(taken)
      ensures Before(y.scheduledTime, t)
    {
      var k :| 0 <= k < |taken| && taken[k] == y;
    }
    forall y: Job | y in multiset(due)
      ensures Before(y.scheduledTime, t)
    {
      var k :| 0 <= k < |due| && due[k] == y;
    }
    forall y: Job | y in multiset(rest)
      ensures !Before(y.scheduledTime, t)
    {
      var k :| 0 <= k < |rest| && rest[k] == y;
    }
    PartitionIsUnique(multiset(taken), kept, multiset(due), multiset(rest), t);
  }

  /** One round of draining due jobs: the earliest job `j`, taken from the
      jobs `before` and leaving `after`, joins the end of the jobs drained so
      far. The drained jobs stay due and sorted, and together with the rest
      they still make up `held`. */
  lemma DrainStep(drained: seq<Job>, j: Job, before: multiset<Job>, after: seq<Job>,
                  held: multiset<Job>, t: int)
    requires multiset(drained) + before == held
    requires multiset(after) + multiset{j} == before
    requires forall k :: 0 <= k < |drained| ==> Before(drained[k].scheduledTime, t)
    requires Before(j.scheduledTime, t)
    requires SortedByTime(drained)
    requires drained != [] ==> drained[|drained| - 1].scheduledTime <= j.scheduledTime
    requires forall y :: y in multiset(after) ==> j.scheduledTime <= y.scheduledTime
    ensures multiset(drained + [j]) + multiset(after) == held
    ensures forall k :: 0 <= k < |drained + [j]| ==> Before((drained + [j])[k].scheduledTime, t)
    ensures SortedByTime(drained + [j])
    ensures after != [] ==> j.scheduledTime <= after[0].scheduledTime
  {
    SortedAppend(drained, j);
    MoveToEnd(drained, j, multiset(after), before, held);
    if after != [] {
      assert after[0] in multiset(after);
    }
  }

  /** Draining stops when the heap is empty or its root is not due; then
      the drained jobs are exactly the due ones and the heap keeps exactly
      the rest. */
  lemma DrainDone(drained: seq<Job>, rest: seq<Job>, held: seq<Job>, t: int)
    requires IsMinHeap(rest)
    requires multiset(drained) + multiset(rest) == multiset(held)
    requires forall k :: 0 <= k < |drained| ==> Before(drained[k].scheduledTime, t)
    requires rest != [] ==> !Before(rest[0].scheduledTime, t)
    ensures multiset(drained) == multiset(DueJobs(held, t))
    ensures multiset(rest) == multiset(KeptJobs(held, t))
    ensures forall y :: y in multiset(rest) ==> !Before(y.scheduledTime, t)
  {
    if rest != [] {
      RootIsMinimumOfAll(rest);
    }
    SplitIsDueAndKept(drained, multiset(rest), held, t);
  }
}
