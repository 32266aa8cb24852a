/** The binary-heap algorithms of Go's `container/heap` package, run against
    a `JobHeap` through its `Len`, `Less`, `Swap`, `Push` and `Pop`. */
module ContainerHeap {
  import opened Jobs
  import opened HeapOrder
  import opened JobHeaps

  /** Sift-up: moves the job at `j0` towards the root while it is "less" than
      its parent. Go computes the parent as `(j-1)/2` with truncating
      division, so at `j == 0` the parent is `j` itself and the loop stops;
      the guard `0 < j` says the same with Dafny's division. */
  method Up(h: JobHeap, j0: nat)
    requires j0 < |h.items|
    requires HeapExceptAbove(h.items, j0)
    modifies h
    ensures IsMinHeap(h.items)
    ensures |h.items| == old(|h.items|)
    ensures multiset(h.items) == old(multiset(h.items))
  {
    var j: nat := j0;
    while 0 < j && h.Less(j, Parent(j))
      invariant j < |h.items| == old(|h.items|)
      invariant HeapExceptAbove(h.items, j)
      invariant multiset(h.items) == old(multiset(h.items))
      decreases j
    {
      var i := Parent(j);
      SiftUpStep(h.items, j);
      h.Swap(i, j);
      j := i;
    }
    SiftUpDone(h.items, j);
  }

  /** Sift-down over the prefix `h.items[..n]`: moves the job at `i0` away
      from the root while one of its children is "less" than it, swapping
      with the right child when the right is "less" than the left. Jobs at
      `n` and beyond are not touched. */
  method Down(h: JobHeap, i0: nat, n: nat)
    requires n <= |h.items|
    requires HeapExceptBelow(h.items, n, i0)
    modifies h
    ensures |h.items| == old(|h.items|)
    ensures IsMinHeap(h.items[..n])
    ensures h.items[n..] == old(h.items[n..])
    ensures multiset(h.items) == old(multiset(h.items))
  {
    var i: nat := i0;
    while true
      invariant |h.items| == old(|h.items|)
      invariant HeapExceptBelow(h.items, n, i)
      invariant h.items[n..] == old(h.items[n..])
      invariant multiset(h.items) == old(multiset(h.items))
      decreases n - i
    {
      var j1 := 2 * i + 1;
      if n <= j1 {
        SiftDownDone(h.items, n, i);
        break;
      }
      var j := j1;
      var j2 := j1 + 1;
      if j2 < n && h.Less(j2, j1) {
        j := j2;
      }
      if !h.Less(j, i) {
        SiftDownDone(h.items, n, i);
        break;
      }
      SiftDownStep(h.items, n, i, j);
      h.Swap(i, j);
      i := j;
    }
  }

  /** `heap.Push`: appends `x` and sifts it up. */
  method Push(h: JobHeap, x: Job)
    requires IsMinHeap(h.items)
    modifies h
    ensures IsMinHeap(h.items)
    ensures |h.items| == old(|h.items|) + 1
    ensures multiset(h.items) == old(multiset(h.items)) + multiset{x}
  {
    h.Push(x);
    Up(h, h.Len() - 1);
  }

  /** `heap.Pop`: moves the root to the tail, sifts the new root down over
      the rest, and removes the tail. The job returned is the old root, so
      it is no later than every job that stays. */
  method Pop(h: JobHeap) returns (x: Job)
    requires IsMinHeap(h.items)
    requires 0 < |h.items|
    modifies h
    ensures IsMinHeap(h.items)
    ensures x == old(h.items[0])
    ensures |h.items| == old(|h.items|) - 1
    ensures multiset(h.items) + multiset{x} == old(multiset(h.items))
    ensures forall y :: y in multiset(h.items) ==> x.scheduledTime <= y.scheduledTime
  {
    ghost var s := h.items;
    var n := h.Len() - 1;
    h.Swap(0, n);
    Down(h, 0, n);
    ghost var v := h.items;
    var last := h.Pop();
    x := last.value;
    RootRemoved(s, v, h.items, x);
  }
}
