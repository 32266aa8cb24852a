/** `JobHeap`: a slice of jobs changed in place, with the five methods that
    Go's `container/heap` drives (`Len`, `Less`, `Swap`, `Push`, `Pop`). */
module JobHeaps {
  import opened Jobs

  class JobHeap {
    /** The slice's elements, in heap layout order. */
    var items: seq<Job>

    constructor ()
      ensures items == []
    {
      items := [];
    }

    /** Number of jobs in the slice. */
    function Len(): (n: nat)
      reads this
      ensures n == |items|
      ensures n == 0 <==> items == []
    {
      |items|
    }

    /** Job `i` sorts before job `j` exactly when it is not scheduled after
        it, so equal instants compare as "less" both ways. */
    function Less(i: nat, j: nat): (b: bool)
      reads this
      requires i < |items| && j < |items|
      ensures b <==> items[i].scheduledTime <= items[j].scheduledTime
    {
      NotAfter(items[i], items[j])
    }

    /** Exchanges the jobs at `i` and `j`; nothing else moves, so the jobs
        held stay the same. */
    method Swap(i: nat, j: nat)
      requires i < |items| && j < |items|
      modifies this
      ensures items == old(items)[i := old(items)[j]][j := old(items)[i]]
      ensures multiset(items) == old(multiset(items))
    {
      items := items[i := items[j]][j := items[i]];
    }

    /** Appends `x` at the tail. */
    method Push(x: Job)
      modifies this
      ensures items == old(items) + [x]
    {
      items := items + [x];
    }

    /** Removes and returns the tail job; on an empty slice returns nothing
        and leaves the slice as it is. */
    method Pop() returns (x: Option<Job>)
      modifies this
      ensures old(items) == [] ==> x == None && items == []
      ensures old(items) != [] ==> x == Some(old(items)[|old(items)| - 1]) && old(items) == items + [x.value]
    {
      if Len() > 0 {
        var l := Len() - 1;
        x := Some(items[l]);
        items := items[..l];
      } else {
        x := None;
      }
    }
  }
}
