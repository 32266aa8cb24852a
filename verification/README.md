# GoTaskScheduler ready-time heap, in Dafny

GoTaskScheduler keeps jobs that wait for their scheduled time in a
`SafeMinHeap`. This is a lock-guarded binary min-heap of `Job`s, keyed by
`scheduledTime`, with an optional capacity bound.

- `Add` inserts a job. When the bound is reached it refuses with `ErrMax`.
- `Peek` and `Pop` see a job of earliest time. On an empty heap they return
  the zero `Job{}`.
- `PopBefore(t)` drains, in one step, every job scheduled strictly before
  `t`, earliest first.
- `Size` reports how many jobs are held.

Underneath, a `JobHeap` (a slice of jobs) implements the five methods Go's
`container/heap` drives (`Len`, `Less`, `Swap`, `Push`, `Pop`).
`container/heap` itself does the sift-up and sift-down.

The model has these modules:

- `Jobs` (`jobs.dfy`): the `Job` value, `ErrMax`, the zero job, the
  `Before`/`After` comparisons on instants, and facts about sequences
  sorted by time.
- `HeapOrder` (`heap_order.dfy`): the min-heap layout of a job slice. It
  holds the invariants that sift-up and sift-down keep, the proof that the
  root is a minimum, and the specification of a drain (`DueJobs` /
  `KeptJobs`).
- `JobHeaps` (`job_heap.dfy`): `JobHeap` as a class whose `items` field is
  the slice, changed in place by `Swap`, `Push` and `Pop`.
- `ContainerHeap` (`container_heap.dfy`): `heap.Push` and `heap.Pop` of Go's
  standard library, with their `up` and `down` loops. They run against a
  `JobHeap` only through its methods. The library's source is not part of
  this model; the loops follow Go's published algorithm.
- `SafeMinHeaps` (`safe_min_heap.dfy`): `SafeMinHeap` as a class holding the
  `JobHeap` and the bound. Each locked operation is one method.
- `PopOrder` (`pop_order.dfy`): what a caller that pops until the heap is
  empty receives.
- `SafeMinHeapTest` (`safe_min_heap_test.dfy`): the repository's three test
  scenarios, written as verified clients of the heap.

Instants are integers. `time.Time.Before` is `<` and `After` is `>`.
`Less(i, j)` is "job `i` is not after job `j`", so equal instants are "less"
both ways, and sift-up and sift-down also swap jobs whose times are tied.

## Model

| member | source | states |
|---|---|---|
| Jobs.SortedTimesUnique | safeminheap.go:91-98 | two time-sorted sequences holding the same jobs have the same sequence of times, even when jobs at one instant sit in different places |
| Jobs.EarliestIsHead | safeminheap_test.go:23-31 | in a time-sorted sequence whose tied jobs are identical, a member job no later than every job is the head, and removing it leaves exactly the tail |
| Jobs.SortedIsUnique | safeminheap_test.go:23-31 | two time-sorted sequences holding the same jobs are equal when tied jobs are identical, so a result order checked by time alone is fully determined |
| JobHeaps.JobHeap.constructor | safeminheap.go:75 | a fresh slice holds no jobs |
| JobHeaps.JobHeap.Len | safeminheap.go:23-25 | the result is the number of jobs in the slice, and it is 0 exactly when the slice is empty |
| JobHeaps.JobHeap.Less | safeminheap.go:28-30 | `Less(i, j)` holds exactly when job `i` is scheduled no later than job `j` |
| JobHeaps.JobHeap.Swap | safeminheap.go:33-37 | jobs `i` and `j` trade places, every other slot is unchanged, and the multiset of jobs stays the same |
| JobHeaps.JobHeap.Push | safeminheap.go:40-46 | the job is appended at the tail and nothing else changes |
| JobHeaps.JobHeap.Pop | safeminheap.go:49-57 | on an empty slice it returns nothing and changes nothing; otherwise it returns the tail job, and the slice loses exactly that job |
| ContainerHeap.Up | safeminheap.go:86 | sift-up from a slot whose only out-of-order edge is the one above it yields a min-heap with the same jobs |
| ContainerHeap.Down | safeminheap.go:97 | sift-down over a prefix whose only out-of-order edges are below one slot makes the prefix a min-heap with the same jobs, leaving the slots past the prefix untouched |
| ContainerHeap.Push | safeminheap.go:86 | a min-heap stays a min-heap, gains exactly the pushed job and grows by one |
| ContainerHeap.Pop | safeminheap.go:97 | on a non-empty min-heap it returns the old root, which is no later than any job left; the rest is a min-heap of exactly the other jobs |
| HeapOrder.SiftUpStep | safeminheap.go:86 | swapping a job with a parent that is not earlier moves the only out-of-order edge up to the parent's slot |
| HeapOrder.SiftUpDone | safeminheap.go:86 | when sift-up stops at the root, or below a strictly earlier parent, every edge is in order |
| HeapOrder.SiftDownStep | safeminheap.go:97 | swapping a job with its earliest child, when that child is no later than it, moves the only out-of-order edges down to the child's slot |
| HeapOrder.SiftDownDone | safeminheap.go:97 | when sift-down stops because no child is earlier, the whole prefix is a min-heap |
| HeapOrder.TiesPopInEitherOrder | safeminheap.go:28-30 | two jobs at one instant form a valid heap in either order, so which of them `Peek` and `Pop` return first depends on the layout |
| HeapOrder.RootIsMinimum | safeminheap.go:104-111 | in a min-heap the root is scheduled no later than the job at any slot |
| HeapOrder.RootIsMinimumOfAll | safeminheap.go:104-111 | in a non-empty min-heap the root is no later than every job it holds |
| HeapOrder.RootRemoved | safeminheap.go:91-98 | swapping the root to the tail, restoring the prefix and cutting off the tail removes exactly the old root, which is no later than any remaining job, and leaves a min-heap |
| HeapOrder.DueJobs | safeminheap.go:122 | every job it selects is scheduled strictly before the cutoff |
| HeapOrder.KeptJobs | safeminheap.go:122 | no job it selects is scheduled before the cutoff |
| HeapOrder.DueAndKeptSplit | safeminheap.go:122-125 | the due jobs and the kept jobs together are exactly the jobs held |
| HeapOrder.PartitionIsUnique | safeminheap.go:122-125 | only one split of a multiset of jobs puts jobs before the cutoff on one side and the others on the other side |
| HeapOrder.SplitIsDueAndKept | safeminheap.go:122-125 | any such split of the held jobs into a sequence and a rest takes exactly the due jobs and keeps exactly the others |
| HeapOrder.DrainStep | safeminheap.go:122-125 | appending a popped root that is due keeps the drained jobs due and sorted, and keeps the drained and remaining jobs equal to the jobs held |
| HeapOrder.DrainDone | safeminheap.go:122-126 | when the drain stops on an empty heap or at a root that is not due, the drained jobs are exactly the due ones and the heap keeps exactly the others, none of them due |
| SafeMinHeaps.ClampMax | safeminheap.go:71-75 | a negative bound becomes 0, and any other bound is kept; the result is 0 exactly when the argument is not positive |
| SafeMinHeaps.SafeMinHeap.constructor | safeminheap.go:71-78 | the new heap is empty and valid, and its bound is the clamped argument |
| SafeMinHeaps.SafeMinHeap.Add | safeminheap.go:80-88 | it fails exactly when the heap is bounded and full, so never when the bound is 0, and then it returns `ErrMax` and leaves the slice unchanged; otherwise it adds exactly the job. The heap order and the bound are kept |
| SafeMinHeaps.SafeMinHeap.Pop | safeminheap.go:91-98 | on an empty heap it returns the zero job and stays empty; otherwise it returns the root, a job of earliest time, and removes exactly that job. The heap order is kept |
| SafeMinHeaps.SafeMinHeap.Peek | safeminheap.go:104-111 | it changes nothing; on an empty heap it returns the zero job, and otherwise the root, which is a held job of earliest time and what `Pop` would remove |
| SafeMinHeaps.SafeMinHeap.PopBefore | safeminheap.go:114-127 | it returns exactly the jobs scheduled strictly before `t`, in non-decreasing time order, and keeps exactly the others, none of them due. The returned and kept jobs together are the jobs held before, and the heap stays valid |
| SafeMinHeaps.SafeMinHeap.Size | safeminheap.go:129-133 | the result is the number of jobs held, and never more than a non-zero bound |
| PopOrder.PopAll | safeminheap.go:91-98 | popping a valid heap until its size is 0 yields exactly the jobs it held, in non-decreasing time order, whether or not jobs share an instant |
| PopOrder.PopAllSameTimes | safeminheap.go:91-98 | two separate valid heaps holding the same jobs, emptied by repeated `Pop`, yield the same jobs and the same sequence of times |
| SafeMinHeapTest.PeekPopAll | safeminheap_test.go:24-31 | when the heap holds exactly the jobs of a sorted sequence with identical ties, each `Peek` and the `Pop` after it return that sequence's jobs in order, and the heap ends empty |
| SafeMinHeapTest.ExpectedIsOrdered | safeminheap_test.go:23 | the expected result order 3, 4, 4, 5, 6 is sorted, and its tied jobs are identical |
| SafeMinHeapTest.ExpectedJobs | safeminheap_test.go:17-23 | the expected results are exactly the jobs added at 5, 4, 6, 3 and 4 |
| SafeMinHeapTest.NoLimitMinHeap | safeminheap_test.go:15-41 | in an unbounded heap after adds at 5, 4, 6, 3 and 4, the peeks and pops both see 3, 4, 4, 5, 6, the size is then 0, and one more peek and pop return the zero job |
| SafeMinHeapTest.LimitedMinHeap | safeminheap_test.go:43-74 | the same with a bound of 5, where a sixth add returns `ErrMax` |
| SafeMinHeapTest.ExpectedDueIsOrdered | safeminheap_test.go:91-95 | the expected batch 0, 1, 2 is sorted, and its tied jobs are identical |
| SafeMinHeapTest.ExpectedDueSplitsAt | safeminheap_test.go:85 | every job of the expected batch is due before `times[3]`, and the jobs at 3 and 4 are not |
| SafeMinHeapTest.ExpectedDueJobs | safeminheap_test.go:79-85 | the expected batch and the jobs at 3 and 4 together are exactly the five jobs added |
| SafeMinHeapTest.DueBatchIsExpected | safeminheap_test.go:85-95 | any sorted batch of due jobs that, with a rest of jobs not due, makes up the five jobs added is exactly the jobs at 0, 1, 2, and the rest is exactly the jobs at 3 and 4 |
| SafeMinHeapTest.PopMany | safeminheap_test.go:76-96 | after adds at 4, 3, 2, 1, 0 into a heap bounded at 5, `PopBefore(times[3])` returns exactly the jobs at 0, 1, 2 in that order, and 2 jobs stay |

## Left out

- The mutex: every `SafeMinHeap` method holds one lock for its whole body, so each is modelled as one sequential step. Interleavings and the race between `Peek` and a later `Pop` by another goroutine are not modelled.
- scheduler.go and main.go (the dispatch loop, the clock tick, the worker pool and the demo driver) are not part of this model.
- A `Job`'s `task` closure is never called by the heap, and its `index` field is never read or written, so neither is part of the `Job` value.
- `time.Time` is an integer instant. Monotonic-clock readings and time zones are not modelled.
- The zero `Job{}` (`ZeroJob`) carries instant 0. Just as in the source, a caller cannot tell it apart from a real unnamed job scheduled at instant 0.
- `JobHeaps.JobHeap.Push`: the type assertion on Go's `interface{}` argument is not modelled. Every value pushed here is a `Job`, so the assertion always succeeds.
- `JobHeaps.JobHeap.Swap`: the `Len() > 0` guard is implied by the requirement that both indices are in range. Out-of-range indices, which would panic in Go, are excluded by its precondition.
- `JobHeaps.JobHeap.Pop`: overwriting the removed slot with `Job{}` before truncating is not modelled, because the slot is no longer part of the slice. Slice capacity (`make(JobHeap, 0, max)`) is not modelled either.
- `ContainerHeap.Pop` requires a non-empty heap. In Go, `heap.Pop` on an empty heap panics at the `.(Job)` assertion on `nil`, and `SafeMinHeap` only calls it on a non-empty heap.
- `ContainerHeap.Down`: Go's `down` also returns whether anything moved. Only `heap.Fix` and `heap.Remove` use that result, and neither is used here, so it is dropped.
- `heap.Init` in `MakeNewSafeMinHeap` runs on an empty slice, where it moves nothing. The constructor therefore just starts with no jobs.
- `SafeMinHeaps.SafeMinHeap.PopBefore` returns `nil` on an empty heap and an empty non-nil slice when nothing is due. Both are the empty sequence here.
- The three test scenarios use instants `t0 + i` for `times[i]`. `times[0]` comes from the clock, which here is the parameter `t0`.
