/** Jobs and instants: the values the ready-time heap stores and orders. */
module Jobs {

  /** Go's `nil`-or-value: an interface result that may be absent. */
  datatype Option<T> = None | Some(value: T)

  /** The errors the heap reports; `ErrMax` is "heap max size". */
  datatype HeapError = ErrMax

  /** A job as the heap sees it: a diagnostic name and an absolute instant.
      The task closure is opaque to the heap and the `index` field is never
      read or written, so neither is part of the value. */
  datatype Job = Job(name: string, scheduledTime: int)

  /** The zero `Job{}`: what `Pop` and `Peek` hand back on an empty heap. */
  const ZeroJob := Job("", 0)

  /** `time.Time.Before`: strictly earlier. */
  predicate Before(t: int, u: int) { t < u }

  /** `time.Time.After`: strictly later. */
  predicate After(t: int, u: int) { t > u }

  /** The heap's ordering on jobs: `a` comes no later than `b`. */
  predicate NotAfter(a: Job, b: Job) { !After(a.scheduledTime, b.scheduledTime) }

  /** Times of a sequence of jobs never decrease. */
  ghost predicate SortedByTime(s: seq<Job>)
  {
    forall i, j :: 0 <= i < j < |s| ==> s[i].scheduledTime <= s[j].scheduledTime
  }

  /** Jobs at one instant are identical, as when jobs carry only a time. */
  ghost predicate TiesAreEqual(s: seq<Job>)
  {
    forall i, j :: 0 <= i < |s| && 0 <= j < |s| && s[i].scheduledTime == s[j].scheduledTime ==> s[i] == s[j]
  }

  /** In a sorted sequence whose ties are identical, a job that belongs to
      it and is no later than any of its jobs is its head, and removing it
      leaves the tail. */
  lemma EarliestIsHead(q: Job, s: seq<Job>)
    requires SortedByTime(s) && TiesAreEqual(s)
    requires q in multiset(s)
    requires forall y :: y in multiset(s) ==> q.scheduledTime <= y.scheduledTime
    ensures q == s[0]
    ensures multiset(s) - multiset{q} == multiset(s[1..])
  {
    var i :| 0 <= i < |s| && s[i] == q;
    assert s[0] in multiset(s);
    assert s == [s[0]] + s[1..];
  }

  /** The head of a sorted sequence is no later than any of its jobs. */
  lemma HeadIsEarliest(s: seq<Job>)
    requires SortedByTime(s) && s != []
    ensures forall y :: y in multiset(s) ==> s[0].scheduledTime <= y.scheduledTime
  {
    forall y | y in multiset(s)
      ensures s[0].scheduledTime <= y.scheduledTime
    {
      var k :| 0 <= k < |s| && s[k] == y;
    }
  }

  /** Dropping the head keeps a sequence sorted. */
  lemma SortedTail(s: seq<Job>)
    requires SortedByTime(s) && s != []
    ensures SortedByTime(s[1..])
  {
  }

  /** Dropping the head keeps ties identical. */
  lemma TiesTail(s: seq<Job>)
    requires TiesAreEqual(s) && s != []
    ensures TiesAreEqual(s[1..])
  {
  }

  /** Two sequences with the same jobs and the same head have the same jobs
      after it. */
  lemma SameTailJobs(a: seq<Job>, b: seq<Job>)
    requires a != [] && b != [] && a[0] == b[0]
    requires multiset(a) == multiset(b)
    ensures multiset(a[1..]) == multiset(b[1..])
  {
    assert multiset(a) == multiset{a[0]} + multiset(a[1..]) by {
      assert a == [a[0]] + a[1..];
    }
    assert multiset(b) == multiset{b[0]} + multiset(b[1..]) by {
      assert b == [b[0]] + b[1..];
    }
    forall y
      ensures multiset(a[1..])[y] == multiset(b[1..])[y]
    {
      assert multiset(a)[y] == multiset(b)[y];
    }
  }

  /** Two sorted sequences with the same jobs are equal when ties are
      identical: time order alone fixes the order of such jobs. */
  lemma {:induction false} SortedIsUnique(a: seq<Job>, b: seq<Job>)
    requires SortedByTime(a) && SortedByTime(b) && TiesAreEqual(b)
    requires multiset(a) == multiset(b)
    ensures a == b
    decreases |a|
  {
    if a == [] {
      assert |multiset(b)| == 0;
    } else {
      assert a[0] in multiset(a);
      HeadIsEarliest(a);
      EarliestIsHead(a[0], b);
      SameTailJobs(a, b);
      SortedTail(a);
      SortedTail(b);
      TiesTail(b);
      SortedIsUnique(a[1..], b[1..]);
      assert |a| == |b|;
    }
  }

  /** Appending a job no earlier than the last keeps a sequence sorted. */
  lemma SortedAppend(s: seq<Job>, x: Job)
    requires SortedByTime(s)
    requires s != [] ==> s[|s| - 1].scheduledTime <= x.scheduledTime
    ensures SortedByTime(s + [x])
  {
    var r := s + [x];
    forall i, j | 0 <= i < j < |r|
      ensures r[i].scheduledTime <= r[j].scheduledTime
    {
      if j == |s| && i < |s| - 1 {
        assert s[i].scheduledTime <= s[|s| - 1].scheduledTime;
      }
    }
  }

  /** Moving one job from a multiset onto the end of a sequence keeps the
      total of the two. */
  lemma MoveToEnd(s: seq<Job>, x: Job, rest: multiset<Job>, before: multiset<Job>, total: multiset<Job>)
    requires multiset(s) + before == total
    requires rest + multiset{x} == before
    ensures multiset(s + [x]) + rest == total
  {
    assert multiset(s + [x]) == multiset(s) + multiset{x};
  }

  /** The scheduled times of a sequence of jobs, in order. */
  function Times(s: seq<Job>): seq<int>
  {
    seq(|s|, k requires 0 <= k < |s| => s[k].scheduledTime)
  }

  /** Removing one job keeps a sequence sorted. */
  lemma SortedRemove(s: seq<Job>, k: nat)
    requires SortedByTime(s) && k < |s|
    ensures SortedByTime(s[..k] + s[k + 1..])
  {
    var r := s[..k] + s[k + 1..];
    forall i, j | 0 <= i < j < |r|
      ensures r[i].scheduledTime <= r[j].scheduledTime
    {
      var i', j' := if i < k then i else i + 1, if j < k then j else j + 1;
      assert r[i] == s[i'] && r[j] == s[j'];
    }
  }

  /** Two sorted sequences holding the same jobs start at the same time. */
  lemma SameFirstTime(a: seq<Job>, b: seq<Job>)
    requires SortedByTime(a) && SortedByTime(b) && a != []
    requires multiset(a) == multiset(b)
    ensures b != [] && a[0].scheduledTime == b[0].scheduledTime
  {
    assert a[0] in multiset(b);
    var k :| 0 <= k < |b| && b[k] == a[0];
    assert b[0] in multiset(a);
    HeadIsEarliest(a);
  }

  /** Cutting one job out of a sequence removes exactly that job. */
  lemma RemoveOne(s: seq<Job>, k: nat)
    requires k < |s|
    ensures multiset(s[..k] + s[k + 1..]) == multiset(s) - multiset{s[k]}
  {
    assert s == s[..k] + [s[k]] + s[k + 1..];
  }

  /** Dropping the head removes exactly the head job. */
  lemma DropHead(s: seq<Job>)
    requires s != []
    ensures multiset(s[1..]) == multiset(s) - multiset{s[0]}
  {
    assert s == [s[0]] + s[1..];
  }

  /** In a sorted sequence, cutting out a job at the first time leaves the
      same times as dropping the head. */
  lemma RemoveAtFirstTime(s: seq<Job>, k: nat)
    requires SortedByTime(s) && k < |s|
    requires s[k].scheduledTime == s[0].scheduledTime
    ensures Times(s[..k] + s[k + 1..]) == Times(s[1..])
  {
    var r := s[..k] + s[k + 1..];
    forall i | 0 <= i < |r|
      ensures r[i].scheduledTime == s[i + 1].scheduledTime
    {
      if i < k {
        assert r[i] == s[i];
        assert s[0].scheduledTime <= s[i].scheduledTime <= s[i + 1].scheduledTime <= s[k].scheduledTime;
      } else {
        assert r[i] == s[i + 1];
      }
    }
  }

  /** The times of a non-empty sequence are its head's time, then its tail's. */
  lemma TimesOfCons(s: seq<Job>)
    requires s != []
    ensures Times(s) == [s[0].scheduledTime] + Times(s[1..])
  {
  }

  /** Two sorted sequences holding the same jobs have the same times, in
      the same order, even when the jobs among equal times are arranged
      differently. */
  lemma {:induction false} SortedTimesUnique(a: seq<Job>, b: seq<Job>)
    requires SortedByTime(a) && SortedByTime(b)
    requires multiset(a) == multiset(b)
    ensures Times(a) == Times(b)
    decreases |a|
  {
    if a == [] {
      assert |multiset(b)| == 0;
    } else {
      SameFirstTime(a, b);
      assert a[0] in multiset(b);
      var k :| 0 <= k < |b| && b[k] == a[0];
      var b' := b[..k] + b[k + 1..];
      SortedRemove(b, k);
      RemoveOne(b, k);
      DropHead(a);
      SortedTail(a);
      SortedTimesUnique(a[1..], b');
      RemoveAtFirstTime(b, k);
      TimesOfCons(a);
      TimesOfCons(b);
    }
  }
}
