/**
 * The deferred-task scheduler: an array-backed binary min-heap of
 * `(deadline, task)` entries, per-task cancellation flags checked only when
 * a task is invoked (lazy deletion), and the pass of the scheduler loop that
 * pops and invokes every due entry. Time is counted in integer ticks of one
 * millisecond.
 */
module Timer {
  import opened Wrappers
  import opened Seqs

  /** How far ahead of the clock a deadline may lie and still count as due: one millisecond. */
  const TimerFudge: int := 1

  /** A scheduled task, named by the order in which it was added. */
  type TaskId = nat

  /** A heap entry: the absolute deadline of a task, in ticks, and the task. */
  datatype Entry = Entry(deadline: int, task: TaskId)

  /** The order of heap entries: Python's tuple order, by deadline and then by task. */
  predicate Le(x: Entry, y: Entry)
  {
    x.deadline < y.deadline || (x.deadline == y.deadline && x.task <= y.task)
  }

  /** Entry `j` of a heap laid out in `s` is not below its parent. */
  ghost predicate ParentLe(s: seq<Entry>, j: nat)
    requires 0 < j < |s|
  {
    Le(s[(j - 1) / 2], s[j])
  }

  /** Entry `j` is not below the parent of `k` (used for the children of `k`). */
  ghost predicate GrandparentLe(s: seq<Entry>, k: nat, j: nat)
    requires 0 < k < |s| && j < |s|
  {
    Le(s[(k - 1) / 2], s[j])
  }

  /** The heap property of a binary heap laid out in a sequence: no entry is below its parent. */
  ghost predicate HeapOrdered(s: seq<Entry>)
  {
    forall j :: 0 < j < |s| ==> ParentLe(s, j)
  }

  /** In a heap-ordered sequence the first entry is at or below every other one. */
  lemma {:induction false} RootIsLeast(s: seq<Entry>, i: nat)
    requires HeapOrdered(s) && i < |s|
    ensures Le(s[0], s[i])
    decreases i
  {
    if i > 0 {
      RootIsLeast(s, (i - 1) / 2);
      assert ParentLe(s, i);
    }
  }

  lemma RootIsMinimum(s: seq<Entry>)
    requires HeapOrdered(s) && |s| > 0
    ensures forall x :: x in multiset(s) ==> Le(s[0], x)
  {
    forall x | x in multiset(s)
      ensures Le(s[0], x)
    {
      var i :| 0 <= i < |s| && s[i] == x;
      RootIsLeast(s, i);
    }
  }

  /** `s` with the entries at `i` and `j` exchanged. */
  function Swap(s: seq<Entry>, i: nat, j: nat): (t: seq<Entry>)
    requires i < |s| && j < |s|
    ensures |t| == |s| && multiset(t) == multiset(s)
  {
    s[i := s[j]][j := s[i]]
  }

  /**
   * The state of a sift-up at `k`: every parent link holds except the one
   * into `k`, and the parent of `k` is at or below the children of `k`.
   */
  ghost predicate OrderedAbove(s: seq<Entry>, k: nat)
  {
    && (forall j :: 0 < j < |s| && j != k ==> ParentLe(s, j))
    && (0 < k < |s| ==> forall j :: 0 < j < |s| && (j - 1) / 2 == k ==> GrandparentLe(s, k, j))
  }

  /**
   * The state of a sift-down at `k`: every parent link holds except those out
   * of `k`, and the parent of `k` is at or below the children of `k`.
   */
  ghost predicate OrderedBelow(s: seq<Entry>, k: nat)
  {
    && (forall j :: 0 < j < |s| && (j - 1) / 2 != k ==> ParentLe(s, j))
    && (0 < k < |s| ==> forall j :: 0 < j < |s| && (j - 1) / 2 == k ==> GrandparentLe(s, k, j))
  }

  lemma SiftUpStep(s: seq<Entry>, k: nat)
    requires 0 < k < |s| && OrderedAbove(s, k) && !Le(s[(k - 1) / 2], s[k])
    ensures OrderedAbove(Swap(s, (k - 1) / 2, k), (k - 1) / 2)
  {
    var p := (k - 1) / 2;
    var t := Swap(s, p, k);
    forall j | 0 < j < |t| && j != p
      ensures ParentLe(t, j)
    {
      var i := (j - 1) / 2;
      if j == k {
      } else if i == k {
        assert GrandparentLe(s, k, j);
      } else if i == p {
        assert ParentLe(s, j);
      } else {
        assert ParentLe(s, j);
      }
    }
    if 0 < p {
      assert ParentLe(s, p);
      forall j | 0 < j < |t| && (j - 1) / 2 == p
        ensures GrandparentLe(t, p, j)
      {
        if j != k {
          assert ParentLe(s, j);
        }
      }
    }
  }

  lemma SiftUpDone(s: seq<Entry>, k: nat)
    requires k < |s| && OrderedAbove(s, k) && (k == 0 || Le(s[(k - 1) / 2], s[k]))
    ensures HeapOrdered(s)
  {
    forall j | 0 < j < |s|
      ensures ParentLe(s, j)
    {
    }
  }

  lemma SiftDownStep(s: seq<Entry>, k: nat, c: nat)
    requires c < |s| && k == (c - 1) / 2 && 0 < c && OrderedBelow(s, k) && !Le(s[k], s[c])
    requires forall j :: 0 < j < |s| && (j - 1) / 2 == k ==> Le(s[c], s[j])
    ensures OrderedBelow(Swap(s, k, c), c)
  {
    var t := Swap(s, k, c);
    forall j | 0 < j < |t| && (j - 1) / 2 != c
      ensures ParentLe(t, j)
    {
      var i := (j - 1) / 2;
      if j == c {
      } else if j == k {
        assert GrandparentLe(s, k, c);
      } else if i == k {
        assert Le(s[c], s[j]);
      } else {
        assert ParentLe(s, j);
      }
    }
    forall j | 0 < j < |t| && (j - 1) / 2 == c
      ensures GrandparentLe(t, c, j)
    {
      assert ParentLe(s, j);
    }
  }

  lemma SiftDownDone(s: seq<Entry>, k: nat)
    requires k < |s| && OrderedBelow(s, k)
    requires forall j :: 0 < j < |s| && (j - 1) / 2 == k ==> Le(s[k], s[j])
    ensures HeapOrdered(s)
  {
    forall j | 0 < j < |s|
      ensures ParentLe(s, j)
    {
    }
  }

  /** Appending an entry to a heap leaves it in the state a sift-up from the new last position starts from. */
  lemma PushOrdered(s: seq<Entry>, e: Entry)
    requires HeapOrdered(s)
    ensures OrderedAbove(s + [e], |s|)
  {
    var t := s + [e];
    forall j | 0 < j < |t| && j != |s|
      ensures ParentLe(t, j)
    {
      assert ParentLe(s, j);
    }
  }

  /** Moving the last entry of a heap to the front leaves the state a sift-down from the root starts from. */
  lemma PopOrdered(s: seq<Entry>)
    requires HeapOrdered(s) && 2 <= |s|
    ensures OrderedBelow([s[|s| - 1]] + s[1..|s| - 1], 0)
    ensures multiset([s[|s| - 1]] + s[1..|s| - 1]) + multiset{s[0]} == multiset(s)
  {
    var m := |s| - 1;
    var t := [s[m]] + s[1..m];
    forall j | 0 < j < |t| && (j - 1) / 2 != 0
      ensures ParentLe(t, j)
    {
      assert ParentLe(s, j);
    }
    assert s == [s[0]] + s[1..m] + [s[m]];
  }

  /** `c` is a least child of `k`. */
  lemma LeastChild(s: seq<Entry>, k: nat, c: nat)
    requires 2 * k + 1 < |s| && (c == 2 * k + 1 || c == 2 * k + 2) && c < |s|
    requires Le(s[c], s[2 * k + 1]) && (2 * k + 2 < |s| ==> Le(s[c], s[2 * k + 2]))
    ensures forall j :: 0 < j < |s| && (j - 1) / 2 == k ==> Le(s[c], s[j])
  {
  }

  /** A binary min-heap in the first `n` cells of a growable array. */
  class Heap {
    var a: array<Entry>
    var n: nat

    ghost predicate Valid()
      reads this, a
    {
      n <= a.Length && HeapOrdered(a[..n])
    }

    ghost function Contents(): multiset<Entry>
      reads this, a
      requires n <= a.Length
    {
      multiset(a[..n])
    }

    constructor ()
      ensures Valid() && fresh(a) && Contents() == multiset{}
    {
      a := new Entry[8];
      n := 0;
    }

    /** Whether the heap holds no entry (Python's truth value of a list). */
    function IsEmpty(): (r: bool)
      reads this, a
      requires Valid()
      ensures r <==> Contents() == multiset{}
    {
      n == 0
    }

    /** The first entry, `heap[0]`: one of the least entries held. */
    function First(): (m: Entry)
      reads this, a
      requires Valid() && !IsEmpty()
      ensures m in Contents()
      ensures forall x :: x in Contents() ==> Le(m, x)
    {
      RootIsMinimum(a[..n]);
      a[0]
    }

    /**
     * Whether the first entry is due at `now`: when it is not, no entry held
     * is due, since the first one is least.
     */
    function FirstDue(now: int): (r: bool)
      reads this, a
      requires Valid()
      ensures r <==> !IsEmpty() && First().deadline <= now
      ensures !r ==> forall x :: x in Contents() ==> now < x.deadline
    {
      !IsEmpty() && First().deadline <= now
    }

    /** `heappush`: adds exactly one entry and keeps the heap property. */
    method Put(e: Entry)
      requires Valid()
      modifies this, a
      ensures Valid() && (a == old(a) || fresh(a))
      ensures Contents() == old(Contents()) + multiset{e}
    {
      if n == a.Length {
        Grow();
      }
      ghost var s := a[..n];
      a[n] := e;
      n := n + 1;
      assert a[..n] == s + [e];
      PushOrdered(s, e);
      SiftUp(n - 1);
    }

    /** Moves the entries to a larger array, as a Python list does when it runs out of room. */
    method Grow()
      requires Valid()
      modifies this
      ensures Valid() && fresh(a) && n < a.Length
      ensures n == old(n) && a[..n] == old(a[..n])
    {
      ghost var s := a[..n];
      var b := new Entry[2 * a.Length + 1];
      forall i | 0 <= i < n {
        b[i] := a[i];
      }
      assert b[..n] == s;
      a := b;
      assert HeapOrdered(a[..n]);
    }

    /** `heappop`: removes and returns one of the least entries, keeping the heap property. */
    method Pop() returns (e: Entry)
      requires Valid() && !IsEmpty()
      modifies this, a
      ensures Valid() && a == old(a) && n == old(n) - 1
      ensures e in old(Contents())
      ensures forall x :: x in old(Contents()) ==> Le(e, x)
      ensures Contents() + multiset{e} == old(Contents())
    {
      RootIsMinimum(a[..n]);
      e := a[0];
      if n == 1 {
        assert a[..n] == [e];
        n := 0;
      } else {
        MoveLastToRoot();
        SiftDown(0);
      }
    }

    /** Moves the last entry into the place of the first, which leaves the heap. */
    method MoveLastToRoot()
      requires Valid() && 2 <= n
      modifies this, a
      ensures a == old(a) && n == old(n) - 1
      ensures OrderedBelow(a[..n], 0)
      ensures multiset(a[..n]) + multiset{old(a[0])} == old(multiset(a[..n]))
    {
      ghost var s := a[..n];
      ghost var t := [s[n - 1]] + s[1..n - 1];
      PopOrdered(s);
      n := n - 1;
      a[0] := a[n];
      assert forall i :: 0 <= i < n ==> a[i] == t[i];
      assert a[..n] == t;
    }

    /** Exchanges the entries at `i` and `j`. */
    method Exchange(i: nat, j: nat)
      requires n <= a.Length && i < n && j < n
      modifies a
      ensures a[..n] == Swap(old(a[..n]), i, j)
    {
      a[i], a[j] := a[j], a[i];
    }

    /** Moves the entry at `k` up until its parent is at or below it. */
    method SiftUp(k0: nat)
      requires n <= a.Length && k0 < n && OrderedAbove(a[..n], k0)
      modifies a
      ensures Valid()
      ensures multiset(a[..n]) == old(multiset(a[..n]))
    {
      var k: nat := k0;
      while 0 < k && !Le(a[(k - 1) / 2], a[k])
        invariant k < n && OrderedAbove(a[..n], k)
        invariant multiset(a[..n]) == old(multiset(a[..n]))
      {
        var p := (k - 1) / 2;
        ghost var s := a[..n];
        SiftUpStep(s, k);
        Exchange(p, k);
        k := p;
      }
      SiftUpDone(a[..n], k);
    }

    /** Moves the entry at `k` down until no child is below it. */
    method SiftDown(k0: nat)
      requires n <= a.Length && k0 < n && OrderedBelow(a[..n], k0)
      modifies a
      ensures Valid()
      ensures multiset(a[..n]) == old(multiset(a[..n]))
    {
      var k: nat, done := k0, false;
      while !done
        invariant k < n
        invariant done ==> HeapOrdered(a[..n])
        invariant !done ==> OrderedBelow(a[..n], k)
        invariant multiset(a[..n]) == old(multiset(a[..n]))
        decreases n - k, !done
      {
        k, done := SinkStep(k);
      }
    }

    /** One step of a sift-down: exchanges the entry at `k` with its least child if that child is below it. */
    method SinkStep(k: nat) returns (next: nat, done: bool)
      requires n <= a.Length && k < n && OrderedBelow(a[..n], k)
      modifies a
      ensures next < n && multiset(a[..n]) == old(multiset(a[..n]))
      ensures done ==> next == k && HeapOrdered(a[..n])
      ensures !done ==> k < next && OrderedBelow(a[..n], next)
    {
      var c := 2 * k + 1;
      if c >= n {
        assert HeapOrdered(a[..n]) by { SiftDownDone(a[..n], k); }
        return k, true;
      }
      if c + 1 < n && !Le(a[c], a[c + 1]) {
        c := c + 1;
      }
      if Le(a[k], a[c]) {
        ghost var s := a[..n];
        assert HeapOrdered(s) by {
          LeastChild(s, k, c);
          forall j | 0 < j < |s| && (j - 1) / 2 == k
            ensures Le(s[k], s[j])
          {
            assert Le(s[k], s[c]) && Le(s[c], s[j]);
          }
          SiftDownDone(s, k);
        }
        return k, true;
      }
      ghost var s := a[..n];
      assert OrderedBelow(Swap(s, k, c), c) by {
        LeastChild(s, k, c);
        SiftDownStep(s, k, c);
      }
      Exchange(k, c);
      return c, false;
    }
  }

  /** One call of a task's function, and whether it raised. */
  datatype Call = Call(task: TaskId, raised: bool)

  /** What invoking the task of `e` does: nothing once it is cancelled, otherwise one call. */
  function Invocation(e: Entry, cancelled: seq<bool>, raises: TaskId -> bool): (r: seq<Call>)
    requires e.task < |cancelled|
    ensures |r| <= 1 && (r == [] <==> cancelled[e.task])
    ensures r != [] ==> r[0] == Call(e.task, raises(e.task))
  {
    if cancelled[e.task] then [] else [Call(e.task, raises(e.task))]
  }

  /** The calls made by invoking the tasks of `fired`, in order. */
  function Invocations(fired: seq<Entry>, cancelled: seq<bool>, raises: TaskId -> bool): seq<Call>
    requires forall k :: 0 <= k < |fired| ==> fired[k].task < |cancelled|
  {
    if fired == [] then []
    else Invocations(fired[..|fired| - 1], cancelled, raises) + Invocation(fired[|fired| - 1], cancelled, raises)
  }

  lemma InvocationsSnoc(fired: seq<Entry>, e: Entry, cancelled: seq<bool>, raises: TaskId -> bool)
    requires forall k :: 0 <= k < |fired| ==> fired[k].task < |cancelled|
    requires e.task < |cancelled|
    ensures forall k :: 0 <= k < |fired + [e]| ==> (fired + [e])[k].task < |cancelled|
    ensures Invocations(fired + [e], cancelled, raises) == Invocations(fired, cancelled, raises) + Invocation(e, cancelled, raises)
  {
    assert (fired + [e])[..|fired|] == fired;
  }

  /**
   * Invoking fired entries calls exactly the uncancelled tasks among them, each
   * with its own outcome: a cancelled task's function is never called.
   */
  lemma {:induction false} InvocationsExactly(fired: seq<Entry>, cancelled: seq<bool>, raises: TaskId -> bool)
    requires forall k :: 0 <= k < |fired| ==> fired[k].task < |cancelled|
    ensures forall c :: c in Invocations(fired, cancelled, raises) ==>
      c.task < |cancelled| && !cancelled[c.task] && c.raised == raises(c.task) &&
      exists k :: 0 <= k < |fired| && fired[k].task == c.task
    ensures forall k :: 0 <= k < |fired| && !cancelled[fired[k].task] ==>
      Call(fired[k].task, raises(fired[k].task)) in Invocations(fired, cancelled, raises)
  {
    if fired != [] {
      var init := fired[..|fired| - 1];
      InvocationsExactly(init, cancelled, raises);
      forall c | c in Invocations(fired, cancelled, raises)
        ensures exists k :: 0 <= k < |fired| && fired[k].task == c.task
      {
        if c in Invocations(init, cancelled, raises) {
          var k :| 0 <= k < |init| && init[k].task == c.task;
          assert fired[k] == init[k];
        } else {
          assert fired[|fired| - 1].task == c.task;
        }
      }
      forall k | 0 <= k < |fired| && !cancelled[fired[k].task]
        ensures Call(fired[k].task, raises(fired[k].task)) in Invocations(fired, cancelled, raises)
      {
        if k < |init| {
          assert init[k] == fired[k];
        }
      }
    }
  }

  /**
   * Once a task is cancelled, no later invocation of any fired entries calls
   * it, while every other task is called exactly as before.
   */
  lemma {:induction false} CancelIsFinal(fired: seq<Entry>, cancelled: seq<bool>, handle: TaskId, raises: TaskId -> bool)
    requires handle < |cancelled|
    requires forall k :: 0 <= k < |fired| ==> fired[k].task < |cancelled|
    ensures forall c :: c in Invocations(fired, cancelled[handle := true], raises) ==> c.task != handle
    ensures forall k :: 0 <= k < |fired| && fired[k].task != handle && !cancelled[fired[k].task] ==>
      Call(fired[k].task, raises(fired[k].task)) in Invocations(fired, cancelled[handle := true], raises)
  {
    InvocationsExactly(fired, cancelled[handle := true], raises);
  }

  /**
   * What a pass of the scheduler's inner loop has done so far, starting from a
   * heap holding `start` and leaving `rest`: the entries it fired, in order,
   * each due at the clock reading of its own check, none above what is left,
   * and each naming a task with a cancellation flag.
   */
  ghost predicate FiredFrom(fired: seq<Entry>, rest: multiset<Entry>, start: multiset<Entry>, clock: nat -> int, tasks: nat)
  {
    && rest + multiset(fired) == start
    && (forall k :: 0 <= k < |fired| ==> fired[k].deadline <= clock(k) + TimerFudge)
    && (forall j, k :: 0 <= j < k < |fired| ==> Le(fired[j], fired[k]))
    && (fired != [] ==> forall x :: x in rest ==> Le(fired[|fired| - 1], x))
    && (forall k :: 0 <= k < |fired| ==> fired[k].task < tasks)
  }

  /** Firing a least, due entry of what is left extends a pass. */
  lemma FiredStep(fired: seq<Entry>, rest: multiset<Entry>, e: Entry, start: multiset<Entry>, clock: nat -> int, tasks: nat)
    requires FiredFrom(fired, rest + multiset{e}, start, clock, tasks)
    requires forall x :: x in rest ==> Le(e, x)
    requires e.deadline <= clock(|fired|) + TimerFudge && e.task < tasks
    ensures FiredFrom(fired + [e], rest, start, clock, tasks)
  {
    var f := fired + [e];
    assert rest + multiset(f) == rest + multiset{e} + multiset(fired);
    forall j, k | 0 <= j < k < |f|
      ensures Le(f[j], f[k])
    {
      if k == |fired| {
        assert e in rest + multiset{e};
      } else {
        assert f[j] == fired[j] && f[k] == fired[k];
      }
    }
  }

  /** In a pass, every entry fired is at or below every entry left. */
  lemma FiredBelowRest(fired: seq<Entry>, rest: multiset<Entry>, start: multiset<Entry>, clock: nat -> int, tasks: nat)
    requires FiredFrom(fired, rest, start, clock, tasks)
    ensures forall k, x :: 0 <= k < |fired| && x in rest ==> Le(fired[k], x)
  {
    forall k, x | 0 <= k < |fired| && x in rest
      ensures Le(fired[k], x)
    {
      var last := fired[|fired| - 1];
      assert Le(last, x);
      if k < |fired| - 1 {
        assert Le(fired[k], last);
      }
    }
  }

  /** The scheduler thread: its intake queue, the heap, the cancellation flags and the calls it made. */
  class TimerThread {
    const heap: Heap
    var intake: seq<Entry>
    var cancelled: seq<bool>
    var calls: seq<Call>

    /** Every queued or heaped entry names a task that has a cancellation flag. */
    ghost predicate Valid()
      reads this, heap, heap.a
    {
      && heap.Valid()
      && (forall e :: e in heap.Contents() ==> e.task < |cancelled|)
      && (forall k :: 0 <= k < |intake| ==> intake[k].task < |cancelled|)
    }

    constructor ()
      ensures Valid() && fresh(heap) && fresh(heap.a)
      ensures heap.Contents() == multiset{} && intake == [] && cancelled == [] && calls == []
    {
      heap := new Heap();
      intake := [];
      cancelled := [];
      calls := [];
    }

    /**
     * Schedules a new task `timeout` ticks after `now`: queues exactly one
     * entry for it and returns the handle that cancels it.
     */
    method Add(timeout: int, now: int) returns (handle: TaskId)
      requires Valid()
      modifies this
      ensures Valid()
      ensures handle == |old(cancelled)|
      ensures cancelled == old(cancelled) + [false]
      ensures intake == old(intake) + [Entry(now + timeout, handle)]
      ensures calls == old(calls)
    {
      handle := |cancelled|;
      cancelled := cancelled + [false];
      intake := intake + [Entry(now + timeout, handle)];
    }

    /** Sets the task's cancellation flag; its entry stays where it is. */
    method Cancel(handle: TaskId)
      requires Valid() && handle < |cancelled|
      modifies this
      ensures Valid()
      ensures cancelled == old(cancelled)[handle := true]
      ensures intake == old(intake) && calls == old(calls)
    {
      cancelled := cancelled[handle := true];
    }

    /** Invokes a task: its function is called once unless the task was cancelled. */
    method Invoke(e: Entry, raises: TaskId -> bool)
      requires e.task < |cancelled|
      modifies this`calls
      ensures calls == old(calls) + Invocation(e, cancelled, raises)
    {
      if !cancelled[e.task] {
        calls := calls + [Call(e.task, raises(e.task))];
      }
    }

    /** Pops the first entry of the heap and invokes its task. */
    method FireFirst(raises: TaskId -> bool) returns (e: Entry)
      requires Valid() && !heap.IsEmpty()
      modifies this`calls, heap, heap.a
      ensures Valid() && heap.a == old(heap.a) && heap.n == old(heap.n) - 1
      ensures cancelled == old(cancelled) && intake == old(intake)
      ensures e.task < |cancelled|
      ensures forall x :: x in old(heap.Contents()) ==> Le(e, x)
      ensures heap.Contents() + multiset{e} == old(heap.Contents())
      ensures calls == old(calls) + Invocation(e, cancelled, raises)
    {
      e := heap.Pop();
      Invoke(e, raises);
    }

    /** What a pass of the scheduler's inner loop has done so far, as the state invariant of the pass. */
    ghost predicate Fired(fired: seq<Entry>, start: multiset<Entry>, clock: nat -> int)
      reads this, heap, heap.a
    {
      Valid() && FiredFrom(fired, heap.Contents(), start, clock, |cancelled|)
    }

    /** One iteration of the inner loop: fires the first entry, which is due. */
    method FireDue(fired: seq<Entry>, ghost start: multiset<Entry>, clock: nat -> int, raises: TaskId -> bool, ghost before: seq<Call>)
      returns (fired': seq<Entry>)
      requires Fired(fired, start, clock)
      requires !heap.IsEmpty() && heap.First().deadline <= clock(|fired|) + TimerFudge
      requires calls == before + Invocations(fired, cancelled, raises)
      modifies this`calls, heap, heap.a
      ensures heap.a == old(heap.a) && cancelled == old(cancelled) && intake == old(intake)
      ensures Fired(fired', start, clock) && heap.n < old(heap.n)
      ensures calls == before + Invocations(fired', cancelled, raises)
    {
      ghost var due := heap.First();
      ghost var rest := heap.Contents();
      var e := FireFirst(raises);
      assert e == due by {
        assert Le(e, due) && Le(due, e);
      }
      FiredStep(fired, heap.Contents(), e, start, clock, |cancelled|);
      InvocationsSnoc(fired, e, cancelled, raises);
      fired' := fired + [e];
      assert calls == before + Invocations(fired', cancelled, raises) by {
        AppendAssoc(before, Invocations(fired, cancelled, raises), Invocation(e, cancelled, raises));
      }
    }

    /**
     * One pass of the inner loop of the scheduler: pops and invokes entries
     * while the least deadline is due at the clock reading of that check,
     * and stops at the first entry that is not due. `clock(k)` is the time
     * read by the `k`-th check of the pass.
     */
    method Drain(clock: nat -> int, raises: TaskId -> bool) returns (fired: seq<Entry>)
      requires Valid()
      modifies this`calls, heap, heap.a
      ensures Valid() && heap.a == old(heap.a)
      ensures cancelled == old(cancelled) && intake == old(intake)
      ensures heap.Contents() + multiset(fired) == old(heap.Contents())
      ensures forall k :: 0 <= k < |fired| ==> fired[k].deadline <= clock(k) + TimerFudge
      ensures forall j, k :: 0 <= j < k < |fired| ==> Le(fired[j], fired[k])
      ensures forall k, x :: 0 <= k < |fired| && x in heap.Contents() ==> Le(fired[k], x)
      ensures forall e :: e in heap.Contents() ==> clock(|fired|) + TimerFudge < e.deadline
      ensures calls == old(calls) + Invocations(fired, cancelled, raises)
    {
      fired := [];
      ghost var start := heap.Contents();
      ghost var before := calls;
      while heap.FirstDue(clock(|fired|) + TimerFudge)
        invariant Fired(fired, start, clock)
        invariant heap.a == old(heap.a) && cancelled == old(cancelled) && intake == old(intake)
        invariant calls == before + Invocations(fired, cancelled, raises)
        decreases heap.n
      {
        fired := FireDue(fired, start, clock, raises, before);
      }
      FiredBelowRest(fired, heap.Contents(), start, clock, |cancelled|);
    }

    /**
     * Takes the next entry, if any, off the intake queue and pushes it onto
     * the heap: an entry is always a non-empty pair, so it is never dropped.
     */
    method Receive()
      requires Valid()
      modifies this`intake, heap, heap.a
      ensures Valid() && (heap.a == old(heap.a) || fresh(heap.a))
      ensures cancelled == old(cancelled) && calls == old(calls)
      ensures old(intake) == [] ==> intake == [] && heap.Contents() == old(heap.Contents())
      ensures old(intake) != [] ==>
        intake == old(intake)[1..] && heap.Contents() == old(heap.Contents()) + multiset{old(intake)[0]}
    {
      if intake != [] {
        var item := intake[0];
        intake := intake[1..];
        heap.Put(item);
      }
    }

    /**
     * The timeout the scheduler waits for its intake with: none when the heap
     * is empty, otherwise the deadline of the first entry itself.
     */
    function NextTimeout(): (r: Option<int>)
      reads this, heap, heap.a
      requires Valid()
      ensures r.None? <==> heap.Contents() == multiset{}
      ensures r.Some? ==> Entry(r.value, heap.First().task) in heap.Contents()
      ensures r.Some? ==> forall x :: x in heap.Contents() ==> r.value <= x.deadline
    {
      if heap.IsEmpty() then None else Some(heap.First().deadline)
    }
  }
}
