/**
  The work queue of an event loop (include/ndsl/utils/WorkQueue.h).  Each method body is one
  critical section of the queue's mutex, except Doit, which runs its batch outside of it.
*/
module WorkQueue {
  import opened Basics
  import opened Sequences

  /** The queue without the first occurrence of an item. */
  function Without<T(==)>(q: seq<T>, item: T): seq<T> {
    DropFirst(q, x => x, item)
  }

  lemma WithoutAt<T>(q: seq<T>, item: T, i: nat)
    requires i < |q| && q[i] == item && item !in q[..i]
    ensures Without(q, item) == q[..i] + q[i + 1..]
  {
    assert forall j :: 0 <= j < i ==> q[j] == q[..i][j];
    DropFirstAt(q, x => x, item, i);
  }

  /** Exactly one occurrence goes, and none if there is none. */
  lemma {:induction false} WithoutCounts<T>(q: seq<T>, item: T)
    ensures multiset(Without(q, item)) == multiset(q) - multiset{item}
    ensures item !in q ==> Without(q, item) == q
    decreases |q|
  {
    if q != [] {
      assert q == [q[0]] + q[1..];
      WithoutCounts(q[1..], item);
    }
  }

  /** The queue after the items of a batch have run; `react` tells what each makes of the queue it finds. */
  ghost function Reacted<T>(react: (T, seq<T>) -> seq<T>, batch: seq<T>): seq<T>
    decreases |batch|
  {
    if batch == [] then [] else react(batch[|batch| - 1], Reacted(react, batch[..|batch| - 1]))
  }

  /** Items that only enqueue leave what they enqueued, in order. */
  ghost function Spawned<T>(spawn: T -> seq<T>, batch: seq<T>): seq<T>
    decreases |batch|
  {
    if batch == [] then [] else Spawned(spawn, batch[..|batch| - 1]) + spawn(batch[|batch| - 1])
  }

  lemma {:induction false} EnqueuingItems<T>(react: (T, seq<T>) -> seq<T>, spawn: T -> seq<T>, batch: seq<T>)
    requires forall i, q :: 0 <= i < |batch| ==> react(batch[i], q) == q + spawn(batch[i])
    ensures Reacted(react, batch) == Spawned(spawn, batch)
    decreases |batch|
  {
    if batch != [] { EnqueuingItems(react, spawn, batch[..|batch| - 1]); }
  }

  class WorkQueue<T(==)> {
    var queue: seq<T>

    constructor ()
      ensures queue == []
    {
      queue := [];
    }

    method Enqueue(item: T)
      modifies this
      ensures queue == old(queue) + [item]
    {
      queue := queue + [item];
    }

    /** Removes one item; the answer says whether it was there. */
    method DequeueItem(item: T) returns (ok: bool)
      modifies this
      ensures ok == (item in old(queue))
      ensures queue == Without(old(queue), item)
      ensures multiset(queue) == multiset(old(queue)) - multiset{item}
    {
      WithoutCounts(queue, item);
      var i := 0;
      while i < |queue|
        invariant i <= |queue| && item !in queue[..i] && queue == old(queue)
      {
        if queue[i] == item {
          WithoutAt(queue, item, i);
          queue := queue[..i] + queue[i + 1..];
          return true;
        }
        i := i + 1;
      }
      return false;
    }

    method Dequeue() returns (item: Option<T>)
      modifies this
      ensures old(queue) == [] ==> item == None && queue == []
      ensures old(queue) != [] ==> item.Some? && [item.value] + queue == old(queue)
    {
      if queue == [] { return None; }
      item := Some(queue[0]);
      queue := queue[1..];
    }

    /**
      Takes the whole queue and runs it; `react` is what each item makes of the queue while it runs.
      Nothing that a callback does can change what runs this time, and what it leaves in the queue is
      kept for the next time.
    */
    method Doit(react: (T, seq<T>) -> seq<T>) returns (executed: seq<T>)
      modifies this
      ensures executed == old(queue)
      ensures queue == Reacted(react, old(queue))
    {
      var batch := queue;
      queue := [];
      executed := [];
      while batch != []
        invariant executed + batch == old(queue)
        invariant queue == Reacted(react, executed)
        decreases |batch|
      {
        var work := batch[0];
        batch := batch[1..];
        assert (executed + [work])[..|executed|] == executed;
        queue := react(work, queue);
        executed := executed + [work];
      }
    }
  }
}
