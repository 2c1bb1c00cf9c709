/**
  The order in which tasks fire within a tick of the wheel.  A task that fires before another was
  armed before it, unless it has been re-armed with an interval that is a multiple of 60 ticks: such
  a task goes back into the slot that is being handled, ahead of tasks that were armed long ago and
  wait there for another turn.
*/
module WheelOrder {
  import opened WheelModel
  import opened WheelRuns

  // ---------------------------------------------------------------- in the order of arming

  /** Re-armed, into the slot that it was fired from. */
  predicate Recurs(s: TaskState) {
    s.runs > 0 && s.setInterval % SLOTNUM == 0
  }

  /** Earlier-armed tasks come first, but for tasks that recur. */
  ghost predicate InOrder<T>(tasks: map<T, TaskState>, s: seq<T>) {
    forall i, j :: 0 <= i < j < |s| && s[i] in tasks && s[j] in tasks ==>
      tasks[s[i]].serial < tasks[s[j]].serial || Recurs(tasks[s[i]])
  }

  ghost predicate Ordered<T>(w: Wheel<T>) {
    forall b :: 0 <= b < |w.slots| ==> InOrder(w.tasks, w.slots[b])
  }

  ghost predicate OrderedDuring<T>(w: Wheel<T>, pending: seq<T>)
    requires 0 <= w.curTick < |w.slots|
  {
    Ordered(w) && InOrder(w.tasks, w.slots[w.curTick] + pending)
  }

  /** t was armed after all of these. */
  ghost predicate Newest<T>(tasks: map<T, TaskState>, s: seq<T>, t: T) {
    forall i :: 0 <= i < |s| && s[i] in tasks && t in tasks ==> tasks[s[i]].serial < tasks[t].serial
  }

  lemma InOrderAppend<T>(tasks: map<T, TaskState>, s: seq<T>, t: T)
    requires InOrder(tasks, s) && Newest(tasks, s, t)
    ensures InOrder(tasks, s + [t])
  {}

  lemma InOrderInsert<T>(tasks: map<T, TaskState>, a: seq<T>, t: T, b: seq<T>)
    requires InOrder(tasks, a + b) && Newest(tasks, a, t)
    requires t in tasks ==> Recurs(tasks[t])
    ensures InOrder(tasks, a + [t] + b)
  {
    var long, short := a + [t] + b, a + b;
    forall i, j | 0 <= i < j < |long| && long[i] in tasks && long[j] in tasks
      ensures tasks[long[i]].serial < tasks[long[j]].serial || Recurs(tasks[long[i]])
    {
      if i != |a| && j != |a| {
        var i', j' := if i < |a| then i else i - 1, if j < |a| then j else j - 1;
        assert short[i'] == long[i] && short[j'] == long[j];
      }
    }
  }

  lemma InOrderDrop<T>(tasks: map<T, TaskState>, a: seq<T>, t: T, b: seq<T>)
    requires InOrder(tasks, a + [t] + b)
    ensures InOrder(tasks, a + b)
  {
    var long, short := a + [t] + b, a + b;
    forall i, j | 0 <= i < j < |short| && short[i] in tasks && short[j] in tasks
      ensures tasks[short[i]].serial < tasks[short[j]].serial || Recurs(tasks[short[i]])
    {
      var i', j' := if i < |a| then i else i + 1, if j < |a| then j else j + 1;
      assert long[i'] == short[i] && long[j'] == short[j];
    }
  }

  /** The tasks of s keep their serial numbers, and those that recur go on to. */
  ghost predicate SameOrder<T>(before: map<T, TaskState>, after: map<T, TaskState>, s: seq<T>) {
    forall i :: 0 <= i < |s| && s[i] in after ==>
      && s[i] in before && after[s[i]].serial == before[s[i]].serial
      && (Recurs(before[s[i]]) ==> Recurs(after[s[i]]))
  }

  lemma InOrderCongruent<T>(before: map<T, TaskState>, after: map<T, TaskState>, s: seq<T>)
    requires InOrder(before, s) && SameOrder(before, after, s)
    ensures InOrder(after, s)
  {}

  lemma AddKeepsOrder<T>(w: Wheel<T>, t: T, setInterval: int, times: int)
    requires Valid(w) && Ordered(w) && t !in w.tasks && 0 <= setInterval
    ensures Ordered(AddTask(w, t, setInterval, times))
  {
    var w' := AddTask(w, t, setInterval, times);
    forall b | 0 <= b < SLOTNUM ensures InOrder(w'.tasks, w'.slots[b]) {
      assert InOrder(w.tasks, w.slots[b]);
      InOrderCongruent(w.tasks, w'.tasks, w.slots[b]);
      InOrderAppend(w'.tasks, w.slots[b], t);
    }
  }

  lemma RemoveKeepsOrder<T>(w: Wheel<T>, t: T)
    requires Valid(w) && Ordered(w)
    ensures Ordered(RemoveTask(w, t))
  {
    if t in w.tasks {
      var w', s := RemoveTask(w, t), w.slots[w.tasks[t].setTick];
      var k := EraseSplits(s, t);
      forall b | 0 <= b < SLOTNUM ensures InOrder(w'.tasks, w'.slots[b]) {
        assert InOrder(w.tasks, w.slots[b]);
        if b == w.tasks[t].setTick {
          assert s == s[..k] + [t] + s[k + 1..];
          InOrderDrop(w.tasks, s[..k], t, s[k + 1..]);
        }
        InOrderCongruent(w.tasks, w'.tasks, w'.slots[b]);
      }
    }
  }

  // One pass of the loop.

  lemma WaitKeepsOrder<T>(w: Wheel<T>, pending: seq<T>)
    requires ValidDuring(w, pending) && pending != [] && OrderedDuring(w, pending)
    requires Visit(w.curTick, w.tasks[pending[0]]).Waits?
    ensures OrderedDuring(HandleOne(w, pending[0]), pending[1..])
  {
    var t, rest, cur := pending[0], pending[1..], w.slots[w.curTick];
    var w' := HandleOne(w, t);
    assert cur + pending == cur + [t] + rest;
    InOrderCongruent(w.tasks, w'.tasks, cur + [t] + rest);
    InOrderPrefix(w'.tasks, cur + [t], rest);
    forall b | 0 <= b < SLOTNUM ensures InOrder(w'.tasks, w'.slots[b]) {
      assert InOrder(w.tasks, w.slots[b]);
      if b == w.curTick {
        assert w'.slots[b] == cur + [t];
      } else {
        InOrderCongruent(w.tasks, w'.tasks, w.slots[b]);
      }
    }
  }

  lemma FinishKeepsOrder<T>(w: Wheel<T>, pending: seq<T>)
    requires ValidDuring(w, pending) && pending != [] && OrderedDuring(w, pending)
    requires Visit(w.curTick, w.tasks[pending[0]]) == Finished
    ensures OrderedDuring(HandleOne(w, pending[0]), pending[1..])
  {
    var t, rest, cur := pending[0], pending[1..], w.slots[w.curTick];
    var w' := HandleOne(w, t);
    assert cur + pending == cur + [t] + rest;
    InOrderDrop(w.tasks, cur, t, rest);
    forall b | 0 <= b < SLOTNUM ensures InOrder(w'.tasks, w'.slots[b]) {
      assert InOrder(w.tasks, w.slots[b]);
      InOrderCongruent(w.tasks, w'.tasks, w.slots[b]);
    }
    InOrderCongruent(w.tasks, w'.tasks, cur + rest);
  }

  /** A task re-armed into the slot being handled has a multiple of 60 ticks for its interval. */
  lemma BackIntoSlot(curTick: int, interval: int)
    requires 0 <= curTick < SLOTNUM
    ensures (curTick + interval) % SLOTNUM == curTick <==> interval % SLOTNUM == 0
  {}

  lemma RearmKeepsOrder<T>(w: Wheel<T>, pending: seq<T>)
    requires ValidDuring(w, pending) && pending != [] && OrderedDuring(w, pending)
    requires Visit(w.curTick, w.tasks[pending[0]]).Rearmed?
    ensures OrderedDuring(HandleOne(w, pending[0]), pending[1..])
  {
    var t, rest, cur := pending[0], pending[1..], w.slots[w.curTick];
    var w' := HandleOne(w, t);
    var c := w'.tasks[t].setTick;
    assert cur + pending == cur + [t] + rest;
    InOrderDrop(w.tasks, cur, t, rest);
    assert t !in rest;
    forall b | 0 <= b < SLOTNUM ensures InOrder(w'.tasks, w'.slots[b]) {
      assert InOrder(w.tasks, w.slots[b]) && t !in w.slots[b];
      InOrderCongruent(w.tasks, w'.tasks, w.slots[b]);
      InOrderAppend(w'.tasks, w.slots[b], t);
    }
    InOrderCongruent(w.tasks, w'.tasks, cur + rest);
    BackIntoSlot(w.curTick, w'.tasks[t].setInterval);
    if c == w.curTick { InOrderInsert(w'.tasks, cur, t, rest); }
  }

  lemma HandleOneKeepsOrder<T>(w: Wheel<T>, pending: seq<T>)
    requires ValidDuring(w, pending) && pending != [] && OrderedDuring(w, pending)
    ensures OrderedDuring(HandleOne(w, pending[0]), pending[1..])
  {
    match Visit(w.curTick, w.tasks[pending[0]])
    case Waits(_) => WaitKeepsOrder(w, pending);
    case Rearmed(_) => RearmKeepsOrder(w, pending);
    case Finished => FinishKeepsOrder(w, pending);
  }

  lemma InOrderPrefix<T>(tasks: map<T, TaskState>, a: seq<T>, b: seq<T>)
    requires InOrder(tasks, a + b)
    ensures InOrder(tasks, a)
  {
    forall i, j | 0 <= i < j < |a| && a[i] in tasks && a[j] in tasks
      ensures tasks[a[i]].serial < tasks[a[j]].serial || Recurs(tasks[a[i]])
    {
      assert (a + b)[i] == a[i] && (a + b)[j] == a[j];
    }
  }

  lemma {:induction false} HandleAllKeepsOrder<T>(w: Wheel<T>, pending: seq<T>, fired: seq<T>)
    requires ValidDuring(w, pending) && OrderedDuring(w, pending)
    ensures Ordered(HandleAll(w, pending, fired).0)
    decreases |pending|
  {
    if pending != [] {
      HandleOneKeepsOrder(w, pending);
      HandleOneValid(w, pending);
      HandleAllKeepsOrder(HandleOne(w, pending[0]), pending[1..],
        if Visit(w.curTick, w.tasks[pending[0]]).Waits? then fired else fired + [pending[0]]);
    }
  }

  /** Elements that come after x may be listed after it. */
  lemma InOrderCons<T>(tasks: map<T, TaskState>, x: T, f: seq<T>, rest: seq<T>)
    requires InOrder(tasks, [x] + rest) && InOrder(tasks, f)
    requires forall j :: 0 <= j < |f| ==> f[j] in rest
    ensures InOrder(tasks, [x] + f)
  {
    var s := [x] + rest;
    forall j | 0 <= j < |f| && x in tasks && f[j] in tasks
      ensures tasks[x].serial < tasks[f[j]].serial || Recurs(tasks[x])
    {
      var i :| 0 <= i < |rest| && rest[i] == f[j];
      assert s[0] == x && s[i + 1] == f[j];
    }
  }

  lemma {:induction false} FireOrderWithin<T>(curTick: int, tasks: map<T, TaskState>, pending: seq<T>)
    requires forall i :: 0 <= i < |pending| ==> pending[i] in tasks
    ensures forall j :: 0 <= j < |FireOrder(curTick, tasks, pending)| ==>
                          FireOrder(curTick, tasks, pending)[j] in pending
    decreases |pending|
  {
    if pending != [] {
      var rest := pending[1..];
      FireOrderWithin(curTick, tasks, rest);
      var g := FireOrder(curTick, tasks, rest);
      assert forall j :: 0 <= j < |g| ==> g[j] in rest;
      assert FireOrder(curTick, tasks, pending) == g || FireOrder(curTick, tasks, pending) == [pending[0]] + g;
    }
  }

  lemma {:induction false} FireOrderInOrder<T>(curTick: int, tasks: map<T, TaskState>, pending: seq<T>)
    requires forall i :: 0 <= i < |pending| ==> pending[i] in tasks
    requires InOrder(tasks, pending)
    ensures InOrder(tasks, FireOrder(curTick, tasks, pending))
    decreases |pending|
  {
    if pending != [] {
      var x, rest := pending[0], pending[1..];
      assert [] + [x] + rest == pending && [] + rest == rest && [x] + rest == pending;
      InOrderDrop(tasks, [], x, rest);
      FireOrderInOrder(curTick, tasks, rest);
      FireOrderWithin(curTick, tasks, rest);
      InOrderCons(tasks, x, FireOrder(curTick, tasks, rest), rest);
      assert [] + FireOrder(curTick, tasks, rest) == FireOrder(curTick, tasks, rest);
    }
  }

  /**
    Of two tasks that fire on a tick, the first was armed first, whatever the intervals, unless it
    recurs.
  */
  lemma TickFiresInOrder<T>(w: Wheel<T>)
    requires Valid(w) && Ordered(w)
    ensures Ordered(OnTick(w).0) && InOrder(w.tasks, OnTick(w).1)
  {
    var cur := NextTick(w.curTick);
    var pending := w.slots[cur];
    AdvanceValid(w);
    assert OrderedDuring(Advance(w), pending) by {
      assert Advance(w).slots[cur] + pending == pending;
    }
    HandleAllKeepsOrder(Advance(w), pending, []);
    TickFires(w);
    FireOrderInOrder(cur, w.tasks, pending);
  }

  /** The order holds in every state of every run that starts from an ordered wheel. */
  lemma {:induction false} RunKeepsOrder<T>(w: Wheel<T>, ops: seq<Op<T>>)
    requires Valid(w) && Ordered(w) && LegalRun(w, ops)
    ensures Ordered(Run(w, ops))
    decreases |ops|
  {
    if ops != [] {
      StepKeepsOrder(w, ops[0]);
      RunKeepsOrder(Apply(w, ops[0]).0, ops[1..]);
    }
  }

  lemma StepKeepsOrder<T>(w: Wheel<T>, op: Op<T>)
    requires Valid(w) && Ordered(w) && Legal(w, op)
    ensures Ordered(Apply(w, op).0)
  {
    match op
    case Add(t, interval, times, _) => if Accepted(op) { AddKeepsOrder(w, t, interval, times); }
    case Remove(t) => RemoveKeepsOrder(w, t);
    case Tick => TickFiresInOrder(w);
  }
}
