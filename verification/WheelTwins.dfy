/**
  Two tasks of the wheel with the same countdown, one ahead of the other in their slot, stay so;
  and from that, when exactly tasks fire in the order in which they were armed.
*/
module WheelTwins {
  import opened WheelModel
  import opened WheelRuns
  import opened WheelOrder

  /** a comes before b. */
  ghost predicate Before<T>(s: seq<T>, a: T, b: T) {
    exists i, j :: 0 <= i < j < |s| && s[i] == a && s[j] == b
  }

  lemma BeforeAppend<T>(s: seq<T>, x: T, a: T, b: T)
    ensures Before(s, a, b) ==> Before(s + [x], a, b)
    ensures a in s && x == b ==> Before(s + [x], a, b)
  {
    if Before(s, a, b) {
      var i, j :| 0 <= i < j < |s| && s[i] == a && s[j] == b;
      assert (s + [x])[i] == a && (s + [x])[j] == b;
    }
    if a in s && x == b {
      var i :| 0 <= i < |s| && s[i] == a;
      assert (s + [x])[i] == a && (s + [x])[|s|] == b;
    }
  }

  lemma BeforeTail<T>(s: seq<T>, a: T, b: T)
    requires s != [] && Before(s, a, b)
    ensures Before(s[1..], a, b) || (s[0] == a && b in s[1..])
  {
    var i, j :| 0 <= i < j < |s| && s[i] == a && s[j] == b;
    assert s[1..][j - 1] == b;
    if i > 0 { assert s[1..][i - 1] == a; }
  }

  // ---------------------------------------------------------------- through one tick

  /** The slot that a pending task is put into, or none. */
  ghost function Target(curTick: int, s: TaskState): int {
    match Visit(curTick, s)
    case Waits(_) => curTick
    case Rearmed(s') => s'.setTick
    case Finished => -1
  }

  /** Of a and b, bound for slot c, a is put there first. */
  ghost predicate Heading<T>(w: Wheel<T>, pending: seq<T>, a: T, b: T, c: int)
    requires 0 <= c < |w.slots|
  {
    && (a in pending && a in w.tasks ==> Target(w.curTick, w.tasks[a]) == c)
    && (b in pending && b in w.tasks ==> Target(w.curTick, w.tasks[b]) == c)
    && (Before(pending, a, b) || (a in w.slots[c] && b in pending) || Before(w.slots[c], a, b))
  }

  lemma PassKeepsHeading<T>(w: Wheel<T>, pending: seq<T>, a: T, b: T, c: int)
    requires ValidDuring(w, pending) && pending != [] && 0 <= c < SLOTNUM && a != b
    requires Heading(w, pending, a, b, c)
    ensures Heading(HandleOne(w, pending[0]), pending[1..], a, b, c)
  {
    var t, rest := pending[0], pending[1..];
    var w' := HandleOne(w, t);
    assert t !in rest && forall x :: x in rest ==> x in pending;
    assert w'.slots[c] == w.slots[c] || w'.slots[c] == w.slots[c] + [t];
    BeforeAppend(w.slots[c], t, a, b);
    if Before(pending, a, b) {
      BeforeTail(pending, a, b);
    } else if !Before(w.slots[c], a, b) {
      assert t != b ==> b in rest;
    }
  }

  lemma {:induction false} LoopKeepsHeading<T>(w: Wheel<T>, pending: seq<T>, fired: seq<T>, a: T, b: T, c: int)
    requires ValidDuring(w, pending) && 0 <= c < SLOTNUM && a != b && Heading(w, pending, a, b, c)
    ensures |HandleAll(w, pending, fired).0.slots| == SLOTNUM && Before(HandleAll(w, pending, fired).0.slots[c], a, b)
    decreases |pending|
  {
    if pending != [] {
      PassKeepsHeading(w, pending, a, b, c);
      HandleOneValid(w, pending);
      LoopKeepsHeading(HandleOne(w, pending[0]), pending[1..],
        if Visit(w.curTick, w.tasks[pending[0]]).Waits? then fired else fired + [pending[0]], a, b, c);
    }
  }

  lemma {:induction false} FireOrderBefore<T>(curTick: int, tasks: map<T, TaskState>, pending: seq<T>, a: T, b: T)
    requires forall i :: 0 <= i < |pending| ==> pending[i] in tasks
    requires Before(pending, a, b) && !Visit(curTick, tasks[a]).Waits? && !Visit(curTick, tasks[b]).Waits?
    ensures Before(FireOrder(curTick, tasks, pending), a, b)
    decreases |pending|
  {
    var rest := pending[1..];
    var f := FireOrder(curTick, tasks, rest);
    if Before(rest, a, b) {
      FireOrderBefore(curTick, tasks, rest, a, b);
      var i, j :| 0 <= i < j < |f| && f[i] == a && f[j] == b;
      assert ([pending[0]] + f)[i + 1] == a && ([pending[0]] + f)[j + 1] == b;
      assert FireOrder(curTick, tasks, pending) == [pending[0]] + f || FireOrder(curTick, tasks, pending) == f;
    } else {
      BeforeTail(pending, a, b);
      FireOrderMembers(curTick, tasks, rest);
      assert b in f;
      var j :| 0 <= j < |f| && f[j] == b;
      assert ([a] + f)[0] == a && ([a] + f)[j + 1] == b;
    }
  }

  /** Both are armed with the same countdown, a ahead of b in their slot. */
  ghost predicate Paired<T>(w: Wheel<T>, a: T, b: T)
    requires Valid(w)
  {
    && a in w.tasks && b in w.tasks && a != b
    && Remaining(w.curTick, w.tasks[a]) == Remaining(w.curTick, w.tasks[b])
    && w.tasks[a].setTick == w.tasks[b].setTick && Before(w.slots[w.tasks[a].setTick], a, b)
  }

  /** How the states of a pair change on a tick that they do not fire on. */
  lemma PairWaits<T>(w: Wheel<T>, a: T, b: T)
    requires Valid(w) && Paired(w, a, b) && Remaining(w.curTick, w.tasks[a]) > 1
    ensures var w' := OnTick(w).0;
            && Valid(w') && Paired(w', a, b) && a !in OnTick(w).1 && b !in OnTick(w).1
            && w'.tasks[a].serial == w.tasks[a].serial && w'.tasks[b].serial == w.tasks[b].serial
            && w'.tasks[a].setInterval == w.tasks[a].setInterval && w'.tasks[b].setInterval == w.tasks[b].setInterval
            && Remaining(w'.curTick, w'.tasks[a]) == Remaining(w.curTick, w.tasks[a]) - 1
  {
    var cur, c := NextTick(w.curTick), w.tasks[a].setTick;
    TickOnTask(w, a);
    TickOnTask(w, b);
    TickKeepsValid(w);
    VisitCounts(w.curTick, w.tasks[a]);
    VisitCounts(w.curTick, w.tasks[b]);
    AdvanceValid(w);
    HandleAllTasks(Advance(w), w.slots[cur], []);
    LoopKeepsHeading(Advance(w), w.slots[cur], [], a, b, c);
  }

  lemma PairFiresInOrder<T>(w: Wheel<T>, a: T, b: T)
    requires Valid(w) && Paired(w, a, b) && Remaining(w.curTick, w.tasks[a]) == 1
    ensures Before(OnTick(w).1, a, b)
  {
    VisitCounts(w.curTick, w.tasks[a]);
    VisitCounts(w.curTick, w.tasks[b]);
    TickFires(w);
    FireOrderBefore(NextTick(w.curTick), w.tasks, w.slots[NextTick(w.curTick)], a, b);
  }

  lemma DueState<T>(w: Wheel<T>, t: T)
    requires Valid(w) && t in w.tasks && Remaining(w.curTick, w.tasks[t]) == 1
    ensures var cur, w', i := NextTick(w.curTick), OnTick(w).0, w.tasks[t].setInterval;
            && w.tasks[t].setTick == cur == w'.curTick
            && (t in w'.tasks <==> AfterFiring(w.tasks[t].times) != 0)
            && (t in w'.tasks ==> w.nextSerial <= w'.tasks[t].serial)
            && (t in w'.tasks ==>
                  && Target(cur, w.tasks[t]) == w'.tasks[t].setTick == (cur + i) % SLOTNUM
                  && w'.tasks[t].setInterval == i && Remaining(cur, w'.tasks[t]) == Period(i))
  {
    TickOnTask(w, t);
    VisitCounts(w.curTick, w.tasks[t]);
    AdvanceValid(w);
    HandleAllTasks(Advance(w), w.slots[NextTick(w.curTick)], []);
    HandleAllValid(Advance(w), w.slots[NextTick(w.curTick)], []);
  }

  /** A pair fires together, a first, and if both are re-armed with one interval they are a pair again. */
  lemma PairFires<T>(w: Wheel<T>, a: T, b: T)
    requires Valid(w) && Paired(w, a, b) && Remaining(w.curTick, w.tasks[a]) == 1
    ensures var w' := OnTick(w).0;
            && Valid(w') && Before(OnTick(w).1, a, b)
            && (a in w'.tasks && b in w'.tasks && w.tasks[a].setInterval == w.tasks[b].setInterval ==>
                  Paired(w', a, b) && w'.tasks[a].setInterval == w'.tasks[b].setInterval)
  {
    var w' := OnTick(w).0;
    PairFiresInOrder(w, a, b);
    TickKeepsValid(w);
    if a in w'.tasks && b in w'.tasks && w.tasks[a].setInterval == w.tasks[b].setInterval {
      DueState(w, a);
      DueState(w, b);
      AdvanceValid(w);
      LoopKeepsHeading(Advance(w), w.slots[NextTick(w.curTick)], [], a, b, w'.tasks[a].setTick);
    }
  }

  // ---------------------------------------------------------------- over a run

  /** On every tick of the run: while both are armed they fire together, and a fires first. */
  ghost predicate FireTogether<T>(w: Wheel<T>, ops: seq<Op<T>>, a: T, b: T)
    requires Valid(w) && LegalRun(w, ops)
    decreases |ops|
  {
    ops != [] ==>
      && (ops[0].Tick? && a in w.tasks && b in w.tasks ==>
            (a in OnTick(w).1 <==> b in OnTick(w).1) && (a in OnTick(w).1 ==> Before(OnTick(w).1, a, b)))
      && FireTogether(Apply(w, ops[0]).0, ops[1..], a, b)
  }

  ghost predicate Twins<T>(w: Wheel<T>, a: T, b: T)
    requires Valid(w)
  {
    a in w.tasks && b in w.tasks ==> Paired(w, a, b) && w.tasks[a].setInterval == w.tasks[b].setInterval
  }

  lemma TickKeepsTwins<T>(w: Wheel<T>, a: T, b: T)
    requires Valid(w) && Twins(w, a, b)
    ensures Valid(OnTick(w).0) && Twins(OnTick(w).0, a, b)
    ensures a in w.tasks && b in w.tasks ==>
              (a in OnTick(w).1 <==> b in OnTick(w).1) && (a in OnTick(w).1 ==> Before(OnTick(w).1, a, b))
  {
    TickKeepsValid(w);
    TickKeepsTasks(w);
    if a in w.tasks && b in w.tasks {
      TickOnTask(w, a);
      TickOnTask(w, b);
      if Remaining(w.curTick, w.tasks[a]) == 1 { PairFires(w, a, b); } else { PairWaits(w, a, b); }
    }
  }

  lemma OthersKeepPair<T>(w: Wheel<T>, op: Op<T>, a: T, b: T)
    requires Valid(w) && Legal(w, op) && !op.Tick? && LeavesAlone([op], a) && LeavesAlone([op], b)
    requires Twins(w, a, b)
    ensures Twins(Apply(w, op).0, a, b)
  {
    assert [op][0] == op;
    if a in w.tasks && b in w.tasks {
      var s := w.slots[w.tasks[a].setTick];
      if Accepted(op) {
        BeforeAppend(s, op.t, a, b);
      } else if op.Remove? && op.t in w.tasks && w.tasks[op.t].setTick == w.tasks[a].setTick {
        var k := EraseSplits(s, op.t);
        assert s == s[..k] + [op.t] + s[k + 1..];
        BeforeDrop(s[..k], op.t, s[k + 1..], a, b);
      }
    }
  }

  lemma BeforeDrop<T>(l: seq<T>, t: T, r: seq<T>, a: T, b: T)
    requires Before(l + [t] + r, a, b) && t != a && t != b
    ensures Before(l + r, a, b)
  {
    var s := l + [t] + r;
    var i, j :| 0 <= i < j < |s| && s[i] == a && s[j] == b;
    assert i != |l| && j != |l|;
    var i', j' := if i < |l| then i else i - 1, if j < |l| then j else j - 1;
    assert (l + r)[i'] == a && (l + r)[j'] == b;
  }

  lemma {:induction false} TwinsFireTogether<T>(w: Wheel<T>, ops: seq<Op<T>>, a: T, b: T)
    requires Valid(w) && Twins(w, a, b) && LegalRun(w, ops) && LeavesAlone(ops, a) && LeavesAlone(ops, b)
    ensures FireTogether(w, ops, a, b)
    decreases |ops|
  {
    if ops != [] {
      var op := ops[0];
      if op.Tick? { TickKeepsTwins(w, a, b); } else { OthersKeepPair(w, op, a, b); }
      assert LeavesAlone(ops[1..], a) && LeavesAlone(ops[1..], b);
      TwinsFireTogether(Apply(w, op).0, ops[1..], a, b);
    }
  }

  /**
    Two tasks with the same interval, added one after the other on the same tick: whatever else
    happens, they fire together, in the order they were added, on every tick on which both are still armed.
  */
  lemma AddedTogetherFireTogether<T>(w: Wheel<T>, a: T, b: T, interval: int, m: int, n: int, ops: seq<Op<T>>)
    requires Valid(w) && a !in w.tasks && b !in w.tasks && a != b && 0 <= interval
    requires Valid(AddTask(w, a, interval, m)) && Valid(AddTask(AddTask(w, a, interval, m), b, interval, n))
    requires LegalRun(AddTask(AddTask(w, a, interval, m), b, interval, n), ops)
    requires LeavesAlone(ops, a) && LeavesAlone(ops, b)
    ensures FireTogether(AddTask(AddTask(w, a, interval, m), b, interval, n), ops, a, b)
  {
    var w1 := AddTask(w, a, interval, m);
    var c := SlotFor(w.curTick, interval);
    BeforeAppend(w1.slots[c], b, a, b);
    assert w1.slots[c][|w.slots[c]|] == a;
    TwinsFireTogether(AddTask(w1, b, interval, n), ops, a, b);
  }
}
