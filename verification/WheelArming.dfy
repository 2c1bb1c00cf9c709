/**
  Tasks that fire on the same tick fire in the order in which they were last armed, in every run,
  exactly if no task that repeats has a multiple of 60 ticks for its interval.
*/
module WheelArming {
  import opened WheelModel
  import opened WheelRuns
  import opened WheelOrder
  import opened WheelTwins

  ghost predicate StrictlyInOrder<T>(tasks: map<T, TaskState>, s: seq<T>) {
    forall i, j :: 0 <= i < j < |s| && s[i] in tasks && s[j] in tasks ==> tasks[s[i]].serial < tasks[s[j]].serial
  }

  /** On every tick of the run, tasks fire in the order in which they were last added or re-armed. */
  ghost predicate FiresInArmingOrder<T>(w: Wheel<T>, ops: seq<Op<T>>)
    requires Valid(w) && LegalRun(w, ops)
    decreases |ops|
  {
    ops != [] ==>
      && (ops[0].Tick? ==> StrictlyInOrder(w.tasks, OnTick(w).1))
      && FiresInArmingOrder(Apply(w, ops[0]).0, ops[1..])
  }

  /** Adds a task that will fire more than once. */
  ghost predicate Repeats<T>(op: Op<T>) {
    Accepted(op) && op.times != 0 && op.times != 1
  }

  /** Only these intervals are used for tasks that repeat. */
  ghost predicate Uses<T>(ops: seq<Op<T>>, ok: int -> bool) {
    forall i :: 0 <= i < |ops| && Repeats(ops[i]) ==> ok(ops[i].setInterval)
  }

  ghost function Empty(): (w: Wheel<int>)
    ensures Valid(w) && Ordered(w) && w.tasks == map[]
  {
    Wheel(0, seq(SLOTNUM, _ => []), map[], 0)
  }

  // ---------------------------------------------------------------- without multiples of 60

  /** A task is new and will fire once, or has one of these intervals. */
  ghost predicate Within<T>(w: Wheel<T>, ok: int -> bool) {
    forall t :: t in w.tasks ==>
      ok(w.tasks[t].setInterval) || (w.tasks[t].runs == 0 && (w.tasks[t].times == 0 || w.tasks[t].times == 1))
  }

  lemma TickKeepsWithin<T>(w: Wheel<T>, ok: int -> bool)
    requires Valid(w) && Within(w, ok)
    ensures Within(OnTick(w).0, ok)
  {
    AdvanceValid(w);
    HandleAllTasks(Advance(w), w.slots[NextTick(w.curTick)], []);
  }

  lemma {:induction false} NoMultiplesInOrder<T>(w: Wheel<T>, ops: seq<Op<T>>, ok: int -> bool)
    requires Valid(w) && LegalRun(w, ops) && Ordered(w) && Within(w, ok) && Uses(ops, ok)
    requires forall i :: 0 <= i && ok(i) ==> i % SLOTNUM != 0
    ensures FiresInArmingOrder(w, ops)
    decreases |ops|
  {
    if ops != [] {
      var w' := Apply(w, ops[0]).0;
      StepKeepsOrder(w, ops[0]);
      if ops[0].Tick? {
        TickKeepsWithin(w, ok);
        TickFiresInOrder(w);
      }
      assert Repeats(ops[0]) ==> ok(ops[0].setInterval);
      assert Within(w', ok);
      assert forall i :: 0 <= i < |ops[1..]| ==> ops[1..][i] == ops[i + 1];
      NoMultiplesInOrder(w', ops[1..], ok);
    }
  }

  // ---------------------------------------------------------------- a run that is out of order

  ghost function TicksThen(n: nat, rest: seq<Op<int>>): (ops: seq<Op<int>>)
    ensures forall i :: 0 <= i < |ops| ==> ops[i] == Tick || ops[i] in rest
  {
    if n == 0 then rest else [Tick] + TicksThen(n - 1, rest)
  }

  /** The run starts here, is legal, and is out of order. */
  ghost predicate OutOfOrder(w: Wheel<int>, ops: seq<Op<int>>) {
    Valid(w) && LegalRun(w, ops) && !FiresInArmingOrder(w, ops)
  }

  lemma OutOfOrderLater(w: Wheel<int>, op: Op<int>, ops: seq<Op<int>>)
    requires Valid(w) && Legal(w, op) && OutOfOrder(Apply(w, op).0, ops)
    ensures OutOfOrder(w, [op] + ops)
  {
    assert ([op] + ops)[1..] == ops;
  }

  lemma AddOutOfOrder(w: Wheel<int>, t: int, interval: int, times: int, ops: seq<Op<int>>)
    requires Valid(w) && t !in w.tasks && 0 <= interval && OutOfOrder(AddTask(w, t, interval, times), ops)
    ensures OutOfOrder(w, [Add(t, interval, times, true)] + ops)
  {
    OutOfOrderLater(w, Add(t, interval, times, true), ops);
  }

  lemma TickOutOfOrder(w: Wheel<int>, n: nat, rest: seq<Op<int>>)
    requires Valid(w) && OutOfOrder(OnTick(w).0, TicksThen(n, rest))
    ensures OutOfOrder(w, TicksThen(n + 1, rest))
  {
    OutOfOrderLater(w, Tick, TicksThen(n, rest));
  }

  /** A pair whose first was armed last fires out of order in the end. */
  lemma {:induction false} PairOutOfOrder(w: Wheel<int>, a: int, b: int, r: nat)
    requires Valid(w) && Paired(w, a, b) && w.tasks[a].serial > w.tasks[b].serial
    requires r == Remaining(w.curTick, w.tasks[a])
    ensures OutOfOrder(w, TicksThen(r, []))
    decreases r
  {
    var ops := TicksThen(r, []);
    TickKeepsValid(w);
    assert r >= 1 && ops[0] == Tick && ops[1..] == TicksThen(r - 1, []);
    if r == 1 {
      PairFires(w, a, b);
      var f := OnTick(w).1;
      var i, j :| 0 <= i < j < |f| && f[i] == a && f[j] == b;
      assert !StrictlyInOrder(w.tasks, f);
    } else {
      PairWaits(w, a, b);
      PairOutOfOrder(OnTick(w).0, a, b, r - 1);
      TickOutOfOrder(w, r - 1, []);
    }
  }

  /** Only this task is armed, without end. */
  ghost predicate Alone(w: Wheel<int>, a: int, interval: int, r: nat) {
    && Valid(w) && w.tasks.Keys == {a} && w.tasks[a].setInterval == interval && w.tasks[a].times == -1
    && Remaining(w.curTick, w.tasks[a]) == r
  }

  lemma AloneWaits(w: Wheel<int>, a: int, interval: int, r: nat)
    requires Alone(w, a, interval, r) && r > 1
    ensures Alone(OnTick(w).0, a, interval, r - 1)
  {
    TickKeepsValid(w);
    TickKeepsTasks(w);
    TickOnTask(w, a);
  }

  lemma NextSlot(curTick: int, n: int)
    requires 0 <= curTick < SLOTNUM && n >= 0 && n % SLOTNUM == 0
    ensures SlotFor(curTick, n + 1) == NextTick(curTick)
  {
    assert NextTick(curTick) == (curTick + 1) % SLOTNUM;
  }

  /** A task that is passed over goes back into its slot. */
  lemma PassedOver<T>(w: Wheel<T>, t: T)
    requires Valid(w) && t in w.tasks && Remaining(w.curTick, w.tasks[t]) > 1
    requires w.tasks[t].setTick == NextTick(w.curTick)
    ensures var w' := OnTick(w).0;
            && t in w'.tasks && Target(NextTick(w.curTick), w.tasks[t]) == w'.tasks[t].setTick == w.tasks[t].setTick
            && w'.tasks[t].serial == w.tasks[t].serial
            && Remaining(w'.curTick, w'.tasks[t]) == Remaining(w.curTick, w.tasks[t]) - 1
  {
    TickOnTask(w, t);
    VisitCounts(w.curTick, w.tasks[t]);
    AdvanceValid(w);
    HandleAllTasks(Advance(w), w.slots[NextTick(w.curTick)], []);
  }

  /** A task that recurs is due, and another behind it falls due one period later. */
  ghost predicate AboutToOvertake(w: Wheel<int>, a: int, b: int, p: int) {
    && Valid(w) && a in w.tasks && b in w.tasks && a != b
    && w.tasks[a].setTick == w.tasks[b].setTick == NextTick(w.curTick)
    && Before(w.slots[NextTick(w.curTick)], a, b)
    && w.tasks[a].setInterval % SLOTNUM == 0 && w.tasks[a].times == -1 && Period(w.tasks[a].setInterval) == p
    && Remaining(w.curTick, w.tasks[a]) == 1 && Remaining(w.curTick, w.tasks[b]) == p + 1
  }

  lemma DueSlot(w: Wheel<int>, a: int)
    requires Valid(w) && a in w.tasks && Remaining(w.curTick, w.tasks[a]) == 1
    ensures w.tasks[a].setTick == NextTick(w.curTick) && a in w.slots[NextTick(w.curTick)]
  {
    VisitCounts(w.curTick, w.tasks[a]);
  }

  lemma AddedBehind(w: Wheel<int>, a: int, b: int, interval: int)
    requires Alone(w, a, interval, 1) && a != b && interval % SLOTNUM == 0
    ensures AboutToOvertake(AddTask(w, b, Period(interval) + 1, 1), a, b, Period(interval))
  {
    var p := Period(interval);
    AddKeepsValid(w, b, p + 1, 1);
    NextSlot(w.curTick, p);
    DueSlot(w, a);
    ArmedForDelay(w.curTick, p + 1);
    BeforeAppend(w.slots[NextTick(w.curTick)], b, a, b);
  }

  /** The tick puts the first, newly armed, ahead of the other. */
  lemma TickOvertakes(w: Wheel<int>, a: int, b: int, p: int)
    requires AboutToOvertake(w, a, b, p)
    ensures var w' := OnTick(w).0;
            && Valid(w') && Paired(w', a, b) && Remaining(w'.curTick, w'.tasks[a]) == p
            && w'.tasks[a].serial > w'.tasks[b].serial
  {
    var c := NextTick(w.curTick);
    TickKeepsValid(w);
    DueState(w, a);
    PassedOver(w, b);
    AdvanceValid(w);
    BackIntoSlot(c, w.tasks[a].setInterval);
    LoopKeepsHeading(Advance(w), w.slots[c], [], a, b, c);
  }

  /** What follows once the first task, of period p, is due. */
  ghost function Finish(p: nat): seq<Op<int>> {
    [Add(2, p + 1, 1, true)] + TicksThen(p + 1, [])
  }

  lemma OvertakingOutOfOrder(w: Wheel<int>, p: nat)
    requires AboutToOvertake(w, 1, 2, p)
    ensures OutOfOrder(w, TicksThen(p + 1, []))
  {
    TickOvertakes(w, 1, 2, p);
    PairOutOfOrder(OnTick(w).0, 1, 2, p);
    TickOutOfOrder(w, p, []);
  }

  lemma AddingOutOfOrder(w: Wheel<int>, p: nat)
    requires Valid(w) && 2 !in w.tasks && AboutToOvertake(AddTask(w, 2, p + 1, 1), 1, 2, p)
    ensures OutOfOrder(w, Finish(p))
  {
    OvertakingOutOfOrder(AddTask(w, 2, p + 1, 1), p);
    AddOutOfOrder(w, 2, p + 1, 1, TicksThen(p + 1, []));
  }

  lemma FinishOutOfOrder(w: Wheel<int>, interval: int, p: nat)
    requires Alone(w, 1, interval, 1) && interval % SLOTNUM == 0 && p == Period(interval)
    ensures OutOfOrder(w, Finish(p))
  {
    AddedBehind(w, 1, 2, interval);
    AddingOutOfOrder(w, p);
  }

  lemma {:induction false} WaitOutOfOrder(w: Wheel<int>, interval: int, p: nat, r: nat)
    requires Alone(w, 1, interval, r) && r >= 1 && interval % SLOTNUM == 0 && p == Period(interval)
    ensures OutOfOrder(w, TicksThen(r - 1, Finish(p)))
    decreases r
  {
    if r == 1 {
      FinishOutOfOrder(w, interval, p);
    } else {
      AloneWaits(w, 1, interval, r);
      WaitOutOfOrder(OnTick(w).0, interval, p, r - 1);
      TickOutOfOrder(w, r - 2, Finish(p));
    }
  }

  /** For every multiple of 60, 0 included, a run from the empty wheel that is out of order. */
  lemma MultiplesOvertake(interval: int) returns (ops: seq<Op<int>>)
    requires interval >= 0 && interval % SLOTNUM == 0
    ensures OutOfOrder(Empty(), ops) && Uses(ops, i => i == interval)
  {
    var w := AddTask(Empty(), 1, interval, -1);
    var d := FirstDelay(interval);
    AddKeepsValid(Empty(), 1, interval, -1);
    ArmedForDelay(0, interval);
    WaitOutOfOrder(w, interval, Period(interval), d);
    var rest := TicksThen(d - 1, Finish(Period(interval)));
    AddOutOfOrder(Empty(), 1, interval, -1, rest);
    ops := [Add(1, interval, -1, true)] + rest;
  }

  /**
    With these intervals for tasks that repeat, and any for tasks that fire once, every run fires
    in arming order if and only if none of them is a multiple of 60.
  */
  lemma ArmingOrderIff(ok: int -> bool)
    ensures (forall ops: seq<Op<int>> :: LegalRun(Empty(), ops) && Uses(ops, ok) ==> FiresInArmingOrder(Empty(), ops))
            <==> (forall i :: 0 <= i && ok(i) ==> i % 60 != 0)
  {
    if i :| 0 <= i && ok(i) && i % SLOTNUM == 0 {
      var ops := MultiplesOvertake(i);
      assert Uses(ops, ok);
    } else {
      forall ops: seq<Op<int>> | LegalRun(Empty(), ops) && Uses(ops, ok) ensures FiresInArmingOrder(Empty(), ops) {
        NoMultiplesInOrder(Empty(), ops, ok);
      }
    }
  }
}
