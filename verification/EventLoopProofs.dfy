/**
  What holds in every reachable state of the event loop: work is conserved and runs in order, no
  added item is stranded, and an item added before quit has run or been removed when the loop
  returns, exactly if the wait can report all channels at once.
*/
module EventLoopProofs {
  import opened EventLoop
  import WorkQueue

  ghost predicate Inv(s: State) {
    LineInv(s) && WakeInv(s) && SerialInv(s)
  }

  lemma InitInv(adders: nat)
    ensures Inv(Init(adders)) && SeenInv(Init(adders))
  {
    assert Line(Init(adders)) == [];
  }

  // ---------------------------------------------------------------- the line of items

  lemma DropOne(a: seq<Entry>, e: Entry, b: seq<Entry>)
    requires Increasing(a + [e] + b)
    ensures Increasing(a + b) && !Has(a + b, e.serial)
    ensures forall k: nat :: Has(a + [e] + b, k) <==> Has(a + b, k) || k == e.serial
  {
    var long, short := a + [e] + b, a + b;
    forall i, j | 0 <= i < j < |short| ensures short[i].serial < short[j].serial {
      var i', j' := if i < |a| then i else i + 1, if j < |a| then j else j + 1;
      assert long[i'] == short[i] && long[j'] == short[j];
    }
    assert long[|a|] == e;
    forall i | 0 <= i < |short| ensures short[i].serial != e.serial && Has(long, short[i].serial) {
      assert long[if i < |a| then i else i + 1] == short[i];
    }
    forall i | 0 <= i < |long| && i != |a| ensures Has(short, long[i].serial) {
      assert short[if i < |a| then i else i - 1] == long[i];
    }
  }

  /** The loop has a batch only while it drains one. */
  predicate BatchInPlace(s: State) {
    s.pc.Drain? || s.pc.Running? || s.batch == []
  }

  /** The loop's own steps leave the line as it is. */
  lemma LoopKeepsLine(s: State)
    requires s.pc != AtWait && s.pc != Stopped && BatchInPlace(s)
    ensures Line(LoopNext(s)) == Line(s)
    ensures LoopNext(s).nextSerial == s.nextSerial && LoopNext(s).removed == s.removed
  {
    if s.pc.Drain? && s.batch != [] { assert s.batch == [s.batch[0]] + s.batch[1..]; }
  }

  lemma EnqueueKeepsLineInv(s: State, channels: nat, a: nat, item: int)
    requires LineInv(s) && Enabled(s, channels, Enqueue(a, item))
    ensures LineInv(Next(s, channels, Enqueue(a, item)))
  {
    var s' := Next(s, channels, Enqueue(a, item));
    var line, line' := Line(s), Line(s) + [Entry(s.nextSerial, item)];
    assert Line(s') == line';
    forall i | 0 <= i < |line| ensures line[i].serial < s.nextSerial && Has(line', line[i].serial) {
      assert Has(line, line[i].serial);
      assert line'[i] == line[i];
    }
    assert line'[|line|].serial == s.nextSerial;
    assert s.nextSerial !in s.removed;
  }

  /** The entry for an item, if any, and what is before and behind it in the line. */
  lemma LineAround(s: State, item: int) returns (a: seq<Entry>, b: seq<Entry>)
    requires IndexOf(s.queue, item) < |s.queue|
    ensures var i := IndexOf(s.queue, item);
            && Line(s) == a + [s.queue[i]] + b
            && Line(s.(queue := s.queue[..i] + s.queue[i + 1..])) == a + b
  {
    var i := IndexOf(s.queue, item);
    a, b := s.executed + Current(s.pc) + s.batch + s.queue[..i], s.queue[i + 1..];
    assert s.queue == s.queue[..i] + [s.queue[i]] + b;
  }

  lemma DropKeepsLineInv(s: State, s': State, a: seq<Entry>, e: Entry, b: seq<Entry>)
    requires LineInv(s) && Line(s) == a + [e] + b && Line(s') == a + b
    requires s'.removed == s.removed + {e.serial} && s'.nextSerial == s.nextSerial
    requires s'.pc == s.pc && s'.batch == s.batch
    ensures LineInv(s')
  {
    DropOne(a, e, b);
  }

  lemma RemoveKeepsLineInv(s: State, channels: nat, item: int)
    requires LineInv(s)
    ensures LineInv(Next(s, channels, RemoveWork(item)))
  {
    var s' := Next(s, channels, RemoveWork(item));
    var i := IndexOf(s.queue, item);
    if i < |s.queue| {
      var a, b := LineAround(s, item);
      assert Line(s') == Line(s.(queue := s.queue[..i] + s.queue[i + 1..]));
      DropKeepsLineInv(s, s', a, s.queue[i], b);
    } else {
      assert s' == s;
    }
  }

  lemma KeepsLineInv(s: State, channels: nat, step: Step)
    requires LineInv(s) && Enabled(s, channels, step)
    ensures LineInv(Next(s, channels, step))
  {
    match step
    case Enqueue(a, item) => EnqueueKeepsLineInv(s, channels, a, item);
    case RemoveWork(item) => RemoveKeepsLineInv(s, channels, item);
    case Loop => LoopKeepsLine(s);
    case _ => assert Line(Next(s, channels, step)) == Line(s);
  }

  // ---------------------------------------------------------------- no item is stranded

  lemma KeepsSerialInv(s: State, channels: nat, step: Step)
    requires SerialInv(s) && Enabled(s, channels, step)
    ensures SerialInv(Next(s, channels, step))
  {}

  lemma KeepsWakeInv(s: State, channels: nat, step: Step)
    requires WakeInv(s) && SerialInv(s) && Enabled(s, channels, step)
    ensures WakeInv(Next(s, channels, step))
  {}

  lemma KeepsSeenInv(s: State, channels: nat, step: Step)
    requires channels + 2 <= MAX_EVENTS
    requires WakeInv(s) && SerialInv(s) && SeenInv(s) && Enabled(s, channels, step)
    ensures SeenInv(Next(s, channels, step))
  {}

  lemma KeepsInv(s: State, channels: nat, step: Step)
    requires Inv(s) && Enabled(s, channels, step)
    ensures Inv(Next(s, channels, step))
  {
    KeepsLineInv(s, channels, step);
    KeepsSerialInv(s, channels, step);
    KeepsWakeInv(s, channels, step);
  }

  // ---------------------------------------------------------------- reachable states

  lemma {:induction false} RunKeepsInv(s: State, channels: nat, steps: seq<Step>)
    requires Inv(s) && IsRun(s, channels, steps)
    ensures Inv(After(s, channels, steps))
    ensures channels + 2 <= MAX_EVENTS && SeenInv(s) ==> SeenInv(After(s, channels, steps))
    decreases |steps|
  {
    if steps != [] {
      KeepsInv(s, channels, steps[0]);
      if channels + 2 <= MAX_EVENTS && SeenInv(s) { KeepsSeenInv(s, channels, steps[0]); }
      RunKeepsInv(Next(s, channels, steps[0]), channels, steps[1..]);
    }
  }

  lemma ReachableInv(s: State, channels: nat)
    requires Reachable(s, channels)
    ensures Inv(s) && (channels + 2 <= MAX_EVENTS ==> SeenInv(s))
  {
    var adders: nat, steps: seq<Step> :|
      IsRun(Init(adders), channels, steps) && After(Init(adders), channels, steps) == s;
    InitInv(adders);
    RunKeepsInv(Init(adders), channels, steps);
  }

  /** Every item ever enqueued is executed, running, waiting or removed: one of these, once. */
  lemma WorkIsConserved(s: State, channels: nat)
    requires Reachable(s, channels)
    ensures Increasing(s.executed + Current(s.pc) + s.batch + s.queue)
    ensures forall k: nat :: k < s.nextSerial <==> Has(Line(s), k) != (k in s.removed)
    ensures forall k :: k in s.removed ==> k < s.nextSerial
  {
    ReachableInv(s, channels);
  }

  /** Items run in the order they were added, also when callbacks add more. */
  lemma ExecutedInOrder(s: State, channels: nat)
    requires Reachable(s, channels)
    ensures Increasing(s.executed)
    ensures forall i :: 0 <= i < |s.executed| ==>
                          s.executed[i].serial < s.nextSerial && s.executed[i].serial !in s.removed
  {
    ReachableInv(s, channels);
    forall i | 0 <= i < |s.executed| ensures Line(s)[i] == s.executed[i] && Has(Line(s), s.executed[i].serial) {
      assert Line(s)[i] == s.executed[i];
    }
  }

  /** A serial number taken out by removeWork never runs. */
  lemma {:induction false} RemovedNeverRuns(s: State, channels: nat, steps: seq<Step>, k: nat)
    requires Inv(s) && IsRun(s, channels, steps) && k in s.removed
    ensures !Has(After(s, channels, steps).executed, k)
    decreases |steps|
  {
    if steps == [] {
      forall i | 0 <= i < |s.executed| ensures s.executed[i].serial != k {
        assert Line(s)[i] == s.executed[i];
        assert Has(Line(s), s.executed[i].serial);
      }
    } else {
      KeepsInv(s, channels, steps[0]);
      RemovedNeverRuns(Next(s, channels, steps[0]), channels, steps[1..], k);
    }
  }

  // ---------------------------------------------------------------- items, and who asked for what

  ghost function Items(q: seq<Entry>): (r: seq<int>)
    ensures |r| == |q|
  {
    seq(|q|, i requires 0 <= i < |q| => q[i].item)
  }

  /** How often an item is executed, running, swapped out or queued. */
  ghost function InLine(s: State, x: int): nat {
    multiset(Items(Line(s)))[x]
  }

  /** Calls of addWork for an item. */
  ghost function Additions(steps: seq<Step>, x: int): nat
    decreases |steps|
  {
    if steps == [] then 0
    else (if steps[0].Enqueue? && steps[0].item == x then 1 else 0) + Additions(steps[1..], x)
  }

  /** Calls of removeWork for an item that found it in the queue. */
  ghost function Removals(s: State, channels: nat, steps: seq<Step>, x: int): nat
    requires IsRun(s, channels, steps)
    decreases |steps|
  {
    if steps == [] then 0
    else
      (if steps[0] == RemoveWork(x) && x in Items(s.queue) then 1 else 0)
      + Removals(Next(s, channels, steps[0]), channels, steps[1..], x)
  }

  lemma IndexMeans(q: seq<Entry>, item: int)
    ensures IndexOf(q, item) < |q| <==> item in Items(q)
    ensures item !in Items(q)[..IndexOf(q, item)]
  {
    forall j | 0 <= j < |q| ensures Items(q)[j] == q[j].item {}
  }

  lemma ItemsWithout(q: seq<Entry>, i: nat)
    requires i < |q| && Items(q)[i] !in Items(q)[..i]
    ensures Items(q[..i] + q[i + 1..]) == WorkQueue.Without(Items(q), q[i].item)
  {
    WorkQueue.WithoutAt(Items(q), q[i].item, i);
    assert Items(q[..i] + q[i + 1..]) == Items(q)[..i] + Items(q)[i + 1..];
  }

  /** Removal takes the first queued occurrence of the item asked for, and nothing else. */
  lemma RemoveTakesItem(s: State, channels: nat, item: int)
    ensures var s' := Next(s, channels, RemoveWork(item));
            && Items(s'.queue) == WorkQueue.Without(Items(s.queue), item)
            && s' == s.(queue := s'.queue, removed := s'.removed)
            && (item !in Items(s.queue) ==> s' == s)
  {
    IndexMeans(s.queue, item);
    var i := IndexOf(s.queue, item);
    if i < |s.queue| { ItemsWithout(s.queue, i); } else { WorkQueue.WithoutCounts(Items(s.queue), item); }
  }

  lemma LineGrows(s: State, s': State, e: Entry, x: int)
    requires Line(s') == Line(s) + [e]
    ensures InLine(s', x) == InLine(s, x) + if e.item == x then 1 else 0
  {
    assert Items(Line(s')) == Items(Line(s)) + [e.item];
  }

  lemma LineShrinks(s: State, s': State, a: seq<Entry>, e: Entry, b: seq<Entry>, x: int)
    requires Line(s) == a + [e] + b && Line(s') == a + b
    ensures InLine(s, x) == InLine(s', x) + if e.item == x then 1 else 0
  {
    assert Items(Line(s)) == Items(a) + [e.item] + Items(b);
    assert Items(Line(s')) == Items(a) + Items(b);
  }

  lemma RemoveKeepsItems(s: State, channels: nat, item: int, x: int)
    ensures InLine(Next(s, channels, RemoveWork(item)), x)
            + (if item == x && x in Items(s.queue) then 1 else 0) == InLine(s, x)
  {
    var s' := Next(s, channels, RemoveWork(item));
    var i := IndexOf(s.queue, item);
    assert forall j :: 0 <= j < |s.queue| ==> Items(s.queue)[j] == s.queue[j].item;
    if i < |s.queue| {
      var a, b := LineAround(s, item);
      assert Line(s') == Line(s.(queue := s.queue[..i] + s.queue[i + 1..]));
      LineShrinks(s, s', a, s.queue[i], b, x);
      assert Items(s.queue)[i] == item;
    }
  }

  lemma StepKeepsItems(s: State, channels: nat, step: Step, x: int)
    requires BatchInPlace(s) && Enabled(s, channels, step)
    ensures InLine(Next(s, channels, step), x)
            + (if step == RemoveWork(x) && x in Items(s.queue) then 1 else 0)
            == InLine(s, x) + if step.Enqueue? && step.item == x then 1 else 0
  {
    var s' := Next(s, channels, step);
    match step
    case Enqueue(a, item) =>
      assert Line(s') == Line(s) + [Entry(s.nextSerial, item)];
      LineGrows(s, s', Entry(s.nextSerial, item), x);
    case RemoveWork(item) => RemoveKeepsItems(s, channels, item, x);
    case Loop => LoopKeepsLine(s);
    case _ => assert Line(s') == Line(s);
  }

  /**
    Over every run, each item is as often executed, running, swapped out, queued or removed by a
    call that asked for it as it was added.
  */
  lemma {:induction false} ItemsAreConserved(s: State, channels: nat, steps: seq<Step>, x: int)
    requires Inv(s) && IsRun(s, channels, steps)
    ensures InLine(After(s, channels, steps), x) + Removals(s, channels, steps, x)
            == InLine(s, x) + Additions(steps, x)
    decreases |steps|
  {
    if steps != [] {
      StepKeepsItems(s, channels, steps[0], x);
      KeepsInv(s, channels, steps[0]);
      ItemsAreConserved(Next(s, channels, steps[0]), channels, steps[1..], x);
    }
  }

  lemma {:induction false} ExecutedGrows(s: State, channels: nat, steps: seq<Step>)
    requires IsRun(s, channels, steps)
    ensures s.executed <= After(s, channels, steps).executed
    decreases |steps|
  {
    if steps != [] { ExecutedGrows(Next(s, channels, steps[0]), channels, steps[1..]); }
  }

  ghost function Executions(s: State, x: int): nat {
    multiset(Items(s.executed))[x]
  }

  lemma LineParts(s: State, x: int)
    ensures InLine(s, x) == Executions(s, x) + multiset(Items(Current(s.pc)))[x]
                            + multiset(Items(s.batch))[x] + multiset(Items(s.queue))[x]
  {
    assert Items(Line(s)) == Items(s.executed) + Items(Current(s.pc)) + Items(s.batch) + Items(s.queue);
  }

  lemma NoMoreRuns(s: State, channels: nat, x: int, steps: seq<Step>)
    requires Inv(s) && InLine(s, x) == Executions(s, x)
    requires IsRun(s, channels, steps) && Additions(steps, x) == 0
    ensures Executions(After(s, channels, steps), x) == Executions(s, x)
  {
    var s' := After(s, channels, steps);
    ItemsAreConserved(s, channels, steps, x);
    LineParts(s', x);
    ExecutedGrows(s, channels, steps);
    assert Items(s'.executed) == Items(s.executed) + Items(s'.executed[|s.executed|..]);
  }

  /**
    If the removal of an item's only pending enqueueing succeeds, the item does not run any more,
    until it is added again.
  */
  lemma RemovedItemNeverRuns(s: State, channels: nat, x: int, steps: seq<Step>)
    requires Reachable(s, channels) && x in Items(s.queue) && InLine(s, x) == Executions(s, x) + 1
    requires IsRun(Next(s, channels, RemoveWork(x)), channels, steps) && Additions(steps, x) == 0
    ensures Executions(After(Next(s, channels, RemoveWork(x)), channels, steps), x) == Executions(s, x)
  {
    ReachableInv(s, channels);
    KeepsInv(s, channels, RemoveWork(x));
    RemoveTakesItem(s, channels, x);
    StepKeepsItems(s, channels, RemoveWork(x), x);
    NoMoreRuns(Next(s, channels, RemoveWork(x)), channels, x, steps);
  }

  predicate Draining(pc: LoopPc) {
    pc.TestEmpty? || pc.SwapOut? || pc.Drain? || pc.Running?
  }

  /** While an item whose addWork has returned is queued, the loop is draining or will be woken. */
  lemma NoStrandedWork(s: State, channels: nat, i: nat)
    requires Reachable(s, channels) && i < |s.queue| && s.queue[i].serial in s.added
    ensures Draining(s.pc) || s.count > 0
  {
    ReachableInv(s, channels);
  }

  /** The loop has seen a quit; whatever had been added at any quit called before it saw one has run or been removed. */
  ghost predicate QuitKept(s: State) {
    && 0 < s.quitsSeen <= |s.quitCalls|
    && (forall k :: k in s.seen ==> Has(s.executed, k) || k in s.removed)
    && forall i, k :: 0 <= i < s.quitsSeen && k in s.quitCalls[i] ==> Has(s.executed, k) || k in s.removed
  }

  lemma HasInTwo(a: seq<Entry>, b: seq<Entry>, k: nat)
    ensures Has(a + b, k) <==> Has(a, k) || Has(b, k)
  {
    forall i | 0 <= i < |a| ensures Has(a + b, a[i].serial) { assert (a + b)[i] == a[i]; }
    forall i | 0 <= i < |b| ensures Has(a + b, b[i].serial) { assert (a + b)[|a| + i] == b[i]; }
  }

  /** With few enough channels, the loop returns only after quit, and with everything added before it done. */
  lemma LoopReturnsWithWorkDone(s: State, channels: nat)
    requires channels + 2 <= MAX_EVENTS && Reachable(s, channels) && s.pc == Stopped
    ensures QuitKept(s)
  {
    ReachableInv(s, channels);
    forall k | k in s.seen ensures Has(s.executed, k) || k in s.removed {
      assert k < s.nextSerial && Line(s) == s.executed + s.queue;
      assert !Has(s.queue, k);
      HasInTwo(s.executed, s.queue, k);
    }
  }

  lemma {:induction false} RunAppend(s: State, channels: nat, steps: seq<Step>, step: Step)
    requires IsRun(s, channels, steps) && Enabled(After(s, channels, steps), channels, step)
    ensures IsRun(s, channels, steps + [step])
    ensures After(s, channels, steps + [step]) == Next(After(s, channels, steps), channels, step)
    decreases |steps|
  {
    var all := steps + [step];
    if steps == [] {
      assert all[1..] == [];
    } else {
      assert all[1..] == steps[1..] + [step];
      RunAppend(Next(s, channels, steps[0]), channels, steps[1..], step);
    }
  }

  lemma ReachableNext(s: State, channels: nat, step: Step) returns (s': State)
    requires Reachable(s, channels) && Enabled(s, channels, step)
    ensures s' == Next(s, channels, step) && Reachable(s', channels)
  {
    var adders: nat, steps: seq<Step> :|
      IsRun(Init(adders), channels, steps) && After(Init(adders), channels, steps) == s;
    RunAppend(Init(adders), channels, steps, step);
    s' := Next(s, channels, step);
  }

  /** One item added, then quit called. */
  lemma AddThenQuit(channels: nat) returns (s: State)
    ensures Reachable(s, channels)
    ensures s == State([Entry(0, 7)], 1, 1, [Idle], AtWait, [], 1, {0}, [], {}, [{0}], {}, 0)
  {
    s := Init(1);
    assert IsRun(s, channels, []) && After(s, channels, []) == s;
    s := ReachableNext(s, channels, Enqueue(0, 7));
    assert s == State([Entry(0, 7)], 0, 0, [Queued(0)], AtWait, [], 1, {}, [], {}, [], {}, 0);
    s := ReachableNext(s, channels, WriteCount(0));
    assert s == State([Entry(0, 7)], 1, 0, [Idle], AtWait, [], 1, {0}, [], {}, [], {}, 0);
    s := ReachableNext(s, channels, CallQuit);
  }

  /** With more channels, the wait can report the interrupt and leave the queue's counter out. */
  lemma CrowdedLoopLosesWork(channels: nat) returns (s: State)
    requires channels + 2 > MAX_EVENTS
    ensures Reachable(s, channels) && s.pc == Stopped && !QuitKept(s)
  {
    s := AddThenQuit(channels);
    s := ReachableNext(s, channels, Wait(MAX_EVENTS - 1, false, true));
    assert s == State([Entry(0, 7)], 1, 1, [Idle], ReadInterrupt, [], 1, {0}, [], {}, [{0}], {0}, 1);
    s := ReachableNext(s, channels, Loop);
    assert 0 in s.quitCalls[0];
  }

  /** Quit keeps its promise in every run exactly when all registered channels fit in one wait. */
  lemma QuitKeptIffChannelsFit(channels: nat)
    ensures (forall s: State :: Reachable(s, channels) && s.pc == Stopped ==> QuitKept(s))
            <==> channels + 2 <= 64
  {
    if channels + 2 <= MAX_EVENTS {
      forall s: State | Reachable(s, channels) && s.pc == Stopped ensures QuitKept(s) {
        LoopReturnsWithWorkDone(s, channels);
      }
    } else {
      var s := CrowdedLoopLosesWork(channels);
    }
  }

  // ---------------------------------------------------------------- the counters

  /** Each counter is positive when the loop is about to read it, and every call of quit is accounted for. */
  ghost predicate CounterInv(s: State) {
    && (s.pc.ReadCount? ==> s.count > 0)
    && (Leaving(s.pc) && s.pc != Stopped ==> s.interrupts > 0)
    && s.interrupts + Bit(s.pc == Stopped) == |s.quitCalls|
  }

  lemma KeepsCounterInv(s: State, channels: nat, step: Step)
    requires CounterInv(s) && Enabled(s, channels, step)
    ensures CounterInv(Next(s, channels, step))
  {}

  /** Writes to the queue's counter, and the loop's reads of it. */
  ghost function Writes(steps: seq<Step>): nat
    decreases |steps|
  {
    if steps == [] then 0 else Bit(steps[0].WriteCount?) + Writes(steps[1..])
  }

  ghost function Reads(s: State, channels: nat, steps: seq<Step>): nat
    requires IsRun(s, channels, steps)
    decreases |steps|
  {
    if steps == [] then 0
    else Bit(steps[0] == Loop && s.pc.ReadCount?) + Reads(Next(s, channels, steps[0]), channels, steps[1..])
  }

  /** The queue's counter is a semaphore over every run: writes less reads. */
  lemma {:induction false} CountIsExact(s: State, channels: nat, steps: seq<Step>)
    requires CounterInv(s) && IsRun(s, channels, steps)
    ensures CounterInv(After(s, channels, steps))
    ensures After(s, channels, steps).count + Reads(s, channels, steps) == s.count + Writes(steps)
    decreases |steps|
  {
    if steps != [] {
      KeepsCounterInv(s, channels, steps[0]);
      CountIsExact(Next(s, channels, steps[0]), channels, steps[1..]);
    }
  }

  /** The interrupts raised and not yet read are the calls of quit, less the one that ended the loop. */
  lemma QuitsAreCounted(s: State, channels: nat)
    requires Reachable(s, channels)
    ensures CounterInv(s)
  {
    var adders: nat, steps: seq<Step> :|
      IsRun(Init(adders), channels, steps) && After(Init(adders), channels, steps) == s;
    CountIsExact(Init(adders), channels, steps);
  }

  lemma {:induction false} QuitCallsStay(s: State, channels: nat, steps: seq<Step>)
    requires IsRun(s, channels, steps)
    ensures s.quitCalls <= After(s, channels, steps).quitCalls
    decreases |steps|
  {
    if steps != [] { QuitCallsStay(Next(s, channels, steps[0]), channels, steps[1..]); }
  }

  lemma {:induction false} ReachableAfter(s: State, channels: nat, steps: seq<Step>)
    requires Reachable(s, channels) && IsRun(s, channels, steps)
    ensures Reachable(After(s, channels, steps), channels)
    decreases |steps|
  {
    if steps != [] {
      var s' := ReachableNext(s, channels, steps[0]);
      ReachableAfter(s', channels, steps[1..]);
    }
  }

  /** A run with its first call of quit in it: when the loop has returned, what had been added before is done. */
  lemma FirstQuitIsKept(s: State, channels: nat, steps: seq<Step>)
    requires channels + 2 <= MAX_EVENTS && Reachable(s, channels) && s.quitCalls == []
    requires IsRun(Next(s, channels, CallQuit), channels, steps)
    requires After(Next(s, channels, CallQuit), channels, steps).pc == Stopped
    ensures var end := After(Next(s, channels, CallQuit), channels, steps);
            forall k :: k in s.added ==> Has(end.executed, k) || k in end.removed
  {
    var s1 := ReachableNext(s, channels, CallQuit);
    ReachableAfter(s1, channels, steps);
    QuitCallsStay(s1, channels, steps);
    LoopReturnsWithWorkDone(After(s1, channels, steps), channels);
    assert s1.quitCalls[0] == s.added;
  }

  // ---------------------------------------------------------------- a drain ends

  /** How many more of the loop's own steps a state can give rise to before the next wait. */
  function PcWeight(pc: LoopPc, queueEmpty: bool): nat {
    match pc
    case AtWait => 0
    case ReadCount(_) => 3
    case TestEmpty(_) => 2
    case SwapOut(_) => if queueEmpty then 4 else 1
    case Drain(_) => 3
    case Running(_, _) => 4
    case ReadInterrupt => 1
    case Stopped => 0
  }

  function DrainWeight(s: State): nat {
    6 * |s.queue| + 2 * |s.batch| + PcWeight(s.pc, s.queue == [])
  }

  lemma LoopStepDecreases(s: State)
    requires s.pc != AtWait && s.pc != Stopped && BatchInPlace(s)
    ensures DrainWeight(LoopNext(s)) < DrainWeight(s) && BatchInPlace(LoopNext(s))
  {
  }

  /** The loop's own steps up to its next wait or its end, with nobody else adding or removing work. */
  ghost function RunLoop(s: State): (r: State)
    requires BatchInPlace(s)
    ensures r.pc == AtWait || r.pc == Stopped
    decreases DrainWeight(s)
  {
    if s.pc == AtWait || s.pc == Stopped then s
    else
      LoopStepDecreases(s);
      RunLoop(LoopNext(s))
  }

  /** A drain ends, and has run the whole line of items in order. */
  lemma {:induction false} DrainRunsAll(s: State)
    requires LineInv(s) && (s.pc.ReadCount? || Draining(s.pc))
    ensures RunLoop(s).queue == [] && RunLoop(s).executed == Line(s)
    decreases DrainWeight(s)
  {
    LoopKeepsLine(s);
    LoopStepDecreases(s);
    var s' := LoopNext(s);
    if s'.pc.ReadCount? || Draining(s'.pc) {
      DrainRunsAll(s');
    } else {
      assert s.queue == [] && Line(s) == s.executed;
      assert s'.pc.ReadInterrupt? ==> RunLoop(s') == RunLoop(LoopNext(s')) == LoopNext(s');
    }
  }

  /**
    When the loop waits and few enough channels are registered, the wait returns if an item whose
    addWork has returned is queued, and then the item is run before the next wait.
  */
  lemma AddedWorkIsRun(s: State, channels: nat, i: nat, others: nat, sawQueue: bool, sawInterrupt: bool)
    requires channels + 2 <= MAX_EVENTS && Reachable(s, channels)
    requires s.pc == AtWait && i < |s.queue| && s.queue[i].serial in s.added
    ensures WaitReports(s, channels, 0, true, s.interrupts > 0) && s.batch == []
    ensures WaitReports(s, channels, others, sawQueue, sawInterrupt) ==>
              var s' := Next(s, channels, Wait(others, sawQueue, sawInterrupt));
              s'.pc.ReadCount? && s.queue[i] in RunLoop(s').executed
  {
    NoStrandedWork(s, channels, i);
    ReachableInv(s, channels);
    if WaitReports(s, channels, others, sawQueue, sawInterrupt) {
      var s' := Next(s, channels, Wait(others, sawQueue, sawInterrupt));
      assert Line(s') == s.executed + s.queue;
      DrainRunsAll(s');
    }
  }

  /** A drain that has seen a quit ends the loop. */
  lemma {:induction false} QuitEndsDrain(s: State)
    requires BatchInPlace(s) && Leaving(s.pc)
    ensures RunLoop(s).pc == Stopped
    decreases DrainWeight(s)
  {
    if s.pc != Stopped {
      LoopStepDecreases(s);
      QuitEndsDrain(LoopNext(s));
    }
  }

  /**
    Whenever quit was called, however busy the loop was: if it has not returned by its next wait,
    that wait can return, and whatever it reports, the loop ends before another wait.
  */
  lemma QuitIsSeen(s: State, channels: nat, others: nat, sawQueue: bool, sawInterrupt: bool)
    requires channels + 2 <= MAX_EVENTS && Reachable(s, channels)
    requires s.pc == AtWait && s.quitCalls != []
    ensures WaitReports(s, channels, 0, s.count > 0, true) && s.batch == []
    ensures WaitReports(s, channels, others, sawQueue, sawInterrupt) ==>
              sawInterrupt && RunLoop(Next(s, channels, Wait(others, sawQueue, sawInterrupt))).pc == Stopped
  {
    QuitsAreCounted(s, channels);
    ReachableInv(s, channels);
    if WaitReports(s, channels, others, sawQueue, sawInterrupt) {
      QuitEndsDrain(Next(s, channels, Wait(others, sawQueue, sawInterrupt)));
    }
  }
}
