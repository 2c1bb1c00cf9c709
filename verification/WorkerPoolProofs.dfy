/**
  What holds in every reachable state of the worker pool: no wakeup is lost, items are neither
  lost nor run twice, quit returns only when everything queued before it has been run, and it
  does return.
*/
module WorkerPoolProofs {
  import opened WorkerPool

  // ---------------------------------------------------------------- each step keeps each invariant

  lemma InitInv(workers: nat, producers: nat)
    ensures Inv(Init(workers, producers))
  {
    var s := Init(workers, producers);
    forall x: Item ensures Sum(s.workers, Holding(x)) == 0 { SumZero(s.workers, Holding(x)); }
    SumZero(s.workers, Gone);
  }

  lemma {:induction false} SumZero<A>(ws: seq<A>, f: A -> nat)
    requires forall i :: 0 <= i < |ws| ==> f(ws[i]) == 0
    ensures Sum(ws, f) == 0
    decreases |ws|
  {
    if ws != [] { SumZero(ws[1..], f); }
  }

  lemma KeepsWorkerMutexInv(s: State, step: Step)
    requires MutexInv(s) && Enabled(s, step)
    ensures WorkerMutexInv(Next(s, step))
  {}

  lemma KeepsProducerMutexInv(s: State, step: Step)
    requires MutexInv(s) && Enabled(s, step)
    ensures ProducerMutexInv(Next(s, step))
  {}

  lemma KeepsQuitterMutexInv(s: State, step: Step)
    requires MutexInv(s) && Enabled(s, step)
    ensures QuitterMutexInv(Next(s, step))
  {}

  lemma KeepsMutexInv(s: State, step: Step)
    requires MutexInv(s) && Enabled(s, step)
    ensures MutexInv(Next(s, step))
  {
    KeepsWorkerMutexInv(s, step);
    KeepsProducerMutexInv(s, step);
    KeepsQuitterMutexInv(s, step);
  }

  lemma KeepsLogInv(s: State, step: Step)
    requires LogInv(s) && Enabled(s, step)
    ensures LogInv(Next(s, step))
  {
    if step.Test? && s.queue != [] {
      assert s.queue == [s.queue[0]] + s.queue[1..];
    }
  }

  lemma WakeGivesReady(ws: seq<WorkerPc>, woken: set<nat>)
    requires Wakes(ws, woken)
    ensures Someone(Wake(ws, woken), Waiting) ==> Someone(ws, Waiting)
    ensures Someone(ws, Waiting) ==> Someone(Wake(ws, woken), Ready)
  {
    if woken != {} {
      var w :| w in woken;
      assert Wake(ws, woken)[w] == Ready;
    }
  }

  lemma SomeoneUpdate(ws: seq<WorkerPc>, w: nat, pc: WorkerPc)
    requires w < |ws| && ws[w] != Ready && pc != Waiting
    ensures Someone(ws[w := pc], Waiting) ==> Someone(ws, Waiting)
    ensures Someone(ws, Ready) ==> Someone(ws[w := pc], Ready)
    ensures pc == Ready ==> Someone(ws[w := pc], Ready)
  {
    if Someone(ws, Ready) {
      var r :| 0 <= r < |ws| && ws[r] == Ready;
      assert ws[w := pc][r] == Ready;
    }
    assert ws[w := pc][w] == pc;
  }

  lemma KeepsWakeupInv(s: State, step: Step)
    requires MutexInv(s) && WakeupInv(s) && Enabled(s, step)
    ensures WakeupInv(Next(s, step))
  {
    match step
    case Lock(w) =>
    case Test(w) =>
    case PassOn(w, woken) =>
      if s.queue != [] {
        WakeGivesReady(s.workers, woken);
        SomeoneUpdate(Wake(s.workers, woken), w, Leaving(s.workers[w].item));
      }
    case Unlock(w) => SomeoneUpdate(s.workers, w, Running(s.workers[w].item));
    case Finish(w) => SomeoneUpdate(s.workers, w, if s.workers[w].item == Stop then Exited else Ready);
    case Spurious(w) => SomeoneUpdate(s.workers, w, Ready);
    case CallAdd(p, id) =>
    case Add(p, woken) =>
      if s.producers[p].pc == Enqueued && s.queue != [] { WakeGivesReady(s.workers, woken); }
    case CallQuit =>
    case Quit(woken) =>
      if s.quit.AddingStop? && s.quit.pc == Enqueued && s.queue != [] { WakeGivesReady(s.workers, woken); }
  }

  // Conservation of items.

  /** The item, if any, that a step queues, takes or finishes. */
  function Queued(s: State, step: Step): seq<Item> {
    match step
    case Add(p, _) =>
      if p < |s.producers| && s.producers[p].Adding? && s.producers[p].pc.HasLock? then [s.producers[p].pc.item] else []
    case Quit(_) => if s.quit.AddingStop? && s.quit.pc.HasLock? then [s.quit.pc.item] else []
    case _ => []
  }

  function Taken(s: State, step: Step): seq<Item> {
    if step.Test? && s.queue != [] then [s.queue[0]] else []
  }

  function Finished(s: State, step: Step): seq<Item> {
    if step.Finish? && step.w < |s.workers| && s.workers[step.w].Running? then [s.workers[step.w].item] else []
  }

  lemma LogsGrow(s: State, step: Step)
    requires Enabled(s, step)
    ensures Next(s, step).enqueued == s.enqueued + Queued(s, step)
    ensures Next(s, step).taken == s.taken + Taken(s, step)
    ensures Next(s, step).done == s.done + Finished(s, step)
  {}

  lemma HoldingWake(ws: seq<WorkerPc>, woken: set<nat>, f: WorkerPc -> nat)
    requires forall w :: w in woken ==> w < |ws| && ws[w] == Waiting
    requires f(Waiting) == f(Ready)
    ensures Sum(Wake(ws, woken), f) == Sum(ws, f)
  {
    SumCongruent(Wake(ws, woken), ws, f);
  }

  lemma KeepsConservationOf(s: State, step: Step, x: Item)
    requires Enabled(s, step)
    requires multiset(s.taken)[x] == multiset(s.done)[x] + Sum(s.workers, Holding(x))
    ensures var s' := Next(s, step);
            multiset(s'.taken)[x] == multiset(s'.done)[x] + Sum(s'.workers, Holding(x))
  {
    LogsGrow(s, step);
    CountsChange(s, step, Holding(x));
  }

  lemma KeepsGoneCount(s: State, step: Step)
    requires Enabled(s, step)
    requires multiset(s.done)[Stop] == Sum(s.workers, Gone)
    ensures multiset(Next(s, step).done)[Stop] == Sum(Next(s, step).workers, Gone)
  {
    LogsGrow(s, step);
    CountsChange(s, step, Gone);
  }

  lemma KeepsConservationInv(s: State, step: Step)
    requires ConservationInv(s) && Enabled(s, step)
    ensures ConservationInv(Next(s, step))
  {
    var s' := Next(s, step);
    forall x: Item ensures multiset(s'.taken)[x] == multiset(s'.done)[x] + Sum(s'.workers, Holding(x)) {
      KeepsConservationOf(s, step, x);
    }
    KeepsGoneCount(s, step);
  }

  /** How a step changes a count of workers that does not tell awake workers apart. */
  lemma CountsChange(s: State, step: Step, f: WorkerPc -> nat)
    requires Enabled(s, step)
    requires f(Waiting) == f(Ready) == f(Testing)
    requires forall x :: f(Took(x)) == f(Leaving(x)) == f(Running(x))
    ensures var s' := Next(s, step);
            Sum(s'.workers, f) ==
              match step
              case Test(w) =>
                if s.queue == [] then Sum(s.workers, f) else Sum(s.workers, f) + f(Took(s.queue[0])) - f(Testing)
              case Finish(w) =>
                var item := s.workers[w].item;
                Sum(s.workers, f) + f(if item == Stop then Exited else Ready) - f(Running(item))
              case _ => Sum(s.workers, f)
  {
    match step
    case Lock(w) => SumUpdate(s.workers, f, w, Testing);
    case Test(w) => SumUpdate(s.workers, f, w, if s.queue == [] then Waiting else Took(s.queue[0]));
    case PassOn(w, woken) =>
      var ws := if s.queue != [] then Wake(s.workers, woken) else s.workers;
      if s.queue != [] { HoldingWake(s.workers, woken, f); }
      SumUpdate(ws, f, w, Leaving(s.workers[w].item));
    case Unlock(w) => SumUpdate(s.workers, f, w, Running(s.workers[w].item));
    case Finish(w) => SumUpdate(s.workers, f, w, if s.workers[w].item == Stop then Exited else Ready);
    case Spurious(w) => SumUpdate(s.workers, f, w, Ready);
    case CallAdd(p, id) =>
    case Add(p, woken) =>
      if s.producers[p].pc == Enqueued && s.queue != [] { HoldingWake(s.workers, woken, f); }
    case CallQuit =>
    case Quit(woken) =>
      if s.quit.AddingStop? && s.quit.pc == Enqueued && s.queue != [] { HoldingWake(s.workers, woken, f); }
  }

  // Progress of quit and the stop items.

  lemma KeepsKindInv(s: State, step: Step)
    requires KindInv(s) && Enabled(s, step)
    ensures KindInv(Next(s, step))
  {}

  lemma KeepsPhaseInv(s: State, step: Step)
    requires PhaseInv(s) && Enabled(s, step)
    ensures PhaseInv(Next(s, step))
  {}

  lemma StopsAddedGrows(s: State, step: Step)
    requires KindInv(s) && PhaseInv(s) && Enabled(s, step)
    ensures StopsAdded(Next(s, step).quit, |s.workers|)
            == StopsAdded(s.quit, |s.workers|) + multiset(Queued(s, step))[Stop]
  {}

  lemma KeepsStopInv(s: State, step: Step)
    requires KindInv(s) && PhaseInv(s) && StopInv(s) && Enabled(s, step)
    ensures StopInv(Next(s, step))
  {
    var s' := Next(s, step);
    LogsGrow(s, step);
    StopsAddedGrows(s, step);
    if step == CallQuit {
      assert s'.enqueued[..s'.quitMark] == s.enqueued;
    } else {
      assert s'.quitMark == s.quitMark;
      assert s'.enqueued[..s'.quitMark] == s.enqueued[..s.quitMark];
    }
  }

  lemma StoppedCount(s: State)
    requires ConservationInv(s)
    ensures multiset(s.taken)[Stop] == Sum(s.workers, Stopped)
  {
    SumSplit(s.workers);
  }

  lemma {:induction false} SumSplit(ws: seq<WorkerPc>)
    ensures Sum(ws, Stopped) == Sum(ws, Gone) + Sum(ws, Holding(Stop))
    decreases |ws|
  {
    if ws != [] { SumSplit(ws[1..]); }
  }

  /** A worker at the queue has no stop item, so not all have been taken. */
  lemma TakerIsNotStopped(s: State, w: nat)
    requires ConservationInv(s) && w < |s.workers| && s.workers[w] == Testing
    ensures multiset(s.taken)[Stop] < |s.workers|
  {
    StoppedCount(s);
    SumBound(s.workers, Stopped);
    assert Stopped(s.workers[w]) == 0;
  }

  lemma LastCompletes(log: seq<Item>, x: Item, n: nat)
    requires multiset(log)[Stop] < n
    ensures multiset(log + [x])[Stop] == n ==> x == Stop
  {}

  lemma TestKeepsLastTakenInv(s: State, w: nat)
    requires ConservationInv(s) && Enabled(s, Test(w)) && s.queue != []
    ensures LastTakenInv(Next(s, Test(w)))
  {
    TakerIsNotStopped(s, w);
    LastCompletes(s.taken, s.queue[0], |s.workers|);
  }

  lemma NothingTaken(s: State, step: Step)
    requires Enabled(s, step) && Taken(s, step) == []
    ensures Next(s, step).taken == s.taken && |Next(s, step).workers| == |s.workers|
  {}

  lemma KeepsLastTakenInv(s: State, step: Step)
    requires ConservationInv(s) && LastTakenInv(s) && Enabled(s, step)
    ensures LastTakenInv(Next(s, step))
  {
    if Taken(s, step) == [] {
      NothingTaken(s, step);
    } else {
      TestKeepsLastTakenInv(s, step.w);
    }
  }

  lemma KeepsInv(s: State, step: Step)
    requires Inv(s) && Enabled(s, step)
    ensures Inv(Next(s, step))
  {
    KeepsMutexInv(s, step);
    KeepsLogInv(s, step);
    KeepsWakeupInv(s, step);
    KeepsConservationInv(s, step);
    KeepsKindInv(s, step);
    KeepsPhaseInv(s, step);
    KeepsStopInv(s, step);
    KeepsLastTakenInv(s, step);
  }

  // ---------------------------------------------------------------- what holds in every reachable state

  lemma {:induction false} RunKeepsInv(s: State, steps: seq<Step>)
    requires Inv(s) && IsRun(s, steps)
    ensures Inv(After(s, steps))
    decreases |steps|
  {
    if steps != [] {
      KeepsInv(s, steps[0]);
      RunKeepsInv(Next(s, steps[0]), steps[1..]);
    }
  }

  lemma {:induction false} RunKeepsWorkers(s: State, steps: seq<Step>)
    requires IsRun(s, steps)
    ensures |After(s, steps).workers| == |s.workers|
    decreases |steps|
  {
    if steps != [] { RunKeepsWorkers(Next(s, steps[0]), steps[1..]); }
  }

  lemma ReachableInv(s: State, workers: nat)
    requires Reachable(s, workers)
    ensures Inv(s) && |s.workers| == workers
  {
    var producers: nat, steps :| IsRun(Init(workers, producers), steps) && After(Init(workers, producers), steps) == s;
    InitInv(workers, producers);
    RunKeepsInv(Init(workers, producers), steps);
    RunKeepsWorkers(Init(workers, producers), steps);
  }

  /**
    Whenever the mutex is free and work is queued while some worker sleeps, another worker is
    awake and will look at the queue.  Spurious wakeups do not matter.
  */
  lemma NoLostWakeup(s: State, workers: nat)
    requires Reachable(s, workers) && s.mutex == Free && s.queue != []
    ensures Someone(s.workers, Waiting) ==> Someone(s.workers, Ready)
  {
    ReachableInv(s, workers);
  }

  /** Items are taken in the order they were queued, and each taken item is done with or held, exactly once. */
  lemma ItemsAreConserved(s: State, workers: nat)
    requires Reachable(s, workers)
    ensures s.enqueued == s.taken + s.queue
    ensures forall x: Item ::
              multiset(s.enqueued)[x] == multiset(s.queue)[x] + multiset(s.done)[x] + Sum(s.workers, Holding(x))
  {
    ReachableInv(s, workers);
    assert multiset(s.enqueued) == multiset(s.taken) + multiset(s.queue);
  }

  lemma AllExited(ws: seq<WorkerPc>)
    requires forall w :: 0 <= w < |ws| ==> ws[w] == Exited
    ensures Sum(ws, Gone) == Sum(ws, Stopped) == |ws|
    ensures forall x: Item :: Sum(ws, Holding(x)) == 0
  {
    SumBound(ws, Gone);
    SumBound(ws, Stopped);
    forall x: Item ensures Sum(ws, Holding(x)) == 0 { SumZero(ws, Holding(x)); }
  }

  lemma AllGone(s: State)
    requires Inv(s) && s.quit == Returned
    ensures forall w :: 0 <= w < |s.workers| ==> s.workers[w] == Exited
    ensures multiset(s.done) == multiset(s.taken)
    ensures multiset(s.taken)[Stop] == |s.workers| && Stop !in s.queue
  {
    AllExited(s.workers);
    forall x: Item ensures multiset(s.taken)[x] == multiset(s.done)[x] {}
    assert multiset(s.enqueued) == multiset(s.taken) + multiset(s.queue);
    assert Stop !in multiset(s.queue);
  }

  /**
    When quit has returned, with at least one worker: every worker has exited and obeyed exactly
    one stop item; everything queued up to the last stop item, so everything queued before quit
    was called, has been done with exactly once, and nothing else has.
  */
  lemma QuitMeansDone(s: State, workers: nat)
    requires Reachable(s, workers) && workers > 0 && s.quit == Returned
    ensures |s.workers| == workers && forall w :: 0 <= w < workers ==> s.workers[w] == Exited
    ensures multiset(s.done) == multiset(s.taken) && multiset(s.done)[Stop] == workers
    ensures s.taken <= s.enqueued && s.quitMark < |s.taken|
    ensures s.taken[|s.taken| - 1] == Stop && Stop !in s.queue
  {
    ReachableInv(s, workers);
    AllGone(s);
    assert s.enqueued[|s.taken| - 1] == Stop;
  }

  // ---------------------------------------------------------------- from the calls to the work done

  /** The item that a call of addWork gives to a running pool. */
  function Given(s: State, step: Step): multiset<Item> {
    if step.CallAdd? && s.isRunning then multiset{Work(step.id)} else multiset{}
  }

  /** The items of the calls of addWork that found the pool running. */
  ghost function Accepted(s: State, steps: seq<Step>): multiset<Item>
    requires IsRun(s, steps)
    decreases |steps|
  {
    if steps == [] then multiset{} else Given(s, steps[0]) + Accepted(Next(s, steps[0]), steps[1..])
  }

  /** Callers that have an item in hand, accepted but not queued yet. */
  function InHand(item: Item): ProducerPc -> nat {
    pc => if pc == Adding(WantLock(item)) || pc == Adding(HasLock(item)) then 1 else 0
  }

  lemma CallTakesHand(s: State, step: Step, x: Item)
    requires Enabled(s, step) && step.CallAdd? && s.isRunning && x != Stop
    ensures Sum(Next(s, step).producers, InHand(x)) == Sum(s.producers, InHand(x)) + Given(s, step)[x]
  {
    SumUpdate(s.producers, InHand(x), step.p, Adding(WantLock(Work(step.id))));
  }

  lemma AddFreesHand(s: State, step: Step, x: Item)
    requires Enabled(s, step) && step.Add?
    ensures Sum(Next(s, step).producers, InHand(x)) + multiset(Queued(s, step))[x] == Sum(s.producers, InHand(x))
  {
    var pc := s.producers[step.p].pc;
    SumUpdate(s.producers, InHand(x), step.p, if pc == Woke then Idle else Adding(AddAfter(pc)));
  }

  lemma StepKeepsCalls(s: State, step: Step, x: Item)
    requires KindInv(s) && Enabled(s, step) && x != Stop
    ensures multiset(Queued(s, step))[x] + Sum(Next(s, step).producers, InHand(x))
            == Sum(s.producers, InHand(x)) + Given(s, step)[x]
  {
    if step.CallAdd? && s.isRunning {
      CallTakesHand(s, step, x);
    } else if step.Add? {
      AddFreesHand(s, step, x);
    }
  }

  lemma {:induction false} RunKeepsCalls(s: State, steps: seq<Step>, x: Item)
    requires Inv(s) && IsRun(s, steps) && x != Stop
    ensures multiset(After(s, steps).enqueued)[x] + Sum(After(s, steps).producers, InHand(x))
            == multiset(s.enqueued)[x] + Sum(s.producers, InHand(x)) + Accepted(s, steps)[x]
    decreases |steps|
  {
    if steps != [] {
      StepKeepsCalls(s, steps[0], x);
      LogsGrow(s, steps[0]);
      KeepsInv(s, steps[0]);
      RunKeepsCalls(Next(s, steps[0]), steps[1..], x);
    }
  }

  /**
    From a fresh pool: every item that a call gave to the running pool is in a caller's hands,
    queued, with a worker, or done with: exactly one of these, as often as it was given.
  */
  lemma CallsAreConserved(workers: nat, producers: nat, steps: seq<Step>, id: nat)
    requires IsRun(Init(workers, producers), steps)
    ensures var s, x := After(Init(workers, producers), steps), Work(id);
            && Accepted(Init(workers, producers), steps)[x] == Sum(s.producers, InHand(x)) + multiset(s.enqueued)[x]
            && multiset(s.enqueued)[x] == multiset(s.queue)[x] + Sum(s.workers, Holding(x)) + multiset(s.done)[x]
  {
    var s0 := Init(workers, producers);
    InitInv(workers, producers);
    SumZero(s0.producers, InHand(Work(id)));
    RunKeepsCalls(s0, steps, Work(id));
    ItemsAreConserved(After(s0, steps), workers);
  }

  /** Once quit has cleared the flag, the pool stays stopped, and calls change nothing. */
  lemma {:induction false} StoppedPoolRefuses(s: State, steps: seq<Step>)
    requires Inv(s) && IsRun(s, steps) && !s.isRunning
    ensures !After(s, steps).isRunning && Accepted(s, steps) == multiset{}
    ensures steps != [] && steps[0].CallAdd? ==> Next(s, steps[0]) == s
    decreases |steps|
  {
    if steps != [] {
      KeepsInv(s, steps[0]);
      StoppedPoolRefuses(Next(s, steps[0]), steps[1..]);
    }
  }

  lemma {:induction false} LogOnlyGrows(s: State, steps: seq<Step>)
    requires IsRun(s, steps)
    ensures s.enqueued <= After(s, steps).enqueued
    ensures s.quit != NotCalled ==> After(s, steps).quitMark == s.quitMark
    decreases |steps|
  {
    if steps != [] {
      LogsGrow(s, steps[0]);
      LogOnlyGrows(Next(s, steps[0]), steps[1..]);
    }
  }

  /** What was queued when quit was called has been taken, in that order, when it has returned. */
  lemma QuitTakesAllBefore(s: State, workers: nat, after: seq<Step>)
    requires workers > 0 && Reachable(s, workers) && Enabled(s, CallQuit)
    requires IsRun(Next(s, CallQuit), after) && After(Next(s, CallQuit), after).quit == Returned
    ensures s.enqueued <= After(Next(s, CallQuit), after).taken
  {
    var s1 := ReachableNext(s, workers, CallQuit);
    ReachableAfter(s1, workers, after);
    LogOnlyGrows(s1, after);
    QuitMeansDone(After(s1, after), workers);
    PrefixOfPrefix(s.enqueued, After(s1, after).taken, After(s1, after).enqueued);
  }

  /**
    A whole run in which quit is called after `before` and has returned at the end, with at least
    one worker: whatever had been queued when quit was called was taken in that order, and each
    item given by a call in `before` has been done with as often as it was given, but for the calls
    that had not got as far as the queue.
  */
  lemma QuitFinishesWhatWasGiven(workers: nat, producers: nat, before: seq<Step>, after: seq<Step>, id: nat)
    requires workers > 0 && IsRun(Init(workers, producers), before)
    requires Enabled(After(Init(workers, producers), before), CallQuit)
    requires IsRun(Next(After(Init(workers, producers), before), CallQuit), after)
    requires After(Next(After(Init(workers, producers), before), CallQuit), after).quit == Returned
    ensures var s0, x := Init(workers, producers), Work(id);
            var s1, s2 := After(s0, before), After(Next(After(s0, before), CallQuit), after);
            && s1.enqueued <= s2.taken
            && multiset(s2.done)[x] + Sum(s1.producers, InHand(x)) >= Accepted(s0, before)[x]
  {
    var s0, x := Init(workers, producers), Work(id);
    var s1 := After(s0, before);
    var s2 := After(Next(s1, CallQuit), after);
    QuitTakesAllBefore(s1, workers, after);
    CallsAreConserved(workers, producers, before, id);
    assert Reachable(s2, workers) by {
      var s' := ReachableNext(s1, workers, CallQuit);
      ReachableAfter(s', workers, after);
    }
    QuitMeansDone(s2, workers);
    CountInPrefix(s1.enqueued, s2.taken, x);
  }

  lemma CountInPrefix(a: seq<Item>, b: seq<Item>, x: Item)
    requires a <= b
    ensures multiset(a)[x] <= multiset(b)[x]
  {
    assert b == a + b[|a|..];
  }

  lemma PrefixOfPrefix(a: seq<Item>, b: seq<Item>, c: seq<Item>)
    requires a <= c && b <= c && |a| <= |b|
    ensures a <= b
  {
    assert forall i :: 0 <= i < |a| ==> a[i] == c[i];
  }

  lemma {:induction false} RunAppend(s: State, steps: seq<Step>, step: Step)
    requires IsRun(s, steps) && Enabled(After(s, steps), step)
    ensures IsRun(s, steps + [step]) && After(s, steps + [step]) == Next(After(s, steps), step)
    decreases |steps|
  {
    var all := steps + [step];
    if steps == [] {
      assert all[1..] == [];
    } else {
      assert all[1..] == steps[1..] + [step];
      RunAppend(Next(s, steps[0]), steps[1..], step);
    }
  }

  lemma ReachableNext(s: State, workers: nat, step: Step) returns (s': State)
    requires Reachable(s, workers) && Enabled(s, step)
    ensures s' == Next(s, step) && Reachable(s', workers)
  {
    var producers: nat, steps :| IsRun(Init(workers, producers), steps) && After(Init(workers, producers), steps) == s;
    RunAppend(Init(workers, producers), steps, step);
    s' := Next(s, step);
  }

  /** One call of addWork with no worker in the pool. */
  lemma AddWithoutWorkers() returns (s: State)
    ensures Reachable(s, 0)
    ensures s == State([], [Idle], NotCalled, Free, [Work(7)], true, [Work(7)], [], [], 0)
  {
    s := Init(0, 1);
    assert IsRun(s, []) && After(s, []) == s;
    s := ReachableNext(s, 0, CallAdd(0, 7));
    s := ReachableNext(s, 0, Add(0, {}));
    s := ReachableNext(s, 0, Add(0, {}));
    s := ReachableNext(s, 0, Add(0, {}));
    s := ReachableNext(s, 0, Add(0, {}));
  }

  /** With no workers at all, which setMaxThreads allows, quit returns and the work is never taken. */
  lemma NoWorkersStrandWork() returns (s: State)
    ensures Reachable(s, 0) && s.quit == Returned && s.quitMark == 1 && s.taken == []
  {
    s := AddWithoutWorkers();
    s := ReachableNext(s, 0, CallQuit);
    s := ReachableNext(s, 0, Quit({}));
    s := ReachableNext(s, 0, Quit({}));
    s := ReachableNext(s, 0, Quit({}));
  }

  /** Quit keeps its promise in every run exactly when there is at least one worker. */
  lemma QuitDoneIffWorkers(workers: nat)
    ensures (forall s :: Reachable(s, workers) && s.quit == Returned ==> s.quitMark <= |s.taken|) <==> workers > 0
  {
    if workers > 0 {
      forall s | Reachable(s, workers) && s.quit == Returned ensures s.quitMark <= |s.taken| {
        QuitMeansDone(s, workers);
      }
    } else {
      var s := NoWorkersStrandWork();
    }
  }

  // ---------------------------------------------------------------- quit returns

  /** A step that brings some thread forward: not a spurious wakeup and not a new call. */
  predicate Productive(step: Step) {
    !step.Spurious? && !step.CallAdd? && !step.CallQuit?
  }

  /** Some set of workers that a signal may wake. */
  lemma SomeWake(ws: seq<WorkerPc>) returns (woken: set<nat>)
    ensures Wakes(ws, woken)
  {
    woken := set w: nat | w < |ws| && ws[w] == Waiting;
    forall w: nat | w < |ws| && ws[w] == Waiting ensures woken != {} { assert w in woken; }
  }

  /** The thread that holds the mutex can always go on. */
  lemma HolderCanStep(s: State) returns (step: Step)
    requires MutexInv(s) && s.mutex != Free
    ensures Enabled(s, step) && Productive(step)
  {
    var woken := SomeWake(s.workers);
    match s.mutex
    case ByWorker(w) =>
      step := if s.workers[w].Testing? then Test(w) else if s.workers[w].Took? then PassOn(w, woken) else Unlock(w);
    case ByProducer(p) => step := Add(p, woken);
    case ByQuitter => step := Quit(woken);
  }

  /**
    From the call of quit until it returns, some thread can go on: the joins cannot deadlock.
    A worker not yet joined that sleeps has its stop item still in the queue, so another is awake.
  */
  lemma QuitNeverStuck(s: State, workers: nat) returns (step: Step)
    requires Reachable(s, workers) && s.quit != NotCalled && s.quit != Returned
    ensures Enabled(s, step) && Productive(step)
  {
    ReachableInv(s, workers);
    if s.mutex != Free {
      step := HolderCanStep(s);
    } else if s.quit.Joining? && s.quit.k < workers && s.workers[s.quit.k] != Exited {
      var k := s.quit.k;
      if s.workers[k] == Ready {
        step := Lock(k);
      } else if s.workers[k].Running? {
        step := Finish(k);
      } else {
        SleeperIsNotAlone(s, k);
        var r :| 0 <= r < |s.workers| && s.workers[r] == Ready;
        step := Lock(r);
      }
    } else {
      step := Quit({});
    }
  }

  /** Once all stop items are queued, those still in the queue are as many as the workers that have taken none. */
  lemma StopsLeftForLiveWorkers(s: State, workers: nat)
    requires Reachable(s, workers) && (s.quit.Joining? || s.quit == Returned)
    ensures multiset(s.queue)[Stop] + Sum(s.workers, Stopped) == workers
  {
    ReachableInv(s, workers);
    StopsLeft(s);
  }

  lemma StopsLeft(s: State)
    requires Inv(s) && (s.quit.Joining? || s.quit == Returned)
    ensures multiset(s.queue)[Stop] + Sum(s.workers, Stopped) == |s.workers|
  {
    StoppedCount(s);
    assert multiset(s.enqueued) == multiset(s.taken) + multiset(s.queue);
  }

  /** A worker that sleeps while quit joins has its stop item in the queue, and another worker is awake. */
  lemma SleeperIsNotAlone(s: State, k: nat)
    requires Inv(s) && s.quit.Joining? && k < |s.workers| && s.workers[k] == Waiting && s.mutex == Free
    ensures multiset(s.queue)[Stop] > 0 && Someone(s.workers, Ready)
  {
    StopsLeft(s);
    SumBound(s.workers, Stopped);
    assert Stopped(s.workers[k]) == 0;
    assert Someone(s.workers, Waiting);
  }

  /** How many more steps each part of a state can give rise to, with n workers. */
  function WorkerWeight(n: nat): WorkerPc -> nat {
    (pc: WorkerPc) => match pc
      case Ready => 2
      case Testing => 1
      case Waiting => 0
      case Took(_) => 2 * n + 5
      case Leaving(_) => 4
      case Running(_) => 3
      case Exited => 0
  }

  function AddWeight(n: nat, pc: AddPc): nat {
    match pc
    case WantLock(_) => 4 * n + 9
    case HasLock(_) => 4 * n + 8
    case Enqueued => 2 * n + 2
    case Woke => 1
  }

  function ProducerWeight(n: nat): ProducerPc -> nat {
    (pc: ProducerPc) => match pc
      case Idle => 0
      case Adding(a) => AddWeight(n, a)
  }

  function QuitWeight(n: nat, q: QuitPc): int {
    match q
    case NotCalled => 0
    case Loop(i) => (n - i) * (4 * n + 11) + n + 3
    case AddingStop(i, pc) => (n - i - 1) * (4 * n + 11) + AddWeight(n, pc) + n + 4
    case ClearFlag => n + 2
    case Joining(k) => n - k + 1
    case Returned => 0
  }

  /** The part of the measure that a worker's own step changes. */
  function WorkMeasure(ws: seq<WorkerPc>, queue: seq<Item>): nat {
    Sum(ws, WorkerWeight(|ws|)) + |queue| * (2 * |ws| + 5)
  }

  function Measure(s: State): int {
    var n := |s.workers|;
    WorkMeasure(s.workers, s.queue) + Sum(s.producers, ProducerWeight(n)) + QuitWeight(n, s.quit)
  }

  /** What a step that is not productive may add to the measure. */
  function Cost(n: nat, step: Step): nat {
    match step
    case Spurious(_) => 2
    case CallAdd(_, _) => 4 * n + 9
    case CallQuit => n * (4 * n + 11) + n + 3
    case _ => 0
  }

  lemma {:induction false} WakeWeight(ws: seq<WorkerPc>, vs: seq<WorkerPc>, n: nat)
    requires |ws| == |vs|
    requires forall i :: 0 <= i < |ws| ==> vs[i] == ws[i] || (ws[i] == Waiting && vs[i] == Ready)
    ensures Sum(vs, WorkerWeight(n)) <= Sum(ws, WorkerWeight(n)) + 2 * |ws|
    decreases |ws|
  {
    if ws != [] { WakeWeight(ws[1..], vs[1..], n); }
  }

  lemma AddDecreases(s: State, me: Owner, pc: AddPc, woken: set<nat>)
    requires AddEnabled(s, pc, woken)
    ensures var n := |s.workers|;
            var s' := AddNext(s, me, pc, woken);
            WorkMeasure(s'.workers, s'.queue) + (if pc == Woke then 0 else AddWeight(n, AddAfter(pc)))
            < WorkMeasure(s.workers, s.queue) + AddWeight(n, pc)
  {
    if pc == Enqueued && s.queue != [] {
      WakeWeight(s.workers, Wake(s.workers, woken), |s.workers|);
    }
  }

  lemma TestDecreases(s: State, w: nat)
    requires Enabled(s, Test(w))
    ensures WorkMeasure(Next(s, Test(w)).workers, Next(s, Test(w)).queue) < WorkMeasure(s.workers, s.queue)
  {
    var n := |s.workers|;
    SumUpdate(s.workers, WorkerWeight(n), w, if s.queue == [] then Waiting else Took(s.queue[0]));
    if s.queue != [] { OneLess(|s.queue|, 2 * n + 5); }
  }

  lemma OneLess(k: nat, weight: nat)
    requires k > 0
    ensures k * weight == (k - 1) * weight + weight
  {}

  lemma PassOnDecreases(s: State, w: nat, woken: set<nat>)
    requires Enabled(s, PassOn(w, woken))
    ensures WorkMeasure(Next(s, PassOn(w, woken)).workers, s.queue) < WorkMeasure(s.workers, s.queue)
  {
    var n := |s.workers|;
    var ws := if s.queue != [] then Wake(s.workers, woken) else s.workers;
    WakeWeight(s.workers, ws, n);
    SumUpdate(ws, WorkerWeight(n), w, Leaving(s.workers[w].item));
  }

  lemma WorkerStepDecreases(s: State, step: Step)
    requires Enabled(s, step) && Productive(step) && !step.Add? && !step.Quit?
    ensures WorkMeasure(Next(s, step).workers, Next(s, step).queue) < WorkMeasure(s.workers, s.queue)
  {
    var n := |s.workers|;
    match step
    case Lock(w) => SumUpdate(s.workers, WorkerWeight(n), w, Testing);
    case Test(w) => TestDecreases(s, w);
    case PassOn(w, woken) => PassOnDecreases(s, w, woken);
    case Unlock(w) => SumUpdate(s.workers, WorkerWeight(n), w, Running(s.workers[w].item));
    case Finish(w) =>
      SumUpdate(s.workers, WorkerWeight(n), w, if s.workers[w].item == Stop then Exited else Ready);
  }

  lemma StepDecreases(s: State, step: Step)
    requires PhaseInv(s) && Enabled(s, step) && Productive(step)
    ensures Measure(Next(s, step)) < Measure(s)
  {
    var n := |s.workers|;
    match step
    case Add(p, woken) =>
      var pc := s.producers[p].pc;
      AddDecreases(s, ByProducer(p), pc, woken);
      SumUpdate(s.producers, ProducerWeight(n), p, if pc == Woke then Idle else Adding(AddAfter(pc)));
    case Quit(woken) => QuitDecreases(s, woken);
    case _ => WorkerStepDecreases(s, step);
  }

  lemma QuitDecreases(s: State, woken: set<nat>)
    requires PhaseInv(s) && Enabled(s, Quit(woken))
    ensures Measure(QuitNext(s, woken)) < Measure(s)
  {
    if s.quit.AddingStop? { AddDecreases(s, ByQuitter, s.quit.pc, woken); }
  }

  lemma UnproductiveCost(s: State, step: Step)
    requires Enabled(s, step) && !Productive(step)
    ensures Measure(Next(s, step)) <= Measure(s) + Cost(|s.workers|, step)
  {
    var n := |s.workers|;
    match step
    case Spurious(w) => SumUpdate(s.workers, WorkerWeight(n), w, Ready);
    case CallAdd(p, id) => SumUpdate(s.producers, ProducerWeight(n), p, Adding(WantLock(Work(id))));
    case CallQuit =>
  }

  lemma MeasureNonNegative(s: State)
    requires PhaseInv(s)
    ensures Measure(s) >= 0
  {
    var n := |s.workers|;
    if s.quit.Loop? { assert (n - s.quit.i) * (4 * n + 11) >= 0; }
    if s.quit.AddingStop? { assert (n - s.quit.i - 1) * (4 * n + 11) >= 0; }
    assert |s.queue| * (2 * n + 5) >= 0;
  }

  function ProductiveSteps(steps: seq<Step>): nat
    decreases |steps|
  {
    if steps == [] then 0 else (if Productive(steps[0]) then 1 else 0) + ProductiveSteps(steps[1..])
  }

  function TotalCost(n: nat, steps: seq<Step>): nat
    decreases |steps|
  {
    if steps == [] then 0 else Cost(n, steps[0]) + TotalCost(n, steps[1..])
  }

  lemma StepIsPaidFor(s: State, step: Step)
    requires Inv(s) && Enabled(s, step)
    ensures Inv(Next(s, step)) && |Next(s, step).workers| == |s.workers|
    ensures (if Productive(step) then 1 else 0) + Measure(Next(s, step)) <= Measure(s) + Cost(|s.workers|, step)
  {
    KeepsInv(s, step);
    if Productive(step) {
      StepDecreases(s, step);
    } else {
      UnproductiveCost(s, step);
    }
  }

  /**
    However the threads are scheduled, the productive steps of a run are bounded by its first
    state, its spurious wakeups and its new calls.
  */
  lemma {:induction false} RunsAreBounded(s: State, steps: seq<Step>)
    requires Inv(s) && IsRun(s, steps)
    ensures ProductiveSteps(steps) <= Measure(s) + TotalCost(|s.workers|, steps)
    decreases |steps|
  {
    if steps == [] {
      MeasureNonNegative(s);
    } else {
      StepIsPaidFor(s, steps[0]);
      RunsAreBounded(Next(s, steps[0]), steps[1..]);
    }
  }

  /** A run of productive steps after the call of quit, which no productive step extends. */
  ghost predicate RunsOut(s: State, steps: seq<Step>) {
    && IsRun(s, steps) && ProductiveSteps(steps) == |steps|
    && forall step :: Enabled(After(s, steps), step) ==> !Productive(step)
  }

  lemma {:induction false} ReachableAfter(s: State, workers: nat, steps: seq<Step>)
    requires Reachable(s, workers) && IsRun(s, steps)
    ensures Reachable(After(s, steps), workers)
    decreases |steps|
  {
    if steps != [] {
      var s' := ReachableNext(s, workers, steps[0]);
      ReachableAfter(s', workers, steps[1..]);
    }
  }

  lemma {:induction false} QuitStaysCalled(s: State, steps: seq<Step>)
    requires s.quit != NotCalled && IsRun(s, steps)
    ensures After(s, steps).quit != NotCalled
    decreases |steps|
  {
    if steps != [] { QuitStaysCalled(Next(s, steps[0]), steps[1..]); }
  }

  /** Every such run ends with quit returned, after no more steps than the measure of its first state. */
  lemma QuitReturns(s: State, workers: nat, steps: seq<Step>)
    requires Reachable(s, workers) && s.quit != NotCalled && RunsOut(s, steps)
    ensures After(s, steps).quit == Returned && |steps| <= Measure(s)
  {
    ReachableInv(s, workers);
    ReachableAfter(s, workers, steps);
    QuitStaysCalled(s, steps);
    if After(s, steps).quit != Returned {
      var step := QuitNeverStuck(After(s, steps), workers);
      assert false;
    }
    RunsAreBounded(s, steps);
    NoCost(|s.workers|, steps);
  }

  lemma {:induction false} NoCost(n: nat, steps: seq<Step>)
    requires ProductiveSteps(steps) == |steps|
    ensures TotalCost(n, steps) == 0
    decreases |steps|
  {
    if steps != [] {
      FewProductive(steps[1..]);
      NoCost(n, steps[1..]);
    }
  }

  lemma {:induction false} FewProductive(steps: seq<Step>)
    ensures ProductiveSteps(steps) <= |steps|
    decreases |steps|
  {
    if steps != [] { FewProductive(steps[1..]); }
  }

  /** From every reachable state after the call of quit, productive steps lead to its return. */
  lemma {:induction false} QuitCanReturn(s: State, workers: nat) returns (steps: seq<Step>)
    requires Reachable(s, workers) && s.quit != NotCalled
    ensures IsRun(s, steps) && ProductiveSteps(steps) == |steps| && After(s, steps).quit == Returned
    decreases Measure(s)
  {
    ReachableInv(s, workers);
    MeasureNonNegative(s);
    if s.quit == Returned {
      steps := [];
    } else {
      var step := QuitNeverStuck(s, workers);
      var s' := ReachableNext(s, workers, step);
      StepDecreases(s, step);
      ReachableInv(s', workers);
      MeasureNonNegative(s');
      var rest := QuitCanReturn(s', workers);
      steps := [step] + rest;
      assert steps[1..] == rest;
    }
  }
}
