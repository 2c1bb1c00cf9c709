/**
  The worker pool (src/ndsl/net/WQThreadpool.cc) as a state machine.  A step is one action of one
  thread between two points where another thread may run: taking or releasing the pool's mutex,
  one access to the shared queue under it, a signal, a blocking wait, or a whole task.  Waits may
  also end spuriously.  The pool has been started; any number of threads call addWork, and one
  thread calls quit.
*/
module WorkerPool {

  /** A work item; Stop is the one whose function is quitFunc, which only quit creates. */
  datatype Item = Work(id: nat) | Stop

  /** Where a worker is in doWork. */
  datatype WorkerPc =
    | Ready                   // awake, wants the mutex: at the loop top, or woken from cond_wait
    | Testing                 // holds the mutex, about to test the queue
    | Waiting                 // blocked in cond_wait
    | Took(item: Item)        // holds the mutex, has dequeued, about to pass the signal on
    | Leaving(item: Item)     // holds the mutex, about to release it
    | Running(item: Item)     // without the mutex: quits on a stop item, else runs the task
    | Exited

  /** Where a caller is in addWork, after the check of isRunning_. */
  datatype AddPc = WantLock(item: Item) | HasLock(item: Item) | Enqueued | Woke

  datatype ProducerPc = Idle | Adding(pc: AddPc)

  /** Where the quitting thread is in quit. */
  datatype QuitPc = NotCalled | Loop(i: nat) | AddingStop(i: nat, pc: AddPc) | ClearFlag | Joining(k: nat) | Returned

  datatype Owner = Free | ByWorker(w: nat) | ByProducer(p: nat) | ByQuitter

  /**
    The shared and local variables, and four histories: every item ever queued, every item ever
    taken by a worker, every item done with (run, or for Stop obeyed), and how many items had
    been queued when quit was called.
  */
  datatype State = State(
    workers: seq<WorkerPc>, producers: seq<ProducerPc>, quit: QuitPc,
    mutex: Owner, queue: seq<Item>, isRunning: bool,
    enqueued: seq<Item>, taken: seq<Item>, done: seq<Item>, quitMark: nat)

  datatype Step =
    | Lock(w: nat)
    | Test(w: nat)
    | PassOn(w: nat, woken: set<nat>)
    | Unlock(w: nat)
    | Finish(w: nat)
    | Spurious(w: nat)
    | CallAdd(p: nat, id: nat)
    | Add(p: nat, woken: set<nat>)
    | CallQuit
    | Quit(woken: set<nat>)

  function Init(workers: nat, producers: nat): State {
    State(seq(workers, i => Ready), seq(producers, i => Idle), NotCalled, Free, [], true, [], [], [], 0)
  }

  // ---------------------------------------------------------------- signals

  /** pthread_cond_signal wakes at least one waiting thread, if there is one. */
  ghost predicate Wakes(ws: seq<WorkerPc>, woken: set<nat>) {
    && (forall w :: w in woken ==> w < |ws| && ws[w] == Waiting)
    && (woken == {} ==> forall w :: 0 <= w < |ws| ==> ws[w] != Waiting)
  }

  function Wake(ws: seq<WorkerPc>, woken: set<nat>): (r: seq<WorkerPc>)
    ensures |r| == |ws|
    ensures forall i :: 0 <= i < |ws| ==> r[i] == if i in woken then Ready else ws[i]
  {
    seq(|ws|, i requires 0 <= i < |ws| => if i in woken then Ready else ws[i])
  }

  // ---------------------------------------------------------------- addWork

  ghost predicate AddEnabled(s: State, pc: AddPc, woken: set<nat>) {
    match pc
    case WantLock(_) => s.mutex == Free
    case HasLock(_) => true
    case Enqueued => s.queue != [] ==> Wakes(s.workers, woken)
    case Woke => true
  }

  function AddNext(s: State, me: Owner, pc: AddPc, woken: set<nat>): State {
    match pc
    case WantLock(_) => s.(mutex := me)
    case HasLock(item) => s.(queue := s.queue + [item], enqueued := s.enqueued + [item])
    case Enqueued => if s.queue != [] then s.(workers := Wake(s.workers, woken)) else s
    case Woke => s.(mutex := Free)
  }

  function AddAfter(pc: AddPc): AddPc {
    match pc
    case WantLock(item) => HasLock(item)
    case HasLock(_) => Enqueued
    case _ => Woke
  }

  // ---------------------------------------------------------------- the transition relation

  ghost predicate Enabled(s: State, step: Step) {
    match step
    case Lock(w) => w < |s.workers| && s.workers[w] == Ready && s.mutex == Free
    case Test(w) => w < |s.workers| && s.workers[w] == Testing
    case PassOn(w, woken) =>
      w < |s.workers| && s.workers[w].Took? && (s.queue != [] ==> Wakes(s.workers, woken))
    case Unlock(w) => w < |s.workers| && s.workers[w].Leaving?
    case Finish(w) => w < |s.workers| && s.workers[w].Running?
    case Spurious(w) => w < |s.workers| && s.workers[w] == Waiting
    case CallAdd(p, _) => p < |s.producers| && s.producers[p] == Idle
    case Add(p, woken) => p < |s.producers| && s.producers[p].Adding? && AddEnabled(s, s.producers[p].pc, woken)
    case CallQuit => s.quit == NotCalled && s.isRunning
    case Quit(woken) =>
      match s.quit
      case NotCalled => false
      case Loop(_) => true
      case AddingStop(_, pc) => AddEnabled(s, pc, woken)
      case ClearFlag => true
      case Joining(k) => k < |s.workers| ==> s.workers[k] == Exited
      case Returned => false
  }

  ghost function QuitNext(s: State, woken: set<nat>): State
    requires Enabled(s, Quit(woken))
  {
    match s.quit
    case Loop(i) =>
      if i == |s.workers| then s.(quit := ClearFlag)
      else if s.isRunning then s.(quit := AddingStop(i, WantLock(Stop)))
      else s.(quit := Loop(i + 1))
    case AddingStop(i, pc) =>
      AddNext(s, ByQuitter, pc, woken).(quit := if pc == Woke then Loop(i + 1) else AddingStop(i, AddAfter(pc)))
    case ClearFlag => s.(isRunning := false, quit := Joining(0))
    case Joining(k) => s.(quit := if k < |s.workers| then Joining(k + 1) else Returned)
  }

  ghost function Next(s: State, step: Step): State
    requires Enabled(s, step)
  {
    match step
    case Lock(w) => s.(workers := s.workers[w := Testing], mutex := ByWorker(w))
    case Test(w) =>
      if s.queue == [] then s.(workers := s.workers[w := Waiting], mutex := Free)
      else s.(workers := s.workers[w := Took(s.queue[0])], queue := s.queue[1..], taken := s.taken + [s.queue[0]])
    case PassOn(w, woken) =>
      var ws := if s.queue != [] then Wake(s.workers, woken) else s.workers;
      s.(workers := ws[w := Leaving(s.workers[w].item)])
    case Unlock(w) => s.(workers := s.workers[w := Running(s.workers[w].item)], mutex := Free)
    case Finish(w) =>
      var item := s.workers[w].item;
      s.(workers := s.workers[w := if item == Stop then Exited else Ready], done := s.done + [item])
    case Spurious(w) => s.(workers := s.workers[w := Ready])
    case CallAdd(p, id) =>
      if s.isRunning then s.(producers := s.producers[p := Adding(WantLock(Work(id)))]) else s
    case Add(p, woken) =>
      var pc := s.producers[p].pc;
      AddNext(s, ByProducer(p), pc, woken).(producers :=
        s.producers[p := if pc == Woke then Idle else Adding(AddAfter(pc))])
    case CallQuit => s.(quit := Loop(0), quitMark := |s.enqueued|)
    case Quit(woken) => QuitNext(s, woken)
  }

  ghost predicate IsRun(s: State, steps: seq<Step>)
    decreases |steps|
  {
    steps != [] ==> Enabled(s, steps[0]) && IsRun(Next(s, steps[0]), steps[1..])
  }

  ghost function After(s: State, steps: seq<Step>): State
    requires IsRun(s, steps)
    decreases |steps|
  {
    if steps == [] then s else After(Next(s, steps[0]), steps[1..])
  }

  ghost predicate Reachable(s: State, workers: nat) {
    exists producers: nat, steps: seq<Step> ::
      IsRun(Init(workers, producers), steps) && After(Init(workers, producers), steps) == s
  }

  // ---------------------------------------------------------------- counting threads

  function Sum<A>(ts: seq<A>, f: A -> nat): nat
    decreases |ts|
  {
    if ts == [] then 0 else f(ts[0]) + Sum(ts[1..], f)
  }

  lemma {:induction false} SumUpdate<A>(ts: seq<A>, f: A -> nat, i: nat, t: A)
    requires i < |ts|
    ensures Sum(ts[i := t], f) + f(ts[i]) == Sum(ts, f) + f(t)
    decreases |ts|
  {
    if i == 0 {
      assert ts[i := t][1..] == ts[1..];
    } else {
      assert ts[i := t][1..] == ts[1..][i - 1 := t];
      SumUpdate(ts[1..], f, i - 1, t);
    }
  }

  lemma {:induction false} SumCongruent<A>(ts: seq<A>, us: seq<A>, f: A -> nat)
    requires |ts| == |us| && forall i :: 0 <= i < |ts| ==> f(ts[i]) == f(us[i])
    ensures Sum(ts, f) == Sum(us, f)
    decreases |ts|
  {
    if ts != [] { SumCongruent(ts[1..], us[1..], f); }
  }

  lemma {:induction false} SumBound<A>(ts: seq<A>, f: A -> nat)
    requires forall i :: 0 <= i < |ts| ==> f(ts[i]) <= 1
    ensures Sum(ts, f) <= |ts|
    ensures Sum(ts, f) == |ts| <==> forall i :: 0 <= i < |ts| ==> f(ts[i]) == 1
    decreases |ts|
  {
    if ts != [] {
      SumBound(ts[1..], f);
      forall i | 0 <= i < |ts| && Sum(ts, f) == |ts| ensures f(ts[i]) == 1 {
        if i > 0 { assert ts[i] == ts[1..][i - 1]; }
      }
    }
  }

  predicate Holds(pc: WorkerPc, item: Item) {
    (pc.Took? || pc.Leaving? || pc.Running?) && pc.item == item
  }

  function Holding(item: Item): WorkerPc -> nat {
    pc => if Holds(pc, item) then 1 else 0
  }

  /** Workers that have taken their stop item, whether or not they have obeyed it yet. */
  const Stopped: WorkerPc -> nat := pc => if pc == Exited || Holds(pc, Stop) then 1 else 0
  const Gone: WorkerPc -> nat := pc => if pc == Exited then 1 else 0

  // ---------------------------------------------------------------- invariants

  predicate InSection(pc: WorkerPc) {
    pc.Testing? || pc.Took? || pc.Leaving?
  }

  predicate AddInSection(pc: AddPc) {
    !pc.WantLock?
  }

  ghost predicate WorkerMutexInv(s: State) {
    && (forall w :: 0 <= w < |s.workers| ==> (InSection(s.workers[w]) <==> s.mutex == ByWorker(w)))
    && (s.mutex.ByWorker? ==> s.mutex.w < |s.workers|)
  }

  ghost predicate ProducerMutexInv(s: State) {
    && (forall p :: 0 <= p < |s.producers| ==>
          ((s.producers[p].Adding? && AddInSection(s.producers[p].pc)) <==> s.mutex == ByProducer(p)))
    && (s.mutex.ByProducer? ==> s.mutex.p < |s.producers|)
  }

  ghost predicate QuitterMutexInv(s: State) {
    (s.quit.AddingStop? && AddInSection(s.quit.pc)) <==> s.mutex == ByQuitter
  }

  /** The mutex is held by exactly the thread that is between its lock and its unlock. */
  ghost predicate MutexInv(s: State) {
    WorkerMutexInv(s) && ProducerMutexInv(s) && QuitterMutexInv(s)
  }

  /** Items leave the queue in the order they entered it. */
  ghost predicate LogInv(s: State) {
    s.enqueued == s.taken + s.queue
  }

  ghost predicate Someone(ws: seq<WorkerPc>, pc: WorkerPc) {
    exists w :: 0 <= w < |ws| && ws[w] == pc
  }

  /** The holder of the mutex is about to take an item, or about to signal. */
  ghost predicate Unsettled(s: State) {
    match s.mutex
    case Free => false
    case ByWorker(w) => w < |s.workers| && (s.workers[w].Testing? || s.workers[w].Took?)
    case ByProducer(p) => p < |s.producers| && s.producers[p] == Adding(Enqueued)
    case ByQuitter => s.quit.AddingStop? && s.quit.pc == Enqueued
  }

  ghost predicate WakeupInv(s: State) {
    !Unsettled(s) && s.queue != [] && Someone(s.workers, Waiting) ==> Someone(s.workers, Ready)
  }

  /** Every item taken is done with or held by exactly one worker. */
  ghost predicate ConservationInv(s: State) {
    && (forall x: Item :: multiset(s.taken)[x] == multiset(s.done)[x] + Sum(s.workers, Holding(x)))
    && multiset(s.done)[Stop] == Sum(s.workers, Gone)
  }

  function StopsAdded(q: QuitPc, workers: nat): nat {
    match q
    case NotCalled => 0
    case Loop(i) => i
    case AddingStop(i, pc) => if pc.WantLock? || pc.HasLock? then i else i + 1
    case _ => workers
  }

  predicate WillQueueStop(pc: AddPc) {
    (pc.WantLock? || pc.HasLock?) && pc.item == Stop
  }

  /** Only quit queues stop items. */
  ghost predicate KindInv(s: State) {
    && (forall p :: 0 <= p < |s.producers| && s.producers[p].Adding? ==> !WillQueueStop(s.producers[p].pc))
    && (s.quit.AddingStop? && (s.quit.pc.WantLock? || s.quit.pc.HasLock?) ==> WillQueueStop(s.quit.pc))
  }

  /** The running flag and the joined workers follow quit's progress. */
  ghost predicate PhaseInv(s: State) {
    && (s.isRunning <==> s.quit.NotCalled? || s.quit.Loop? || s.quit.AddingStop? || s.quit.ClearFlag?)
    && (s.quit.Loop? ==> s.quit.i <= |s.workers|)
    && (s.quit.AddingStop? ==> s.quit.i < |s.workers|)
    && (s.quit.Joining? ==> s.quit.k <= |s.workers| && forall w :: 0 <= w < s.quit.k ==> s.workers[w] == Exited)
    && (s.quit == Returned ==> forall w :: 0 <= w < |s.workers| ==> s.workers[w] == Exited)
  }

  /** So many stop items have been queued, all of them after quit was called. */
  ghost predicate StopInv(s: State) {
    && multiset(s.enqueued)[Stop] == StopsAdded(s.quit, |s.workers|)
    && s.quitMark <= |s.enqueued| && Stop !in s.enqueued[..s.quitMark]
  }

  /** When every worker has been given its stop item, nothing is taken any more. */
  ghost predicate LastTakenInv(s: State) {
    |s.workers| > 0 && multiset(s.taken)[Stop] == |s.workers| ==> s.taken != [] && s.taken[|s.taken| - 1] == Stop
  }

  ghost predicate Inv(s: State) {
    MutexInv(s) && LogInv(s) && WakeupInv(s) && ConservationInv(s)
    && KindInv(s) && PhaseInv(s) && StopInv(s) && LastTakenInv(s)
  }
}
