/**
  The event loop's task queue (src/ndsl/net/EventLoop.cc, include/ndsl/net/EventLoop.h and
  include/ndsl/utils/WorkQueue.h) as a state machine.  Any number of threads add and remove work
  and call quit while one thread runs the loop.  A step is one locked access to the queue, one read
  or write of an event counter, one return of the wait, or one whole callback.

  Both counters are semaphores: a write adds one and a read takes one.  The wait reports ready
  channels level-triggered, at most MAX_EVENTS of them.
*/
module EventLoop {

  const MAX_EVENTS := 64

  /** A queued item, named by its address; serial numbers count the calls of enqueue. */
  datatype Entry = Entry(serial: nat, item: int)

  /** Where a caller of addWork is: not in it, or between the enqueue and the write. */
  datatype AdderPc = Idle | Queued(serial: nat)

  /** Where the loop is; `quit` is its local flag. */
  datatype LoopPc =
    | AtWait
    | ReadCount(quit: bool)               // has work: about to read the queue's counter
    | TestEmpty(quit: bool)               // onQueue: about to test the queue
    | SwapOut(quit: bool)                 // doit: about to take the whole queue
    | Drain(quit: bool)                   // doit: about to take the next of the batch
    | Running(quit: bool, e: Entry)       // doit: in a callback
    | ReadInterrupt                       // about to read the interrupt's counter and leave
    | Stopped

  /**
    Shared variables, the loop's locals, and histories: serials whose addWork has returned, entries
    executed, serials removed, what had been added at each call of quit, and what had been added,
    and how often quit had been called, when the loop last saw the interrupt.
  */
  datatype State = State(
    queue: seq<Entry>, count: nat, interrupts: nat, adders: seq<AdderPc>,
    pc: LoopPc, batch: seq<Entry>,
    nextSerial: nat, added: set<nat>, executed: seq<Entry>, removed: set<nat>,
    quitCalls: seq<set<nat>>, seen: set<nat>, quitsSeen: nat)

  datatype Step =
    | Enqueue(a: nat, item: int)
    | WriteCount(a: nat)
    | RemoveWork(item: int)
    | CallQuit
    | Wait(others: nat, sawQueue: bool, sawInterrupt: bool)
    | Loop

  function Init(adders: nat): State {
    State([], 0, 0, seq(adders, i => Idle), AtWait, [], 0, {}, [], {}, [], {}, 0)
  }

  function Bit(b: bool): nat { if b then 1 else 0 }

  /**
    The wait returns when something is ready: `others` of the other channels, and each counter
    that is positive.  All are reported unless they are more than MAX_EVENTS.
  */
  ghost predicate WaitReports(s: State, channels: nat, others: nat, sawQueue: bool, sawInterrupt: bool) {
    var ready := others + Bit(s.count > 0) + Bit(s.interrupts > 0);
    && others <= channels && ready > 0
    && (sawQueue ==> s.count > 0) && (sawInterrupt ==> s.interrupts > 0)
    && (ready <= MAX_EVENTS ==> (sawQueue <==> s.count > 0) && (sawInterrupt <==> s.interrupts > 0))
  }

  /** `channels` is the number of registered channels besides the two of the loop itself. */
  ghost predicate Enabled(s: State, channels: nat, step: Step) {
    match step
    case Enqueue(a, _) => a < |s.adders| && s.adders[a] == Idle
    case WriteCount(a) => a < |s.adders| && s.adders[a].Queued?
    case RemoveWork(_) => true
    case CallQuit => true
    case Wait(others, sawQueue, sawInterrupt) =>
      s.pc == AtWait && WaitReports(s, channels, others, sawQueue, sawInterrupt)
    case Loop => s.pc != AtWait && s.pc != Stopped
  }

  /** Index of the first entry for an item, or the length. */
  ghost function IndexOf(q: seq<Entry>, item: int): (i: nat)
    ensures i <= |q| && (i < |q| ==> q[i].item == item)
    ensures forall j :: 0 <= j < i ==> q[j].item != item
    decreases |q|
  {
    if q == [] || q[0].item == item then 0 else 1 + IndexOf(q[1..], item)
  }

  ghost function LoopNext(s: State): State
    requires s.pc != AtWait && s.pc != Stopped
  {
    match s.pc
    case ReadCount(quit) => s.(count := if s.count > 0 then s.count - 1 else 0, pc := TestEmpty(quit))
    case TestEmpty(quit) => s.(pc := if s.queue != [] then SwapOut(quit) else if quit then ReadInterrupt else AtWait)
    case SwapOut(quit) => s.(batch := s.queue, queue := [], pc := Drain(quit))
    case Drain(quit) =>
      if s.batch == [] then s.(pc := TestEmpty(quit))
      else s.(batch := s.batch[1..], pc := Running(quit, s.batch[0]))
    case Running(quit, e) => s.(executed := s.executed + [e], pc := Drain(quit))
    case ReadInterrupt => s.(interrupts := if s.interrupts > 0 then s.interrupts - 1 else 0, pc := Stopped)
  }

  ghost function Next(s: State, channels: nat, step: Step): State
    requires Enabled(s, channels, step)
  {
    match step
    case Enqueue(a, item) =>
      s.(queue := s.queue + [Entry(s.nextSerial, item)], nextSerial := s.nextSerial + 1,
         adders := s.adders[a := Queued(s.nextSerial)])
    case WriteCount(a) =>
      s.(count := s.count + 1, added := s.added + {s.adders[a].serial}, adders := s.adders[a := Idle])
    case RemoveWork(item) =>
      var i := IndexOf(s.queue, item);
      if i == |s.queue| then s
      else s.(queue := s.queue[..i] + s.queue[i + 1..], removed := s.removed + {s.queue[i].serial})
    case CallQuit => s.(interrupts := s.interrupts + 1, quitCalls := s.quitCalls + [s.added])
    case Wait(_, sawQueue, sawInterrupt) =>
      s.(pc := if sawQueue then ReadCount(sawInterrupt) else if sawInterrupt then ReadInterrupt else AtWait,
         seen := if sawInterrupt then s.added else s.seen,
         quitsSeen := if sawInterrupt then |s.quitCalls| else s.quitsSeen)
    case Loop => LoopNext(s)
  }

  ghost predicate IsRun(s: State, channels: nat, steps: seq<Step>)
    decreases |steps|
  {
    steps != [] ==> Enabled(s, channels, steps[0]) && IsRun(Next(s, channels, steps[0]), channels, steps[1..])
  }

  ghost function After(s: State, channels: nat, steps: seq<Step>): State
    requires IsRun(s, channels, steps)
    decreases |steps|
  {
    if steps == [] then s else After(Next(s, channels, steps[0]), channels, steps[1..])
  }

  ghost predicate Reachable(s: State, channels: nat) {
    exists adders: nat, steps: seq<Step> ::
      IsRun(Init(adders), channels, steps) && After(Init(adders), channels, steps) == s
  }

  // ---------------------------------------------------------------- invariants

  /** An entry with this serial number is in the list. */
  ghost predicate Has(q: seq<Entry>, k: nat) {
    exists i :: 0 <= i < |q| && q[i].serial == k
  }

  ghost function Current(pc: LoopPc): seq<Entry> {
    if pc.Running? then [pc.e] else []
  }

  /** Everything executed, running, swapped out and queued, in that order. */
  ghost function Line(s: State): seq<Entry> {
    s.executed + Current(s.pc) + s.batch + s.queue
  }

  ghost predicate Increasing(q: seq<Entry>) {
    forall i, j :: 0 <= i < j < |q| ==> q[i].serial < q[j].serial
  }

  /** Every item enqueued is in exactly one place, and items keep their order. */
  ghost predicate LineInv(s: State) {
    && Increasing(Line(s))
    && (forall k: nat :: k < s.nextSerial <==> Has(Line(s), k) || k in s.removed)
    && (forall k: nat :: Has(Line(s), k) ==> k !in s.removed)
    && (!s.pc.Running? && !s.pc.Drain? ==> s.batch == [])
  }

  /** An added item that is still queued has left the counter positive, unless the loop is draining. */
  ghost predicate WakeInv(s: State) {
    (s.pc.AtWait? || s.pc.ReadCount? || s.pc.ReadInterrupt? || s.pc.Stopped?) ==>
      forall i :: 0 <= i < |s.queue| && s.queue[i].serial in s.added ==> s.count > 0
  }

  ghost predicate SerialInv(s: State) {
    && (forall k :: k in s.added ==> k < s.nextSerial)
    && (forall a :: 0 <= a < |s.adders| && s.adders[a].Queued? ==> s.adders[a].serial < s.nextSerial)
    && s.seen <= s.added
    && (forall i, j :: 0 <= i < j < |s.quitCalls| ==> s.quitCalls[i] <= s.quitCalls[j])
    && (forall i :: 0 <= i < |s.quitCalls| ==> s.quitCalls[i] <= s.added)
    && |s.quitCalls| >= s.interrupts
  }

  /** Once the loop is on its way out, nothing that it had to see is left in the queue. */
  ghost predicate SeenInv(s: State) {
    && (s.pc.ReadInterrupt? || s.pc.Stopped? ==> forall i :: 0 <= i < |s.queue| ==> s.queue[i].serial !in s.seen)
    && (Leaving(s.pc) ==> s.quitsSeen > 0)
    && s.quitsSeen <= |s.quitCalls| && forall i :: 0 <= i < s.quitsSeen ==> s.quitCalls[i] <= s.seen
  }

  predicate Leaving(pc: LoopPc) {
    match pc
    case AtWait => false
    case ReadInterrupt => true
    case Stopped => true
    case ReadCount(quit) => quit
    case TestEmpty(quit) => quit
    case SwapOut(quit) => quit
    case Drain(quit) => quit
    case Running(quit, _) => quit
  }
}
