/**
  The time wheel (src/ndsl/net/TimeWheel.cc) on values: what addTask, removeTask and onTick do to
  the slots, and the plain list of countdowns that the wheel stands in for.
*/
module WheelModel {
  import opened Sequences

  const SLOTNUM := 60

  /**
    The fields of a task.  Two of them are history: `serial` numbers the armings of tasks, by
    addTask or again by onTick, and `runs` counts the times the task has fired since it was added.
  */
  datatype TaskState = TaskState(setInterval: int, times: int, restInterval: int, setTick: int,
                                 serial: nat, runs: nat)

  /** Slots of tasks, and the state of every armed task. */
  datatype Wheel<T(==)> = Wheel(curTick: int, slots: seq<seq<T>>, tasks: map<T, TaskState>, nextSerial: nat)

  ghost predicate NoDuplicates<T>(s: seq<T>) {
    forall i, j :: 0 <= i < j < |s| ==> s[i] != s[j]
  }

  /**
    Between two loop passes of onTick, `pending` holds the tasks still to be handled.  Every
    other armed task is in exactly one slot, once, and that slot is the one it names.
  */
  ghost predicate ValidDuring<T>(w: Wheel<T>, pending: seq<T>) {
    && 0 <= w.curTick < SLOTNUM
    && |w.slots| == SLOTNUM
    && NoDuplicates(pending)
    && (forall b :: 0 <= b < SLOTNUM ==> NoDuplicates(w.slots[b]))
    && (forall t :: t in pending ==> t in w.tasks && w.tasks[t].setTick == w.curTick)
    && (forall b, t :: 0 <= b < SLOTNUM && t in w.slots[b] ==>
          t in w.tasks && t !in pending && w.tasks[t].setTick == b)
    && (forall t :: t in w.tasks ==>
          && 0 <= w.tasks[t].setTick < SLOTNUM
          && 0 <= w.tasks[t].setInterval
          && 0 <= w.tasks[t].restInterval
          && w.tasks[t].serial < w.nextSerial
          && (t !in pending ==> t in w.slots[w.tasks[t].setTick]))
  }

  ghost predicate Valid<T>(w: Wheel<T>) {
    ValidDuring(w, [])
  }

  // ---------------------------------------------------------------- the operations

  function SlotFor(curTick: int, setInterval: int): int {
    if setInterval == 0 then (curTick + 1) % SLOTNUM else (curTick + setInterval) % SLOTNUM
  }

  function PushBack<T>(slots: seq<seq<T>>, b: int, t: T): seq<seq<T>>
    requires 0 <= b < |slots|
  {
    slots[b := slots[b] + [t]]
  }

  /** addTask, once the task has been accepted. */
  function AddTask<T>(w: Wheel<T>, t: T, setInterval: int, times: int): Wheel<T>
    requires |w.slots| == SLOTNUM
  {
    var setTick := SlotFor(w.curTick, setInterval);
    Wheel(w.curTick, PushBack(w.slots, setTick, t),
          w.tasks[t := TaskState(setInterval, times, setInterval, setTick, w.nextSerial, 0)],
          w.nextSerial + 1)
  }

  /** Erases the first occurrence of t. */
  function Erase<T(==)>(s: seq<T>, t: T): seq<T> {
    DropFirst(s, x => x, t)
  }

  function RemoveTask<T>(w: Wheel<T>, t: T): Wheel<T>
    requires t in w.tasks ==> 0 <= w.tasks[t].setTick < |w.slots|
  {
    if t !in w.tasks then w
    else
      var b := w.tasks[t].setTick;
      w.(slots := w.slots[b := Erase(w.slots[b], t)], tasks := w.tasks - {t})
  }

  /** What happens to a task whose slot comes round. */
  datatype Outcome = Waits(s: TaskState) | Rearmed(s: TaskState) | Finished

  function Visit(curTick: int, s: TaskState): Outcome {
    if s.restInterval > SLOTNUM then
      Waits(s.(restInterval := s.restInterval - SLOTNUM))
    else
      var times := if s.times > 0 then s.times - 1 else s.times;
      if times == 0 then Finished
      else Rearmed(s.(times := times, setTick := (curTick + s.setInterval) % SLOTNUM,
                      restInterval := s.setInterval, runs := s.runs + 1))
  }

  /** One pass of the loop in onTick, on the first pending task. */
  function HandleOne<T>(w: Wheel<T>, t: T): Wheel<T>
    requires |w.slots| == SLOTNUM && 0 <= w.curTick < SLOTNUM && t in w.tasks
  {
    match Visit(w.curTick, w.tasks[t])
    case Waits(s) => w.(slots := PushBack(w.slots, w.curTick, t), tasks := w.tasks[t := s])
    case Rearmed(s) =>
      w.(slots := PushBack(w.slots, s.setTick, t), tasks := w.tasks[t := s.(serial := w.nextSerial)],
         nextSerial := w.nextSerial + 1)
    case Finished => w.(tasks := w.tasks - {t})
  }

  ghost predicate Ready<T>(w: Wheel<T>, pending: seq<T>) {
    && |w.slots| == SLOTNUM && 0 <= w.curTick < SLOTNUM
    && NoDuplicates(pending)
    && (forall t :: t in pending ==> t in w.tasks)
  }

  /** The whole loop: the wheel afterwards, and the tasks fired, in order. */
  function HandleAll<T>(w: Wheel<T>, pending: seq<T>, fired: seq<T>): (Wheel<T>, seq<T>)
    requires Ready(w, pending)
    decreases |pending|
  {
    if pending == [] then (w, fired)
    else
      var t := pending[0];
      var w' := HandleOne(w, t);
      HandleAll(w', pending[1..], if Visit(w.curTick, w.tasks[t]).Waits? then fired else fired + [t])
  }

  function NextTick(curTick: int): int {
    if curTick + 1 >= 60 then (curTick + 1) % SLOTNUM else curTick + 1
  }

  /** The wheel when the hand has moved and its slot has been swapped out. */
  function Advance<T>(w: Wheel<T>): Wheel<T>
    requires |w.slots| == SLOTNUM && 0 <= w.curTick < SLOTNUM
  {
    var cur := NextTick(w.curTick);
    w.(curTick := cur, slots := w.slots[cur := []])
  }

  function OnTick<T>(w: Wheel<T>): (Wheel<T>, seq<T>)
    requires Valid(w)
  {
    HandleAll(Advance(w), w.slots[NextTick(w.curTick)], [])
  }

  // ---------------------------------------------------------------- the countdown list

  datatype Count = Count(remaining: int, interval: int, times: int)

  type Countdown<!T(==)> = map<T, Count>

  /** Ticks until the first firing of a task added now. */
  function FirstDelay(interval: int): int {
    if interval == 0 then 1 else interval
  }

  /** Ticks between two firings of a periodic task. */
  function Period(interval: int): int {
    if interval == 0 then SLOTNUM else interval
  }

  function AfterFiring(times: int): int {
    if times > 0 then times - 1 else times
  }

  ghost function Due<T>(c: Countdown<T>): set<T> {
    set t | t in c && c[t].remaining == 1
  }

  ghost function CountDown<T>(c: Countdown<T>): Countdown<T> {
    map t | t in c && (c[t].remaining != 1 || AfterFiring(c[t].times) != 0) ::
      if c[t].remaining == 1
      then Count(Period(c[t].interval), c[t].interval, AfterFiring(c[t].times))
      else c[t].(remaining := c[t].remaining - 1)
  }

  /** Ticks until the hand reaches slot b, from 1 to SLOTNUM. */
  function Distance(curTick: int, b: int): int {
    (b - curTick - 1) % SLOTNUM + 1
  }

  /** Ticks until a task fires. */
  function Remaining(curTick: int, s: TaskState): int {
    Distance(curTick, s.setTick) + (if s.restInterval > SLOTNUM then (s.restInterval - 1) / SLOTNUM * SLOTNUM else 0)
  }

  function CountOf(curTick: int, s: TaskState): Count {
    Count(Remaining(curTick, s), s.setInterval, s.times)
  }

  /** The countdown list a wheel stands for. */
  function Abstract<T>(w: Wheel<T>): Countdown<T> {
    map t | t in w.tasks :: CountOf(w.curTick, w.tasks[t])
  }

  // ---------------------------------------------------------------- arithmetic of one task

  /** The slot chosen for an interval of at least one, in terms of whole turns. */
  lemma SlotDistance(curTick: int, interval: int)
    requires 0 <= curTick < SLOTNUM && 1 <= interval
    ensures Distance(curTick, (curTick + interval) % SLOTNUM) == (interval - 1) % SLOTNUM + 1
  {
    var q, r := (interval - 1) / SLOTNUM, (interval - 1) % SLOTNUM;
    assert curTick + interval == q * SLOTNUM + (curTick + 1 + r);
    var b := if curTick + 1 + r < SLOTNUM then curTick + 1 + r else curTick + 1 + r - SLOTNUM;
    ModUnique(curTick + interval, b, if curTick + 1 + r < SLOTNUM then q else q + 1);
    ModUnique(b - curTick - 1, r, if curTick + 1 + r < SLOTNUM then 0 else -1);
  }

  lemma ModUnique(x: int, r: int, q: int)
    requires x == q * SLOTNUM + r && 0 <= r < SLOTNUM
    ensures x % SLOTNUM == r
  {}

  lemma ArmedForDelay(curTick: int, interval: int)
    requires 0 <= curTick < SLOTNUM && 0 <= interval
    ensures 0 <= SlotFor(curTick, interval) < SLOTNUM
    ensures forall s: TaskState :: s.restInterval == interval && s.setTick == SlotFor(curTick, interval)
              ==> Remaining(curTick, s) == FirstDelay(interval)
  {
    SlotDistance(curTick, if interval == 0 then 1 else interval);
  }

  lemma RearmedForPeriod(curTick: int, interval: int)
    requires 0 <= curTick < SLOTNUM && 0 <= interval
    ensures forall s: TaskState :: s.restInterval == interval && s.setTick == (curTick + interval) % SLOTNUM
              ==> Remaining(curTick, s) == Period(interval)
  {
    if interval > 0 { ArmedForDelay(curTick, interval); }
  }

  lemma DistanceStep(curTick: int, b: int)
    requires 0 <= curTick < SLOTNUM && 0 <= b < SLOTNUM
    ensures Distance(curTick, b) == 1 <==> b == NextTick(curTick)
    ensures b != NextTick(curTick) ==> Distance(NextTick(curTick), b) == Distance(curTick, b) - 1
    ensures b == NextTick(curTick) ==> Distance(NextTick(curTick), b) == SLOTNUM
  {
    assert NextTick(curTick) == if curTick == 59 then 0 else curTick + 1;
    assert (b - curTick - 1) % SLOTNUM == if b > curTick then b - curTick - 1 else b - curTick + 59;
  }

  lemma RoundsStep(rest: int)
    requires rest > SLOTNUM
    ensures (rest - 1) / SLOTNUM == (rest - SLOTNUM - 1) / SLOTNUM + 1
    ensures rest - SLOTNUM <= SLOTNUM ==> (rest - 1) / SLOTNUM == 1
  {}

  /** One tick, for one task: the countdown falls by one, or the task is due and is fired. */
  lemma VisitCounts(curTick: int, s: TaskState)
    requires 0 <= curTick < SLOTNUM && 0 <= s.setTick < SLOTNUM && 0 <= s.setInterval && 0 <= s.restInterval
    ensures var cur := NextTick(curTick);
            var before := CountOf(curTick, s);
            if s.setTick != cur then
              before.remaining > 1 && CountOf(cur, s) == before.(remaining := before.remaining - 1)
            else match Visit(cur, s)
              case Waits(s') =>
                before.remaining > 1 && CountOf(cur, s') == before.(remaining := before.remaining - 1)
              case Rearmed(s') =>
                && before.remaining == 1 && AfterFiring(s.times) != 0
                && CountOf(cur, s') == Count(Period(s.setInterval), s.setInterval, AfterFiring(s.times))
              case Finished => before.remaining == 1 && AfterFiring(s.times) == 0
  {
    var cur := NextTick(curTick);
    DistanceStep(curTick, s.setTick);
    if s.restInterval > SLOTNUM { RoundsStep(s.restInterval); }
    RearmedForPeriod(cur, s.setInterval);
  }

  // ---------------------------------------------------------------- sequences

  lemma EraseAt<T>(s: seq<T>, t: T, k: nat)
    requires k < |s| && s[k] == t && t !in s[..k]
    ensures Erase(s, t) == s[..k] + s[k + 1..]
  {
    assert forall j :: 0 <= j < k ==> s[j] == s[..k][j];
    DropFirstAt(s, x => x, t, k);
  }

  lemma EraseSplits<T>(s: seq<T>, t: T) returns (k: nat)
    requires NoDuplicates(s) && t in s
    ensures k < |s| && s[k] == t && Erase(s, t) == s[..k] + s[k + 1..]
  {
    k :| 0 <= k < |s| && s[k] == t;
    EraseAt(s, t, k);
  }

  lemma EraseOnly<T>(s: seq<T>, t: T)
    requires NoDuplicates(s) && t in s
    ensures NoDuplicates(Erase(s, t)) && t !in Erase(s, t)
    ensures forall x :: x in Erase(s, t) <==> x in s && x != t
  {
    var k := EraseSplits(s, t);
    var e := s[..k] + s[k + 1..];
    forall x | x in s && x != t ensures x in e {
      var i :| 0 <= i < |s| && s[i] == x;
      assert x == if i < k then e[i] else e[i - 1];
    }
  }

  lemma SlotAppended<T>(s: seq<T>, t: T)
    requires NoDuplicates(s) && t !in s
    ensures NoDuplicates(s + [t]) && forall x :: x in s + [t] <==> x in s || x == t
  {}

  // ---------------------------------------------------------------- every operation keeps the wheel valid

  /** Adding keeps the wheel valid if and only if the task is not armed already. */
  lemma AddKeepsValid<T>(w: Wheel<T>, t: T, setInterval: int, times: int)
    requires Valid(w) && 0 <= setInterval
    ensures Valid(AddTask(w, t, setInterval, times)) <==> t !in w.tasks
  {
    var b := SlotFor(w.curTick, setInterval);
    assert 0 <= b < SLOTNUM;
    if t in w.tasks {
      ReaddedTwice(w, t, setInterval, times);
    } else {
      assert t !in w.slots[b];
      SlotAppended(w.slots[b], t);
    }
  }

  /** A task added while it is armed stands in two slots, or twice in one. */
  lemma ReaddedTwice<T>(w: Wheel<T>, t: T, setInterval: int, times: int)
    requires Valid(w) && t in w.tasks && 0 <= setInterval
    ensures var w' := AddTask(w, t, setInterval, times);
            var a, b := w.tasks[t].setTick, SlotFor(w.curTick, setInterval);
            && 0 <= a < SLOTNUM && 0 <= b < SLOTNUM && t in w'.slots[a] && t in w'.slots[b]
            && (a == b ==> !NoDuplicates(w'.slots[b]))
            && !Valid(w')
  {
    var w', a, b := AddTask(w, t, setInterval, times), w.tasks[t].setTick, SlotFor(w.curTick, setInterval);
    var k :| 0 <= k < |w.slots[a]| && w.slots[a][k] == t;
    assert w'.slots[b][|w.slots[b]|] == t && w'.slots[a][k] == t;
    assert t in w'.slots[a] && w'.tasks[t].setTick == b;
  }

  /** So it is still in a slot when it has been removed. */
  lemma ReaddedSurvivesRemoval<T>(w: Wheel<T>, t: T, setInterval: int, times: int)
    requires Valid(w) && t in w.tasks && 0 <= setInterval
    ensures t in RemoveTask(AddTask(w, t, setInterval, times), t).slots[w.tasks[t].setTick]
  {
    var w', a, b := AddTask(w, t, setInterval, times), w.tasks[t].setTick, SlotFor(w.curTick, setInterval);
    ReaddedTwice(w, t, setInterval, times);
    if a == b {
      var s := w.slots[a];
      var k := EraseSplits(s, t);
      assert t !in s[..k];
      assert (s + [t])[..k] == s[..k];
      EraseAt(s + [t], t, k);
      assert ((s + [t])[..k] + (s + [t])[k + 1..])[|s| - 1] == t;
    }
  }

  lemma StillInSlot<T>(w: Wheel<T>, t: T, c: int, x: T)
    requires Valid(w) && t in w.tasks && 0 <= c < SLOTNUM
    ensures x in RemoveTask(w, t).slots[c] <==> x in w.slots[c] && x != t
    ensures x in RemoveTask(w, t).slots[c] ==> x in RemoveTask(w, t).tasks && w.tasks[x].setTick == c
  {
    EraseOnly(w.slots[w.tasks[t].setTick], t);
  }

  lemma RemoveKeepsValid<T>(w: Wheel<T>, t: T)
    requires Valid(w)
    ensures Valid(RemoveTask(w, t))
  {
    if t in w.tasks {
      var b := w.tasks[t].setTick;
      EraseOnly(w.slots[b], t);
      var w' := RemoveTask(w, t);
      forall c, x | 0 <= c < SLOTNUM && x in w'.slots[c] ensures x in w'.tasks && w'.tasks[x].setTick == c {
        StillInSlot(w, t, c, x);
      }
      forall x | x in w'.tasks ensures x in w'.slots[w'.tasks[x].setTick] {
        StillInSlot(w, t, w.tasks[x].setTick, x);
      }
    }
  }

  /** A pending task that is put back in slot b, with a state that names b. */
  lemma PlaceValid<T>(w: Wheel<T>, pending: seq<T>, s: TaskState)
    requires pending != [] && ValidDuring(w, pending)
    requires 0 <= s.setTick < SLOTNUM && 0 <= s.setInterval && 0 <= s.restInterval && s.serial < w.nextSerial
    ensures ValidDuring(w.(slots := PushBack(w.slots, s.setTick, pending[0]),
                           tasks := w.tasks[pending[0] := s]), pending[1..])
  {
    var t, rest := pending[0], pending[1..];
    assert forall x :: x in pending <==> x == t || x in rest;
    assert t !in rest;
    assert t !in w.slots[s.setTick];
    SlotAppended(w.slots[s.setTick], t);
  }

  lemma DropValid<T>(w: Wheel<T>, pending: seq<T>)
    requires pending != [] && ValidDuring(w, pending)
    ensures ValidDuring(w.(tasks := w.tasks - {pending[0]}), pending[1..])
  {
    var t, rest := pending[0], pending[1..];
    assert forall x :: x in pending <==> x == t || x in rest;
    assert t !in rest;
  }

  lemma HandleOneValid<T>(w: Wheel<T>, pending: seq<T>)
    requires pending != [] && ValidDuring(w, pending)
    ensures ValidDuring(HandleOne(w, pending[0]), pending[1..])
  {
    match Visit(w.curTick, w.tasks[pending[0]])
    case Waits(s) => PlaceValid(w, pending, s);
    case Rearmed(s) => PlaceValid(w.(nextSerial := w.nextSerial + 1), pending, s.(serial := w.nextSerial));
    case Finished => DropValid(w, pending);
  }

  /** The tasks among `pending` that fire, in order. */
  function FireOrder<T>(curTick: int, tasks: map<T, TaskState>, pending: seq<T>): seq<T>
    requires forall i :: 0 <= i < |pending| ==> pending[i] in tasks
  {
    if pending == [] then []
    else (if Visit(curTick, tasks[pending[0]]).Waits? then [] else [pending[0]])
         + FireOrder(curTick, tasks, pending[1..])
  }

  lemma {:induction false} FireOrderCongruent<T>(curTick: int, a: map<T, TaskState>, b: map<T, TaskState>,
                                              pending: seq<T>)
    requires forall i :: 0 <= i < |pending| ==> pending[i] in a && pending[i] in b && a[pending[i]] == b[pending[i]]
    ensures FireOrder(curTick, a, pending) == FireOrder(curTick, b, pending)
    decreases |pending|
  {
    if pending != [] { FireOrderCongruent(curTick, a, b, pending[1..]); }
  }

  lemma {:induction false} HandleAllValid<T>(w: Wheel<T>, pending: seq<T>, fired: seq<T>)
    requires ValidDuring(w, pending)
    ensures var w' := HandleAll(w, pending, fired).0;
            Valid(w') && w'.curTick == w.curTick && w.nextSerial <= w'.nextSerial
    decreases |pending|
  {
    if pending != [] {
      HandleOneValid(w, pending);
      HandleAllValid(HandleOne(w, pending[0]), pending[1..],
        if Visit(w.curTick, w.tasks[pending[0]]).Waits? then fired else fired + [pending[0]]);
    }
  }

  /** The state of one task after its slot has come round; re-armed, it has a new serial number. */
  ghost predicate Visited<T>(curTick: int, nextSerial: nat, tasks: map<T, TaskState>, t: T, after: map<T, TaskState>)
    requires t in tasks
  {
    match Visit(curTick, tasks[t])
    case Waits(s) => t in after && after[t] == s
    case Rearmed(s) => t in after && nextSerial <= after[t].serial && after[t] == s.(serial := after[t].serial)
    case Finished => t !in after
  }

  /** What the loop of onTick does to every task. */
  lemma {:induction false} HandleAllTasks<T>(w: Wheel<T>, pending: seq<T>, fired: seq<T>)
    requires Ready(w, pending)
    ensures var after := HandleAll(w, pending, fired).0.tasks;
            && after.Keys <= w.tasks.Keys
            && (forall t :: t in w.tasks && t !in pending ==> t in after && after[t] == w.tasks[t])
            && (forall t :: t in pending ==> Visited(w.curTick, w.nextSerial, w.tasks, t, after))
    decreases |pending|
  {
    if pending != [] {
      var t, rest := pending[0], pending[1..];
      var w1 := HandleOne(w, t);
      var fired1 := if Visit(w.curTick, w.tasks[t]).Waits? then fired else fired + [t];
      HandleAllTasks(w1, rest, fired1);
      var after := HandleAll(w1, rest, fired1).0.tasks;
      assert t !in rest;
      forall x | x in w.tasks
        ensures x !in pending ==> x in after && after[x] == w.tasks[x]
        ensures x in pending ==> Visited(w.curTick, w.nextSerial, w.tasks, x, after)
      {
        assert x in pending <==> x == t || x in rest;
        if x != t { assert x in w1.tasks && w1.tasks[x] == w.tasks[x]; }
      }
    }
  }

  /** Which tasks the loop fires, in order. */
  lemma {:induction false} HandleAllFired<T>(w: Wheel<T>, pending: seq<T>, fired: seq<T>)
    requires Ready(w, pending)
    ensures HandleAll(w, pending, fired).1 == fired + FireOrder(w.curTick, w.tasks, pending)
    decreases |pending|
  {
    if pending != [] {
      var t, rest := pending[0], pending[1..];
      var w1 := HandleOne(w, t);
      HandleAllFired(w1, rest, if Visit(w.curTick, w.tasks[t]).Waits? then fired else fired + [t]);
      FireOrderCongruent(w.curTick, w.tasks, w1.tasks, rest);
    }
  }

  lemma AdvanceValid<T>(w: Wheel<T>)
    requires Valid(w)
    ensures ValidDuring(Advance(w), w.slots[NextTick(w.curTick)])
  {}

  lemma {:induction false} FireOrderMembers<T>(curTick: int, tasks: map<T, TaskState>, pending: seq<T>)
    requires forall i :: 0 <= i < |pending| ==> pending[i] in tasks
    ensures forall t :: t in FireOrder(curTick, tasks, pending) <==> t in pending && !Visit(curTick, tasks[t]).Waits?
    ensures NoDuplicates(pending) ==> NoDuplicates(FireOrder(curTick, tasks, pending))
    decreases |pending|
  {
    if pending != [] { FireOrderMembers(curTick, tasks, pending[1..]); }
  }

  // ---------------------------------------------------------------- the wheel refines the countdown list

  ghost function Elements<T>(s: seq<T>): set<T> {
    set t | t in s
  }

  lemma AddRefines<T>(w: Wheel<T>, t: T, setInterval: int, times: int)
    requires Valid(w) && 0 <= setInterval
    ensures Abstract(AddTask(w, t, setInterval, times))
            == Abstract(w)[t := Count(FirstDelay(setInterval), setInterval, times)]
  {
    ArmedForDelay(w.curTick, setInterval);
  }

  lemma RemoveRefines<T>(w: Wheel<T>, t: T)
    requires Valid(w)
    ensures Abstract(RemoveTask(w, t)) == Abstract(w) - {t}
  {}

  /** What a tick does to the countdown of one armed task. */
  ghost predicate Ticked<T>(w: Wheel<T>, w': Wheel<T>, fired: seq<T>, t: T)
    requires t in w.tasks
  {
    var before := CountOf(w.curTick, w.tasks[t]);
    && (t in fired <==> before.remaining == 1)
    && (t in w'.tasks <==> before.remaining != 1 || AfterFiring(before.times) != 0)
    && (t in w'.tasks ==>
          CountOf(w'.curTick, w'.tasks[t]) ==
          if before.remaining == 1 then Count(Period(before.interval), before.interval, AfterFiring(before.times))
          else before.(remaining := before.remaining - 1))
  }

  lemma TickedByVisit<T>(w: Wheel<T>, w': Wheel<T>, fired: seq<T>, t: T)
    requires Valid(w) && t in w.tasks && w'.curTick == NextTick(w.curTick)
    requires w.tasks[t].setTick != w'.curTick ==> t in w'.tasks && w'.tasks[t] == w.tasks[t]
    requires w.tasks[t].setTick == w'.curTick ==> Visited(w'.curTick, w.nextSerial, w.tasks, t, w'.tasks)
    requires t in fired <==> w.tasks[t].setTick == w'.curTick && !Visit(w'.curTick, w.tasks[t]).Waits?
    ensures Ticked(w, w', fired, t)
  {
    VisitCounts(w.curTick, w.tasks[t]);
    if t in w'.tasks { SerialIsNoCount(w'.curTick, w'.tasks[t], w.tasks[t].serial); }
  }

  lemma SerialIsNoCount(curTick: int, s: TaskState, n: nat)
    ensures CountOf(curTick, s.(serial := n)) == CountOf(curTick, s)
  {}

  lemma TickOnTask<T>(w: Wheel<T>, t: T)
    requires Valid(w) && t in w.tasks
    ensures Ticked(w, OnTick(w).0, OnTick(w).1, t)
  {
    var cur := NextTick(w.curTick);
    var pending := w.slots[cur];
    AdvanceValid(w);
    HandleAllValid(Advance(w), pending, []);
    HandleAllTasks(Advance(w), pending, []);
    HandleAllFired(Advance(w), pending, []);
    FireOrderMembers(cur, w.tasks, pending);
    assert t in pending <==> w.tasks[t].setTick == cur;
    TickedByVisit(w, OnTick(w).0, OnTick(w).1, t);
  }

  lemma TickKeepsValid<T>(w: Wheel<T>)
    requires Valid(w)
    ensures Valid(OnTick(w).0)
  {
    AdvanceValid(w);
    HandleAllValid(Advance(w), w.slots[NextTick(w.curTick)], []);
  }

  lemma TickFires<T>(w: Wheel<T>)
    requires Valid(w)
    ensures OnTick(w).1 == FireOrder(NextTick(w.curTick), w.tasks, w.slots[NextTick(w.curTick)])
  {
    HandleAllFired(Advance(w), w.slots[NextTick(w.curTick)], []);
  }

  lemma TickKeepsTasks<T>(w: Wheel<T>)
    requires Valid(w)
    ensures OnTick(w).0.tasks.Keys <= w.tasks.Keys
  {
    HandleAllTasks(Advance(w), w.slots[NextTick(w.curTick)], []);
  }

  lemma FiredIsArmed<T>(w: Wheel<T>, t: T)
    requires Valid(w) && t in OnTick(w).1
    ensures t in w.tasks
  {
    var cur := NextTick(w.curTick);
    TickFires(w);
    FireOrderMembers(cur, w.tasks, w.slots[cur]);
    assert t in FireOrder(cur, w.tasks, w.slots[cur]);
    assert t in w.slots[cur];
  }

  /** No task fires twice in a tick, and only armed tasks fire. */
  lemma TickFiresArmedOnce<T>(w: Wheel<T>)
    requires Valid(w)
    ensures NoDuplicates(OnTick(w).1)
    ensures forall t :: t in OnTick(w).1 ==> t in w.tasks
  {
    TickFires(w);
    FireOrderMembers(NextTick(w.curTick), w.tasks, w.slots[NextTick(w.curTick)]);
    forall t | t in OnTick(w).1 ensures t in w.tasks { FiredIsArmed(w, t); }
  }

  /** A tick fires exactly the tasks whose countdown is at one, and counts the others down. */
  lemma TickRefines<T>(w: Wheel<T>)
    requires Valid(w)
    ensures Abstract(OnTick(w).0) == CountDown(Abstract(w))
    ensures Elements(OnTick(w).1) == Due(Abstract(w))
  {
    var w', fired := OnTick(w).0, OnTick(w).1;
    TickFiresArmedOnce(w);
    TickKeepsTasks(w);
    forall t | t in w.tasks ensures Ticked(w, w', fired, t) {
      TickOnTask(w, t);
    }
    TickedAll(w, w', fired);
  }

  lemma TickedAll<T>(w: Wheel<T>, w': Wheel<T>, fired: seq<T>)
    requires w'.tasks.Keys <= w.tasks.Keys
    requires forall t :: t in fired ==> t in w.tasks
    requires forall t :: t in w.tasks ==> Ticked(w, w', fired, t)
    ensures Abstract(w') == CountDown(Abstract(w))
    ensures Elements(fired) == Due(Abstract(w))
  {
    var c := Abstract(w);
    assert forall t :: t in c <==> t in w.tasks;
    assert forall t :: t in w.tasks ==> c[t] == CountOf(w.curTick, w.tasks[t]);
  }
}
