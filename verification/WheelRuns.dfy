/**
  Whole runs of the time wheel: it refines the countdown list over every run of adds, removes and
  ticks, and the firing times of a task follow from its interval and its count alone.
*/
module WheelRuns {
  import opened WheelModel

  /** What a user of the wheel can do.  A task may lack its function pointer. */
  datatype Op<T> = Add(t: T, setInterval: int, times: int, hasDoit: bool) | Remove(t: T) | Tick

  ghost predicate Accepted<T>(op: Op<T>) {
    op.Add? && op.setInterval >= 0 && op.hasDoit
  }

  /** A task must not be added while it is armed. */
  ghost predicate Legal<T>(w: Wheel<T>, op: Op<T>) {
    Accepted(op) ==> op.t !in w.tasks
  }

  ghost function Apply<T>(w: Wheel<T>, op: Op<T>): (r: (Wheel<T>, seq<T>))
    requires Valid(w) && Legal(w, op)
    ensures Valid(r.0)
  {
    match op
    case Add(t, interval, times, _) =>
      if Accepted(op) then AddKeepsValid(w, t, interval, times); (AddTask(w, t, interval, times), []) else (w, [])
    case Remove(t) => RemoveKeepsValid(w, t); (RemoveTask(w, t), [])
    case Tick => TickKeepsValid(w); OnTick(w)
  }

  ghost predicate LegalRun<T>(w: Wheel<T>, ops: seq<Op<T>>)
    requires Valid(w)
    decreases |ops|
  {
    ops != [] ==> Legal(w, ops[0]) && LegalRun(Apply(w, ops[0]).0, ops[1..])
  }

  ghost function Run<T>(w: Wheel<T>, ops: seq<Op<T>>): (w': Wheel<T>)
    requires Valid(w) && LegalRun(w, ops)
    ensures Valid(w')
    decreases |ops|
  {
    if ops == [] then w else Run(Apply(w, ops[0]).0, ops[1..])
  }

  /** The tasks fired by each tick of the run. */
  ghost function Trace<T>(w: Wheel<T>, ops: seq<Op<T>>): seq<seq<T>>
    requires Valid(w) && LegalRun(w, ops)
    decreases |ops|
  {
    if ops == [] then []
    else (if ops[0].Tick? then [Apply(w, ops[0]).1] else []) + Trace(Apply(w, ops[0]).0, ops[1..])
  }

  // ---------------------------------------------------------------- the same on the countdown list

  ghost function CountApply<T>(c: Countdown<T>, op: Op<T>): Countdown<T> {
    match op
    case Add(t, interval, times, _) => if Accepted(op) then c[t := Count(FirstDelay(interval), interval, times)] else c
    case Remove(t) => c - {t}
    case Tick => CountDown(c)
  }

  ghost function CountRun<T>(c: Countdown<T>, ops: seq<Op<T>>): Countdown<T>
    decreases |ops|
  {
    if ops == [] then c else CountRun(CountApply(c, ops[0]), ops[1..])
  }

  ghost function CountTrace<T>(c: Countdown<T>, ops: seq<Op<T>>): seq<set<T>>
    decreases |ops|
  {
    if ops == [] then []
    else (if ops[0].Tick? then [Due(c)] else []) + CountTrace(CountApply(c, ops[0]), ops[1..])
  }

  ghost function Sets<T>(trace: seq<seq<T>>): seq<set<T>> {
    seq(|trace|, i requires 0 <= i < |trace| => Elements(trace[i]))
  }

  lemma ApplyRefines<T>(w: Wheel<T>, op: Op<T>)
    requires Valid(w) && Legal(w, op)
    ensures Abstract(Apply(w, op).0) == CountApply(Abstract(w), op)
    ensures op.Tick? ==> NoDuplicates(Apply(w, op).1) && Elements(Apply(w, op).1) == Due(Abstract(w))
  {
    match op
    case Add(t, interval, times, _) => if Accepted(op) { AddRefines(w, t, interval, times); }
    case Remove(t) => RemoveRefines(w, t);
    case Tick =>
      TickRefines(w);
      TickFiresArmedOnce(w);
  }

  lemma {:induction false} RunRefinesState<T>(w: Wheel<T>, ops: seq<Op<T>>)
    requires Valid(w) && LegalRun(w, ops)
    ensures Abstract(Run(w, ops)) == CountRun(Abstract(w), ops)
    decreases |ops|
  {
    if ops != [] {
      ApplyRefines(w, ops[0]);
      RunRefinesState(Apply(w, ops[0]).0, ops[1..]);
    }
  }

  ghost predicate SameFirings<T>(trace: seq<seq<T>>, counts: seq<set<T>>) {
    && Sets(trace) == counts
    && (forall i :: 0 <= i < |trace| ==> NoDuplicates(trace[i]))
  }

  lemma SameFiringsCons<T>(fired: seq<T>, due: set<T>, trace: seq<seq<T>>, counts: seq<set<T>>)
    requires NoDuplicates(fired) && Elements(fired) == due && SameFirings(trace, counts)
    ensures SameFirings([fired] + trace, [due] + counts)
  {
    assert Sets([fired] + trace) == [Elements(fired)] + Sets(trace);
  }

  lemma {:induction false} RunRefinesTrace<T>(w: Wheel<T>, ops: seq<Op<T>>)
    requires Valid(w) && LegalRun(w, ops)
    ensures SameFirings(Trace(w, ops), CountTrace(Abstract(w), ops))
    decreases |ops|
  {
    if ops != [] {
      ApplyRefines(w, ops[0]);
      var w1, fired := Apply(w, ops[0]).0, Apply(w, ops[0]).1;
      RunRefinesTrace(w1, ops[1..]);
      if ops[0].Tick? {
        SameFiringsCons(fired, Due(Abstract(w)), Trace(w1, ops[1..]), CountTrace(Abstract(w1), ops[1..]));
      } else {
        assert Trace(w, ops) == Trace(w1, ops[1..]);
        assert CountTrace(Abstract(w), ops) == CountTrace(Abstract(w1), ops[1..]);
      }
    }
  }

  /** Over every run, the wheel and the countdown list agree, and fire the same tasks at every tick. */
  lemma RunRefines<T>(w: Wheel<T>, ops: seq<Op<T>>)
    requires Valid(w) && LegalRun(w, ops)
    ensures Abstract(Run(w, ops)) == CountRun(Abstract(w), ops)
    ensures SameFirings(Trace(w, ops), CountTrace(Abstract(w), ops))
  {
    RunRefinesState(w, ops);
    RunRefinesTrace(w, ops);
  }

  // ---------------------------------------------------------------- when a task fires

  /** The ticks at which t fires, when the trace starts after tick `now`. */
  ghost function FireTicks<T>(trace: seq<set<T>>, t: T, now: int): seq<int>
    decreases |trace|
  {
    if trace == [] then []
    else (if t in trace[0] then [now + 1] else []) + FireTicks(trace[1..], t, now + 1)
  }

  /** How often a task with a non-negative count fires. */
  function Limit(times: int): int {
    if times > 1 then times else 1
  }

  /** Whether a task still has firings left after k of them; a negative count has no end. */
  predicate MoreToCome(times: int, k: int) {
    times < 0 || k < Limit(times)
  }

  /** f lists first, first + period, ...: all of them up to `last`, except that the count may end it. */
  ghost predicate OnSchedule(f: seq<int>, first: int, period: int, times: int, last: int) {
    && (forall j :: 0 <= j < |f| ==> f[j] == first + j * period)
    && (f != [] ==> f[|f| - 1] <= last && MoreToCome(times, |f| - 1))
    && (MoreToCome(times, |f|) ==> first + |f| * period > last)
  }

  ghost predicate LeavesAlone<T>(ops: seq<Op<T>>, t: T) {
    forall i :: 0 <= i < |ops| ==> ops[i] != Remove(t) && !(Accepted(ops[i]) && ops[i].t == t)
  }

  lemma OnScheduleCons(f: seq<int>, first: int, period: int, times: int, last: int)
    requires period >= 1 && first <= last && MoreToCome(times, 1)
    requires OnSchedule(f, first + period, period, AfterFiring(times), last)
    ensures OnSchedule([first] + f, first, period, times, last)
  {
    var g := [first] + f;
    forall j | 0 <= j < |g| ensures g[j] == first + j * period {
      if j > 0 {
        assert g[j] == f[j - 1];
        assert (j - 1) * period + period == j * period;
      }
    }
    assert |f| * period + period == |g| * period;
  }

  /** The firings of t in a trace, and whether it is still listed at the end, follow its count. */
  ghost predicate Scheduled<T>(trace: seq<set<T>>, end: Countdown<T>, t: T, now: int, k: Count) {
    var f := FireTicks(trace, t, now);
    && OnSchedule(f, now + k.remaining, Period(k.interval), k.times, now + |trace|)
    && (t in end <==> MoreToCome(k.times, |f|))
  }

  lemma ScheduledQuietTick<T>(due: set<T>, trace: seq<set<T>>, end: Countdown<T>, t: T, now: int, k: Count)
    requires t !in due && Scheduled(trace, end, t, now + 1, k.(remaining := k.remaining - 1))
    ensures Scheduled([due] + trace, end, t, now, k)
  {
    assert FireTicks([due] + trace, t, now) == FireTicks(trace, t, now + 1);
  }

  lemma ScheduledFiring<T>(due: set<T>, trace: seq<set<T>>, end: Countdown<T>, t: T, now: int, k: Count)
    requires t in due && k.remaining == 1 && k.interval >= 0 && AfterFiring(k.times) != 0
    requires Scheduled(trace, end, t, now + 1, Count(Period(k.interval), k.interval, AfterFiring(k.times)))
    ensures Scheduled([due] + trace, end, t, now, k)
  {
    var f := FireTicks(trace, t, now + 1);
    assert FireTicks([due] + trace, t, now) == [now + 1] + f;
    OnScheduleCons(f, now + 1, Period(k.interval), k.times, now + 1 + |trace|);
  }

  lemma ScheduledLastFiring<T>(due: set<T>, trace: seq<set<T>>, end: Countdown<T>, t: T, now: int, k: Count)
    requires t in due && k.remaining == 1 && AfterFiring(k.times) == 0
    requires FireTicks(trace, t, now + 1) == [] && t !in end
    ensures Scheduled([due] + trace, end, t, now, k)
  {
    assert FireTicks([due] + trace, t, now) == [now + 1];
  }

  lemma {:induction false} CountdownSchedule<T>(c: Countdown<T>, ops: seq<Op<T>>, t: T, now: int)
    requires LeavesAlone(ops, t)
    requires t in c && c[t].remaining >= 1 && c[t].interval >= 0
    ensures Scheduled(CountTrace(c, ops), CountRun(c, ops), t, now, c[t])
    decreases |ops|
  {
    if ops != [] {
      var c1, rest := CountApply(c, ops[0]), ops[1..];
      var trace, end := CountTrace(c1, rest), CountRun(c1, rest);
      assert LeavesAlone(rest, t);
      if !ops[0].Tick? {
        assert CountTrace(c, ops) == trace;
        assert ops[0] != Remove(t);
        CountdownSchedule(c1, rest, t, now);
      } else if c[t].remaining > 1 {
        CountdownSchedule(c1, rest, t, now + 1);
        ScheduledQuietTick(Due(c), trace, end, t, now, c[t]);
      } else if AfterFiring(c[t].times) != 0 {
        CountdownSchedule(c1, rest, t, now + 1);
        ScheduledFiring(Due(c), trace, end, t, now, c[t]);
      } else {
        GoneForGood(c1, rest, t, now + 1);
        ScheduledLastFiring(Due(c), trace, end, t, now, c[t]);
      }
    }
  }

  lemma {:induction false} GoneForGood<T>(c: Countdown<T>, ops: seq<Op<T>>, t: T, now: int)
    requires LeavesAlone(ops, t) && t !in c
    ensures FireTicks(CountTrace(c, ops), t, now) == [] && t !in CountRun(c, ops)
    decreases |ops|
  {
    if ops != [] {
      var c1, rest := CountApply(c, ops[0]), ops[1..];
      assert t !in c1 by { if Accepted(ops[0]) { assert ops[0].t != t; } }
      assert LeavesAlone(rest, t);
      if ops[0].Tick? {
        assert CountTrace(c, ops)[1..] == CountTrace(c1, rest);
        GoneForGood(c1, rest, t, now + 1);
      } else {
        assert CountTrace(c, ops) == CountTrace(c1, rest);
        GoneForGood(c1, rest, t, now);
      }
    }
  }

  /**
    A task added now, and left alone by the rest of the run, fires FirstDelay(interval) ticks later
    and every Period(interval) ticks after that, as often as its count allows, and at no other
    tick.  It is armed at the end of the run exactly when firings remain.
  */
  lemma AddedTaskSchedule<T>(w: Wheel<T>, ops: seq<Op<T>>, t: T, interval: int, times: int, now: int)
    requires Valid(w) && t !in w.tasks && interval >= 0
    requires Valid(AddTask(w, t, interval, times)) && LegalRun(AddTask(w, t, interval, times), ops)
    requires LeavesAlone(ops, t)
    ensures var w1 := AddTask(w, t, interval, times);
            var f := FireTicks(Sets(Trace(w1, ops)), t, now);
            && OnSchedule(f, now + FirstDelay(interval), Period(interval), times, now + |Trace(w1, ops)|)
            && (t in Run(w1, ops).tasks <==> MoreToCome(times, |f|))
  {
    var w1 := AddTask(w, t, interval, times);
    AddRefines(w, t, interval, times);
    RunRefines(w1, ops);
    CountdownSchedule(Abstract(w1), ops, t, now);
    assert t in Abstract(Run(w1, ops)) <==> t in Run(w1, ops).tasks;
  }

  lemma TwoFirings(f: seq<int>, first: int, period: int, times: int, last: int)
    requires OnSchedule(f, first, period, times, last) && MoreToCome(times, 1) && period >= 0 && first + period <= last
    ensures |f| >= 2 && f[0] == first && f[1] == first + period
  {
    assert |f| == 0 ==> first + |f| * period == first;
    assert |f| == 1 ==> first + |f| * period == first + period;
  }

  /** A task with interval 0 and more than one firing fires on the next tick, and not before 60 ticks later again. */
  lemma ZeroIntervalSchedule<T>(w: Wheel<T>, ops: seq<Op<T>>, t: T, times: int, now: int)
    requires Valid(w) && t !in w.tasks && MoreToCome(times, 1)
    requires Valid(AddTask(w, t, 0, times)) && LegalRun(AddTask(w, t, 0, times), ops) && LeavesAlone(ops, t)
    ensures var trace := Sets(Trace(AddTask(w, t, 0, times), ops));
            var f := FireTicks(trace, t, now);
            |trace| >= 61 ==> |f| >= 2 && f[0] == now + 1 && f[1] == now + 61
  {
    var trace := Sets(Trace(AddTask(w, t, 0, times), ops));
    AddedTaskSchedule(w, ops, t, 0, times, now);
    if |trace| >= 61 { TwoFirings(FireTicks(trace, t, now), now + 1, SLOTNUM, times, now + |trace|); }
  }

  /** A removed task never fires again unless it is added again. */
  lemma RemovedTaskIsSilent<T>(w: Wheel<T>, ops: seq<Op<T>>, t: T)
    requires Valid(w) && Valid(RemoveTask(w, t)) && LegalRun(RemoveTask(w, t), ops) && LeavesAlone(ops, t)
    ensures forall fired :: fired in Trace(RemoveTask(w, t), ops) ==> t !in fired
  {
    var w1 := RemoveTask(w, t);
    RunRefines(w1, ops);
    RemoveRefines(w, t);
    GoneForGood(Abstract(w1), ops, t, 0);
    SilentTrace(Sets(Trace(w1, ops)), t, 0);
    forall fired | fired in Trace(w1, ops) ensures t !in fired {
      var i :| 0 <= i < |Trace(w1, ops)| && Trace(w1, ops)[i] == fired;
      assert t !in Sets(Trace(w1, ops))[i];
    }
  }

  lemma {:induction false} SilentTrace<T>(trace: seq<set<T>>, t: T, now: int)
    requires FireTicks(trace, t, now) == []
    ensures forall i :: 0 <= i < |trace| ==> t !in trace[i]
    decreases |trace|
  {
    if trace != [] {
      SilentTrace(trace[1..], t, now + 1);
      forall i | 0 <= i < |trace| ensures t !in trace[i] {
        if i > 0 { assert trace[i] == trace[1..][i - 1]; }
      }
    }
  }
}
