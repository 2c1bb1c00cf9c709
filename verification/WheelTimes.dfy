/** When a task of the wheel fires, in numbers of ticks. */
module WheelTimes {
  import opened Basics
  import opened WheelModel
  import opened WheelRuns

  lemma {:induction false} TickListed<T>(trace: seq<set<T>>, t: T, now: int, i: nat)
    requires i < |trace|
    ensures t in trace[i] <==> now + 1 + i in FireTicks(trace, t, now)
    ensures forall x :: x in FireTicks(trace, t, now) ==> x > now
    decreases |trace|
  {
    if |trace| > 1 { TickListed(trace[1..], t, now + 1, if i > 0 then i - 1 else 0); }
  }

  lemma Multiples(n: nat, j: nat, interval: nat)
    requires interval >= 1
    ensures n == j * interval <==> n % interval == 0 && n / interval == j
  {
    if n == j * interval { Quotient(n, interval, j, 0); }
    assert n == interval * (n / interval) + n % interval;
  }

  lemma Larger(a: nat, b: nat, interval: nat)
    requires a <= b
    ensures a * interval <= b * interval
  {}

  /** The j-th multiple of the interval is listed, if the count allows. */
  lemma MultipleIsListed(f: seq<int>, now: int, interval: nat, times: int, last: int, j: nat)
    requires OnSchedule(f, now + interval, interval, times, last)
    requires 1 <= j && now + j * interval <= last && (times < 0 || j <= Limit(times))
    ensures j <= |f| && f[j - 1] == now + j * interval
  {
    var n := |f|;
    assert (n + 1) * interval == n * interval + interval;
    if n < j { Larger(n + 1, j, interval); }
    assert j >= 1 ==> j * interval == interval + (j - 1) * interval;
  }

  /** A tick is listed exactly if it is a multiple of the interval and firings remain for it. */
  lemma ListedIff(f: seq<int>, now: int, interval: nat, times: int, last: int, n: nat)
    requires interval >= 1 && n >= 1 && OnSchedule(f, now + interval, interval, times, last) && now + n <= last
    ensures now + n in f <==>
              n % interval == 0 && (times < 0 || n / interval <= if times > 1 then times else 1)
  {
    if now + n in f {
      var j :| 0 <= j < |f| && f[j] == now + n;
      assert n == (j + 1) * interval;
      Multiples(n, j + 1, interval);
    }
    var q := n / interval;
    Multiples(n, q, interval);
    if n % interval == 0 && (times < 0 || q <= Limit(times)) {
      assert q != 0;
      MultipleIsListed(f, now, interval, times, last, q);
    }
  }

  lemma FiringsOnTime<T>(trace: seq<set<T>>, t: T, interval: nat, times: int, n: nat)
    requires interval >= 1 && 1 <= n <= |trace|
    requires OnSchedule(FireTicks(trace, t, 0), interval, interval, times, |trace|)
    ensures t in trace[n - 1] <==>
              n % interval == 0 && (times < 0 || n / interval <= if times > 1 then times else 1)
  {
    TickListed(trace, t, 0, n - 1);
    ListedIff(FireTicks(trace, t, 0), 0, interval, times, |trace|, n);
  }

  /**
    For an interval of at least one, the n-th tick after the adding fires the task if and only if n
    is a multiple of the interval, and no later one than the count allows; a negative count has
    no end, and a count of 0 is one of 1.
  */
  lemma AddedTaskFiresOnTime<T>(w: Wheel<T>, ops: seq<Op<T>>, t: T, interval: int, times: int, n: nat)
    requires Valid(w) && t !in w.tasks && interval >= 1
    requires Valid(AddTask(w, t, interval, times)) && LegalRun(AddTask(w, t, interval, times), ops)
    requires LeavesAlone(ops, t)
    ensures var trace := Trace(AddTask(w, t, interval, times), ops);
            1 <= n <= |trace| ==>
              (t in trace[n - 1] <==>
                 n % interval == 0 && (times < 0 || n / interval <= if times > 1 then times else 1))
  {
    AddedTaskSchedule(w, ops, t, interval, times, 0);
    var trace := Trace(AddTask(w, t, interval, times), ops);
    if 1 <= n <= |trace| { FiringsOnTime(Sets(trace), t, interval, times, n); }
  }
}
