/**
  The pool of event loops (src/ndsl/net/ELThreadpool.cc): loops are handed out in turn, and a new
  one is opened when its turn comes first, up to a maximum.
*/
module LoopPool {
  import opened Basics

  class EventLoop {
    constructor () {}
  }

  /** The index handed out j calls after the next index was n. */
  function Slot(n: nat, j: nat, m: nat): (i: nat)
    requires m > 0
    ensures i < m && (n + j < m ==> i == n + j) && i <= n + j
  {
    (n + j) % m
  }

  class ELThreadpool {
    var loops: seq<EventLoop>
    var threads: nat
    var maxThreads: nat
    var nextThread: nat
    const capacity: nat

    /** What holds after any calls, whatever fails; handing out a loop divides by the maximum. */
    ghost predicate Valid()
      reads this
    {
      && threads == |loops| && nextThread <= |loops|
      && capacity > 0 && maxThreads <= capacity && (loops != [] ==> maxThreads > 0)
      && AllDiffer(loops)
    }

    constructor (capacity: nat)
      requires capacity > 0
      ensures Valid() && loops == [] && maxThreads == 0 && nextThread == 0 && this.capacity == capacity
    {
      this.capacity := capacity;
      loops, threads, maxThreads, nextThread := [], 0, 0, 0;
    }

    /** Opens one loop; only a pool that is full already grows past its maximum. */
    method Start(initOk: bool, runOk: bool) returns (ok: bool)
      requires Valid()
      modifies this
      ensures Valid() && nextThread == old(nextThread) && ok == (initOk && runOk)
      ensures maxThreads == if old(maxThreads) == 0 then capacity else old(maxThreads)
      ensures |loops| == |old(loops)| + (if initOk then 1 else 0) && old(loops) <= loops
      ensures |old(loops)| < maxThreads ==> |loops| <= maxThreads
    {
      if maxThreads == 0 { maxThreads := capacity; }
      if !initOk { return false; }
      var el := new EventLoop();
      loops, threads := loops + [el], threads + 1;
      return runOk;
    }

    /** The loop whose turn it is, or null when opening it fails; its turn comes again then. */
    method GetNextEventLoop(initOk: bool, runOk: bool) returns (el: EventLoop?)
      requires Valid() && maxThreads > 0
      modifies this
      ensures Valid() && maxThreads == old(maxThreads) && old(loops) <= loops
      ensures |old(loops)| <= maxThreads ==> |loops| <= maxThreads
      ensures var i := Slot(old(nextThread), 0, maxThreads);
              if i < |old(loops)| then
                loops == old(loops) && el == loops[i] && nextThread == i + 1
              else
                && i == |old(loops)| && |loops| == i + (if initOk then 1 else 0)
                && if initOk && runOk then el == loops[i] && nextThread == i + 1 else el == null && nextThread == i
    {
      nextThread := Slot(nextThread, 0, maxThreads);
      if nextThread < |loops| {
        el := loops[nextThread];
        nextThread := nextThread + 1;
      } else if nextThread == |loops| {
        if !initOk { return null; }
        var fresh' := new EventLoop();
        loops, threads := loops + [fresh'], threads + 1;
        if !runOk { return null; }
        el := loops[nextThread];
        nextThread := nextThread + 1;
      } else {
        assert false;
        el := null;
      }
    }

    /** Never set below the number of loops, nor above the capacity. */
    method SetMaxThreads(m: nat) returns (ok: bool)
      requires Valid()
      modifies this
      ensures Valid() && loops == old(loops) && nextThread == old(nextThread)
      ensures ok == (m >= |loops|)
      ensures maxThreads == if !ok then old(maxThreads) else if m > capacity then capacity else m
      ensures |loops| <= old(maxThreads) ==> |loops| <= maxThreads
    {
      if m < threads { return false; }
      maxThreads := capacity;
      if m > maxThreads { return true; }
      maxThreads := m;
      return true;
    }

    /**
      k calls in a row, with nothing failing: loops come in turn, fewer than maxThreads calls apart
      they differ, and each is returned as often as its turn comes, so that no two loads differ by
      more than one.  Loops beyond the maximum, of a pool started too often, are never returned.
    */
    method GetMany(k: nat) returns (got: seq<EventLoop>)
      requires Valid() && 0 < maxThreads
      modifies this
      ensures Valid() && maxThreads == old(maxThreads) && old(loops) <= loops
      ensures |old(loops)| <= maxThreads ==> |loops| <= maxThreads
      ensures |got| == k && InTurn(got, loops, old(nextThread), maxThreads)
      ensures NeighboursDiffer(got, maxThreads)
      ensures LoadsFollowTurns(got, loops, old(nextThread), maxThreads) && LoadsAreEven(got, loops, maxThreads)
    {
      got := [];
      ghost var n := nextThread;
      for j := 0 to k
        invariant Valid() && maxThreads == old(maxThreads) && old(loops) <= loops
        invariant |old(loops)| <= maxThreads ==> |loops| <= maxThreads
        invariant |got| == j && Slot(nextThread, 0, maxThreads) == Slot(n, j, maxThreads)
        invariant InTurn(got, loops, n, maxThreads)
      {
        TurnAfter(n, j, maxThreads);
        var el := GetNextEventLoop(true, true);
        got := got + [el];
      }
      NeighboursInTurn(got, loops, n, maxThreads);
      LoadsOfTurns(got, loops, n, maxThreads);
    }
  }

  /** Starting a full pool takes it past its maximum. */
  method StartTwice() returns (pool: ELThreadpool)
    ensures fresh(pool) && pool.Valid() && pool.maxThreads == 1 && |pool.loops| == 2
  {
    pool := new ELThreadpool(1);
    var first := pool.Start(true, true);
    var second := pool.Start(true, true);
  }

  /** The loops returned by successive calls, when the next index was n. */
  ghost predicate InTurn(got: seq<EventLoop>, loops: seq<EventLoop>, n: nat, m: nat)
    requires m > 0
  {
    forall j: nat :: j < |got| ==> Slot(n, j, m) < |loops| && got[j] == loops[Slot(n, j, m)]
  }

  /** Calls fewer than m apart return different loops. */
  ghost predicate NeighboursDiffer(got: seq<EventLoop>, m: nat) {
    forall a, b :: 0 <= a < b < |got| && b < a + m ==> got[a] != got[b]
  }

  lemma NeighboursInTurn(got: seq<EventLoop>, loops: seq<EventLoop>, n: nat, m: nat)
    requires m > 0 && InTurn(got, loops, n, m) && AllDiffer(loops)
    ensures NeighboursDiffer(got, m)
  {
    forall a, b | 0 <= a < b < |got| && b < a + m ensures got[a] != got[b] {
      TurnsDiffer(n, a, b, m);
    }
  }

  /** Each loop has been returned as often as its turn came, and a loop beyond the maximum never. */
  ghost predicate LoadsFollowTurns(got: seq<EventLoop>, loops: seq<EventLoop>, n: nat, m: nat)
    requires m > 0
  {
    forall i: nat :: i < |loops| ==> multiset(got)[loops[i]] == if i < m then Count(n, |got|, i, m) else 0
  }

  /** No loop within the maximum has been returned more than once oftener than another. */
  ghost predicate LoadsAreEven(got: seq<EventLoop>, loops: seq<EventLoop>, m: nat) {
    forall i: nat, j: nat :: i < |loops| && j < |loops| && i < m && j < m ==>
      multiset(got)[loops[i]] <= multiset(got)[loops[j]] + 1
  }

  ghost predicate AllDiffer(loops: seq<EventLoop>) {
    forall i, j :: 0 <= i < j < |loops| ==> loops[i] != loops[j]
  }

  lemma LoadsOfTurns(got: seq<EventLoop>, loops: seq<EventLoop>, n: nat, m: nat)
    requires m > 0 && InTurn(got, loops, n, m) && AllDiffer(loops)
    ensures LoadsFollowTurns(got, loops, n, m) && LoadsAreEven(got, loops, m)
  {
    forall i: nat | i < |loops|
      ensures multiset(got)[loops[i]] == if i < m then Count(n, |got|, i, m) else 0
    {
      LoadOf(got, loops, n, i, m);
    }
    forall i: nat, j: nat | i < |loops| && j < |loops| && i < m && j < m
      ensures multiset(got)[loops[i]] <= multiset(got)[loops[j]] + 1
    {
      CountIsFair(n, |got|, i, m);
      CountIsFair(n, |got|, j, m);
    }
  }

  /** A loop is returned as often as its turn comes. */
  lemma {:induction false} LoadOf(got: seq<EventLoop>, loops: seq<EventLoop>, n: nat, i: nat, m: nat)
    requires m > 0 && InTurn(got, loops, n, m) && i < |loops|
    requires AllDiffer(loops)
    ensures multiset(got)[loops[i]] == if i < m then Count(n, |got|, i, m) else 0
    decreases |got|
  {
    if got != [] {
      var last := |got| - 1;
      LoadOf(got[..last], loops, n, i, m);
      assert got == got[..last] + [got[last]];
      assert got[last] == loops[Slot(n, last, m)];
    }
  }

  lemma TurnAfter(n: nat, j: nat, m: nat)
    requires m > 0
    ensures Slot(n, j + 1, m) == Slot(Slot(n, j, m), 1, m)
  {
    var a := n + j;
    var q, r := a / m, a % m;
    assert a == m * q + r;
    if r + 1 < m {
      Quotient(a + 1, m, q, r + 1);
      Quotient(r + 1, m, 0, r + 1);
    } else {
      assert m * (q + 1) == m * q + m;
      Quotient(a + 1, m, q + 1, 0);
      Quotient(r + 1, m, 1, 0);
    }
  }

  /** Fewer than m turns apart, two calls get different loops. */
  lemma TurnsDiffer(n: nat, a: nat, b: nat, m: nat)
    requires a < b < a + m
    ensures Slot(n, a, m) != Slot(n, b, m)
  {
    var x, y := n + a, n + b;
    assert x == m * (x / m) + x % m && y == m * (y / m) + y % m;
    var d: int := y / m - x / m;
    assert x % m == y % m ==> y - x == m * d;
    assert d >= 1 ==> m * d >= m;
    assert d <= 0 ==> m * d <= 0;
  }

  /** How often loop i is handed out in k calls from turn n on. */
  ghost function Count(n: nat, k: nat, i: nat, m: nat): nat
    requires m > 0
    decreases k
  {
    if k == 0 then 0 else Count(n, k - 1, i, m) + if Slot(n, k - 1, m) == i then 1 else 0
  }

  lemma Carry(x: nat, t: nat, m: nat)
    requires m > 0 && x % m + t < 2 * m
    ensures (x + t) / m == x / m + if x % m + t < m then 0 else 1
  {
    var q, r := x / m, x % m;
    assert x == m * q + r;
    if r + t < m {
      Quotient(x + t, m, q, r + t);
    } else {
      assert m * (q + 1) == m * q + m;
      Quotient(x + t, m, q + 1, r + t - m);
    }
  }

  lemma AddMultiple(x: nat, q: nat, m: nat)
    requires m > 0
    ensures (x + m * q) / m == x / m + q
  {
    var p, r := x / m, x % m;
    assert x == m * p + r && m * (p + q) == m * p + m * q;
    Quotient(x + m * q, m, p + q, r);
  }

  /** Numbers below x that leave the remainder i, counted from 0. */
  ghost function Below(x: nat, i: nat, m: nat): nat
    requires i < m
  {
    (x + m - 1 - i) / m
  }

  lemma BelowNext(x: nat, i: nat, m: nat)
    requires i < m
    ensures Below(x + 1, i, m) == Below(x, i, m) + if x % m == i then 1 else 0
  {
    Carry(x, m - 1 - i, m);
    Carry(x, m - i, m);
    assert x + 1 + m - 1 - i == x + (m - i);
  }

  lemma {:induction false} CountIsBelow(n: nat, k: nat, i: nat, m: nat)
    requires i < m
    ensures Count(n, k, i, m) == Below(n + k, i, m) - Below(n, i, m)
    decreases k
  {
    if k > 0 {
      CountIsBelow(n, k - 1, i, m);
      BelowNext(n + k - 1, i, m);
    }
  }

  /** Over any stretch of calls, each loop is handed out k / m times, or once more. */
  lemma CountIsFair(n: nat, k: nat, i: nat, m: nat)
    requires i < m
    ensures k / m <= Count(n, k, i, m) <= k / m + 1
  {
    CountIsBelow(n, k, i, m);
    QuotientOfSum(n + m - 1 - i, k, m);
    assert n + m - 1 - i + k == n + k + m - 1 - i;
  }

  lemma QuotientOfSum(a: nat, k: nat, m: nat)
    requires m > 0
    ensures a / m + k / m <= (a + k) / m <= a / m + k / m + 1
  {
    var q, t := k / m, k % m;
    assert k == m * q + t;
    Carry(a, t, m);
    AddMultiple(a + t, q, m);
  }
}
