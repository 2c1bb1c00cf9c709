/**
  The table of pending DNS queries as a list, newest first, and as 64 buckets
  (src/ndsl/net/Dns.cc, include/ndsl/net/Dns.h).  A query is known by the serial number of its
  request; what travels in a packet is the low 16 bits of it.
*/
module DnsTable {
  import opened Basics
  import opened Sequences

  const BUCKETS := 64
  const IDS := 0x1_0000

  datatype Pending<T> = Pending(serial: nat, task: T)

  function Id<T>(e: Pending<T>): nat {
    e.serial % IDS
  }

  /** The first entry with an id. */
  function Find<T>(log: seq<Pending<T>>, id: nat): (e: Option<Pending<T>>)
    ensures e.Some? ==> e.value in log && Id(e.value) == id
    decreases |log|
  {
    if log == [] then None else if Id(log[0]) == id then Some(log[0]) else Find(log[1..], id)
  }

  /** The list without the first entry with an id. */
  function Drop<T>(log: seq<Pending<T>>, id: nat): seq<Pending<T>> {
    DropFirst(log, e => Id(e), id)
  }

  /** The part of the list that a bucket holds. */
  function Bucket<T>(log: seq<Pending<T>>, i: nat): (r: seq<Pending<T>>)
    decreases |log|
  {
    if log == [] then []
    else if log[0].serial % BUCKETS == i then [log[0]] + Bucket(log[1..], i)
    else Bucket(log[1..], i)
  }

  lemma BucketOfId(n: nat)
    ensures n % IDS % BUCKETS == n % BUCKETS
  {
    assert n == IDS * (n / IDS) + n % IDS;
    assert n % IDS == BUCKETS * (n % IDS / BUCKETS) + n % IDS % BUCKETS;
    var q := n / IDS * 1024 + n % IDS / BUCKETS;
    assert n == BUCKETS * q + n % IDS % BUCKETS;
  }

  /** Searching one bucket finds what searching the whole list finds. */
  lemma {:induction false} FindInBucket<T>(log: seq<Pending<T>>, id: nat)
    requires id < IDS
    ensures Find(Bucket(log, id % BUCKETS), id) == Find(log, id)
    decreases |log|
  {
    if log != [] {
      BucketOfId(log[0].serial);
      FindInBucket(log[1..], id);
      assert ([log[0]] + Bucket(log[1..], id % BUCKETS))[1..] == Bucket(log[1..], id % BUCKETS);
    }
  }

  /** Removing from one bucket removes from the whole list, and the other buckets keep theirs. */
  lemma {:induction false} DropInBucket<T>(log: seq<Pending<T>>, id: nat, i: nat)
    requires id < IDS && i < BUCKETS
    ensures Bucket(Drop(log, id), i) == if i == id % BUCKETS then Drop(Bucket(log, i), id) else Bucket(log, i)
    decreases |log|
  {
    if log != [] {
      BucketOfId(log[0].serial);
      DropInBucket(log[1..], id, i);
      var rest := Bucket(log[1..], i);
      assert ([log[0]] + rest)[1..] == rest;
      if Id(log[0]) != id {
        assert ([log[0]] + Drop(log[1..], id))[1..] == Drop(log[1..], id);
      }
    }
  }

  lemma {:induction false} DropCounts<T>(log: seq<Pending<T>>, id: nat)
    ensures |Drop(log, id)| == |log| - if Find(log, id).Some? then 1 else 0
    ensures Find(log, id) == None ==> Drop(log, id) == log
    ensures Find(log, id).Some? ==> multiset(log) == multiset(Drop(log, id)) + multiset{Find(log, id).value}
    decreases |log|
  {
    if log != [] {
      assert log == [log[0]] + log[1..];
      DropCounts(log[1..], id);
    }
  }

  /** Serial numbers fall along the list and lie below the next one to be issued. */
  ghost predicate Sorted<T>(log: seq<Pending<T>>, issued: nat) {
    && (forall i, j :: 0 <= i < j < |log| ==> log[j].serial < log[i].serial)
    && forall i :: 0 <= i < |log| ==> log[i].serial < issued
  }

  lemma {:induction false} DropSubset<T>(log: seq<Pending<T>>, id: nat, e: Pending<T>)
    ensures e in Drop(log, id) ==> e in log
    decreases |log|
  {
    if log != [] && Id(log[0]) != id { DropSubset(log[1..], id, e); }
  }

  lemma {:induction false} DropKeepsSorted<T>(log: seq<Pending<T>>, id: nat, issued: nat)
    requires Sorted(log, issued)
    ensures Sorted(Drop(log, id), issued)
    decreases |log|
  {
    if log != [] && Id(log[0]) != id {
      DropKeepsSorted(log[1..], id, issued);
      var rest := Drop(log[1..], id);
      forall j | 0 <= j < |rest| ensures rest[j].serial < log[0].serial {
        DropSubset(log[1..], id, rest[j]);
        assert rest[j] in log[1..];
      }
    }
  }

  /** A lookup finds the newest of the queries with that id, and nothing only if there is none. */
  lemma {:induction false} FindsNewest<T>(log: seq<Pending<T>>, issued: nat, id: nat, e: Pending<T>)
    requires Sorted(log, issued) && e in log && Id(e) == id
    ensures Find(log, id).Some? && e.serial <= Find(log, id).value.serial
    decreases |log|
  {
    if Id(log[0]) != id { FindsNewest(log[1..], issued, id, e); }
  }

  /** No two of the pending queries have the same id. */
  ghost predicate DistinctIds<T>(log: seq<Pending<T>>) {
    forall i, j :: 0 <= i < j < |log| ==> Id(log[i]) != Id(log[j])
  }

  /** Requests that are pending together and span fewer than 65536 serial numbers differ in their ids. */
  lemma {:induction false} SpanMakesDistinct<T>(log: seq<Pending<T>>, issued: nat)
    requires Sorted(log, issued) && forall i :: 0 <= i < |log| ==> issued <= log[i].serial + IDS
    ensures DistinctIds(log)
  {
    forall i, j | 0 <= i < j < |log| ensures Id(log[i]) != Id(log[j]) {
      var a, b := log[j].serial, log[i].serial;
      assert a < b < a + IDS;
      assert a == IDS * (a / IDS) + a % IDS && b == IDS * (b / IDS) + b % IDS;
    }
  }

  /** Every pending query is found by its own id if and only if no two have the same id. */
  lemma {:induction false} FoundIffDistinct<T>(log: seq<Pending<T>>, issued: nat)
    requires Sorted(log, issued)
    ensures (forall i :: 0 <= i < |log| ==> Find(log, Id(log[i])) == Some(log[i])) <==> DistinctIds(log)
  {
    forall i | 0 <= i < |log|
      ensures Find(log, Id(log[i])) == Some(log[i]) <==> forall j :: 0 <= j < i ==> Id(log[j]) != Id(log[i])
    {
      FoundUnlessShadowed(log, issued, i);
    }
    assert DistinctIds(log) <==>
      forall i :: 0 <= i < |log| ==> forall j :: 0 <= j < i ==> Id(log[j]) != Id(log[i]);
  }

  /** A query is found unless a newer one has its id. */
  lemma FoundUnlessShadowed<T>(log: seq<Pending<T>>, issued: nat, i: nat)
    requires Sorted(log, issued) && i < |log|
    ensures Find(log, Id(log[i])) == Some(log[i]) <==> forall j :: 0 <= j < i ==> Id(log[j]) != Id(log[i])
  {
    var id, k := Id(log[i]), 0;
    while Id(log[k]) != id
      invariant k <= i && forall j :: 0 <= j < k ==> Id(log[j]) != id
      decreases i - k
    {
      k := k + 1;
    }
    FindAt(log, id, k);
  }

  /** The table against a plain map from ids to tasks, over runs of requests and answers. */
  datatype Op<T> = Ask(task: T, size: nat, codes: bool) | Answer(id: nat)

  datatype Table<T> = Table(issued: nat, log: seq<Pending<T>>)

  /** A request whose name cannot be encoded uses up a serial number and leaves no entry. */
  function AskTable<T>(t: Table<T>, task: T, size: nat, codes: bool): Table<T> {
    if size >= 255 then t
    else if codes then Table(t.issued + 1, [Pending(t.issued, task)] + t.log)
    else Table(t.issued + 1, t.log)
  }

  function AnswerTable<T>(t: Table<T>, id: nat): Table<T> {
    t.(log := Drop(t.log, id))
  }

  function Apply<T>(t: Table<T>, op: Op<T>): Table<T> {
    match op
    case Ask(task, size, codes) => AskTable(t, task, size, codes)
    case Answer(id) => AnswerTable(t, id)
  }

  /** The task that an operation hands back. */
  function Reply<T>(t: Table<T>, op: Op<T>): Option<T> {
    match op
    case Ask(_, _, _) => None
    case Answer(id) =>
      match Find(t.log, id)
      case None => None
      case Some(e) => Some(e.task)
  }

  function MapApply<T>(m: map<nat, T>, issued: nat, op: Op<T>): map<nat, T> {
    match op
    case Ask(task, size, codes) => if size < 255 && codes then m[issued % IDS := task] else m
    case Answer(id) => m - {id}
  }

  function MapReply<T>(m: map<nat, T>, op: Op<T>): Option<T> {
    match op
    case Ask(_, _, _) => None
    case Answer(id) => if id in m then Some(m[id]) else None
  }

  function Replies<T>(t: Table<T>, ops: seq<Op<T>>): seq<Option<T>>
    decreases |ops|
  {
    if ops == [] then [] else [Reply(t, ops[0])] + Replies(Apply(t, ops[0]), ops[1..])
  }

  function Final<T>(t: Table<T>, ops: seq<Op<T>>): Table<T>
    decreases |ops|
  {
    if ops == [] then t else Final(Apply(t, ops[0]), ops[1..])
  }

  function MapReplies<T>(m: map<nat, T>, issued: nat, ops: seq<Op<T>>): seq<Option<T>>
    decreases |ops|
  {
    if ops == [] then []
    else [MapReply(m, ops[0])] + MapReplies(MapApply(m, issued, ops[0]), NextIssued(issued, ops[0]), ops[1..])
  }

  function MapFinal<T>(m: map<nat, T>, issued: nat, ops: seq<Op<T>>): map<nat, T>
    decreases |ops|
  {
    if ops == [] then m else MapFinal(MapApply(m, issued, ops[0]), NextIssued(issued, ops[0]), ops[1..])
  }

  function NextIssued<T>(issued: nat, op: Op<T>): nat {
    if op.Ask? && op.size < 255 then issued + 1 else issued
  }

  /** A request that leaves an entry. */
  predicate Enters<T>(op: Op<T>) {
    op.Ask? && op.size < 255 && op.codes
  }

  /** No pending query has the id that the next request will get. */
  ghost predicate IdIsFree<T>(t: Table<T>) {
    forall i :: 0 <= i < |t.log| ==> Id(t.log[i]) != t.issued % IDS
  }

  /** Whenever a request is entered, its id is free. */
  ghost predicate Fresh<T>(t: Table<T>, ops: seq<Op<T>>)
    decreases |ops|
  {
    ops != [] ==> (Enters(ops[0]) ==> IdIsFree(t)) && Fresh(Apply(t, ops[0]), ops[1..])
  }

  /** Every pending query is fewer than 65536 requests old. */
  ghost predicate InSpan<T>(t: Table<T>) {
    forall i :: 0 <= i < |t.log| ==> t.issued < t.log[i].serial + IDS
  }

  /** So it is whenever a request is entered. */
  ghost predicate Spans<T>(t: Table<T>, ops: seq<Op<T>>)
    decreases |ops|
  {
    ops != [] ==> (Enters(ops[0]) ==> InSpan(t)) && Spans(Apply(t, ops[0]), ops[1..])
  }

  /** Table and map have as many entries in every state of the run. */
  ghost predicate SizesAgree<T>(t: Table<T>, m: map<nat, T>, ops: seq<Op<T>>)
    decreases |ops|
  {
    |t.log| == |m| && (ops != [] ==> SizesAgree(Apply(t, ops[0]), MapApply(m, t.issued, ops[0]), ops[1..]))
  }

  function AsMap<T>(log: seq<Pending<T>>): (m: map<nat, T>)
    decreases |log|
  {
    if log == [] then map[] else AsMap(log[1..])[Id(log[0]) := log[0].task]
  }

  lemma {:induction false} FindAsMap<T>(log: seq<Pending<T>>, id: nat)
    ensures Find(log, id) == None <==> id !in AsMap(log)
    ensures id in AsMap(log) ==> AsMap(log)[id] == Find(log, id).value.task
    decreases |log|
  {
    if log != [] { FindAsMap(log[1..], id); }
  }

  lemma {:induction false} DropAsMap<T>(log: seq<Pending<T>>, id: nat)
    requires DistinctIds(log)
    ensures AsMap(Drop(log, id)) == AsMap(log) - {id}
    decreases |log|
  {
    if log != [] {
      var rest := log[1..];
      if Id(log[0]) == id {
        AbsentAfterHead(log);
      } else {
        DropAsMap(rest, id);
        assert ([log[0]] + Drop(rest, id))[1..] == Drop(rest, id);
      }
    }
  }

  lemma {:induction false} AbsentIsNotFound<T>(log: seq<Pending<T>>, id: nat)
    requires forall j :: 0 <= j < |log| ==> Id(log[j]) != id
    ensures Find(log, id) == None
    decreases |log|
  {
    if log != [] { AbsentIsNotFound(log[1..], id); }
  }

  lemma AbsentAfterHead<T>(log: seq<Pending<T>>)
    requires DistinctIds(log) && log != []
    ensures Id(log[0]) !in AsMap(log[1..])
  {
    FindAsMap(log[1..], Id(log[0]));
    AbsentIsNotFound(log[1..], Id(log[0]));
  }

  lemma {:induction false} DropKeepsDistinct<T>(log: seq<Pending<T>>, id: nat)
    requires DistinctIds(log)
    ensures DistinctIds(Drop(log, id))
    decreases |log|
  {
    if log != [] && Id(log[0]) != id {
      var rest := log[1..];
      DropKeepsDistinct(rest, id);
      var kept := Drop(rest, id);
      forall j | 0 <= j < |kept| ensures Id(kept[j]) != Id(log[0]) {
        DropSubset(rest, id, kept[j]);
      }
    }
  }

  lemma {:induction false} MapSize<T>(log: seq<Pending<T>>)
    requires DistinctIds(log)
    ensures |AsMap(log)| == |log|
    decreases |log|
  {
    if log != [] {
      AbsentAfterHead(log);
      MapSize(log[1..]);
      assert AsMap(log).Keys == AsMap(log[1..]).Keys + {Id(log[0])};
    }
  }

  lemma AskKeeps<T>(t: Table<T>, task: T, size: nat, codes: bool)
    requires Sorted(t.log, t.issued) && DistinctIds(t.log)
    requires Enters(Ask(task, size, codes)) ==> IdIsFree(t)
    ensures var t' := AskTable(t, task, size, codes);
            && Sorted(t'.log, t'.issued) && DistinctIds(t'.log)
            && AsMap(t'.log) == MapApply(AsMap(t.log), t.issued, Ask(task, size, codes))
  {
    if Enters(Ask(task, size, codes)) {
      var log' := [Pending(t.issued, task)] + t.log;
      assert log'[1..] == t.log;
    }
  }

  lemma AnswerKeeps<T>(t: Table<T>, id: nat)
    requires Sorted(t.log, t.issued) && DistinctIds(t.log)
    ensures var t' := AnswerTable(t, id);
            && Sorted(t'.log, t'.issued) && DistinctIds(t'.log)
            && AsMap(t'.log) == MapApply(AsMap(t.log), t.issued, Answer(id))
            && Reply(t, Answer(id)) == MapReply(AsMap(t.log), Answer(id))
  {
    FindAsMap(t.log, id);
    DropAsMap(t.log, id);
    DropKeepsSorted(t.log, id, t.issued);
    DropKeepsDistinct(t.log, id);
  }

  /** One request with a free id, or one lookup, does the same to the table and to the map. */
  lemma StepAgrees<T>(t: Table<T>, op: Op<T>)
    requires Sorted(t.log, t.issued) && DistinctIds(t.log) && (Enters(op) ==> IdIsFree(t))
    ensures var t' := Apply(t, op);
            && Sorted(t'.log, t'.issued) && DistinctIds(t'.log) && t'.issued == NextIssued(t.issued, op)
            && AsMap(t'.log) == MapApply(AsMap(t.log), t.issued, op)
            && Reply(t, op) == MapReply(AsMap(t.log), op)
  {
    match op {
      case Ask(task, size, codes) => AskKeeps(t, task, size, codes);
      case Answer(id) => AnswerKeeps(t, id);
    }
  }

  /** A request whose id is taken adds an entry to the table and none to the map. */
  lemma TakenIdDiffers<T>(t: Table<T>, op: Op<T>)
    requires DistinctIds(t.log) && Enters(op) && !IdIsFree(t)
    ensures |Apply(t, op).log| == |MapApply(AsMap(t.log), t.issued, op)| + 1
  {
    var i :| 0 <= i < |t.log| && Id(t.log[i]) == t.issued % IDS;
    var m, id := AsMap(t.log), t.issued % IDS;
    MapSize(t.log);
    FindAsMap(t.log, id);
    IsFound(t.log, i);
    assert m[id := op.task].Keys == m.Keys;
  }

  lemma {:induction false} IsFound<T>(log: seq<Pending<T>>, i: nat)
    requires i < |log|
    ensures Find(log, Id(log[i])).Some?
    decreases i
  {
    if i > 0 { IsFound(log[1..], i - 1); }
  }

  /**
    Over every run in which each request that is entered finds its id free, and over no other, the
    table has as many entries as a map from ids to tasks in every state; and then it answers as the
    map does and ends as the map does.
  */
  lemma {:induction false} RunAgrees<T>(t: Table<T>, ops: seq<Op<T>>)
    requires Sorted(t.log, t.issued) && DistinctIds(t.log)
    ensures Fresh(t, ops) <==> SizesAgree(t, AsMap(t.log), ops)
    ensures Fresh(t, ops) ==>
              && Replies(t, ops) == MapReplies(AsMap(t.log), t.issued, ops)
              && AsMap(Final(t, ops).log) == MapFinal(AsMap(t.log), t.issued, ops)
    decreases |ops|
  {
    MapSize(t.log);
    if ops != [] {
      if Enters(ops[0]) && !IdIsFree(t) {
        TakenIdDiffers(t, ops[0]);
      } else {
        StepAgrees(t, ops[0]);
        RunAgrees(Apply(t, ops[0]), ops[1..]);
      }
    }
  }

  lemma SpanMakesFree<T>(t: Table<T>)
    requires Sorted(t.log, t.issued) && InSpan(t)
    ensures IdIsFree(t)
  {
    forall i | 0 <= i < |t.log| ensures Id(t.log[i]) != t.issued % IDS {
      var a, b := t.log[i].serial, t.issued;
      assert a < b < a + IDS;
      assert a == IDS * (a / IDS) + a % IDS && b == IDS * (b / IDS) + b % IDS;
    }
  }

  /** Requests that find every pending query fewer than 65536 requests old find their ids free. */
  lemma {:induction false} SpansAreFresh<T>(t: Table<T>, ops: seq<Op<T>>)
    requires Sorted(t.log, t.issued) && Spans(t, ops)
    ensures Fresh(t, ops)
    decreases |ops|
  {
    if ops != [] {
      if Enters(ops[0]) { SpanMakesFree(t); }
      if ops[0].Answer? { DropKeepsSorted(t.log, ops[0].id, t.issued); }
      SpansAreFresh(Apply(t, ops[0]), ops[1..]);
    }
  }

  // ---------------------------------------------------------------- a run that does not agree

  function IssuedAfter<T>(issued: nat, ops: seq<Op<T>>): nat
    decreases |ops|
  {
    if ops == [] then issued else IssuedAfter(NextIssued(issued, ops[0]), ops[1..])
  }

  lemma {:induction false} RunInTwo<T>(t: Table<T>, a: seq<Op<T>>, b: seq<Op<T>>)
    ensures Replies(t, a + b) == Replies(t, a) + Replies(Final(t, a), b)
    decreases |a|
  {
    if a == [] {
      assert a + b == b;
    } else {
      assert (a + b)[1..] == a[1..] + b;
      RunInTwo(Apply(t, a[0]), a[1..], b);
    }
  }

  lemma {:induction false} MapRunInTwo<T>(m: map<nat, T>, issued: nat, a: seq<Op<T>>, b: seq<Op<T>>)
    ensures MapReplies(m, issued, a + b) ==
            MapReplies(m, issued, a) + MapReplies(MapFinal(m, issued, a), IssuedAfter(issued, a), b)
    decreases |a|
  {
    if a == [] {
      assert a + b == b;
    } else {
      assert (a + b)[1..] == a[1..] + b;
      MapRunInTwo(MapApply(m, issued, a[0]), NextIssued(issued, a[0]), a[1..], b);
    }
  }

  /** n requests for names that cannot be encoded. */
  function Failures(n: nat): seq<Op<int>> {
    seq(n, _ => Ask(0, 1, false))
  }

  lemma {:induction false} FailuresUseNumbers(t: Table<int>, m: map<nat, int>, n: nat)
    ensures Final(t, Failures(n)) == Table(t.issued + n, t.log)
    ensures MapFinal(m, t.issued, Failures(n)) == m && IssuedAfter(t.issued, Failures(n)) == t.issued + n
    decreases n
  {
    if n > 0 {
      assert Failures(n)[1..] == Failures(n - 1);
      FailuresUseNumbers(Apply(t, Failures(n)[0]), m, n - 1);
    }
  }

  /** A query, 65535 requests that fail, and a second query with the first one's id; two lookups of that id. */
  function SharedIdRun(a: int, b: int): seq<Op<int>> {
    [Ask(a, 1, true)] + (Failures(IDS - 1) + [Ask(b, 1, true), Answer(0), Answer(0)])
  }

  /** From the empty table, the run gets both tasks, where the map has forgotten the first. */
  lemma SharedIdDiffers(a: int, b: int)
    ensures var ops := SharedIdRun(a, b);
            && |Replies(Table(0, []), ops)| == |MapReplies(map[], 0, ops)| == IDS + 3
            && Replies(Table(0, []), ops)[IDS + 1..] == [Some(b), Some(a)]
            && MapReplies(map[], 0, ops)[IDS + 1..] == [Some(b), None]
  {
    var ops, fails := SharedIdRun(a, b), Failures(IDS - 1);
    var tail: seq<Op<int>> := [Ask(b, 1, true), Answer(0), Answer(0)];
    var t, m: map<nat, int> := Table(1, [Pending(0, a)]), map[0 := a];
    assert ops[1..] == fails + tail;
    assert Apply(Table(0, []), ops[0]) == t && MapApply(map[], 0, ops[0]) == m;
    RunInTwo(t, fails, tail);
    MapRunInTwo(m, 1, fails, tail);
    FailuresUseNumbers(t, m, IDS - 1);
    RepliesCount(t, fails);
    MapRepliesCount(m, 1, fails);
    SharedIdTail(a, b);
  }

  lemma {:induction false} RepliesCount<T>(t: Table<T>, ops: seq<Op<T>>)
    ensures |Replies(t, ops)| == |ops|
    decreases |ops|
  {
    if ops != [] { RepliesCount(Apply(t, ops[0]), ops[1..]); }
  }

  lemma {:induction false} MapRepliesCount<T>(m: map<nat, T>, issued: nat, ops: seq<Op<T>>)
    ensures |MapReplies(m, issued, ops)| == |ops|
    decreases |ops|
  {
    if ops != [] { MapRepliesCount(MapApply(m, issued, ops[0]), NextIssued(issued, ops[0]), ops[1..]); }
  }

  lemma SharedIdTail(a: int, b: int)
    ensures var ops := [Ask(b, 1, true), Answer(0), Answer(0)];
            && Replies(Table(IDS, [Pending(0, a)]), ops) == [None, Some(b), Some(a)]
            && MapReplies(map[0 := a], IDS, ops) == [None, Some(b), None]
  {
    var t0, t2 := Table(IDS, [Pending(0, a)]), Table(IDS + 1, [Pending(0, a)]);
    var t1 := Table(IDS + 1, [Pending(IDS, b), Pending(0, a)]);
    var ops: seq<Op<int>> := [Ask(b, 1, true), Answer(0), Answer(0)];
    var last: seq<Op<int>> := [Answer(0)];
    assert ops[1..] == [Answer(0)] + last && ops[1..][1..] == last && last[1..] == [];
    assert t1.log[1..] == t2.log && t2.log[1..] == [];
    assert Apply(t0, ops[0]) == t1 && Apply(t1, Answer(0)) == t2;
    assert Replies(t2, last) == [Some(a)];
    assert Replies(t1, ops[1..]) == [Some(b), Some(a)];
    var m0: map<nat, int>, m1: map<nat, int>, m2: map<nat, int> := map[0 := a], map[0 := b], map[];
    assert MapApply(m0, IDS, ops[0]) == m1 && MapApply(m1, IDS + 1, Answer(0)) == m2;
    assert MapReplies(m2, IDS + 1, last) == [None];
    assert MapReplies(m1, IDS + 1, ops[1..]) == [Some(b), None];
  }

  /** Dropping the entry at position k of a bucket drops the first entry of the whole list with its id. */
  lemma DropInLog<T>(log: seq<Pending<T>>, id: nat, k: nat)
    requires id < IDS && k < |Bucket(log, id % BUCKETS)| && Id(Bucket(log, id % BUCKETS)[k]) == id
    requires forall j :: 0 <= j < k ==> Id(Bucket(log, id % BUCKETS)[j]) != id
    ensures var es := Bucket(log, id % BUCKETS);
            && Find(log, id) == Some(es[k])
            && Bucket(Drop(log, id), id % BUCKETS) == es[..k] + es[k + 1..]
  {
    FindAt(Bucket(log, id % BUCKETS), id, k);
    FindInBucket(log, id);
    DropInBucket(log, id, id % BUCKETS);
  }

  /** A search that stops at position k of a list. */
  lemma {:induction false} FindAt<T>(log: seq<Pending<T>>, id: nat, k: nat)
    requires k < |log| && Id(log[k]) == id && forall j :: 0 <= j < k ==> Id(log[j]) != id
    ensures Find(log, id) == Some(log[k]) && Drop(log, id) == log[..k] + log[k + 1..]
    decreases k
  {
    if k > 0 { FindAt(log[1..], id, k - 1); }
  }

  lemma BucketOfNew<T>(e: Pending<T>, log: seq<Pending<T>>, i: nat)
    ensures Bucket([e] + log, i) == if e.serial % BUCKETS == i then [e] + Bucket(log, i) else Bucket(log, i)
  {
    assert ([e] + log)[1..] == log;
  }

  lemma {:induction false} BucketSubset<T>(log: seq<Pending<T>>, i: nat, e: Pending<T>)
    ensures e in Bucket(log, i) <==> e in log && e.serial % BUCKETS == i
    decreases |log|
  {
    if log != [] { BucketSubset(log[1..], i, e); }
  }
}
