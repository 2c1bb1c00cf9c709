/**
  The pending queries of src/ndsl/net/Dns.cc as they are kept: 64 circular doubly-linked lists
  (include/ndsl/net/Dns.h), a count, and a counter of requests.  Valid ties them to the list of
  pending queries of DnsTable; each operation is one operation of that list.
*/
module Dns {
  import opened Basics
  import opened DnsTable
  import opened DnsName

  const EINVAL := 22
  const UINT := 0x1_0000_0000

  class DnsTask {
    const name: seq<byte>
    var queryId: nat

    constructor (name: seq<byte>) {
      this.name := name;
      queryId := 0;
    }
  }

  /** An entry of a list; the head of a list has no task. */
  class ListEntry {
    var next: ListEntry
    var prev: ListEntry
    const task: DnsTask?
    ghost const home: nat
    ghost const serial: nat

    constructor (task: DnsTask?, ghost home: nat, ghost serial: nat)
      ensures next == this && prev == this
      ensures this.task == task && this.home == home && this.serial == serial
    {
      next, prev := this, this;
      this.task, this.home, this.serial := task, home, serial;
    }

    method InsertAfter(x: ListEntry, ghost r: seq<ListEntry>)
      requires Ring(r) && r[0] == this && x !in r
      modifies this`next, next`prev, x`next, x`prev
      ensures Ring([this, x] + r[1..])
    {
      ghost var r', n := [this, x] + r[1..], |r|;
      assert Linked(r, 0);
      next.prev := x;
      x.next := next;
      x.prev := this;
      next := x;
      forall j | 0 <= j <= n ensures Linked(r', j) {
        if j > 1 { assert old(Linked(r, j - 1)); }
      }
    }

    method Erase(ghost r: seq<ListEntry>, ghost j: nat)
      requires Ring(r) && 0 < j < |r| && r[j] == this
      modifies next`prev, prev`next
      ensures Ring(r[..j] + r[j + 1..])
    {
      ghost var r', n := r[..j] + r[j + 1..], |r|;
      assert Linked(r, j) && Linked(r, j - 1);
      next.prev := prev;
      prev.next := next;
      forall i | 0 <= i < n - 1 ensures Linked(r', i) {
        if i < j - 1 { assert old(Linked(r, i)); }
        if i >= j { assert old(Linked(r, i + 1)); }
      }
    }
  }

  function After(j: nat, n: nat): nat {
    if j + 1 < n then j + 1 else 0
  }

  /** Entry j and the one after it know each other. */
  ghost predicate Linked(r: seq<ListEntry>, j: nat)
    requires j < |r|
    reads r
  {
    r[j].next == r[After(j, |r|)] && r[After(j, |r|)].prev == r[j]
  }

  /** A well-formed circular doubly-linked list, from its head on. */
  ghost predicate Ring(r: seq<ListEntry>)
    reads r
  {
    && r != []
    && (forall i, j :: 0 <= i < j < |r| ==> r[i] != r[j])
    && forall j: nat :: j < |r| ==> Linked(r, j)
  }

  lemma DropKeepsTasks(log: seq<Pending<DnsTask>>, id: nat)
    ensures Tasks(Drop(log, id)) <= Tasks(log) && forall e :: e in Drop(log, id) ==> e in log
  {
    forall e | e in Drop(log, id) ensures e in log { DropSubset(log, id, e); }
  }

  /** A list holds the entries es behind its head. */
  ghost predicate Mirrors(r: seq<ListEntry>, es: seq<Pending<DnsTask>>) {
    && |r| == |es| + 1
    && forall j :: 0 <= j < |es| ==> r[j + 1].task == es[j].task && r[j + 1].serial == es[j].serial
  }

  ghost predicate Contents(rings: seq<seq<ListEntry>>, log: seq<Pending<DnsTask>>) {
    |rings| == BUCKETS && forall i: nat :: i < BUCKETS ==> Mirrors(rings[i], Bucket(log, i))
  }

  lemma ContentsAdded(rings: seq<seq<ListEntry>>, log: seq<Pending<DnsTask>>, index: nat, be: ListEntry,
                      e: Pending<DnsTask>)
    requires Contents(rings, log) && index == e.serial % BUCKETS && be.task == e.task && be.serial == e.serial
    ensures rings[index] != []
    ensures Contents(rings[index := [rings[index][0], be] + rings[index][1..]], [e] + log)
  {
    assert Mirrors(rings[index], Bucket(log, index));
    var rings' := rings[index := [rings[index][0], be] + rings[index][1..]];
    forall i: nat | i < BUCKETS ensures Mirrors(rings'[i], Bucket([e] + log, i)) {
      BucketOfNew(e, log, i);
      assert Mirrors(rings[i], Bucket(log, i));
    }
  }

  lemma CounterNext(n: nat)
    ensures (n % UINT + 1) % UINT == (n + 1) % UINT
  {
    assert n == UINT * (n / UINT) + n % UINT;
  }

  lemma IdOfCounter(n: nat)
    ensures n % UINT % IDS == n % IDS
  {
    var r := n % UINT;
    assert n == UINT * (n / UINT) + r && r == IDS * (r / IDS) + r % IDS;
    assert n == IDS * (IDS * (n / UINT) + r / IDS) + r % IDS;
  }

  lemma MirrorsRemoved(r: seq<ListEntry>, es: seq<Pending<DnsTask>>, k: nat)
    requires Mirrors(r, es) && k < |es|
    ensures Mirrors(r[..k + 1] + r[k + 2..], es[..k] + es[k + 1..])
  {
  }

  lemma ContentsRemoved(rings: seq<seq<ListEntry>>, log: seq<Pending<DnsTask>>, id: nat, k: nat)
    requires Contents(rings, log) && id < IDS && k < |Bucket(log, id % BUCKETS)|
    requires Id(Bucket(log, id % BUCKETS)[k]) == id
    requires forall j :: 0 <= j < k ==> Id(Bucket(log, id % BUCKETS)[j]) != id
    ensures k + 1 < |rings[id % BUCKETS]|
    ensures Contents(rings[id % BUCKETS := rings[id % BUCKETS][..k + 1] + rings[id % BUCKETS][k + 2..]], Drop(log, id))
  {
    var index := id % BUCKETS;
    MirrorsRemoved(rings[index], Bucket(log, index), k);
    DropInLog(log, id, k);
    var r := rings[index][..k + 1] + rings[index][k + 2..];
    forall i: nat | i < BUCKETS ensures Mirrors(rings[index := r][i], Bucket(Drop(log, id), i)) {
      if i != index {
        DropInBucket(log, id, i);
        assert Mirrors(rings[i], Bucket(log, i));
      }
    }
  }

  ghost function Tasks(log: seq<Pending<DnsTask>>): set<DnsTask> {
    set e | e in log :: e.task
  }

  lemma DropsOne(log: seq<Pending<DnsTask>>, id: nat, k: nat)
    requires id < IDS && k < |Bucket(log, id % BUCKETS)| && Id(Bucket(log, id % BUCKETS)[k]) == id
    requires forall j :: 0 <= j < k ==> Id(Bucket(log, id % BUCKETS)[j]) != id
    ensures Find(log, id) == Some(Bucket(log, id % BUCKETS)[k]) && |Drop(log, id)| == |log| - 1
    ensures Tasks(Drop(log, id)) <= Tasks(log) && forall e :: e in Drop(log, id) ==> e in log
  {
    DropInLog(log, id, k);
    DropCounts(log, id);
    DropKeepsTasks(log, id);
  }

  /** All entries of a task have this id. */
  ghost predicate SameIds(log: seq<Pending<DnsTask>>, task: DnsTask, id: nat) {
    forall e :: e in log && e.task == task ==> Id(e) == id
  }

  class Dns {
    const bucket: seq<ListEntry>
    var count: nat
    var current: nat
    ghost var rings: seq<seq<ListEntry>>
    ghost var nodes: set<ListEntry>
    ghost var log: seq<Pending<DnsTask>>
    ghost var issued: nat

    ghost predicate RingOk(i: nat)
      requires i < |rings| && i < |bucket|
      reads `rings, `nodes, nodes
    {
      && rings[i] != [] && rings[i][0] == bucket[i]
      && (forall j :: 0 <= j < |rings[i]| ==> rings[i][j] in nodes && rings[i][j].home == i)
      && Ring(rings[i])
    }

    ghost predicate Lists()
      reads `rings, `nodes, nodes
    {
      |rings| == |bucket| == BUCKETS && forall i: nat :: i < BUCKETS ==> RingOk(i)
    }

    ghost predicate IdsAgree()
      reads `log, Tasks(log)
    {
      forall e :: e in log ==> e.task.queryId == Id(e)
    }

    /** The same for all tasks but one. */
    ghost predicate OthersAgree(task: DnsTask)
      reads `log, Tasks(log)
    {
      forall e :: e in log && e.task != task ==> e.task.queryId == Id(e)
    }

    /** The lists hold the pending queries, and the counters are right. */
    ghost predicate Kept()
      reads this, nodes
    {
      Lists() && Contents(rings, log) && count == |log| && current == issued % UINT
    }

    ghost predicate Valid()
      reads this, nodes, Tasks(log)
    {
      Kept() && IdsAgree()
    }

    ghost function Value(): Table<DnsTask>
      reads this
    {
      Table(issued, log)
    }

    /** Puts an entry behind the head of its list. */
    method AddEntry(index: nat, be: ListEntry)
      requires index < BUCKETS && Lists() && RingOk(index) && be.home == index && be !in nodes
      modifies nodes, be, `rings, `nodes
      ensures Lists() && nodes == old(nodes) + {be}
      ensures rings == old(rings)[index := [bucket[index], be] + old(rings[index])[1..]]
    {
      ghost var r := rings[index];
      assert RingOk(index);
      assert Linked(r, 0);
      bucket[index].InsertAfter(be, r);
      rings := rings[index := [r[0], be] + r[1..]];
      nodes := nodes + {be};
      forall i: nat | i < BUCKETS ensures RingOk(i) {
        if i != index { assert old(RingOk(i)); }
      }
    }

    /** Takes entry j out of its list. */
    method RemoveEntry(index: nat, be: ListEntry, ghost j: nat)
      requires index < BUCKETS && Lists() && RingOk(index) && 0 < j < |rings[index]| && rings[index][j] == be
      modifies nodes, `rings
      ensures Lists() && rings == old(rings)[index := old(rings[index][..j] + rings[index][j + 1..])]
    {
      ghost var r := rings[index];
      assert Linked(r, j) && Linked(r, j - 1);
      be.Erase(r, j);
      rings := rings[index := r[..j] + r[j + 1..]];
      forall i: nat | i < BUCKETS ensures RingOk(i) {
        if i != index { assert old(RingOk(i)); }
      }
    }

    constructor ()
      ensures Valid() && Value() == Table(0, []) && fresh(nodes)
    {
      var heads: seq<ListEntry> := [];
      for i := 0 to BUCKETS
        invariant |heads| == i
        invariant forall j :: 0 <= j < i ==>
                    fresh(heads[j]) && heads[j].home == j && heads[j].next == heads[j] == heads[j].prev
      {
        var head := new ListEntry(null, i, 0);
        heads := heads + [head];
      }
      bucket, count, current := heads, 0, 0;
      rings := seq(BUCKETS, i requires 0 <= i < |heads| => [heads[i]]);
      nodes := set h | h in heads;
      log, issued := [], 0;
    }

    /** A request has been numbered and is the first entry of its list, but is not in the log yet. */
    ghost predicate Entered(task: DnsTask, be: ListEntry, index: nat)
      reads this, nodes, Tasks(log), task
    {
      && Lists() && OthersAgree(task)
      && index < BUCKETS && RingOk(index) && |rings[index]| > 1 && rings[index][1] == be
      && Contents(rings, [Pending(issued, task)] + log)
      && Contents(rings[index := rings[index][..1] + rings[index][2..]], log)
      && count == |log| + 1 && current == (issued + 1) % UINT && task.queryId == issued % IDS
    }

    method Enter(task: DnsTask) returns (be: ListEntry, index: nat)
      requires Valid()
      modifies this, nodes, task
      ensures Entered(task, be, index) && fresh(nodes - old(nodes)) && Value() == old(Value())
    {
      IdOfCounter(issued);
      CounterNext(issued);
      BucketOfId(issued);
      ghost var before := rings;
      count := count + 1;
      task.queryId := current % IDS;
      current := (current + 1) % UINT;
      index := task.queryId % BUCKETS;
      be := new ListEntry(task, index, issued);
      assert RingOk(index);
      AddEntry(index, be);
      assert RingOk(index);
      ContentsAdded(before, log, index, be, Pending(issued, task));
      assert rings[index][..1] + rings[index][2..] == before[index];
      assert rings[index := before[index]] == before;
    }

    /** The entry goes again when the name cannot be encoded; its number stays used. */
    method Withdraw(ghost task: DnsTask, be: ListEntry, index: nat)
      requires Entered(task, be, index)
      modifies this, nodes
      ensures Kept() && OthersAgree(task) && nodes == old(nodes) && issued == old(issued) + 1 && log == old(log)
    {
      RemoveEntry(index, be, 1);
      count := count - 1;
      issued := issued + 1;
    }

    ghost method Commit(task: DnsTask, be: ListEntry, index: nat)
      requires Entered(task, be, index)
      modifies `log, `issued
      ensures Kept() && OthersAgree(task) && nodes == old(nodes)
      ensures issued == old(issued) + 1 && log == [Pending(old(issued), task)] + old(log)
    {
      log := [Pending(issued, task)] + log;
      issued := issued + 1;
    }

    /** The question of a packet. */
    static method Question(name: seq<byte>) returns (packet: array<byte>, ok: bool)
      ensures fresh(packet) && (ok <==> Encodable(name)) && (ok ==> packet[..] == OnWire(name))
    {
      packet := new byte[|name| + 2];
      ok := Coding(name, packet);
    }

    /**
      Enters a query for a name, numbers it, and sends it.  A task that is pending already is
      numbered anew, so its earlier entries are right only as far as their ids are the new one.
    */
    method Request(task: DnsTask, sendError: int) returns (ret: int)
      requires Valid()
      modifies this, nodes, task
      ensures Kept() && fresh(nodes - old(nodes))
      ensures Value() == AskTable(old(Value()), task, |task.name|, Encodable(task.name))
      ensures ret == if |task.name| >= 255 || !Encodable(task.name) then EINVAL else sendError
      ensures |task.name| >= 255 || !Encodable(task.name) ==> ret == 22
      ensures |task.name| < 255 ==> task.queryId == old(issued) % 0x1_0000
      ensures Valid() <==> |task.name| >= 255 || SameIds(old(log), task, old(issued) % IDS)
      ensures task !in Tasks(old(log)) ==> Valid()
    {
      if |task.name| >= 255 { return EINVAL; }
      var be, index := Enter(task);
      var packet, ok := Question(task.name);
      if !ok {
        Withdraw(task, be, index);
        return EINVAL;
      }
      Commit(task, be, index);
      return sendError;
    }

    /** Entry k of the list of an id is the one looked for: it goes, and its task is the answer. */
    method TakeOut(id: nat, be: ListEntry, ghost k: nat) returns (task: DnsTask?)
      requires Valid() && id < IDS && k < |Bucket(log, id % BUCKETS)|
      requires k + 1 < |rings[id % BUCKETS]| && be == rings[id % BUCKETS][k + 1]
      requires Id(Bucket(log, id % BUCKETS)[k]) == id
      requires forall j :: 0 <= j < k ==> Id(Bucket(log, id % BUCKETS)[j]) != id
      modifies this, nodes
      ensures Valid() && nodes == old(nodes) && issued == old(issued) && log == Drop(old(log), id)
      ensures task == be.task
    {
      ghost var index: nat, r := id % BUCKETS, rings;
      ghost var dropped := Drop(log, id);
      assert RingOk(index);
      ContentsRemoved(rings, log, id, k);
      DropsOne(log, id, k);
      RemoveEntry(id % BUCKETS, be, k + 1);
      assert rings == r[index := r[index][..k + 1] + r[index][k + 2..]];
      task := be.task;
      count := count - 1;
      Forget(dropped);
    }

    /** Fewer entries are in the log. */
    ghost method Forget(left: seq<Pending<DnsTask>>)
      requires Lists() && Contents(rings, left) && count == |left| && current == issued % UINT
      requires IdsAgree() && forall e :: e in left ==> e in log
      modifies `log
      ensures Valid() && log == left
    {
      log := left;
    }

    /** Looks for the query with an id, and takes it out of the table. */
    method FindQuery(id: nat) returns (task: DnsTask?)
      requires Valid() && id < IDS
      modifies this, nodes
      ensures Valid() && nodes == old(nodes) && Value() == AnswerTable(old(Value()), id)
      ensures match Reply(old(Value()), Answer(id))
              case None => task == null
              case Some(t) => task == t
    {
      var index := id % BUCKETS;
      task := null;
      assert RingOk(index) && Linked(rings[index], 0);
      ghost var es, k := Bucket(log, index), 0;
      assert Mirrors(rings[index], es);
      var be := bucket[index].next;
      while be != bucket[index]
        invariant Valid() && unchanged(this) && unchanged(nodes) && k <= |es|
        invariant be == if k < |es| then rings[index][k + 1] else bucket[index]
        invariant forall j :: 0 <= j < k ==> Id(es[j]) != id
        decreases |es| - k
      {
        BucketSubset(log, index, es[k]);
        if be.task.queryId == id {
          DropInLog(log, id, k);
          task := TakeOut(id, be, k);
          return;
        }
        assert Linked(rings[index], k + 1);
        be := be.next;
        k := k + 1;
      }
      AbsentIsNotFound(es, id);
      FindInBucket(log, id);
      DropCounts(log, id);
    }
  }
}
