/**
  Matching the completions of an RDMA connection with its posts (src/ndsl/net/RdmaConnection.cc):
  sends and receives each have a queue of posted requests, and a batch of completions may name
  them in any order.  The work request id of a post is the address of its buffer.
*/
module RdmaCompletions {
  import opened Basics
  import opened Sequences

  /** A posted request; its serial number is its place among all posts. */
  datatype SaveInfo = SaveInfo(wrId: nat, serial: nat)

  /** The place of the first entry with an id, or the length. */
  function Place(q: seq<SaveInfo>, id: nat): (i: nat)
    ensures i <= |q| && (i < |q| ==> q[i].wrId == id)
    ensures forall j :: 0 <= j < i ==> q[j].wrId != id
    decreases |q|
  {
    if q == [] then 0
    else if q[0].wrId == id then 0
    else
      var i := Place(q[1..], id);
      assert forall j :: 1 <= j < |q| ==> q[j] == q[1..][j - 1];
      1 + i
  }

  predicate Has(q: seq<SaveInfo>, id: nat) {
    Place(q, id) < |q|
  }

  /** The queue without the first entry with an id. */
  function Without(q: seq<SaveInfo>, id: nat): seq<SaveInfo> {
    DropFirst(q, (e: SaveInfo) => e.wrId, id)
  }

  lemma WithoutAt(q: seq<SaveInfo>, id: nat)
    requires Has(q, id)
    ensures Without(q, id) == q[..Place(q, id)] + q[Place(q, id) + 1..]
  {
    DropFirstAt(q, (e: SaveInfo) => e.wrId, id, Place(q, id));
  }

  /** The entries of one buffer. */
  ghost function Only(q: seq<SaveInfo>, id: nat): (r: seq<SaveInfo>)
    decreases |q|
  {
    if q == [] then []
    else
      var before, last := Only(q[..|q| - 1], id), q[|q| - 1];
      if last.wrId == id then before + [last] else before
  }

  lemma OnlyOfNext(q: seq<SaveInfo>, e: SaveInfo, id: nat)
    ensures Only(q + [e], id) == if e.wrId == id then Only(q, id) + [e] else Only(q, id)
  {
    assert (q + [e])[..|q|] == q;
  }

  lemma {:induction false} OnlyOfSum(a: seq<SaveInfo>, b: seq<SaveInfo>, id: nat)
    ensures Only(a + b, id) == Only(a, id) + Only(b, id)
    decreases |b|
  {
    if b == [] {
      assert a + b == a;
    } else {
      var init, last := b[..|b| - 1], b[|b| - 1];
      assert b == init + [last] && a + b == (a + init) + [last];
      OnlyOfSum(a, init, id);
      OnlyOfNext(a + init, last, id);
    }
  }

  lemma {:induction false} OnlyNone(q: seq<SaveInfo>, id: nat)
    requires forall j :: 0 <= j < |q| ==> q[j].wrId != id
    ensures Only(q, id) == []
    decreases |q|
  {
    if q != [] { OnlyNone(q[..|q| - 1], id); }
  }

  /** Taking out the first entry of a buffer takes the first of that buffer and leaves the others alone. */
  lemma OnlyWithout(q: seq<SaveInfo>, id: nat, other: nat)
    requires Has(q, id)
    ensures Only(q, other) == (if other == id then [q[Place(q, id)]] else []) + Only(Without(q, id), other)
  {
    var i := Place(q, id);
    WithoutAt(q, id);
    assert q == q[..i] + [q[i]] + q[i + 1..];
    OnlyOfSum(q[..i] + [q[i]], q[i + 1..], other);
    OnlyOfNext(q[..i], q[i], other);
    OnlyOfSum(q[..i], q[i + 1..], other);
    if other == id { OnlyNone(q[..i], id); }
  }

  /** Entries stand in posting order. */
  ghost predicate Ascending(q: seq<SaveInfo>, next: nat) {
    && (forall i, j :: 0 <= i < j < |q| ==> q[i].serial < q[j].serial)
    && forall i :: 0 <= i < |q| ==> q[i].serial < next
  }

  ghost predicate Numbered(log: seq<SaveInfo>) {
    forall n :: 0 <= n < |log| ==> log[n].serial == n
  }

  ghost function Ids(q: seq<SaveInfo>): seq<nat> {
    seq(|q|, i requires 0 <= i < |q| => q[i].wrId)
  }

  lemma IdsWithout(q: seq<SaveInfo>, id: nat)
    requires Has(q, id)
    ensures multiset(Ids(q)) == multiset(Ids(Without(q, id))) + multiset{id}
  {
    var i, ids := Place(q, id), Ids(q);
    SplitAt(ids, i);
    WithoutAt(q, id);
    assert Ids(Without(q, id)) == ids[..i] + ids[i + 1..];
  }

  lemma SplitAt(s: seq<nat>, i: nat)
    requires i < |s|
    ensures multiset(s) == multiset(s[..i] + s[i + 1..]) + multiset{s[i]}
  {
    assert s == s[..i] + [s[i]] + s[i + 1..];
  }

  lemma OutstandingIsThere(q: seq<SaveInfo>, id: nat)
    requires id in multiset(Ids(q))
    ensures Has(q, id)
  {
    assert id in Ids(q);
    var i :| 0 <= i < |q| && Ids(q)[i] == id;
    assert q[i].wrId == id;
  }

  /** What the callbacks of the entries post, in order. */
  ghost function Posted(posts: SaveInfo -> seq<nat>, done: seq<SaveInfo>): seq<nat>
    decreases |done|
  {
    if done == [] then [] else Posted(posts, done[..|done| - 1]) + posts(done[|done| - 1])
  }

  /** What has been completed of a buffer, and then what is queued of it, is what was posted, in order. */
  ghost predicate FirstComeFirstServed(handled: seq<SaveInfo>, queue: seq<SaveInfo>, log: seq<SaveInfo>) {
    forall id: nat :: Only(handled, id) + Only(queue, id) == Only(log, id)
  }

  lemma PostKeepsOrder(handled: seq<SaveInfo>, queue: seq<SaveInfo>, log: seq<SaveInfo>, e: SaveInfo)
    requires FirstComeFirstServed(handled, queue, log)
    ensures FirstComeFirstServed(handled, queue + [e], log + [e])
  {
    forall id: nat ensures Only(handled, id) + Only(queue + [e], id) == Only(log + [e], id) {
      OnlyOfNext(queue, e, id);
      OnlyOfNext(log, e, id);
      assert Only(handled, id) + Only(queue, id) == Only(log, id);
    }
  }

  lemma CompletionKeepsOrder(handled: seq<SaveInfo>, queue: seq<SaveInfo>, log: seq<SaveInfo>, id: nat)
    requires FirstComeFirstServed(handled, queue, log) && Has(queue, id)
    ensures FirstComeFirstServed(handled + [queue[Place(queue, id)]], Without(queue, id), log)
  {
    forall other: nat
      ensures Only(handled + [queue[Place(queue, id)]], other) + Only(Without(queue, id), other) == Only(log, other)
    {
      assert Only(handled, other) + Only(queue, other) == Only(log, other);
      OnlyMoves(handled, queue, id, other);
    }
  }

  lemma OnlyMoves(handled: seq<SaveInfo>, queue: seq<SaveInfo>, id: nat, other: nat)
    requires Has(queue, id)
    ensures Only(handled + [queue[Place(queue, id)]], other) + Only(Without(queue, id), other)
            == Only(handled, other) + Only(queue, other)
  {
    OnlyOfNext(handled, queue[Place(queue, id)], other);
    OnlyWithout(queue, id, other);
  }

  lemma {:induction false} CountOnly(q: seq<SaveInfo>, e: SaveInfo)
    ensures multiset(q)[e] == multiset(Only(q, e.wrId))[e]
    decreases |q|
  {
    if q != [] {
      var init, last := q[..|q| - 1], q[|q| - 1];
      assert q == init + [last];
      CountOnly(init, e);
    }
  }

  /** Every post has been completed once or is still queued, and none is in both. */
  lemma EachPostOnce(handled: seq<SaveInfo>, queue: seq<SaveInfo>, log: seq<SaveInfo>)
    requires FirstComeFirstServed(handled, queue, log)
    ensures multiset(handled) + multiset(queue) == multiset(log)
  {
    forall e ensures multiset(handled)[e] + multiset(queue)[e] == multiset(log)[e] {
      CountOnly(handled, e);
      CountOnly(queue, e);
      CountOnly(log, e);
      assert Only(handled, e.wrId) + Only(queue, e.wrId) == Only(log, e.wrId);
    }
  }

  lemma {:induction false} OnlyAscends(log: seq<SaveInfo>, id: nat)
    requires Numbered(log)
    ensures Ascending(Only(log, id), |log|)
    decreases |log|
  {
    if log != [] { OnlyAscends(log[..|log| - 1], id); }
  }

  lemma {:induction false} InOnly(q: seq<SaveInfo>, i: nat)
    requires i < |q|
    ensures q[i] in Only(q, q[i].wrId)
    decreases |q|
  {
    if i < |q| - 1 { InOnly(q[..|q| - 1], i); }
  }

  /** The completions of one buffer come in the order of its posts. */
  lemma CompletedInPostingOrder(handled: seq<SaveInfo>, queue: seq<SaveInfo>, log: seq<SaveInfo>, i: nat, j: nat)
    requires FirstComeFirstServed(handled, queue, log) && Numbered(log)
    requires i < j < |handled| && handled[i].wrId == handled[j].wrId
    ensures handled[i].serial < handled[j].serial
  {
    var id, before, after := handled[i].wrId, handled[..j], handled[j + 1..];
    assert handled == before + [handled[j]] + after;
    OnlyOfSum(before + [handled[j]], after, id);
    OnlyOfNext(before, handled[j], id);
    InOnly(before, i);
    assert Only(handled, id) + Only(queue, id) == Only(log, id);
    OnlyAscends(log, id);
    var first := Only(before, id);
    var a :| 0 <= a < |first| && first[a] == handled[i];
    assert Only(log, id)[a] == handled[i] && Only(log, id)[|first|] == handled[j];
  }

  lemma {:induction false} PlaceIs(q: seq<SaveInfo>, id: nat, at: nat)
    requires at <= |q| && (at < |q| ==> q[at].wrId == id) && forall j :: 0 <= j < at ==> q[j].wrId != id
    ensures Place(q, id) == at
    decreases at
  {
    if at > 0 { PlaceIs(q[1..], id, at - 1); }
  }

  lemma AscendingWithout(q: seq<SaveInfo>, id: nat, next: nat)
    requires Ascending(q, next) && Has(q, id)
    ensures Ascending(Without(q, id), next)
  {
    var i, r := Place(q, id), Without(q, id);
    WithoutAt(q, id);
    assert forall j :: 0 <= j < |r| ==> r[j] == if j < i then q[j] else q[j + 1];
  }

  /** A completion takes away what it is owed; the rest of its batch is still owed. */
  lemma StillOwed(batch: seq<nat>, k: nat, q: seq<SaveInfo>)
    requires k < |batch| && multiset(batch[k..]) <= multiset(Ids(q))
    ensures Has(q, batch[k]) && multiset(batch[k + 1..]) <= multiset(Ids(Without(q, batch[k])))
  {
    assert batch[k..] == [batch[k]] + batch[k + 1..];
    assert multiset(batch[k..]) == multiset(batch[k + 1..]) + multiset{batch[k]};
    OutstandingIsThere(q, batch[k]);
    IdsWithout(q, batch[k]);
    CancelOne(multiset(batch[k + 1..]), multiset(Ids(Without(q, batch[k]))), batch[k]);
  }

  lemma CancelOne(a: multiset<nat>, b: multiset<nat>, x: nat)
    requires a + multiset{x} <= b + multiset{x}
    ensures a <= b
  {
    forall y ensures a[y] <= b[y] {
      assert (a + multiset{x})[y] <= (b + multiset{x})[y];
    }
  }

  lemma MorePosted(q: seq<SaveInfo>, r: seq<SaveInfo>)
    requires q <= r
    ensures multiset(Ids(q)) <= multiset(Ids(r))
  {
    assert Ids(r) == Ids(q) + Ids(r)[|q|..];
  }

  lemma PostedNext(posts: SaveInfo -> seq<nat>, done: seq<SaveInfo>, e: SaveInfo)
    ensures Posted(posts, done + [e]) == Posted(posts, done) + posts(e)
    ensures Ids(done + [e]) == Ids(done) + [e.wrId]
  {
    assert (done + [e])[..|done|] == done;
  }

  lemma LogGrows(a: seq<SaveInfo>, b: seq<SaveInfo>, c: seq<SaveInfo>)
    requires a <= b <= c
    ensures Ids(c[|a|..]) == Ids(b[|a|..]) + Ids(c[|b|..])
  {
  }

  class Completions {
    var queue: seq<SaveInfo>
    var posted: nat
    ghost var handled: seq<SaveInfo>
    ghost var log: seq<SaveInfo>

    ghost predicate Valid()
      reads this
    {
      && posted == |log| && Numbered(log) && Ascending(queue, posted)
      && FirstComeFirstServed(handled, queue, log)
    }

    constructor ()
      ensures Valid() && queue == [] && handled == [] && log == []
    {
      queue, posted, handled, log := [], 0, [], [];
    }

    /** The end of a successful post. */
    method Post(wrId: nat)
      requires Valid()
      modifies this
      ensures Valid() && handled == old(handled)
      ensures queue == old(queue) + [SaveInfo(wrId, |old(log)|)] && log == old(log) + [SaveInfo(wrId, |old(log)|)]
    {
      var e := SaveInfo(wrId, posted);
      PostKeepsOrder(handled, queue, log, e);
      queue := queue + [e];
      log := log + [e];
      posted := posted + 1;
    }

    method PostAll(wrIds: seq<nat>)
      requires Valid()
      modifies this
      ensures Valid() && handled == old(handled)
      ensures old(log) <= log && Ids(log[|old(log)|..]) == wrIds
      ensures old(queue) <= queue
    {
      for i := 0 to |wrIds|
        invariant Valid() && handled == old(handled)
        invariant old(log) <= log && Ids(log[|old(log)|..]) == wrIds[..i]
        invariant old(queue) <= queue
      {
        Post(wrIds[i]);
      }
    }

    /**
      One completion: the first entry with its id leaves the queue, and the others stay as they
      are.  A completion that no entry asked for is dropped.
    */
    method Match(wrId: nat) returns (done: Option<SaveInfo>)
      requires Valid() && queue != []
      modifies this
      ensures Valid() && log == old(log)
      ensures if Has(old(queue), wrId) then
                && done == Some(old(queue)[Place(old(queue), wrId)]) && queue == Without(old(queue), wrId)
                && handled == old(handled) + [done.value]
              else
                done == None && queue == old(queue) && handled == old(handled)
    {
      var comp := queue[0];
      ghost var q := queue;
      if comp.wrId != wrId {
        var at := 0;
        while at < |queue| && queue[at].wrId != wrId
          invariant at <= |queue| && queue == q && forall j :: 0 <= j < at ==> q[j].wrId != wrId
        {
          at := at + 1;
        }
        PlaceIs(q, wrId, at);
        if at < |queue| {
          comp := queue[at];
          queue := queue[..at] + queue[at + 1..];
        }
        if comp.wrId == queue[0].wrId { return None; }
      } else {
        queue := queue[1..];
      }
      WithoutAt(q, wrId);
      assert comp == q[Place(q, wrId)] && queue == Without(q, wrId);
      AscendingWithout(q, wrId, posted);
      CompletionKeepsOrder(handled, q, log, wrId);
      assert FirstComeFirstServed(handled + [comp], queue, log);
      handled := handled + [comp];
      return Some(comp);
    }

    /** A completion that is owed, and its callback. */
    method Serve(wrId: nat, posts: SaveInfo -> seq<nat>) returns (done: SaveInfo)
      requires Valid() && Has(queue, wrId)
      modifies this
      ensures Valid() && done.wrId == wrId && handled == old(handled) + [done]
      ensures multiset(Ids(Without(old(queue), wrId))) <= multiset(Ids(queue))
      ensures old(log) <= log && Ids(log[|old(log)|..]) == posts(done)
    {
      var d := Match(wrId);
      done := d.value;
      ghost var q := queue;
      PostAll(posts(done));
      MorePosted(q, queue);
    }

    /**
      A batch of completions, each of them owed by an entry of the queue; `posts` is what the
      callback of an entry posts.  Every completion is matched, in the order of the batch, and the
      front of an empty queue is never read.
    */
    method HandleBatch(batch: seq<nat>, posts: SaveInfo -> seq<nat>) returns (ok: bool, matched: seq<SaveInfo>)
      requires Valid() && multiset(batch) <= multiset(Ids(queue))
      modifies this
      ensures Valid() && ok == (old(queue) != [])
      ensures handled == old(handled) + matched && Ids(matched) == batch
      ensures old(log) <= log && Ids(log[|old(log)|..]) == Posted(posts, matched)
    {
      matched := [];
      if queue == [] {
        assert Ids(queue) == [] && |multiset(batch)| == |batch|;
        return false, [];
      }
      ok := true;
      for k := 0 to |batch|
        invariant Valid() && multiset(batch[k..]) <= multiset(Ids(queue))
        invariant handled == old(handled) + matched && Ids(matched) == batch[..k]
        invariant old(log) <= log
        invariant Ids(log[|old(log)|..]) == Posted(posts, matched)
      {
        ghost var log0 := log;
        StillOwed(batch, k, queue);
        var done := Serve(batch[k], posts);
        PostedNext(posts, matched, done);
        LogGrows(old(log), log0, log);
        matched := matched + [done];
        assert batch[..k + 1] == batch[..k] + [batch[k]];
      }
    }
  }
}
