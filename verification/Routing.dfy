/**
  Which client a message goes to (src/ndsl/net/Multiplexer.cc): for each connection, a map from
  entity ids to clients.  Clients and connections are named by numbers.
*/
module Routing {
  import opened Basics

  datatype Op =
    | Register(conn: int, id: int, client: int)
    | Unregister(conn: int, id: int)

  type Routes = map<int, map<int, int>>

  /** The registration in force for an entity: the first one since it was last removed. */
  function InForce(ops: seq<Op>, conn: int, id: int): (client: Option<int>)
    decreases |ops|
  {
    if ops == [] then None
    else
      var before, op := InForce(ops[..|ops| - 1], conn, id), ops[|ops| - 1];
      if op.conn != conn || op.id != id then before
      else if op.Unregister? then None
      else if before.Some? then before
      else Some(op.client)
  }

  predicate Known(ops: seq<Op>, conn: int) {
    exists i :: 0 <= i < |ops| && ops[i].Register? && ops[i].conn == conn
  }

  ghost predicate Reflects(routes: Routes, ops: seq<Op>) {
    && (forall conn: int :: conn in routes <==> Known(ops, conn))
    && forall conn: int, id: int ::
         InForce(ops, conn, id) == Lookup(routes, conn, id)
  }

  function Lookup(routes: Routes, conn: int, id: int): Option<int> {
    if conn in routes && id in routes[conn] then Some(routes[conn][id]) else None
  }

  lemma InForceNext(ops: seq<Op>, op: Op, conn: int, id: int)
    ensures InForce(ops + [op], conn, id) ==
            var before := InForce(ops, conn, id);
            if op.conn != conn || op.id != id then before
            else if op.Unregister? then None
            else if before.Some? then before
            else Some(op.client)
  {
    assert (ops + [op])[..|ops|] == ops;
  }

  lemma KnownNext(ops: seq<Op>, op: Op, conn: int)
    ensures Known(ops + [op], conn) <==> Known(ops, conn) || (op.Register? && op.conn == conn)
  {
    var more := ops + [op];
    assert more[|ops|] == op;
    assert forall i :: 0 <= i < |ops| ==> more[i] == ops[i];
  }

  /** Operation i concerns this entity. */
  predicate Concerns(op: Op, conn: int, id: int) {
    op.conn == conn && op.id == id
  }

  /** Operation i registered this client for an entity that had none, and the entity has not been removed since. */
  ghost predicate TookForce(ops: seq<Op>, i: nat, conn: int, id: int, client: int) {
    && i < |ops| && ops[i] == Register(conn, id, client)
    && (forall j :: i < j < |ops| && Concerns(ops[j], conn, id) ==> ops[j].Register?)
    && NoneBefore(ops, i, conn, id)
  }

  /** Of the first i operations, the last that concerns this entity, if any, removed it. */
  ghost predicate NoneBefore(ops: seq<Op>, i: nat, conn: int, id: int)
    requires i <= |ops|
  {
    forall k :: 0 <= k < i && Concerns(ops[k], conn, id) && ops[k].Register? ==>
      exists j :: k < j < i && Concerns(ops[j], conn, id) && ops[j].Unregister?
  }

  lemma {:induction false} NoneIff(ops: seq<Op>, conn: int, id: int)
    ensures InForce(ops, conn, id) == None <==> NoneBefore(ops, |ops|, conn, id)
    decreases |ops|
  {
    if ops != [] {
      var n := |ops| - 1;
      var before, op := ops[..n], ops[n];
      NoneIff(before, conn, id);
      assert NoneBefore(before, n, conn, id) <==> NoneBefore(ops, n, conn, id);
      if Concerns(op, conn, id) && op.Unregister? {
        assert NoneBefore(ops, |ops|, conn, id);
      }
    }
  }

  /**
    In force is the client of the first registration after the last removal, and no other: said of
    the places in the history.
  */
  lemma {:induction false} InForceIff(ops: seq<Op>, conn: int, id: int, client: int)
    ensures InForce(ops, conn, id) == Some(client) <==> exists i: nat :: TookForce(ops, i, conn, id, client)
    decreases |ops|
  {
    if ops != [] {
      var n := |ops| - 1;
      var before, op := ops[..n], ops[n];
      InForceIff(before, conn, id, client);
      NoneIff(before, conn, id);
      assert NoneBefore(before, n, conn, id) <==> NoneBefore(ops, n, conn, id);
      forall i: nat | i < n
        ensures TookForce(ops, i, conn, id, client) <==>
                TookForce(before, i, conn, id, client) && (Concerns(op, conn, id) ==> op.Register?)
      {
        assert NoneBefore(before, i, conn, id) <==> NoneBefore(ops, i, conn, id);
      }
      assert TookForce(ops, n, conn, id, client) <==>
             op == Register(conn, id, client) && InForce(before, conn, id) == None;
      forall i: nat | TookForce(ops, i, conn, id, client) ensures i < n || i == n {}
    }
  }

  class Router {
    var routes: Routes
    /** The connections whose reception has been started, in order. */
    var started: seq<int>
    ghost var ops: seq<Op>

    /** The maps reflect the operations so far, and each known connection was started exactly once. */
    ghost predicate Valid()
      reads this
    {
      && Reflects(routes, ops)
      && (forall conn: int :: conn in started <==> conn in routes)
      && forall i, j :: 0 <= i < j < |started| ==> started[i] != started[j]
    }

    constructor ()
      ensures Valid() && ops == []
    {
      routes, started, ops := map[], [], [];
    }

    /** An entity that is registered already keeps its client. */
    method Insert(conn: int, id: int, client: int)
      requires Valid()
      modifies this
      ensures Valid() && ops == old(ops) + [Register(conn, id, client)]
      ensures started == if Known(old(ops), conn) then old(started) else old(started) + [conn]
    {
      ghost var op := Register(conn, id, client);
      if conn !in routes {
        routes := routes[conn := map[id := client]];
        started := started + [conn];
      } else if id !in routes[conn] {
        routes := routes[conn := routes[conn][id := client]];
      }
      ReflectsNext(old(routes), ops, op, routes);
      ops := ops + [op];
    }

    method Remove(conn: int, id: int)
      requires Valid()
      modifies this
      ensures Valid() && ops == old(ops) + [Unregister(conn, id)] && started == old(started)
    {
      ghost var op := Unregister(conn, id);
      if conn in routes {
        routes := routes[conn := routes[conn] - {id}];
      }
      ReflectsNext(old(routes), ops, op, routes);
      ops := ops + [op];
    }

    /** The client that a message for an entity is handed to. */
    method Solve(conn: int, id: int) returns (client: Option<int>)
      requires Valid()
      ensures client == InForce(ops, conn, id)
    {
      assert InForce(ops, conn, id) == Lookup(routes, conn, id);
      if conn !in routes { return None; }
      if id !in routes[conn] { return None; }
      return Some(routes[conn][id]);
    }
  }

  /** One operation on the maps. */
  function Applied(routes: Routes, op: Op): Routes {
    match op
    case Register(conn, id, client) =>
      if conn !in routes then routes[conn := map[id := client]]
      else if id !in routes[conn] then routes[conn := routes[conn][id := client]]
      else routes
    case Unregister(conn, id) =>
      if conn in routes then routes[conn := routes[conn] - {id}] else routes
  }

  lemma ReflectsNext(routes: Routes, ops: seq<Op>, op: Op, after: Routes)
    requires Reflects(routes, ops) && after == Applied(routes, op)
    ensures Reflects(after, ops + [op])
  {
    forall conn: int ensures conn in after <==> Known(ops + [op], conn) {
      KnownNext(ops, op, conn);
    }
    forall conn: int, id: int ensures InForce(ops + [op], conn, id) == Lookup(after, conn, id) {
      InForceNext(ops, op, conn, id);
      assert InForce(ops, conn, id) == Lookup(routes, conn, id);
    }
  }
}
